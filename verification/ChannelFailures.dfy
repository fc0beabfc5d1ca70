/**
 Where conforming peers fail: how an exhausted sender stalls, and exactly which windows let data of a
 conforming sender end the receiver's process.
 */
module ChannelFailures {
  import opened Bytes
  import opened FifoBuffer
  import opened ChannelSpec
  import opened ChannelMemory
  import opened ChannelSystem
  import opened ChannelTheorems
  import opened ChannelRuns

  // ---- Stalls ----

  /** Some run ends in a stall: `y` has no window left, and the open receiver `x` will not refill it. */
  ghost predicate Stalls(s: Sys) {
    Reachable(s) && Running(s) && Exhausted(s.y, s.x, s.yx, s.xy) && !WindowIsLow(s.x.c)
  }

  /** For every window that a buffer can hold: a failed write throws it away when full, and the sender stalls. */
  lemma FailedWriteStalls(w: nat, p: nat) returns (s: Sys)
    requires 1 <= w < BUFFER_MAX_LEN_HPN && 1 <= p < U32_RANGE
    ensures Stalls(s) && s.x.lost == w == s.x.c.win.localMax && s.x.c.win.localMaxpacket == p
    ensures s.x.leaked == 0 && Waiting(s.x.c) == 0 && s.x.c.ostate == OutClosed
  {
    hide Reachable;
    var t := WindowFills(w, p, w);
    ReachesX(t, DoWrite(WriteFailed));
    s := StepX(t, DoWrite(WriteFailed));
    assert t.xy + [] == t.xy;
  }

  /** For every window: stderr that the receiver does not write out uses it up, and the sender stalls. */
  lemma DroppedStderrStalls(w: nat, p: nat) returns (s: Sys)
    requires 1 <= w < U32_RANGE && 1 <= p < U32_RANGE
    ensures Stalls(s) && s.x.leaked == w == s.x.c.win.localMax && s.x.c.win.localMaxpacket == p
    ensures s.x.lost == 0 && Waiting(s.x.c) == 0 && s.x.c.ostate == OutOpen
  {
    hide Reachable;
    ReachesConnected(w, p, false, PLAIN, ERR_READ);
    s := Drop(Connected(w, p, false, PLAIN, ERR_READ), w);
  }

  /**
   For every window that a buffer can hold: the receiver keeps it full of stderr when its descriptor for
   that fails; nothing was dropped or lost, its output is open and empty, and the sender stalls.
   */
  lemma JammedStderrStalls(w: nat, p: nat) returns (s: Sys)
    requires 1 <= w < BUFFER_MAX_LEN_HPN && 1 <= p < U32_RANGE
    ensures Stalls(s) && Jammed(s.x.c) && |s.x.c.extended| == w == s.x.c.win.localMax && s.x.c.win.localMaxpacket == p
    ensures s.x.leaked == 0 && s.x.lost == 0 && s.x.c.output == [] && s.x.c.ostate == OutOpen
  {
    hide Reachable, Bytewise;
    ReachesConnected(w, p, false, ERR_WRITE, ERR_READ);
    var t := Keep(Connected(w, p, false, ERR_WRITE, ERR_READ), w);
    ReachesX(t, DoErrWrite(WriteFailed));
    s := StepX(t, DoErrWrite(WriteFailed));
    assert t.xy + [] == t.xy;
  }

  /** A stall of this window and packet limit, with nothing dropped. */
  ghost predicate StallsWith(s: Sys, w: nat, p: nat) {
    Stalls(s) && s.x.leaked == 0 && s.x.c.win.localMax == w && s.x.c.win.localMaxpacket == p
  }

  /** Without dropped stderr, as much as the window must have been lost or be waiting. */
  lemma StalledBytes(s: Sys, w: nat, p: nat)
    requires StallsWith(s, w, p) && w >= 2
    ensures s.x.lost + Waiting(s.x.c) >= w
    ensures s.x.lost < BUFFER_MAX_LEN_HPN && |s.x.c.output| < BUFFER_MAX_LEN_HPN
    ensures |s.x.c.extended| < BUFFER_MAX_LEN_HPN
  {
    hide IsRun, WindowIsLow, Exhausted, Waiting;
    var states :| IsRun(states) && states != [] && states[|states| - 1] == s;
    RefillExactly(states, |states| - 1, s.y, s.x, s.yx, s.xy);
    LostIsHeld(states, |states| - 1, s.y, s.x, s.yx, s.xy);
  }

  /** Exactly the windows of two bytes or more that a failed write alone can stall. */
  lemma LostStallsExactly(w: nat, p: nat)
    requires 2 <= w < U32_RANGE && 1 <= p < U32_RANGE
    ensures (exists s :: StallsWith(s, w, p) && Waiting(s.x.c) == 0) <==> w < BUFFER_MAX_LEN_HPN
  {
    hide StallsWith, Stalls, Waiting;
    if w < BUFFER_MAX_LEN_HPN {
      var s := FailedWriteStalls(w, p);
      StallsHere(s, w, p);
    }
    if s :| StallsWith(s, w, p) && Waiting(s.x.c) == 0 {
      StalledBytes(s, w, p);
    }
  }

  /** Exactly the windows of two bytes or more that stuck stderr alone can stall. */
  lemma JammedStallsExactly(w: nat, p: nat)
    requires 2 <= w < U32_RANGE && 1 <= p < U32_RANGE
    ensures (exists s :: StallsWith(s, w, p) && s.x.lost == 0 && s.x.c.output == []) <==> w < BUFFER_MAX_LEN_HPN
  {
    hide StallsWith, Stalls;
    if w < BUFFER_MAX_LEN_HPN {
      var s := JammedStderrStalls(w, p);
      StallsHere(s, w, p);
    }
    if s :| StallsWith(s, w, p) && s.x.lost == 0 && s.x.c.output == [] {
      StalledBytes(s, w, p);
    }
  }

  lemma StallsHere(s: Sys, w: nat, p: nat)
    requires Stalls(s) && s.x.leaked == 0 && s.x.c.win.localMax == w && s.x.c.win.localMaxpacket == p
    ensures StallsWith(s, w, p)
  {
  }

  // ---- Data that does not fit ----

  /** The packets on their way to one of the ends. */
  function Arriving(t: Sys, first: bool): seq<Msg> { if first then t.yx else t.xy }

  /** In no run does a delivery end the process of an end with this window and packet limit. */
  ghost predicate WindowSafe(w: nat, p: nat) {
    forall t: Sys, first: bool ::
      Reachable(t) && Arriving(t, first) != []
      && EndOf(t, first).c.win.localMax == w && EndOf(t, first).c.win.localMaxpacket == p
      ==> !ReceiveOverflows(EndOf(t, first).mem, EndOf(t, first).c, Arriving(t, first)[0])
  }

  lemma WindowSafeBelow(w: nat, p: nat)
    requires 1 <= p <= MAX_CHUNK && BufferSuffices(w, p)
    ensures WindowSafe(w, p)
  {
    hide IsRun, ReceiveOverflows, BufferSuffices;
    forall t: Sys, first: bool
      | Reachable(t) && Arriving(t, first) != []
        && EndOf(t, first).c.win.localMax == w && EndOf(t, first).c.win.localMaxpacket == p
      ensures !ReceiveOverflows(EndOf(t, first).mem, EndOf(t, first).c, Arriving(t, first)[0])
    {
      var states :| IsRun(states) && states != [] && states[|states| - 1] == t;
      if first {
        DeliveryNeverFatal(states, |states| - 1, t.y, t.x, t.yx, t.xy);
      } else {
        DeliveryNeverFatal(states, |states| - 1, t.x, t.y, t.xy, t.yx);
      }
    }
  }

  /** A block that can neither be compacted nor grow. */
  lemma FullBlock(shape: Block, n: nat)
    requires 1 <= n <= MAX_CHUNK && shape.Len() > 0 && shape.offset <= MAX_CHUNK
    requires shape.end + n >= shape.alloc >= Ceiling(n)
    ensures shape.AppendIsFatal(n)
  {
    hide RoundUp, Ceiling;
    GrowsBelowCeiling(shape.alloc, n);
  }

  lemma UnsafeHere(s: Sys, w: nat, p: nat, shape: Block, n: nat)
    requires Pumping(s, w, p, shape) && shape.Len() + n <= w && 1 <= n <= p && n <= MAX_CHUNK
    requires shape.AppendIsFatal(n)
    ensures !WindowSafe(w, p)
  {
    hide Reachable, Shape.AppendIsFatal;
    var t := PumpOverflow(s, w, p, shape, n);
    assert Arriving(t, true) == [Data(Zeros(n))] && EndOf(t, true) == s.x;
  }

  /** From an empty buffer: a full window, a chunk of it written and granted again, and `more` bytes on top. */
  lemma FillAgain(s: Sys, w: nat, p: nat, shape: Block, more: nat) returns (t: Sys)
    requires Pumping(s, w, p, shape) && shape.Len() == 0 && p >= 1 && Plain(s.x.c)
    requires MAX_CHUNK < w && more <= MAX_CHUNK && w + more < BUFFER_MAX_LEN_HPN
    ensures var alloc := Fit(shape.alloc, w + more);
      && BlockSize(alloc) && alloc <= BUFFER_MAX_LEN_HPN
      && Pumping(t, w, p, Shape(alloc, MAX_CHUNK, w + more)) && Plain(t.x.c)
  {
    hide Pumping, Fit;
    FitIsBlock(shape.alloc, w + more);
    FitIsBlock(shape.alloc, w);
    FitTwice(shape.alloc, w, w + more);
    t := PumpBytes(s, w, p, shape, w);
    var b := Bytewise(shape, w);
    t := WriteBack(t, w, p, b, MAX_CHUNK);
    t := PumpBytes(t, w, p, Taken(b, MAX_CHUNK), more);
  }

  /** A receiver whose window does not grow. */
  predicate Plain(c: Chan) { c.fds.wfd && !c.options.dynamicWindow && c.tcpwinsz == 0 }

  /** A window of 64 MiB or more: the block is filled up to its last byte. */
  lemma LargeWindowOverflows(w: nat, p: nat)
    requires BUFFER_MAX_LEN_HPN <= w < U32_RANGE && 1 <= p < U32_RANGE
    ensures !WindowSafe(w, p)
  {
    hide WindowSafe, Pumping;
    var n := BUFFER_MAX_LEN_HPN - 1;
    var s := WindowFills(w, p, n);
    FullBlock(Bytewise(NEW_BLOCK, n), 1);
    UnsafeHere(s, w, p, Bytewise(NEW_BLOCK, n), 1);
  }

  /** With a chunk of unused space in front, the window reaches the end of the largest block. */
  lemma LastByteOverflows(w: nat, p: nat)
    requires w < BUFFER_MAX_LEN_HPN <= w + MAX_CHUNK && 1 <= p < U32_RANGE
    ensures !WindowSafe(w, p)
  {
    hide WindowSafe, Pumping;
    var s := BeginPumping(w, p, false);
    s := FillAgain(s, w, p, NEW_BLOCK, BUFFER_MAX_LEN_HPN - 1 - w);
    var b: Block := Shape(BUFFER_MAX_LEN_HPN, MAX_CHUNK, BUFFER_MAX_LEN_HPN - 1);
    FullBlock(b, 1);
    UnsafeHere(s, w, p, b, 1);
  }

  /** How far to fill first, so that the block becomes as large as it has to be, but no larger. */
  function FirstEnd(w: nat, q: nat): nat
    requires 1 <= q <= MAX_CHUNK
  {
    if w + ALLOC_SIZE < Ceiling(q) then Ceiling(q) - ALLOC_SIZE else w
  }

  lemma BlockStaysTight(w: nat, q: nat)
    requires 1 <= q <= DATA_MAX && q < w && w + MAX_CHUNK < BUFFER_MAX_LEN_HPN && Ceiling(q) <= w + MAX_CHUNK
    ensures w <= FirstEnd(w, q) <= w + MAX_CHUNK
    ensures Ceiling(q) <= Fit(Fit(INITIAL_SIZE, FirstEnd(w, q)), w + MAX_CHUNK - q) <= w + MAX_CHUNK
  {
    assert q > ALLOC_SIZE;
  }

  /**
   The block is grown to its final size first, emptied, and filled again behind a chunk of unused space; a
   packet of `q` bytes then fits neither before nor behind it.
   */
  lemma PacketOverflows(w: nat, p: nat, q: nat)
    requires 1 <= q <= DATA_MAX && q <= p < U32_RANGE && q < w && w + MAX_CHUNK < BUFFER_MAX_LEN_HPN
    requires Ceiling(q) <= w + MAX_CHUNK
    ensures !WindowSafe(w, p)
  {
    hide WindowSafe, Pumping, Fit, Ceiling;
    CeilingIsHigh(q);
    BlockStaysTight(w, q);
    var e := FirstEnd(w, q);
    var s := BeginPumping(w, p, false);
    s := FillAgain(s, w, p, NEW_BLOCK, e - w);
    var b: Block := Shape(Fit(INITIAL_SIZE, e), MAX_CHUNK, e);
    s := WriteBack(s, w, p, b, b.Len());
    s := FillAgain(s, w, p, Taken(b, b.Len()), MAX_CHUNK - q);
    var d: Block := Shape(Fit(b.alloc, w + MAX_CHUNK - q), MAX_CHUNK, w + MAX_CHUNK - q);
    FullBlock(d, q);
    UnsafeHere(s, w, p, d, q);
  }

  lemma CeilingIsHigh(n: nat)
    requires 1 <= n <= MAX_CHUNK
    ensures Ceiling(n) >= BUFFER_MAX_LEN_HPN - MAX_CHUNK
  {
  }

  lemma WindowOverflows(w: nat, p: nat)
    requires 1 <= p <= DATA_MAX && w < U32_RANGE && !BufferSuffices(w, p)
    ensures !WindowSafe(w, p)
  {
    hide WindowSafe, Ceiling;
    if w >= BUFFER_MAX_LEN_HPN {
      LargeWindowOverflows(w, p);
    } else if w + MAX_CHUNK >= BUFFER_MAX_LEN_HPN {
      LastByteOverflows(w, p);
    } else {
      PacketOverflows(w, p, Min(p, w - 1));
    }
  }

  /** Exactly the windows and packet limits under which data of a conforming sender is always taken. */
  lemma WindowSafeExactly(w: nat, p: nat)
    requires 1 <= p <= DATA_MAX && w < U32_RANGE
    ensures WindowSafe(w, p) <==> BufferSuffices(w, p)
  {
    hide WindowSafe, BufferSuffices;
    if BufferSuffices(w, p) {
      WindowSafeBelow(w, p);
    } else {
      WindowOverflows(w, p);
    }
  }

  /** With packets of 32 KiB the windows below 63 MiB are safe, among them the 128 KiB of forwarding and sessions. */
  lemma DefaultsAreSafe(w: nat)
    requires w < U32_RANGE
    ensures WindowSafe(w, 32768) <==> w < 66060288
    ensures WindowSafe(131072, 32768)
  {
    hide WindowSafe;
    WindowSafeExactly(w, 32768);
    WindowSafeExactly(131072, 32768);
  }

  // ---- Growth ----

  lemma GrowthReaches(m: nat)
    requires 2 <= m < BUFFER_MAX_LEN_HPN
    ensures BUFFER_MAX_LEN_HPN <= m + Growth(true, BUFFER_MAX_LEN_HPN, m) <= GROWTH_LIMIT
  {
  }

  /**
   From any first window of at least two bytes and less than 64 MiB, growth leads to a window of 64 MiB
   or more; a conforming sender then fills the largest block, and its next byte ends the process.
   */
  lemma GrowthOutrunsBuffer(m: nat, p: nat) returns (s: Sys)
    requires 2 <= m < BUFFER_MAX_LEN_HPN && 1 <= p < U32_RANGE
    ensures Reachable(s) && Running(s) && Enabled(s.x, s.yx, Deliver) && Overflows(s.x, s.yx, Deliver)
    ensures s.x.initialMax == m && s.x.c.win.localMax == m + Growth(true, BUFFER_MAX_LEN_HPN, m)
    ensures |s.x.c.output| == BUFFER_MAX_LEN_HPN - 1 && s.yx == [Data(Zeros(1))]
  {
    hide Reachable, Growth, Fit, Ceiling;
    GrowthReaches(m);
    var n, max := BUFFER_MAX_LEN_HPN - 1, m + Growth(true, BUFFER_MAX_LEN_HPN, m);
    s := BeginPumping(m, p, true);
    s := PumpBytes(s, m, p, NEW_BLOCK, m);
    var b := Bytewise(NEW_BLOCK, m);
    s := LearnSocket(s, m, p, b, BUFFER_MAX_LEN_HPN);
    s := WriteBack(s, m, p, b, m);
    s := PumpBytes(s, max, p, Taken(b, m), n);
    LargestBlock(b.alloc);
    FullBlock(Bytewise(Taken(b, m), n), 1);
    s := PumpOverflow(s, max, p, Bytewise(Taken(b, m), n), 1);
  }

  lemma LargestBlock(alloc: nat)
    requires alloc <= BUFFER_MAX_LEN_HPN
    ensures Fit(alloc, BUFFER_MAX_LEN_HPN - 1) == BUFFER_MAX_LEN_HPN == Ceiling(1)
  {
  }
}
