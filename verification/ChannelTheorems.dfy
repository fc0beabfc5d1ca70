/**
 What holds in every state of every run of two connected channel endpoints, and exactly when an
 exhausted window is replenished.
 */
module ChannelTheorems {
  import opened Bytes
  import opened ChannelSpec
  import opened ChannelLinks
  import opened ChannelMemory
  import opened ChannelSystem
  import opened ChannelSafety

  /** `s` sends to `r` over `f` and hears from it over `b`, in some state of some run. */
  ghost predicate Linked(states: seq<Sys>, i: nat, s: End, r: End, f: seq<Msg>, b: seq<Msg>) {
    && IsRun(states) && i < |states|
    && (|| (s == states[i].x && r == states[i].y && f == states[i].xy && b == states[i].yx)
        || (s == states[i].y && r == states[i].x && f == states[i].yx && b == states[i].xy))
  }

  function EndOf(s: Sys, first: bool): End { if first then s.x else s.y }

  lemma LinkedGood(states: seq<Sys>, i: nat, s: End, r: End, f: seq<Msg>, b: seq<Msg>)
    requires Linked(states, i, s, r, f, b)
    ensures Good(s, r, f, b)
  {
    RunInv(states, i);
    hide LocalInv, Dir, Snd, Rcv;
  }

  lemma LinkedStored(states: seq<Sys>, i: nat, s: End, r: End, f: seq<Msg>, b: seq<Msg>)
    requires Linked(states, i, s, r, f, b)
    ensures Stored(s) && Stored(r)
  {
    hide IsRun, Good, Stored;
    RunInv(states, i);
  }

  /**
   Section 5.2 of RFC 4254: the sender's view of the window, plus data on its way, plus credit on
   its way back, is the receiver's window, short only of stderr bytes dropped unaccounted. No
   counter wraps around, and the largest window stays within its first value or 96 MiB.
   */
  lemma WindowConserved(states: seq<Sys>, i: nat, s: End, r: End, f: seq<Msg>, b: seq<Msg>)
    requires Linked(states, i, s, r, f, b)
    ensures s.c.win.remote + |DataBytes(f)| + |ErrBytes(f)| + Credits(b) + r.leaked == r.c.win.local
    ensures r.leaked > 0 ==> !r.c.fds.efd || r.c.fds.usage != ExtWrite
    ensures s.c.win.remote <= r.c.win.local <= r.c.win.localMax < U32_RANGE
    ensures r.c.win.localMax <= r.initialMax || r.c.win.localMax <= 96 * 1024 * 1024
  {
    LinkedGood(states, i, s, r, f, b);
  }

  /** Within one end: every granted byte is still open, consumed, waiting to be written, or lost. */
  lemma LocalCreditConserved(states: seq<Sys>, i: nat, s: End, r: End, f: seq<Msg>, b: seq<Msg>)
    requires Linked(states, i, s, r, f, b)
    ensures r.c.win.local + r.c.win.consumed + |r.c.output| + |r.c.ErrIncoming()| + r.lost == r.c.win.localMax
  {
    LinkedGood(states, i, s, r, f, b);
  }

  /** No packet exceeds the receiver's window or packet limit, and none ends the connection. */
  lemma ConformingPeers(states: seq<Sys>, i: nat, s: End, r: End, f: seq<Msg>, b: seq<Msg>)
    requires Linked(states, i, s, r, f, b) && f != []
    ensures f[0].Data? || f[0].ExtData? ==> |f[0].data| <= r.c.win.local && |f[0].data| <= r.c.win.localMaxpacket
    ensures Receive(r.c, f[0]).Some?
  {
    LinkedGood(states, i, s, r, f, b);
    assert Good(r, s, b, f) by { hide LocalInv, Dir, Snd, Rcv; }
    HeadFacts(Snd(s), Rcv(r), f, b);
    DeliverGood(r, s, b, f);
    hide Dir, Receive;
  }

  /** What was written out is always a prefix of what was read in, on both streams. */
  lemma StreamsIntact(states: seq<Sys>, i: nat, s: End, r: End, f: seq<Msg>, b: seq<Msg>)
    requires Linked(states, i, s, r, f, b)
    ensures r.written <= s.read && r.errWritten <= s.errRead
    ensures r.c.ostate == OutOpen ==> r.written + r.c.output + DataBytes(f) + s.c.input == s.read
    ensures r.leaked == 0 ==> r.errWritten + r.c.ErrIncoming() + ErrBytes(f) + s.c.ErrOutgoing() == s.errRead
  {
    LinkedGood(states, i, s, r, f, b);
    hide LocalInv, LinkOrder, LinkLimit, CrossCredit;
    assert r.written <= r.written + r.c.output <= s.read;
    assert r.errWritten <= r.errWritten + r.c.ErrIncoming() <= s.errRead;
  }

  /** Unless a local write failed, a receiver that got EOF and has drained has written everything. */
  lemma EofMeansComplete(states: seq<Sys>, i: nat, s: End, r: End, f: seq<Msg>, b: seq<Msg>)
    requires Linked(states, i, s, r, f, b)
    requires r.c.flags.eofRcvd && !r.failed && r.c.output == []
    ensures r.written == s.read
    ensures s.c.istate == InClosed && DataBytes(f) == []
  {
    LinkedGood(states, i, s, r, f, b);
    NoDataLeft(f);
    assert r.written + r.c.output == r.written;
  }

  /**
   EOF waits for stderr too: unless the sender was told to drain at once or its peer closed first, a
   receiver that got EOF has all of stderr, less what it does not keep.
   */
  lemma EofMeansStderrComplete(states: seq<Sys>, i: nat, s: End, r: End, f: seq<Msg>, b: seq<Msg>)
    requires Linked(states, i, s, r, f, b)
    requires r.c.flags.eofRcvd && r.leaked == 0 && !s.c.options.forceDrain && !s.c.flags.closeRcvd
    ensures r.errWritten + r.c.ErrIncoming() == s.errRead
    ensures s.c.ErrOutgoing() == [] && ErrBytes(f) == []
  {
    LinkedGood(states, i, s, r, f, b);
    hide LocalCredit, Bounded, Lifecycle, OutputSettled, CrossCredit, StreamIntact, LinkLimit;
    NoErrLeft(f);
    var e := r.errWritten + r.c.ErrIncoming();
    assert e + [] + [] == e;
  }

  lemma {:induction false} NoErrLeft(f: seq<Msg>)
    requires forall i :: 0 <= i < |f| ==> !Payload(f[i])
    ensures ErrBytes(f) == []
  {
    if f != [] {
      NoErrLeft(f[1..]);
    }
  }

  /** Nothing reaches an end that has been freed, nor one that has seen its peer's CLOSE. */
  lemma NothingAfterClose(states: seq<Sys>, i: nat, s: End, r: End, f: seq<Msg>, b: seq<Msg>)
    requires Linked(states, i, s, r, f, b)
    ensures r.c.flags.closeRcvd || Freed(r.c) ==> f == []
    ensures forall k :: 0 <= k < |f| && f[k].Close? ==> k == |f| - 1
    ensures s.c.flags.closeSent ==> f == [] || f[|f| - 1].Close? || r.c.flags.closeRcvd
  {
    LinkedGood(states, i, s, r, f, b);
    hide LocalInv, LinkLimit, CrossCredit, StreamIntact, ErrStreamIntact, EofComplete;
  }

  // ---- Replenishing the window ----

  /** No descriptor takes any more of what waits to be written out. */
  predicate Drained(c: Chan) {
    (c.output == [] || !c.fds.wfd) && (c.ErrIncoming() == [] || !c.fds.efd)
  }

  /** The received bytes that have not been written out. */
  function Waiting(c: Chan): nat { |c.output| + |c.ErrIncoming()| }

  /** Nothing that could refill the sender is under way, and the receiver has written out all it can. */
  ghost predicate Exhausted(s: End, r: End, f: seq<Msg>, b: seq<Msg>) {
    && s.c.win.remote == 0 && DataBytes(f) == [] && ErrBytes(f) == [] && Credits(b) == 0
    && r.c.ctype == Open && !r.c.flags.AnyClose() && Drained(r.c)
  }

  /** Exactly when `channel_check_window` refills an exhausted sender. */
  lemma RefillExactly(states: seq<Sys>, i: nat, s: End, r: End, f: seq<Msg>, b: seq<Msg>)
    requires Linked(states, i, s, r, f, b) && Exhausted(s, r, f, b)
    ensures WindowIsLow(r.c) <==>
      && r.leaked + r.lost + Waiting(r.c) < r.c.win.localMax
      && (r.leaked < r.c.win.localMax / 2 || r.c.win.localMax - r.leaked > r.c.win.localMaxpacket * 3 % U32_RANGE)
  {
    hide Linked, Sub32, Waiting;
    ExhaustedConsumed(states, i, s, r, f, b);
    Sub32Small(r.c.win.localMax, r.c.win.local);
  }

  lemma Sub32Small(a: nat, b: nat)
    requires b <= a < U32_RANGE
    ensures Sub32(a, b) == a - b
  {
  }

  /** All the credit of an exhausted sender has been consumed or lost, or was never charged. */
  lemma ExhaustedConsumed(states: seq<Sys>, i: nat, s: End, r: End, f: seq<Msg>, b: seq<Msg>)
    requires Linked(states, i, s, r, f, b) && Exhausted(s, r, f, b)
    ensures r.c.win.consumed == r.c.win.localMax - r.leaked - r.lost - Waiting(r.c) && r.c.win.local == r.leaked
    ensures r.c.ctype == Open && !r.c.flags.AnyClose() && r.c.win.localMax < U32_RANGE
  {
    hide Linked, Growth, WindowIsLow;
    WindowConserved(states, i, s, r, f, b);
    LocalCreditConserved(states, i, s, r, f, b);
  }

  /** With nothing dropped, lost or waiting the whole window is granted anew, and its growth besides. */
  lemma RefillAmount(states: seq<Sys>, i: nat, s: End, r: End, f: seq<Msg>, b: seq<Msg>)
    requires Linked(states, i, s, r, f, b) && Exhausted(s, r, f, b)
    requires r.leaked == 0 && r.lost == 0 && Waiting(r.c) == 0 && r.c.win.localMax >= 2
    ensures var e := CheckWindow(r.c);
      e.sent == [Adjust(r.c.win.localMax + Growth(r.c.options.dynamicWindow, r.c.tcpwinsz, r.c.win.localMax))]
      && e.sent[0].credit > 0
  {
    hide Linked, Growth, WindowIsLow;
    RefillExactly(states, i, s, r, f, b);
    ExhaustedConsumed(states, i, s, r, f, b);
    TcpWindowFits(states, i, s, r, f, b);
    GrowthBounded(r.c.options.dynamicWindow, r.c.tcpwinsz, r.c.win.localMax);
  }

  /** Stderr that arrives is written out, or none can arrive. */
  predicate ErrServed(s: Chan, r: Chan) {
    s.fds.usage != ExtRead || (r.fds.efd && r.fds.usage == ExtWrite)
  }

  /**
   The same in terms of what the code can see: an exhausted sender is refilled by a receiver that has
   written out everything and not closed its output, unless its window is a single byte, where the
   sender sends no stderr or the receiver writes it out.
   */
  lemma OpenReceiverRefills(states: seq<Sys>, i: nat, s: End, r: End, f: seq<Msg>, b: seq<Msg>)
    requires Linked(states, i, s, r, f, b) && Exhausted(s, r, f, b)
    requires r.c.ostate != OutClosed && Waiting(r.c) == 0 && ErrServed(s.c, r.c)
    ensures WindowIsLow(r.c) <==>
      r.c.win.localMax >= 2 || (r.c.win.localMax == 1 && r.c.win.localMaxpacket * 3 % U32_RANGE == 0)
  {
    hide Linked, Good, Growth, Sub32, WindowIsLow;
    RefillExactly(states, i, s, r, f, b);
    NothingLost(states, i, s, r, f, b);
  }

  lemma NothingLost(states: seq<Sys>, i: nat, s: End, r: End, f: seq<Msg>, b: seq<Msg>)
    requires Linked(states, i, s, r, f, b)
    ensures r.lost > 0 ==> r.c.ostate == OutClosed
    ensures r.leaked > 0 ==> !ErrServed(s.c, r.c)
  {
    LinkedGood(states, i, s, r, f, b);
    hide Orderly, EofComplete, CrossCredit, StreamIntact, Lifecycle, LocalCredit, Bounded, ErrBytes;
  }

  /** What stands behind every stall with a window of two bytes or more. */
  lemma StallCauses(states: seq<Sys>, i: nat, s: End, r: End, f: seq<Msg>, b: seq<Msg>)
    requires Linked(states, i, s, r, f, b) && Exhausted(s, r, f, b)
    requires !WindowIsLow(r.c) && r.c.win.localMax >= 2
    ensures r.c.ostate == OutClosed || Waiting(r.c) > 0 || !ErrServed(s.c, r.c)
  {
    hide Linked, Exhausted, WindowIsLow, ErrServed;
    if r.c.ostate != OutClosed && Waiting(r.c) == 0 && ErrServed(s.c, r.c) {
      OpenReceiverRefills(states, i, s, r, f, b);
    }
  }

  /** What was lost was once held by a buffer. */
  lemma LostIsHeld(states: seq<Sys>, i: nat, s: End, r: End, f: seq<Msg>, b: seq<Msg>)
    requires Linked(states, i, s, r, f, b)
    ensures r.lost < BUFFER_MAX_LEN_HPN && |r.c.output| < BUFFER_MAX_LEN_HPN && |r.c.extended| < BUFFER_MAX_LEN_HPN
  {
    hide Linked;
    LinkedStored(states, i, s, r, f, b);
  }

  // ---- Stderr that can no longer be written out ----

  /** Received stderr is left, and the descriptor for it is closed. */
  predicate Jammed(c: Chan) { c.ctype == Open && c.fds.usage == ExtWrite && !c.fds.efd && c.extended != [] }

  /** Waiting stderr is stuck exactly when its descriptor is closed. */
  lemma JammedExactly(c: Chan)
    requires c.ctype == Open && c.fds.usage == ExtWrite && c.extended != []
    ensures (forall w :: WriteFits(w, |c.extended|) ==> HandleEfdWrite(c, w).extended == c.extended) <==> Jammed(c)
  {
    if c.fds.efd {
      assert WriteFits(Wrote(1), |c.extended|) && HandleEfdWrite(c, Wrote(1)).extended == c.extended[1..];
    }
  }

  /** The part of a channel that matters to waiting stderr is the same in `d`. */
  predicate SameErr(c: Chan, d: Chan) {
    d.ctype == c.ctype && d.fds.usage == c.fds.usage && d.fds.efd == c.fds.efd && d.extended == c.extended
  }

  lemma LocalKeepsJam(c: Chan, ev: Event)
    requires Jammed(c)
    ensures ev.DoPreOpen? ==> SameErr(c, PreOpen(c, ev.tcpwin))
    ensures ev.DoRead? ==> SameErr(c, HandleRfd(c, ev.r))
    ensures ev.DoWrite? && WriteFits(ev.w, |c.output|) ==> SameErr(c, HandleWfd(c, ev.w).c)
    ensures ev.DoErrRead? ==> SameErr(c, HandleEfdRead(c, ev.r))
    ensures ev.DoErrWrite? && WriteFits(ev.w, |c.extended|) ==> SameErr(c, HandleEfdWrite(c, ev.w))
    ensures SameErr(c, CheckWindow(c).c) && SameErr(c, ChanCollect(c).c)
  {
    hide Add32, Sub32;
  }

  lemma PollKeepsJam(c: Chan)
    requires Jammed(c)
    ensures SameErr(c, OutputPoll(c).c)
  {
    hide Sub32, SendLength;
  }

  lemma ReceiveKeepsJam(c: Chan, m: Msg)
    requires Jammed(c) && Receive(c, m).Some?
    ensures SameErr(c, Receive(c, m).value.c)
  {
    hide Add32, Sub32;
  }

  lemma ActKeepsJam(x: End, arrived: seq<Msg>, ev: Event)
    requires Jammed(x.c) && Enabled(x, arrived, ev) && Act(x, arrived, ev).Some?
    ensures SameErr(x.c, Act(x, arrived, ev).value.0.c)
  {
    hide Receive, OutputPoll, PreOpen, HandleRfd, HandleWfd, HandleEfdRead, HandleEfdWrite, CheckWindow, ChanCollect,
         SameErr;
    LocalKeepsJam(x.c, ev);
    PollKeepsJam(x.c);
    if ev.Deliver? {
      ReceiveKeepsJam(x.c, arrived[0]);
    }
  }

  lemma SameErrHere(c: Chan)
    ensures SameErr(c, c)
  {
  }

  lemma JamStep(states: seq<Sys>, k: nat, first: bool)
    requires IsRun(states) && k + 1 < |states| && Jammed(EndOf(states[k], first).c)
    ensures SameErr(EndOf(states[k], first).c, EndOf(states[k + 1], first).c)
  {
    hide Act, Enabled, Overflows, MemoryAfter, Init, Jammed, SameErr;
    SameErrHere(EndOf(states[k], first).c);
    var s, t := states[k], states[k + 1];
    assert Next(states[k + 1 - 1], states[k + 1]);
    var ev :| || (Enabled(s.x, s.yx, ev) && t == StepX(s, ev))
              || (Enabled(s.y, s.xy, ev) && t == Swap(StepX(Swap(s), ev)));
    if Enabled(s.x, s.yx, ev) && t == StepX(s, ev) {
      if first && Act(s.x, s.yx, ev).Some? {
        ActKeepsJam(s.x, s.yx, ev);
      }
    } else if !first && Act(s.y, s.xy, ev).Some? {
      ActKeepsJam(s.y, s.xy, ev);
    }
  }

  /** Stuck stderr stays as it is for the rest of the run. */
  lemma {:induction false} JamStays(states: seq<Sys>, i: nat, k: nat, first: bool)
    requires IsRun(states) && i <= k < |states| && Jammed(EndOf(states[i], first).c)
    ensures SameErr(EndOf(states[i], first).c, EndOf(states[k], first).c)
    decreases k
  {
    hide IsRun;
    if i < k {
      JamStays(states, i, k - 1, first);
      JamStep(states, k - 1, first);
    }
  }

  /** So much of the window is never granted again. */
  lemma JamKeepsCredit(states: seq<Sys>, i: nat, k: nat, first: bool)
    requires IsRun(states) && i <= k < |states| && Jammed(EndOf(states[i], first).c)
    ensures var c, d := EndOf(states[i], first).c, EndOf(states[k], first).c;
      Jammed(d) && d.extended == c.extended && d.win.local + d.win.consumed + |c.extended| <= d.win.localMax
  {
    hide IsRun;
    JamStays(states, i, k, first);
    var t := states[k];
    if first {
      LocalCreditConserved(states, k, t.y, t.x, t.yx, t.xy);
    } else {
      LocalCreditConserved(states, k, t.x, t.y, t.xy, t.yx);
    }
  }

  lemma TcpWindowFits(states: seq<Sys>, i: nat, s: End, r: End, f: seq<Msg>, b: seq<Msg>)
    requires Linked(states, i, s, r, f, b)
    ensures r.c.tcpwinsz <= BUFFER_MAX_LEN_HPN
  {
    LinkedGood(states, i, s, r, f, b);
    hide Dir, Lifecycle;
  }

  // ---- Dynamic growth ----

  lemma ReceiveKeepsMax(c: Chan, m: Msg)
    requires c.ctype != Larval && Receive(c, m).Some?
    ensures var d := Receive(c, m).value.c; d.ctype != Larval && d.win.localMax == c.win.localMax
  {
    hide Add32, Sub32;
  }

  lemma PollKeepsMax(c: Chan)
    ensures var d := OutputPoll(c).c; d.ctype == c.ctype && d.win.localMax == c.win.localMax
  {
    hide Sub32, SendLength;
  }

  lemma LocalKeepsMax(c: Chan, ev: Event)
    ensures ev.DoPreOpen? ==> var d := PreOpen(c, ev.tcpwin); d.ctype == c.ctype && d.win.localMax == c.win.localMax
    ensures ev.DoRead? ==> var d := HandleRfd(c, ev.r); d.ctype == c.ctype && d.win.localMax == c.win.localMax
    ensures ev.DoWrite? && WriteFits(ev.w, |c.output|) ==>
      var d := HandleWfd(c, ev.w).c; d.ctype == c.ctype && d.win.localMax == c.win.localMax
    ensures ev.DoErrRead? ==> var d := HandleEfdRead(c, ev.r); d.ctype == c.ctype && d.win.localMax == c.win.localMax
    ensures ev.DoErrWrite? && WriteFits(ev.w, |c.extended|) ==>
      var d := HandleEfdWrite(c, ev.w); d.ctype == c.ctype && d.win.localMax == c.win.localMax
    ensures CheckWindow(c).c.ctype == c.ctype
  {
    hide Add32, Sub32;
  }

  /** Only a window check changes the largest window of an end that is not larval. */
  lemma ActKeepsMax(x: End, arrived: seq<Msg>, ev: Event)
    requires Enabled(x, arrived, ev) && x.c.ctype != Larval && Act(x, arrived, ev).Some?
    ensures var y := Act(x, arrived, ev).value.0;
      && y.c.ctype != Larval
      && y.c.win.localMax == if ev.DoCheckWindow? then CheckWindow(x.c).c.win.localMax else x.c.win.localMax
  {
    hide Receive, OutputPoll, PreOpen, HandleRfd, HandleWfd, HandleEfdRead, HandleEfdWrite, CheckWindow;
    LocalKeepsMax(x.c, ev);
    PollKeepsMax(x.c);
    if ev.Deliver? {
      ReceiveKeepsMax(x.c, arrived[0]);
    }
  }

  /** A window check leaves the largest window as it is, or lifts it to the socket buffer or above. */
  lemma CheckGrows(c: Chan)
    requires c.tcpwinsz <= BUFFER_MAX_LEN_HPN && c.win.localMax < U32_RANGE
    ensures var max := CheckWindow(c).c.win.localMax;
      max == c.win.localMax || (c.win.localMax < c.tcpwinsz <= max <= GROWTH_LIMIT)
  {
    GrowthBounded(c.options.dynamicWindow, c.tcpwinsz, c.win.localMax);
    hide WindowIsLow, Sub32;
  }

  lemma MaxStep(states: seq<Sys>, k: nat, first: bool)
    requires IsRun(states) && k + 1 < |states| && EndOf(states[k], first).c.ctype != Larval
    ensures var c, d := EndOf(states[k], first).c, EndOf(states[k + 1], first).c;
      d.ctype != Larval && (d.win.localMax == c.win.localMax || c.win.localMax < c.tcpwinsz <= d.win.localMax)
  {
    hide Inv, Good, LocalInv, Dir, Act, Enabled, CheckWindow, Init, Overflows, MemoryAfter;
    RunInv(states, k);
    var s, t := states[k], states[k + 1];
    TcpWindowOf(s);
    assert Next(states[k + 1 - 1], states[k + 1]);
    var ev :| || (Enabled(s.x, s.yx, ev) && t == StepX(s, ev))
              || (Enabled(s.y, s.xy, ev) && t == Swap(StepX(Swap(s), ev)));
    CheckGrows(EndOf(s, first).c);
    if Enabled(s.x, s.yx, ev) && t == StepX(s, ev) {
      if first && Act(s.x, s.yx, ev).Some? {
        ActKeepsMax(s.x, s.yx, ev);
      }
    } else if !first && Act(s.y, s.xy, ev).Some? {
      ActKeepsMax(s.y, s.xy, ev);
    }
  }

  lemma TcpWindowOf(s: Sys)
    requires Inv(s)
    ensures forall first :: var c := EndOf(s, first).c; c.tcpwinsz <= BUFFER_MAX_LEN_HPN && c.win.localMax < U32_RANGE
  {
    hide Dir, Lifecycle, LocalCredit;
  }

  /**
   A window check that grows the window lifts it above the socket buffer, by half of what it was short of it,
   rounded down; without the option, or from the socket buffer on, it leaves it as it is.
   */
  lemma GrowthExactly(states: seq<Sys>, i: nat, s: End, r: End, f: seq<Msg>, b: seq<Msg>)
    requires Linked(states, i, s, r, f, b) && WindowIsLow(r.c)
    ensures var max, d := r.c.win.localMax, CheckWindow(r.c).c.win.localMax;
      if r.c.options.dynamicWindow && r.c.tcpwinsz > max
      then 2 * (d - r.c.tcpwinsz) <= r.c.tcpwinsz - max <= 2 * (d - r.c.tcpwinsz) + 1
      else d == max
  {
    hide Linked, WindowIsLow, CheckWindow;
    TcpWindowFits(states, i, s, r, f, b);
    WindowConserved(states, i, s, r, f, b);
    CheckedMax(r.c);
  }

  lemma CheckedMax(c: Chan)
    requires WindowIsLow(c) && c.tcpwinsz <= BUFFER_MAX_LEN_HPN && c.win.localMax < U32_RANGE
    ensures var max, d := c.win.localMax, CheckWindow(c).c.win.localMax;
      if c.options.dynamicWindow && c.tcpwinsz > max
      then 2 * (d - c.tcpwinsz) <= c.tcpwinsz - max <= 2 * (d - c.tcpwinsz) + 1
      else d == max
  {
    hide WindowIsLow, Sub32;
  }

  /** The socket buffer of an open end does not change between two states. */
  ghost predicate FixedSocket(states: seq<Sys>, i: nat, k: nat, first: bool, tcpwinsz: nat) {
    && IsRun(states) && i <= k < |states| && EndOf(states[i], first).c.ctype != Larval
    && forall j :: i <= j <= k ==> EndOf(states[j], first).c.tcpwinsz == tcpwinsz
  }

  lemma {:induction false} MaxLifted(states: seq<Sys>, i: nat, k: nat, first: bool, tcpwinsz: nat)
    requires FixedSocket(states, i, k, first, tcpwinsz)
    ensures EndOf(states[k], first).c.ctype != Larval
    ensures EndOf(states[k], first).c.win.localMax == EndOf(states[i], first).c.win.localMax
         || EndOf(states[k], first).c.win.localMax >= tcpwinsz
    ensures EndOf(states[i], first).c.win.localMax >= tcpwinsz ==>
      EndOf(states[k], first).c.win.localMax == EndOf(states[i], first).c.win.localMax
    decreases k
  {
    hide IsRun;
    if i < k {
      MaxLifted(states, i, k - 1, first, tcpwinsz);
      MaxStep(states, k - 1, first);
    }
  }

  /** With a fixed socket buffer the window grows at most once: when it has changed, it stays. */
  lemma GrowsOnce(states: seq<Sys>, i: nat, j: nat, k: nat, first: bool, tcpwinsz: nat)
    requires FixedSocket(states, i, k, first, tcpwinsz) && i <= j <= k
    requires EndOf(states[j], first).c.win.localMax != EndOf(states[i], first).c.win.localMax
    ensures EndOf(states[k], first).c.win.localMax == EndOf(states[j], first).c.win.localMax
  {
    hide IsRun;
    MaxLifted(states, i, j, first, tcpwinsz);
    MaxLifted(states, j, k, first, tcpwinsz);
  }

  // ---- The receive buffer under the window ----

  /**
   Whether a buffer can always take what a window of `w` bytes and packets of up to `p` bytes allow:
   behind a full chunk of unused space, which is never compacted, the window ends below the smallest
   block that cannot grow by the largest packet that another byte can be in front of.
   */
  predicate BufferSuffices(w: nat, p: nat)
    requires 1 <= p <= FifoBuffer.MAX_CHUNK
  {
    w < 2 || w + FifoBuffer.MAX_CHUNK < FifoBuffer.Ceiling(Min(p, w - 1))
  }

  lemma CeilingFalls(m: nat, n: nat)
    requires 1 <= m <= n <= FifoBuffer.MAX_CHUNK
    ensures FifoBuffer.Ceiling(n) <= FifoBuffer.Ceiling(m)
  {
  }

  lemma RoomWithinWindow(w: nat, p: nat, length: nat, n: nat)
    requires 1 <= p <= FifoBuffer.MAX_CHUNK && BufferSuffices(w, p) && n <= p && length + n <= w
    ensures FifoBuffer.RoomFor(length, n)
  {
    hide FifoBuffer.Ceiling;
    if length > 0 && n > 0 {
      CeilingFalls(n, Min(p, w - 1));
    }
  }

  /** Then no delivery overflows a buffer, in any run. */
  lemma DeliveryNeverFatal(states: seq<Sys>, i: nat, s: End, r: End, f: seq<Msg>, b: seq<Msg>)
    requires Linked(states, i, s, r, f, b) && f != []
    requires 1 <= r.c.win.localMaxpacket <= FifoBuffer.MAX_CHUNK
    requires BufferSuffices(r.c.win.localMax, r.c.win.localMaxpacket)
    ensures !ReceiveOverflows(r.mem, r.c, f[0])
  {
    hide Good, IsRun, Linked, Receive, FifoBuffer.Shape.AppendIsFatal, BufferSuffices, FifoBuffer.RoomFor;
    ConformingPeers(states, i, s, r, f, b);
    LocalCreditConserved(states, i, s, r, f, b);
    LinkedStored(states, i, s, r, f, b);
    var w, p := r.c.win.localMax, r.c.win.localMaxpacket;
    match f[0] {
      case Data(d) =>
        RoomWithinWindow(w, p, |r.c.output|, |d|);
        FifoBuffer.AppendFits(r.mem.output, |d|);
      case ExtData(code, d) =>
        if KeepsExtData(r.c, code, d) {
          RoomWithinWindow(w, p, |r.c.extended|, |d|);
          FifoBuffer.AppendFits(r.mem.extended, |d|);
        }
      case _ =>
    }
  }

  /** Nor does a read of the local side that the window asks for. */
  lemma LocalReadsFit(x: End, arrived: seq<Msg>, r: ReadResult)
    requires Enabled(x, arrived, DoRead(false, r))
    ensures !Overflows(x, arrived, DoRead(false, r))
  {
    hide FifoBuffer.Shape.AppendIsFatal, FifoBuffer.Shape.CheckSucceeds;
    CheckedReadFits(x.mem, x.c, r);
  }
}
