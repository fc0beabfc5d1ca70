/**
 Which states some run leads to: packets one by one, what they do to the receiver's block, and what is
 written out and granted again in between.
 */
module ChannelRuns {
  import opened Bytes
  import opened FifoBuffer
  import opened ChannelSpec
  import opened ChannelMemory
  import opened ChannelSystem

  /** Some run leads to `s`. */
  ghost predicate Reachable(s: Sys) {
    exists states: seq<Sys> :: IsRun(states) && states != [] && states[|states| - 1] == s
  }

  lemma ReachesStart(s: Sys)
    requires Init(s)
    ensures Reachable(s)
  {
    hide Init, Next;
    assert IsRun([s]);
  }

  lemma Reaches(s: Sys, t: Sys)
    requires Reachable(s) && Next(s, t)
    ensures Reachable(t)
  {
    hide Init, Next;
    var states :| IsRun(states) && states != [] && states[|states| - 1] == s;
    var more := states + [t];
    forall i | 0 < i < |more| ensures Next(more[i - 1], more[i]) {
      assert i < |states| ==> more[i - 1] == states[i - 1] && more[i] == states[i];
    }
    assert more[|more| - 1] == t;
  }

  predicate Running(s: Sys) { !s.broken && !s.ended }

  lemma ReachesX(s: Sys, ev: Event)
    requires Reachable(s) && Running(s) && Enabled(s.x, s.yx, ev)
    ensures Reachable(StepX(s, ev))
  {
    hide IsRun, Enabled, StepX;
    Reaches(s, StepX(s, ev));
  }

  lemma ReachesY(s: Sys, ev: Event)
    requires Reachable(s) && Running(s) && Enabled(s.y, s.xy, ev)
    ensures Reachable(Swap(StepX(Swap(s), ev)))
  {
    hide IsRun, Enabled, StepX;
    Reaches(s, Swap(StepX(Swap(s), ev)));
  }

  // ---- The beginning ----

  /** A channel end as it is created, with a window of its own and its view of the peer's. */
  function NewEnd(ctype: ChanType, fds: Fds, remote: nat, maxpacket: nat, window: nat, dynamicWindow: bool): End {
    End(Chan(ctype, InOpen, OutOpen, Flags(false, false, false, false), fds, [], [], [],
             Windows(remote, if ctype == Opening then 0 else maxpacket, window, window, 0, maxpacket), 0,
             Options(false, false, false, dynamicWindow)),
        NEW_MEMORY, [], [], [], [], window, false, 0, 0)
  }

  const PLAIN: Fds := Fds(true, true, false, false, ExtIgnore)

  /** Stderr is read locally and sent. */
  const ERR_READ: Fds := Fds(true, true, true, false, ExtRead)

  /** Stderr that arrives is written out. */
  const ERR_WRITE: Fds := Fds(true, true, true, false, ExtWrite)

  /** `x` opened the channel with window `w` and packets of up to `p` bytes; `y` has just confirmed it. */
  function Opened(w: nat, p: nat, dynamicWindow: bool, fx: Fds, fy: Fds): Sys {
    Sys(NewEnd(Opening, fx, 0, p, w, dynamicWindow), NewEnd(Open, fy, w, p, w, false), [], [Confirm(w, p)],
        false, false)
  }

  /** The confirmation has arrived, and `y` knows its socket buffer. */
  function Connected(w: nat, p: nat, dynamicWindow: bool, fx: Fds, fy: Fds): Sys {
    var x, y := NewEnd(Open, fx, w, p, w, dynamicWindow), NewEnd(Open, fy, w, p, w, false);
    Sys(x, y.(c := y.c.(tcpwinsz := BUFFER_MAX_LEN_HPN)), [], [], false, false)
  }

  lemma NewBlockIsKept()
    ensures NEW_BLOCK.AfterCheck(CHAN_RBUF) == NEW_BLOCK
  {
  }

  lemma ReachesConnected(w: nat, p: nat, dynamicWindow: bool, fx: Fds, fy: Fds)
    requires w < U32_RANGE && p < U32_RANGE
    ensures Reachable(Connected(w, p, dynamicWindow, fx, fy))
  {
    hide Reachable, Shape.AfterCheck;
    NewBlockIsKept();
    var s := Opened(w, p, dynamicWindow, fx, fy);
    ReachesStart(s);
    ReachesX(s, Deliver);
    var t := StepX(s, Deliver);
    assert t.yx == [] && t.x == Connected(w, p, dynamicWindow, fx, fy).x;
    ReachesY(t, DoPreOpen(BUFFER_MAX_LEN_HPN));
    assert Swap(StepX(Swap(t), DoPreOpen(BUFFER_MAX_LEN_HPN))) == Connected(w, p, dynamicWindow, fx, fy);
  }

  // ---- A packet from `y` to `x` ----

  function Zeros(n: nat): (s: seq<Byte>)
    ensures |s| == n
  {
    seq(n, i => 0)
  }

  lemma MoreZeros(n: nat)
    ensures Zeros(n) + [0] == Zeros(n + 1) && Zeros(0) == []
  {
  }

  predicate Takes(c: Chan) {
    c.ctype == Open && c.ostate == OutOpen && !c.flags.AnyClose() && c.win.Fits()
  }

  predicate Gives(c: Chan) {
    && c.ctype == Open && c.istate == InOpen && !c.flags.AnyClose() && c.win.Fits() && c.win.remoteMaxpacket >= 1
    && c.fds.rfd && c.fds.usage == ExtIgnore && c.input == [] && c.tcpwinsz == BUFFER_MAX_LEN_HPN
  }

  predicate Idle(s: Sys) { Running(s) && s.xy == [] && s.yx == [] }

  /** Nothing is on its way, `y` may send and `x` accepts. */
  ghost predicate Flowing(s: Sys) {
    Reachable(s) && Idle(s) && Takes(s.x.c) && Gives(s.y.c) && s.y.mem.input.Len() == 0
  }

  /** A block with `k` bytes at its front. */
  predicate Low(b: Block, k: nat) { b.Len() == k && (k > 0 ==> b.offset == 0) }

  /** It passes the memory check, and takes another byte. */
  lemma LowTakesOne(b: Block, k: nat)
    requires Low(b, k) && k < MAX_CHUNK
    ensures b.CheckSucceeds(CHAN_RBUF) && !b.AppendIsFatal(1) && Low(Extended(b, 1), k + 1)
  {
    hide Shape.CheckSucceeds, Shape.AppendIsFatal;
    LowFits(b, k);
    CheckMeansAppend(b, CHAN_RBUF);
    AppendMonotone(b, 1, CHAN_RBUF);
  }

  lemma LowFits(b: Block, k: nat)
    requires Low(b, k) && k < MAX_CHUNK
    ensures var t := b.Settle(CHAN_RBUF); t.end + CHAN_RBUF < t.alloc || t.GrownSize(CHAN_RBUF) <= MAX_LEN
    ensures b.AfterAppend(1).offset == 0
  {
  }

  /** `t` is `s` with `k` bytes read by `y` and not yet sent. */
  ghost predicate Loaded(s: Sys, t: Sys, k: nat) {
    && Reachable(t) && Low(t.y.mem.input, k)
    && t == s.(y := s.y.(c := s.y.c.(input := Zeros(k)), read := t.y.read,
                         mem := s.y.mem.(input := t.y.mem.input)))
  }

  lemma LoadNothing(s: Sys)
    requires Flowing(s)
    ensures Loaded(s, s, 0)
  {
    MoreZeros(0);
  }

  lemma LoadOne(s: Sys, t: Sys, k: nat) returns (u: Sys)
    requires Flowing(s) && Loaded(s, t, k) && k < s.y.c.win.remote && k < MAX_CHUNK
    ensures Loaded(s, u, k + 1)
  {
    hide Reachable, Low, Shape.CheckSucceeds, Shape.AppendIsFatal, Shape.AfterAppend;
    var ev := DoRead(false, ReadBytes([0]));
    LowTakesOne(t.y.mem.input, k);
    MoreZeros(k);
    ReachesY(t, ev);
    u := Swap(StepX(Swap(t), ev));
    assert t.xy + [] == t.xy;
    assert u.y.c == t.y.c.(input := Zeros(k + 1));
  }

  lemma {:induction false} Load(s: Sys, n: nat) returns (t: Sys)
    requires Flowing(s) && n <= s.y.c.win.remote && n <= MAX_CHUNK
    ensures Loaded(s, t, n)
  {
    hide Flowing, Loaded;
    if n == 0 {
      LoadNothing(s);
      t := s;
    } else {
      t := Load(s, n - 1);
      t := LoadOne(s, t, n - 1);
    }
  }

  /** `t` is `s` with `n` bytes on their way to `x` in one packet. */
  ghost predicate InFlight(s: Sys, t: Sys, n: nat) {
    && n <= s.y.c.win.remote
    && Reachable(t) && t.y.mem.input.Len() == 0
    && t == s.(y := s.y.(c := s.y.c.(win := s.y.c.win.(remote := s.y.c.win.remote - n)), read := t.y.read,
                         mem := s.y.mem.(input := t.y.mem.input)),
               yx := [Data(Zeros(n))])
  }

  lemma PollSends(c: Chan, n: nat)
    requires Gives(c) && 1 <= n <= c.win.remote && n <= c.win.remoteMaxpacket
    ensures OutputPoll(c.(input := Zeros(n))) == Effect(c.(win := c.win.(remote := c.win.remote - n)), [Data(Zeros(n))])
  {
    var d := c.(input := Zeros(n));
    assert SendLength(d.win, n) == n && Zeros(n)[..n] == Zeros(n) && Zeros(n)[n..] == [];
    assert [Data(Zeros(n))] + [] == [Data(Zeros(n))];
  }

  lemma Send(s: Sys, n: nat) returns (t: Sys)
    requires Flowing(s) && 1 <= n <= s.y.c.win.remote && n <= s.y.c.win.remoteMaxpacket && n <= MAX_CHUNK
    ensures InFlight(s, t, n)
  {
    hide Reachable, OutputPoll;
    var u := Load(s, n);
    PollSends(s.y.c, n);
    ReachesY(u, DoOutputPoll);
    t := Swap(StepX(Swap(u), DoOutputPoll));
    assert [] + [Data(Zeros(n))] == [Data(Zeros(n))];
  }

  // ---- The receiver's block ----

  /**
   `y` may fill up the window `w` of `x`, with packets of up to `p` bytes; `shape` is the block that `x`
   holds received data in.
   */
  ghost predicate Pumping(s: Sys, w: nat, p: nat, shape: Block) {
    && Flowing(s) && s.x.mem.output == shape && shape.Len() == |s.x.c.output|
    && s.x.c.win.localMax == w && s.x.c.win.localMaxpacket == p == s.y.c.win.remoteMaxpacket
    && s.x.c.win.local == s.y.c.win.remote == w - |s.x.c.output| && s.x.c.win.consumed == 0
  }

  /** What pumping leaves as it is. */
  predicate SameSetup(e: End, d: End) {
    && d.c.options == e.c.options && d.c.fds == e.c.fds && d.c.tcpwinsz == e.c.tcpwinsz
    && d.c.extended == e.c.extended && d.initialMax == e.initialMax
    && d.failed == e.failed && d.lost == e.lost && d.leaked == e.leaked
  }

  lemma BeginPumping(w: nat, p: nat, dynamicWindow: bool) returns (s: Sys)
    requires w < U32_RANGE && 1 <= p < U32_RANGE
    ensures Pumping(s, w, p, NEW_BLOCK) && SameSetup(NewEnd(Open, PLAIN, w, p, w, dynamicWindow), s.x)
  {
    hide Reachable;
    ReachesConnected(w, p, dynamicWindow, PLAIN, PLAIN);
    s := Connected(w, p, dynamicWindow, PLAIN, PLAIN);
  }

  /** One more packet of `n` bytes arrives and is kept. */
  lemma PumpPacket(s: Sys, w: nat, p: nat, shape: Block, n: nat) returns (t: Sys)
    requires Pumping(s, w, p, shape) && shape.Len() + n <= w && 1 <= n <= p && n <= MAX_CHUNK
    requires !shape.AppendIsFatal(n)
    ensures Pumping(t, w, p, Extended(shape, n)) && SameSetup(s.x, t.x)
  {
    hide Reachable, Shape.AppendIsFatal, Shape.AfterAppend;
    var u := Send(s, n);
    ReachesX(u, Deliver);
    t := StepX(u, Deliver);
    assert u.yx[1..] == [] && u.xy + [] == u.xy;
    assert InputData(s.x.c, Zeros(n))
           == s.x.c.(output := s.x.c.output + Zeros(n), win := s.x.c.win.(local := s.x.c.win.local - n));
  }

  /** A packet that the block cannot take is on its way: its delivery ends the process. */
  lemma PumpOverflow(s: Sys, w: nat, p: nat, shape: Block, n: nat) returns (t: Sys)
    requires Pumping(s, w, p, shape) && shape.Len() + n <= w && 1 <= n <= p && n <= MAX_CHUNK
    requires shape.AppendIsFatal(n)
    ensures Reachable(t) && Running(t) && t.x == s.x && t.yx == [Data(Zeros(n))]
    ensures Enabled(t.x, t.yx, Deliver) && Overflows(t.x, t.yx, Deliver)
  {
    hide Reachable, Shape.AppendIsFatal;
    t := Send(s, n);
  }

  /** The size of a block that was grown byte by byte, once its data ends at `end`. */
  function Fit(alloc: nat, end: nat): (r: nat)
    ensures end < r && (r == alloc || r <= end + ALLOC_SIZE)
  {
    if end < alloc then alloc else (end / ALLOC_SIZE + 1) * ALLOC_SIZE
  }

  /** Growing on the way makes no difference to the size reached. */
  lemma FitTwice(alloc: nat, m: nat, n: nat)
    requires m <= n
    ensures Fit(Fit(alloc, m), n) == Fit(alloc, n)
  {
    var a, q, r := Fit(alloc, m), m / ALLOC_SIZE, n / ALLOC_SIZE;
    if alloc <= m && n < a {
      assert q == r;
    }
  }

  lemma FitIsBlock(alloc: nat, end: nat)
    requires BlockSize(alloc) && alloc <= BUFFER_MAX_LEN_HPN && end < BUFFER_MAX_LEN_HPN
    ensures BlockSize(Fit(alloc, end)) && Fit(alloc, end) <= BUFFER_MAX_LEN_HPN
  {
  }

  /** The block after `k` more bytes, one at a time. */
  function Bytewise(shape: Block, k: nat): Block
    requires shape.Reset().end + k < BUFFER_MAX_LEN_HPN
  {
    var r := shape.Reset();
    if k == 0 then shape
    else
      FitIsBlock(r.alloc, r.end + k);
      Shape(Fit(r.alloc, r.end + k), r.offset, r.end + k)
  }

  lemma OneByte(shape: Block)
    requires shape.Reset().offset <= MAX_CHUNK && shape.Reset().end + 1 < BUFFER_MAX_LEN_HPN
    ensures !shape.AppendIsFatal(1) && Extended(shape, 1) == Bytewise(shape, 1)
    ensures Bytewise(shape, 1).Reset() == Bytewise(shape, 1)
  {
  }

  lemma BytewiseInSteps(shape: Block, k: nat)
    requires shape.Reset().end + 1 + k < BUFFER_MAX_LEN_HPN
    ensures Bytewise(shape, 1).Reset() == Bytewise(shape, 1)
    ensures Bytewise(Bytewise(shape, 1), k) == Bytewise(shape, 1 + k)
  {
    hide Fit;
    var r := shape.Reset();
    if k > 0 {
      FitTwice(r.alloc, r.end + 1, r.end + 1 + k);
    }
  }

  /** Byte by byte, any part of the window gets filled that a block can hold. */
  lemma {:induction false} PumpBytes(s: Sys, w: nat, p: nat, shape: Block, k: nat) returns (t: Sys)
    requires Pumping(s, w, p, shape) && shape.Len() + k <= w && p >= 1
    requires shape.Reset().offset <= MAX_CHUNK && shape.Reset().end + k < BUFFER_MAX_LEN_HPN
    ensures Pumping(t, w, p, Bytewise(shape, k)) && SameSetup(s.x, t.x)
    decreases k
  {
    hide Pumping, Shape.AppendIsFatal, Fit, Shape.AfterAppend;
    if k == 0 {
      t := s;
    } else {
      OneByte(shape);
      BytewiseInSteps(shape, k - 1);
      t := PumpPacket(s, w, p, shape, 1);
      t := PumpBytes(t, w, p, Bytewise(shape, 1), k - 1);
    }
  }

  // ---- Written out and granted again ----

  /** The window check after `k` bytes were written out. */
  lemma CheckAfterWrite(c: Chan, w: nat, k: nat)
    requires Takes(c) && c.win.localMax == w && c.win.consumed == k >= 1 && c.win.local < w / 2
    requires c.win.local + k <= w && c.tcpwinsz <= BUFFER_MAX_LEN_HPN
    requires w + Growth(c.options.dynamicWindow, c.tcpwinsz, w) < U32_RANGE
    ensures var g := Growth(c.options.dynamicWindow, c.tcpwinsz, w);
      CheckWindow(c)
      == Effect(c.(win := c.win.(local := c.win.local + k + g, localMax := w + g, consumed := 0)), [Adjust(k + g)])
  {
    hide Growth;
    assert WindowIsLow(c);
  }

  /** `t` is `s` with `k` bytes written out by `x`. */
  ghost predicate WrittenOut(s: Sys, t: Sys, k: nat) {
    && k <= |s.x.c.output| && k < U32_RANGE && Reachable(t)
    && t == s.(x := s.x.(c := s.x.c.(output := s.x.c.output[k..], win := s.x.c.win.(consumed := k)),
                         written := t.x.written, mem := s.x.mem.(output := Taken(s.x.mem.output, k))))
  }

  lemma WriteOut(s: Sys, w: nat, p: nat, shape: Block, k: nat) returns (t: Sys)
    requires Pumping(s, w, p, shape) && s.x.c.fds.wfd && 1 <= k <= shape.Len()
    ensures WrittenOut(s, t, k)
  {
    hide Reachable, Taken;
    ReachesX(s, DoWrite(Wrote(k)));
    t := StepX(s, DoWrite(Wrote(k)));
    assert Add32(0, k) == k && s.xy + [] == s.xy;
  }

  /** `t` is `s` after the window check of `x` has sent `credit`, and `y` has taken it. */
  lemma Grant(s: Sys, credit: nat, c: Chan) returns (t: Sys)
    requires Reachable(s) && Idle(s) && !Freed(s.x.c) && !Freed(s.y.c)
    requires CheckWindow(s.x.c) == Effect(c, [Adjust(credit)]) && s.y.c.win.remote + credit < U32_RANGE
    ensures Reachable(t)
    ensures t == s.(x := s.x.(c := c), y := s.y.(c := s.y.c.(win := s.y.c.win.(remote := s.y.c.win.remote + credit))))
  {
    hide Reachable, CheckWindow;
    ReachesX(s, DoCheckWindow);
    var u := s.(x := s.x.(c := c), xy := [Adjust(credit)]);
    assert [] + [Adjust(credit)] == [Adjust(credit)];
    assert StepX(s, DoCheckWindow) == u;
    t := TakeCredit(u, credit);
  }

  lemma TakeCredit(s: Sys, credit: nat) returns (t: Sys)
    requires Reachable(s) && Running(s) && s.xy == [Adjust(credit)] && s.yx == [] && !Freed(s.y.c)
    requires s.y.c.win.remote + credit < U32_RANGE
    ensures Reachable(t)
    ensures t == s.(y := s.y.(c := s.y.c.(win := s.y.c.win.(remote := s.y.c.win.remote + credit))), xy := [])
  {
    hide Reachable;
    ReachesY(s, Deliver);
    t := Swap(StepX(Swap(s), Deliver));
    assert s.xy[1..] == [] && s.yx + [] == s.yx;
  }

  /** `x` writes `k` bytes out, tops up its window and perhaps grows it, and `y` hears of that. */
  lemma WriteBack(s: Sys, w: nat, p: nat, shape: Block, k: nat) returns (t: Sys)
    requires Pumping(s, w, p, shape) && s.x.c.fds.wfd && 1 <= k <= shape.Len() && 2 * shape.Len() > w + 1
    requires s.x.c.tcpwinsz <= BUFFER_MAX_LEN_HPN
    requires w + Growth(s.x.c.options.dynamicWindow, s.x.c.tcpwinsz, w) < U32_RANGE
    ensures var max := w + Growth(s.x.c.options.dynamicWindow, s.x.c.tcpwinsz, w);
      Pumping(t, max, p, Taken(shape, k)) && SameSetup(s.x, t.x)
  {
    hide Reachable, Growth, CheckWindow;
    var u := WriteOut(s, w, p, shape, k);
    CheckAfterWrite(u.x.c, w, k);
    t := Grant(u, CheckWindow(u.x.c).sent[0].credit, CheckWindow(u.x.c).c);
  }

  /** `x` learns its socket buffer. */
  lemma LearnSocket(s: Sys, w: nat, p: nat, shape: Block, tcpwin: nat) returns (t: Sys)
    requires Pumping(s, w, p, shape) && tcpwin <= BUFFER_MAX_LEN_HPN
    requires s.x.c.tcpwinsz == 0
    ensures Pumping(t, w, p, shape) && t.x.c == s.x.c.(tcpwinsz := tcpwin) && t.x == s.x.(c := t.x.c, mem := t.x.mem)
  {
    hide Reachable, Shape.AfterCheck;
    ReachesX(s, DoPreOpen(tcpwin));
    t := StepX(s, DoPreOpen(tcpwin));
    assert s.xy + [] == s.xy;
  }

  /** Any part of any window that a buffer can hold is held unwritten by the receiver in some run. */
  lemma WindowFills(w: nat, p: nat, n: nat) returns (s: Sys)
    requires n <= w < U32_RANGE && 1 <= p < U32_RANGE && n < BUFFER_MAX_LEN_HPN
    ensures Pumping(s, w, p, Bytewise(NEW_BLOCK, n)) && |s.x.c.output| == n
    ensures SameSetup(NewEnd(Open, PLAIN, w, p, w, false), s.x)
  {
    s := BeginPumping(w, p, false);
    s := PumpBytes(s, w, p, NEW_BLOCK, n);
  }

  // ---- Stderr, byte by byte ----

  predicate GivesErr(c: Chan) {
    && c.ctype == Open && c.istate == InOpen && !c.flags.AnyClose() && !c.flags.eofSent && c.win.Fits()
    && c.win.remoteMaxpacket >= 1 && c.input == [] && c.extended == [] && c.fds.efd && c.fds.usage == ExtRead
  }

  /** Nothing is on its way, `y` may send stderr, and `x` is open to it. */
  ghost predicate ErrFlowing(s: Sys) {
    && Reachable(s) && Idle(s) && GivesErr(s.y.c) && s.y.mem.extended.Len() == 0 && s.y.mem.input.Len() == 0
    && s.x.c.ctype == Open && !s.x.c.flags.AnyClose() && !s.x.c.flags.eofRcvd && s.x.c.win.Fits()
  }

  lemma PollSendsErr(c: Chan)
    requires GivesErr(c) && c.win.remote >= 1
    ensures OutputPoll(c.(extended := [0]))
            == Effect(c.(win := c.win.(remote := c.win.remote - 1)), [ExtData(STDERR_CODE, [0])])
  {
    var d := c.(extended := [0]);
    assert SendLength(d.win, 1) == 1 && [0][..1] == [0] && [0][1..] == [];
    assert [] + [ExtData(STDERR_CODE, [0])] == [ExtData(STDERR_CODE, [0])];
  }

  /** `t` is `s` with one byte of stderr on its way to `x`. */
  ghost predicate ErrInFlight(s: Sys, t: Sys) {
    && s.y.c.win.remote >= 1 && Reachable(t) && t.y.mem.extended.Len() == 0
    && t == s.(y := s.y.(c := s.y.c.(win := s.y.c.win.(remote := s.y.c.win.remote - 1)), errRead := t.y.errRead,
                         mem := s.y.mem.(extended := t.y.mem.extended)),
               yx := [ExtData(STDERR_CODE, [0])])
  }

  /** `t` is `s` with that byte read, but not sent. */
  ghost predicate ErrLoaded(s: Sys, t: Sys) {
    && Reachable(t) && t.y.mem.extended.Len() == 1
    && t == s.(y := s.y.(c := s.y.c.(extended := [0]), errRead := t.y.errRead,
                         mem := s.y.mem.(extended := t.y.mem.extended)))
  }

  lemma LoadErr(s: Sys) returns (t: Sys)
    requires ErrFlowing(s) && s.y.c.win.remote >= 1
    ensures ErrLoaded(s, t)
  {
    hide Reachable, Enabled, Overflows, Act, MemoryAfter;
    ErrByteRead(s.y);
    ReachesY(s, DoErrRead(false, ReadBytes([0])));
    t := Swap(StepX(Swap(s), DoErrRead(false, ReadBytes([0]))));
    assert s.yx + [] == s.yx;
  }

  lemma ErrByteRead(y: End)
    requires GivesErr(y.c) && y.mem.extended.Len() == 0 && y.c.win.remote >= 1
    ensures var ev := DoErrRead(false, ReadBytes([0]));
      && Enabled(y, [], ev) && !Overflows(y, [], ev)
      && Act(y, [], ev) == Some((y.(c := y.c.(extended := [0]), errRead := y.errRead + [0]), []))
      && MemoryAfter(y, [], ev) == y.mem.(extended := Extended(y.mem.extended, 1))
      && Extended(y.mem.extended, 1).Len() == 1
  {
    hide Shape.AppendIsFatal, Shape.AfterAppend;
    AppendToEmpty(y.mem.extended, 1);
    assert [] + [0] == [0];
  }

  lemma SendErr(s: Sys) returns (t: Sys)
    requires ErrFlowing(s) && s.y.c.win.remote >= 1
    ensures ErrInFlight(s, t)
  {
    hide Reachable, OutputPoll;
    var u := LoadErr(s);
    PollSendsErr(s.y.c);
    ReachesY(u, DoOutputPoll);
    t := Swap(StepX(Swap(u), DoOutputPoll));
    assert [] + [ExtData(STDERR_CODE, [0])] == [ExtData(STDERR_CODE, [0])];
  }

  predicate WritesErr(c: Chan) { c.fds.efd && c.fds.usage == ExtWrite }

  lemma DropOne(s: Sys) returns (t: Sys)
    requires ErrFlowing(s) && s.y.c.win.remote >= 1 && !WritesErr(s.x.c)
    ensures ErrFlowing(t) && t.x == s.x.(leaked := s.x.leaked + 1)
    ensures t.y.c == s.y.c.(win := s.y.c.win.(remote := s.y.c.win.remote - 1))
  {
    hide Reachable;
    var u := SendErr(s);
    ReachesX(u, Deliver);
    t := StepX(u, Deliver);
    assert u.yx[1..] == [] && s.xy + [] == s.xy;
  }

  /** `n` bytes of stderr are sent and dropped. */
  lemma {:induction false} Drop(s: Sys, n: nat) returns (t: Sys)
    requires ErrFlowing(s) && n <= s.y.c.win.remote && !WritesErr(s.x.c)
    ensures ErrFlowing(t) && t.x == s.x.(leaked := s.x.leaked + n)
    ensures t.y.c == s.y.c.(win := s.y.c.win.(remote := s.y.c.win.remote - n))
  {
    hide ErrFlowing;
    if n == 0 {
      t := s;
    } else {
      t := Drop(s, n - 1);
      t := DropOne(t);
    }
  }

  /** `x` keeps `n` bytes of stderr in a block grown byte by byte, and so much less of its window. */
  predicate KeepsErr(e: End, d: End, n: nat) {
    && n <= e.c.win.local && n < BUFFER_MAX_LEN_HPN
    && d.c.extended == Zeros(n) && d.mem.extended == Bytewise(NEW_BLOCK, n)
    && d == e.(c := e.c.(extended := d.c.extended, win := e.c.win.(local := e.c.win.local - n)),
               mem := e.mem.(extended := d.mem.extended))
  }

  lemma KeepOne(e: End, s: Sys, n: nat) returns (t: Sys)
    requires ErrFlowing(s) && s.y.c.win.remote >= 1 && WritesErr(e.c) && n + 1 <= e.c.win.local
    requires n + 1 < BUFFER_MAX_LEN_HPN && KeepsErr(e, s.x, n)
    ensures ErrFlowing(t) && KeepsErr(e, t.x, n + 1)
    ensures t.y.c == s.y.c.(win := s.y.c.win.(remote := s.y.c.win.remote - 1))
  {
    hide Reachable, Shape.AppendIsFatal, Extended, Bytewise, BlockSize;
    OneByteKept(n);
    MoreZeros(n);
    var u := SendErr(s);
    ReachesX(u, Deliver);
    t := StepX(u, Deliver);
    assert u.yx[1..] == [] && s.xy + [] == s.xy;
  }

  lemma OneByteKept(n: nat)
    requires n + 1 < BUFFER_MAX_LEN_HPN
    ensures var b := Bytewise(NEW_BLOCK, n); !b.AppendIsFatal(1) && Extended(b, 1) == Bytewise(NEW_BLOCK, n + 1)
  {
    hide Shape.AppendIsFatal, Extended;
    BytewiseAfter(n);
    OneByte(Bytewise(NEW_BLOCK, n));
  }

  lemma BytewiseAfter(n: nat)
    requires n + 1 < BUFFER_MAX_LEN_HPN
    ensures var b := Bytewise(NEW_BLOCK, n);
      b.Len() == n && b.Reset() == b && b.offset == 0 && b.end == n && Bytewise(b, 1) == Bytewise(NEW_BLOCK, n + 1)
  {
    hide Fit, BlockSize;
    FitTwice(INITIAL_SIZE, n, n + 1);
  }

  /** `n` bytes of stderr are sent and kept. */
  lemma {:induction false} Keep(s: Sys, n: nat) returns (t: Sys)
    requires ErrFlowing(s) && WritesErr(s.x.c) && s.x.c.extended == [] && s.x.mem.extended == NEW_BLOCK
    requires n <= s.y.c.win.remote && n <= s.x.c.win.local && n < BUFFER_MAX_LEN_HPN
    ensures ErrFlowing(t) && KeepsErr(s.x, t.x, n)
    ensures t.y.c == s.y.c.(win := s.y.c.win.(remote := s.y.c.win.remote - n))
  {
    hide ErrFlowing, Fit;
    if n == 0 {
      MoreZeros(0);
      t := s;
    } else {
      t := Keep(s, n - 1);
      t := KeepOne(s.x, t, n - 1);
    }
  }
}
