/**
 Two SSH-2 channel endpoints joined by two ordered links, stepping in any interleaving, and the
 invariant that every run keeps.
 */
module ChannelSystem {
  import opened Bytes
  import opened ChannelSpec
  import opened ChannelLinks
  import opened ChannelMemory

  /** An endpoint with the history of what it exchanged with its local descriptors. */
  datatype End = End(
    c: Chan,
    mem: Memory,            // the blocks behind its buffers
    read: seq<Byte>,        // everything read from rfd
    written: seq<Byte>,     // everything written to wfd
    errRead: seq<Byte>,     // everything read from efd and kept
    errWritten: seq<Byte>,  // everything written to efd
    initialMax: nat,        // the window this end first announced
    failed: bool,           // a write to wfd failed
    lost: nat,              // charged bytes thrown away when that happened
    leaked: nat)            // received bytes dropped without being charged to the window

  /**
   `xy` carries packets from `x` to `y`; `broken` means that an end dropped the connection, `ended` that
   the process of an end has come to a fatal append.
   */
  datatype Sys = Sys(x: End, y: End, xy: seq<Msg>, yx: seq<Msg>, broken: bool, ended: bool)

  function Swap(s: Sys): Sys { Sys(s.y, s.x, s.yx, s.xy, s.broken, s.ended) }

  datatype Event =
    | DoPreOpen(tcpwin: nat)
    | DoRead(force: bool, r: ReadResult)
    | DoWrite(w: WriteResult)
    | DoErrRead(force: bool, r: ReadResult)
    | DoErrWrite(w: WriteResult)
    | DoCheckWindow
    | DoOutputPoll
    | DoCollect
    | DoSetFds(fds: Fds, windowMax: nat)
    | Deliver

  predicate WriteFits(w: WriteResult, available: nat) {
    w.Wrote? ==> 1 <= w.n <= available
  }

  predicate ReadFits(r: ReadResult) {
    r.ReadBytes? ==> 1 <= |r.bytes| <= CHAN_RBUF
  }

  /** One of the directions is not closed, so that the descriptor for stderr is looked at. */
  predicate HalfOpen(c: Chan) { c.istate != InClosed || c.ostate != OutClosed }

  /**
   What `e` may do next, with packets `arrived` waiting for it. Forced reads ignore the window and the
   memory check.
   */
  predicate Enabled(e: End, arrived: seq<Msg>, ev: Event) {
    && !Freed(e.c)
    && match ev
       case DoPreOpen(tcpwin) => tcpwin <= BUFFER_MAX_LEN_HPN
       case DoRead(force, r) =>
         && e.c.ctype == Open && ReadFits(r)
         && ((WantsRead(e.c) && e.mem.input.CheckSucceeds(CHAN_RBUF)) || (force && e.c.istate != InClosed))
       case DoWrite(w) => e.c.ctype == Open && WriteFits(w, |e.c.output|)
       case DoErrRead(force, r) =>
         && e.c.ctype == Open && ReadFits(r)
         && (force || (HalfOpen(e.c) && !e.c.flags.eofSent && |e.c.extended| < e.c.win.remote))
       case DoErrWrite(w) => e.c.ctype == Open && HalfOpen(e.c) && WriteFits(w, |e.c.extended|)
       case DoSetFds(_, windowMax) => e.c.ctype == Larval && windowMax < U32_RANGE
       case Deliver => arrived != []
       case _ => true
  }

  // The history kept while the channel steps from `e.c` to `c`.

  function AfterRead(e: End, r: ReadResult, c: Chan): End {
    if e.c.fds.rfd && r.ReadBytes? then e.(c := c, read := e.read + r.bytes) else e.(c := c)
  }

  function AfterWrite(e: End, w: WriteResult, c: Chan): End
    requires WriteFits(w, |e.c.output|)
  {
    if !e.c.fds.wfd || e.c.output == [] then e.(c := c)
    else
      match w
      case Wrote(n) => e.(c := c, written := e.written + e.c.output[..n])
      case WriteFailed => e.(c := c, failed := true, lost := e.lost + |e.c.output|)
      case WriteAgain => e.(c := c)
  }

  function AfterErrRead(e: End, r: ReadResult, c: Chan): End {
    if e.c.fds.efd && e.c.fds.usage == ExtRead && r.ReadBytes?
    then e.(c := c, errRead := e.errRead + r.bytes) else e.(c := c)
  }

  function AfterErrWrite(e: End, w: WriteResult, c: Chan): End
    requires WriteFits(w, |e.c.extended|)
  {
    if e.c.fds.efd && e.c.fds.usage == ExtWrite && e.c.extended != [] && w.Wrote?
    then e.(c := c, errWritten := e.errWritten + e.c.extended[..w.n]) else e.(c := c)
  }

  /** How `e` deals with the bytes of a received packet: kept, charged to the window only, or dropped. */
  function FateOf(c: Chan, m: Msg): Fate {
    match m
    case Data(d) =>
      if c.ctype != Open then Ignored
      else if c.ostate != OutOpen then Charged
      else if |d| > c.win.local then Ignored
      else Kept
    case ExtData(code, d) =>
      if c.ctype != Open || !c.fds.efd || c.fds.usage != ExtWrite || code != STDERR_CODE || |d| > c.win.local
      then Ignored else Kept
    case _ => Kept
  }

  function AfterDelivery(e: End, m: Msg, c: Chan): End {
    e.(c := c, leaked := e.leaked + if FateOf(e.c, m) == Ignored then |DataOf(m)| + |ErrOf(m)| else 0)
  }

  /** One step of `x`: its new state and what it sends, or the end of the connection. */
  function Act(x: End, arrived: seq<Msg>, ev: Event): (r: Option<(End, seq<Msg>)>)
    requires Enabled(x, arrived, ev)
  {
    match ev
    case DoPreOpen(tcpwin) => Some((x.(c := PreOpen(x.c, tcpwin)), []))
    case DoRead(_, r) => Some((AfterRead(x, r, HandleRfd(x.c, r)), []))
    case DoWrite(w) => var e := HandleWfd(x.c, w); Some((AfterWrite(x, w, e.c), e.sent))
    case DoErrRead(_, r) => Some((AfterErrRead(x, r, HandleEfdRead(x.c, r)), []))
    case DoErrWrite(w) => Some((AfterErrWrite(x, w, HandleEfdWrite(x.c, w)), []))
    case DoCheckWindow => var e := CheckWindow(x.c); Some((x.(c := e.c), e.sent))
    case DoOutputPoll => var e := OutputPoll(x.c); Some((x.(c := e.c), e.sent))
    case DoCollect => var e := ChanCollect(x.c); Some((x.(c := e.c), e.sent))
    case DoSetFds(fds, windowMax) =>
      var e := SetFds(x.c, fds, windowMax);
      if e.None? then None else Some((x.(c := e.value.c, initialMax := windowMax), e.value.sent))
    case Deliver =>
      var e := Receive(x.c, arrived[0]);
      if e.None? then None else Some((AfterDelivery(x, arrived[0], e.value.c), e.value.sent))
  }

  /** Whether the step appends to a buffer that cannot take it. */
  predicate Overflows(x: End, arrived: seq<Msg>, ev: Event)
    requires Enabled(x, arrived, ev)
  {
    match ev
    case DoRead(_, r) => ReadOverflows(x.mem, x.c, r)
    case DoErrRead(_, r) => ErrReadOverflows(x.mem, x.c, r)
    case Deliver => ReceiveOverflows(x.mem, x.c, arrived[0])
    case _ => false
  }

  /** The blocks behind the buffers of `x` after the step. */
  function MemoryAfter(x: End, arrived: seq<Msg>, ev: Event): Memory
    requires Enabled(x, arrived, ev)
  {
    match ev
    case DoPreOpen(tcpwin) => PreOpenMemory(x.mem, x.c, tcpwin)
    case DoRead(_, r) => ReadMemory(x.mem, x.c, r)
    case DoWrite(w) => WriteMemory(x.mem, x.c, w)
    case DoErrRead(_, r) => ErrReadMemory(x.mem, x.c, r)
    case DoErrWrite(w) => ErrWriteMemory(x.mem, x.c, w)
    case DoOutputPoll =>
      PollShrinks(x.c);
      PollMemory(x.mem, x.c, OutputPoll(x.c).c)
    case Deliver => ReceiveMemory(x.mem, x.c, arrived[0])
    case _ => x.mem
  }

  function StepX(s: Sys, ev: Event): Sys
    requires Enabled(s.x, s.yx, ev)
  {
    if Overflows(s.x, s.yx, ev) then s.(ended := true)
    else
      match Act(s.x, s.yx, ev)
      case None => s.(broken := true)
      case Some((x, sent)) =>
        s.(x := x.(mem := MemoryAfter(s.x, s.yx, ev)), xy := s.xy + sent,
           yx := if ev.Deliver? then s.yx[1..] else s.yx)
  }

  ghost predicate Next(s: Sys, t: Sys) {
    && !s.broken && !s.ended
    && exists ev: Event ::
         || (Enabled(s.x, s.yx, ev) && t == StepX(s, ev))
         || (Enabled(s.y, s.xy, ev) && t == Swap(StepX(Swap(s), ev)))
  }

  /** A channel as `channel_new` leaves it. */
  predicate Created(e: End) {
    && e.c.istate == InOpen && e.c.ostate == OutOpen && e.c.flags == Flags(false, false, false, false)
    && e.c.input == [] && e.c.output == [] && e.c.extended == []
    && e.c.win.local == e.c.win.localMax == e.initialMax
    && e.c.win.consumed == 0 && e.c.tcpwinsz == 0 && e.c.win.Fits()
    && e.read == [] && e.written == [] && e.errRead == [] && e.errWritten == []
    && !e.failed && e.lost == 0 && e.leaked == 0 && e.mem == NEW_MEMORY
  }

  /**
   `x` opened the channel and announced its window; `y` accepted it, possibly as a session that
   is still larval, and its confirmation is on its way.
   */
  predicate Init(s: Sys) {
    && !s.broken && !s.ended
    && Created(s.x) && s.x.c.ctype == Opening && s.x.c.win.remote == 0 && s.x.c.win.remoteMaxpacket == 0
    && Created(s.y) && s.y.c.ctype != Opening
    && (s.y.c.ctype == Larval ==> s.y.initialMax == 0 && !s.y.c.options.forceDrain)
    && s.y.c.win.remote == s.x.c.win.local && s.y.c.win.remoteMaxpacket == s.x.c.win.localMaxpacket
    && s.xy == [] && s.yx == [Confirm(s.y.c.win.local, s.y.c.win.localMaxpacket)]
  }

  ghost predicate IsRun(states: seq<Sys>) {
    && states != []
    && Init(states[0])
    && forall i :: 0 < i < |states| ==> Next(states[i - 1], states[i])
  }

  // ---- Invariants of one end ----

  /** Every byte of window this end ever granted is accounted for. */
  predicate LocalCredit(w: Windows, unwritten: nat, lost: nat) {
    w.local + w.consumed + unwritten + lost == w.localMax
  }

  const GROWTH_LIMIT: nat := 3 * BUFFER_MAX_LEN_HPN / 2

  predicate Bounded(w: Windows, tcpwinsz: nat, initialMax: nat) {
    && w.Fits() && initialMax < U32_RANGE && tcpwinsz <= BUFFER_MAX_LEN_HPN
    && (w.localMax <= initialMax || w.localMax <= GROWTH_LIMIT)
  }

  /** How the states of the two directions and the flags go together. */
  predicate Lifecycle(ctype: ChanType, istate: InState, ostate: OutState, g: Flags, failed: bool) {
    && (ctype == Opening ==> istate == InOpen && ostate == OutOpen)
    && (ctype == Larval ==> istate == InOpen || g.closeRcvd)
    && (ostate != OutOpen ==> g.eofRcvd || g.closeRcvd || failed)
    && (g.eofSent ==> istate == InClosed)
    && (g.closeSent ==> istate == InClosed && ostate == OutClosed)
    && (g.closeRcvd ==> istate == InClosed && ostate != OutOpen)
    && (g.eofRcvd ==> ostate != OutOpen)
  }

  /** A larval session has neither window nor data. */
  predicate Unused(e: End) {
    && e.c.win.localMax == 0 && e.c.output == [] && e.c.extended == []
    && e.leaked == 0 && e.read == [] && e.errRead == [] && !e.c.options.forceDrain
  }

  /** A closed output is empty, and only a closed one has lost anything. */
  predicate OutputSettled(ostate: OutState, output: seq<Byte>, lost: nat) {
    (ostate == OutClosed ==> output == []) && (lost > 0 ==> ostate == OutClosed)
  }

  /** An EOF of one's own accord waits for stderr. */
  predicate ErrSettled(g: Flags, forceDrain: bool, errActive: bool) {
    g.eofSent && !forceDrain && !g.closeRcvd ==> !errActive
  }

  predicate LocalInv(e: End) {
    && LocalCredit(e.c.win, |e.c.output| + |e.c.ErrIncoming()|, e.lost)
    && Bounded(e.c.win, e.c.tcpwinsz, e.initialMax)
    && Lifecycle(e.c.ctype, e.c.istate, e.c.ostate, e.c.flags, e.failed)
    && OutputSettled(e.c.ostate, e.c.output, e.lost)
    && ErrSettled(e.c.flags, e.c.options.forceDrain, e.c.EfdInputActive())
    && (e.c.ctype == Larval ==> Unused(e))
    && (e.c.ctype == Opening ==> e.c.win.remote == 0)
    && (e.leaked > 0 ==> !e.c.fds.efd || e.c.fds.usage != ExtWrite)
    && (e.c.fds.usage != ExtRead ==> e.errRead == [])
  }

  /** The blocks hold what the buffers hold, and what was lost was once held. */
  predicate Stored(e: End) { e.mem.Holds(e.c) && e.lost < BUFFER_MAX_LEN_HPN }

  // ---- The two views of an end ----

  function Snd(e: End): SendSide {
    SendSide(e.c.win.remote, e.c.win.remoteMaxpacket, e.c.input, e.read, e.c.ErrOutgoing(), e.errRead,
             e.c.flags.eofSent, e.c.flags.closeSent, e.c.flags.closeRcvd, e.c.ctype == Opening, e.c.win.localMaxpacket)
  }

  function Rcv(e: End): RecvSide {
    RecvSide(e.c.win.local, e.c.win.localMaxpacket, e.c.ostate == OutOpen, e.written + e.c.output,
             e.errWritten + e.c.ErrIncoming(), e.leaked, e.failed, e.c.flags.eofRcvd, e.c.flags.closeRcvd,
             e.c.ctype == Opening, e.c.ctype == Larval)
  }

  /** Everything that holds of two ends and the links between them. */
  ghost predicate Good(x: End, y: End, f: seq<Msg>, b: seq<Msg>) {
    && LocalInv(x) && LocalInv(y)
    && Dir(Snd(x), Rcv(y), f, b)
    && Dir(Snd(y), Rcv(x), b, f)
  }

  ghost predicate Inv(s: Sys) {
    !s.broken && Good(s.x, s.y, s.xy, s.yx) && Stored(s.x) && Stored(s.y)
  }

  lemma InitLocal(s: Sys)
    requires Init(s)
    ensures LocalInv(s.x) && LocalInv(s.y)
  {
  }

  lemma InitTowards(s: Sys)
    requires Init(s)
    ensures Dir(Snd(s.x), Rcv(s.y), s.xy, s.yx)
  {
    assert s.yx[1..] == [];
    assert CrossCredit(Snd(s.x), Rcv(s.y), s.xy, s.yx);
    assert Orderly(Snd(s.x), Rcv(s.y), s.xy, s.yx);
    assert StreamIntact(Snd(s.x), Rcv(s.y), s.xy) && ErrStreamIntact(Snd(s.x), Rcv(s.y), s.xy);
  }

  lemma InitBack(s: Sys)
    requires Init(s)
    ensures Dir(Snd(s.y), Rcv(s.x), s.yx, s.xy)
  {
    assert s.yx[1..] == [];
    assert CrossCredit(Snd(s.y), Rcv(s.x), s.yx, s.xy);
    assert Orderly(Snd(s.y), Rcv(s.x), s.yx, s.xy);
    assert StreamIntact(Snd(s.y), Rcv(s.x), s.yx) && ErrStreamIntact(Snd(s.y), Rcv(s.x), s.yx);
  }

  lemma InitInv(s: Sys)
    requires Init(s)
    ensures Inv(s)
  {
    hide LocalInv, Dir, Snd, Rcv;
    InitLocal(s);
    InitTowards(s);
    InitBack(s);
  }

  // ---- What each step does to the two views of the end that takes it ----

  lemma ObufEmptyViews(x: End)
    requires LocalInv(x)
    ensures var x' := x.(c := ChanObufEmpty(x.c)); LocalInv(x') && Snd(x') == Snd(x) && Rcv(x') == Rcv(x)
  {
    hide Bounded;
  }

  lemma PreOpenViews(x: End, tcpwin: nat)
    requires LocalInv(x) && tcpwin <= BUFFER_MAX_LEN_HPN
    ensures var x' := x.(c := PreOpen(x.c, tcpwin)); LocalInv(x') && Snd(x') == Snd(x) && Rcv(x') == Rcv(x)
  {
    hide Lifecycle, LocalCredit, ChanObufEmpty;
    var z := x.(c := x.c.(tcpwinsz := if x.c.tcpwinsz == 0 || x.c.options.dynamicWindow then tcpwin else x.c.tcpwinsz));
    ObufEmptyViews(z);
  }

  lemma ReadViews(x: End, r: ReadResult)
    requires LocalInv(x) && x.c.ctype == Open && x.c.istate != InClosed
    ensures var x' := AfterRead(x, r, HandleRfd(x.c, r));
      && LocalInv(x') && Rcv(x') == Rcv(x) && !x.c.flags.eofSent
      && Snd(x') == if x.c.fds.rfd && r.ReadBytes?
                    then Snd(x).(input := Snd(x).input + r.bytes, read := Snd(x).read + r.bytes) else Snd(x)
  {
    hide Bounded, LocalCredit;
  }

  predicate WriteBreaks(x: End, w: WriteResult) { x.c.fds.wfd && x.c.output != [] && w.WriteFailed? }

  lemma WriteViews(x: End, w: WriteResult)
    requires LocalInv(x) && x.c.ctype == Open && WriteFits(w, |x.c.output|)
    ensures var e := HandleWfd(x.c, w);
      var x' := AfterWrite(x, w, e.c);
      && LocalInv(x') && Snd(x') == Snd(x)
      && if WriteBreaks(x, w)
         then && Rcv(x') == Rcv(x).(accepting := false, taken := x.written, failed := true)
              && e.sent == (if x.c.options.SendsEow() then [Eow] else []) && !x.c.flags.closeSent && Rcv(x).taken != []
         else Rcv(x') == Rcv(x) && e.sent == []
  {
    if x.c.fds.wfd && x.c.output != [] && w.Wrote? {
      WroteViews(x, w);
    } else if WriteBreaks(x, w) {
      BrokenViews(x, w);
    } else {
      hide LocalInv, Snd, Rcv;
    }
  }

  lemma WroteViews(x: End, w: WriteResult)
    requires LocalInv(x) && x.c.ctype == Open && WriteFits(w, |x.c.output|)
    requires x.c.fds.wfd && x.c.output != [] && w.Wrote?
    ensures var e := HandleWfd(x.c, w);
      var x' := AfterWrite(x, w, e.c);
      LocalInv(x') && Snd(x') == Snd(x) && Rcv(x') == Rcv(x) && e.sent == []
  {
    hide Lifecycle, LocalCredit, ErrSettled, Consumed;
    ConsumeExact(x.c.win, w.n, |x.c.output| + |x.c.ErrIncoming()|, x.lost);
    Cut(x.c.output, w.n);
    Assoc(x.written, x.c.output[..w.n], x.c.output[w.n..]);
  }

  lemma Cut(s: seq<Byte>, n: nat)
    requires n <= |s|
    ensures s[..n] + s[n..] == s
  {
  }

  /** Counting written bytes as consumed is exact. */
  lemma ConsumeExact(w: Windows, n: nat, unwritten: nat, lost: nat)
    requires LocalCredit(w, unwritten, lost) && w.Fits() && n <= unwritten
    ensures Consumed(w, n) == w.(consumed := w.consumed + n) && w.consumed + n < U32_RANGE
    ensures LocalCredit(w.(consumed := w.consumed + n), unwritten - n, lost)
  {
  }

  lemma BrokenViews(x: End, w: WriteResult)
    requires LocalInv(x) && x.c.ctype == Open && WriteFits(w, |x.c.output|) && WriteBreaks(x, w)
    ensures var e := HandleWfd(x.c, w);
      var x' := AfterWrite(x, w, e.c);
      && LocalInv(x') && Snd(x') == Snd(x)
      && Rcv(x') == Rcv(x).(accepting := false, taken := x.written, failed := true)
      && e.sent == (if x.c.options.SendsEow() then [Eow] else []) && !x.c.flags.closeSent && Rcv(x).taken != []
  {
    hide Bounded;
  }

  lemma ErrReadViews(x: End, r: ReadResult)
    requires LocalInv(x) && x.c.ctype == Open
    ensures var x' := AfterErrRead(x, r, HandleEfdRead(x.c, r));
      && LocalInv(x') && Rcv(x') == Rcv(x)
      && Snd(x') == if x.c.fds.efd && x.c.fds.usage == ExtRead && r.ReadBytes?
                    then Snd(x).(errPending := Snd(x).errPending + r.bytes, errRead := Snd(x).errRead + r.bytes)
                    else Snd(x)
  {
    hide Lifecycle, LocalCredit, Bounded;
  }

  lemma ErrWriteViews(x: End, w: WriteResult)
    requires LocalInv(x) && x.c.ctype == Open && WriteFits(w, |x.c.extended|)
    ensures var x' := AfterErrWrite(x, w, HandleEfdWrite(x.c, w));
      LocalInv(x') && Snd(x') == Snd(x) && Rcv(x') == Rcv(x)
  {
    hide Lifecycle;
    if x.c.fds.efd && x.c.fds.usage == ExtWrite && x.c.extended != [] && w.Wrote? {
      assert x.errWritten + x.c.extended[..w.n] + x.c.extended[w.n..] == x.errWritten + x.c.extended;
    }
  }

  /** Dynamic growth leaves the window no larger than one and a half socket buffers. */
  lemma GrowthBounded(dynamicWindow: bool, tcpwinsz: nat, localMax: nat)
    requires tcpwinsz <= BUFFER_MAX_LEN_HPN
    ensures var g := Growth(dynamicWindow, tcpwinsz, localMax); g == 0 || localMax + g <= GROWTH_LIMIT
  {
  }

  /** While every byte of the window is accounted for, topping it up cannot wrap around. */
  lemma TopUpExact(w: Windows, unwritten: nat, lost: nat, growth: nat)
    requires LocalCredit(w, unwritten, lost) && w.Fits() && w.localMax + growth < U32_RANGE
    ensures Add32(w.consumed, growth) == w.consumed + growth
    ensures Add32(w.localMax, growth) == w.localMax + growth
    ensures Add32(w.local, w.consumed + growth) == w.local + w.consumed + growth
    ensures LocalCredit(w.(localMax := w.localMax + growth, local := w.local + w.consumed + growth, consumed := 0),
                        unwritten, lost)
  {
  }

  lemma CheckWindowViews(x: End)
    requires LocalInv(x)
    ensures var e := CheckWindow(x.c);
      var x' := x.(c := e.c);
      && LocalInv(x') && Snd(x') == Snd(x)
      && if WindowIsLow(x.c)
         then e.sent == [e.sent[0]] && MaySend(Snd(x), e.sent[0]) && AfterSend(Snd(x), e.sent[0]) == Snd(x)
              && Rcv(x') == Rcv(x).(window := Rcv(x).window + CreditOf(e.sent[0]))
         else e.sent == [] && x' == x
  {
    hide Growth, WindowIsLow, Lifecycle, Add32, LocalCredit, OutputSettled, ErrSettled, MaySend, AfterSend, Unused;
    var growth := Growth(x.c.options.dynamicWindow, x.c.tcpwinsz, x.c.win.localMax);
    GrowthBounded(x.c.options.dynamicWindow, x.c.tcpwinsz, x.c.win.localMax);
    TopUpExact(x.c.win, |x.c.output| + |x.c.ErrIncoming()|, x.lost, growth);
    LowIsOpen(x.c);
    OpenSends(x);
  }

  lemma LowIsOpen(c: Chan)
    ensures WindowIsLow(c) ==> c.ctype == Open && !c.flags.AnyClose()
  {
    hide Sub32;
  }

  lemma OpenSends(x: End)
    ensures x.c.ctype == Open && !x.c.flags.AnyClose() ==>
      forall n: nat :: MaySend(Snd(x), Adjust(n)) && AfterSend(Snd(x), Adjust(n)) == Snd(x)
  {
  }

  lemma CollectViews(x: End)
    requires LocalInv(x)
    ensures var e := ChanCollect(x.c);
      var x' := x.(c := e.c);
      && LocalInv(x') && Rcv(x') == Rcv(x)
      && if e.sent == [] then x' == x
         else e.sent == [Close] && MaySend(Snd(x), Close) && Snd(x') == AfterSend(Snd(x), Close)
  {
    hide Bounded, LocalCredit;
  }

  lemma SetFdsViews(x: End, fds: Fds, windowMax: nat)
    requires LocalInv(x) && x.c.ctype == Larval && windowMax < U32_RANGE
    ensures var e := SetFds(x.c, fds, windowMax);
      && e.Some? && e.value.sent == [Adjust(windowMax)]
      && var x' := x.(c := e.value.c, initialMax := windowMax);
      && LocalInv(x') && Snd(x') == Snd(x) && Rcv(x') == Rcv(x).(window := x.c.win.local + windowMax, larval := false)
  {
  }

  /** At most one packet with data or an EOF was sent, and only the sending side has changed by it. */
  predicate SentOne(x: End, e: Effect) {
    var x' := x.(c := e.c);
    && LocalInv(x') && Rcv(x') == Rcv(x)
    && if e.sent == [] then Snd(x') == Snd(x)
       else e.sent == [e.sent[0]] && Payload(e.sent[0])
            && MaySend(Snd(x), e.sent[0]) && Snd(x') == AfterSend(Snd(x), e.sent[0])
  }

  lemma PollInputViews(x: End)
    requires LocalInv(x) && x.c.ctype == Open && !x.c.flags.AnyClose()
    ensures SentOne(x, PollInput(x.c))
    ensures PollInput(x.c).c.ctype == Open && !PollInput(x.c).c.flags.AnyClose()
  {
    if x.c.istate != InClosed && x.c.input != [] {
      PollDataViews(x);
    } else {
      PollEofViews(x);
    }
  }

  lemma PollDataViews(x: End)
    requires LocalInv(x) && x.c.ctype == Open && !x.c.flags.AnyClose() && x.c.istate != InClosed && x.c.input != []
    ensures SentOne(x, PollInput(x.c))
  {
    hide LocalInv, SendLength, Spent;
    PollDataLocal(x);
    SpentFits(x.c, SendLength(x.c.win, |x.c.input|));
  }

  lemma PollDataLocal(x: End)
    requires LocalInv(x) && x.c.ctype == Open && !x.c.flags.AnyClose() && x.c.istate != InClosed && x.c.input != []
    ensures LocalInv(x.(c := PollInput(x.c).c)) && !x.c.flags.eofSent && x.c.win.Fits()
  {
    hide SendLength, Spent, OutputSettled;
    SpentFits(x.c, SendLength(x.c.win, |x.c.input|));
  }

  lemma SpentFits(c: Chan, n: nat)
    requires n <= c.win.remote
    ensures c.win.Fits() ==> Spent(c.win, n) == c.win.(remote := c.win.remote - n)
  {
  }

  lemma PollEofViews(x: End)
    requires LocalInv(x) && x.c.ctype == Open && !x.c.flags.AnyClose() && !(x.c.istate != InClosed && x.c.input != [])
    ensures SentOne(x, PollInput(x.c))
  {
    hide LocalCredit, Bounded;
  }

  lemma PollExtendedViews(x: End)
    requires LocalInv(x) && x.c.ctype == Open && !x.c.flags.AnyClose()
    ensures SentOne(x, PollExtended(x.c))
  {
    hide SendLength, Lifecycle;
  }

  // ---- What a delivery does to the two views of the end that takes the packet ----

  /** What the links guarantee about a packet when it reaches `x`. */
  predicate Expected(x: End, m: Msg) {
    && (m.Confirm? <==> x.c.ctype == Opening)
    && |DataOf(m)| + |ErrOf(m)| <= x.c.win.local
    && !x.c.flags.closeRcvd
    && (Payload(m) ==> !x.c.flags.eofRcvd)
    && (m.Confirm? ==> m.window < U32_RANGE && m.maxpacket < U32_RANGE)
    && (m.Adjust? ==> x.c.win.remote + m.credit < U32_RANGE)
    && (m.ExtData? ==> m.code == STDERR_CODE)
    && (m.Eow? ==> x.c.ctype != Larval)
  }

  /** The outcome of delivering `m`: an expected packet, and possibly an EOF in answer. */
  predicate DeliveryViews(x: End, m: Msg, x': End, sent: seq<Msg>)
    requires |DataOf(m)| + |ErrOf(m)| <= x.c.win.local
  {
    && LocalInv(x')
    && Rcv(x') == AfterReceive(Rcv(x), m, FateOf(x.c, m))
    && var s := AfterNews(Snd(x), m);
       if sent == [] then Snd(x') == s
       else sent == [Eof] && MaySend(s, Eof) && Snd(x') == AfterSend(s, Eof)
  }

  lemma ConfirmViews(x: End, m: Msg)
    requires LocalInv(x) && Expected(x, m) && m.Confirm?
    ensures var e := InputConfirm(x.c, m.window, m.maxpacket);
      e.Some? && DeliveryViews(x, m, AfterDelivery(x, m, e.value.c), e.value.sent)
  {
  }

  /** Charging received bytes to the window, and crediting them at once on a closed output, is exact. */
  lemma ChargeExact(w: Windows, n: nat, unwritten: nat, lost: nat)
    requires LocalCredit(w, unwritten, lost) && w.Fits() && n <= w.local
    ensures ChargedWindow(w, n) == w.(local := w.local - n)
    ensures Consumed(ChargedWindow(w, n), n) == w.(local := w.local - n, consumed := w.consumed + n)
    ensures LocalCredit(w.(local := w.local - n), unwritten + n, lost)
    ensures LocalCredit(w.(local := w.local - n, consumed := w.consumed + n), unwritten, lost)
    ensures w.consumed + n < U32_RANGE && w.local <= w.localMax
  {
  }

  lemma DataViews(x: End, m: Msg)
    requires LocalInv(x) && Expected(x, m) && m.Data?
    ensures DeliveryViews(x, m, AfterDelivery(x, m, InputData(x.c, m.data)), [])
  {
    if x.c.ctype != Open {
      DataIdle(x, m);
    } else if x.c.ostate != OutOpen {
      DataCharged(x, m);
    } else {
      DataKept(x, m);
    }
    hide LocalInv, Expected, DeliveryViews, InputData, AfterDelivery;
  }

  lemma DataIdle(x: End, m: Msg)
    requires LocalInv(x) && Expected(x, m) && m.Data? && x.c.ctype != Open
    ensures DeliveryViews(x, m, AfterDelivery(x, m, InputData(x.c, m.data)), [])
  {
    hide Lifecycle, ErrSettled, OutputSettled;
    assert m.data == [];
  }

  lemma DataCharged(x: End, m: Msg)
    requires LocalInv(x) && Expected(x, m) && m.Data? && x.c.ctype == Open && x.c.ostate != OutOpen
    ensures DeliveryViews(x, m, AfterDelivery(x, m, InputData(x.c, m.data)), [])
  {
    hide Lifecycle, LocalCredit, ErrSettled, OutputSettled, ChargedWindow, Consumed;
    ChargeExact(x.c.win, |m.data|, |x.c.output| + |x.c.ErrIncoming()|, x.lost);
  }

  lemma DataKept(x: End, m: Msg)
    requires LocalInv(x) && Expected(x, m) && m.Data? && x.c.ctype == Open && x.c.ostate == OutOpen
    ensures DeliveryViews(x, m, AfterDelivery(x, m, InputData(x.c, m.data)), [])
  {
    hide Lifecycle, LocalCredit, ErrSettled, ChargedWindow;
    ChargeExact(x.c.win, |m.data|, |x.c.output| + |x.c.ErrIncoming()|, x.lost);
    Assoc(x.written, x.c.output, m.data);
  }

  lemma ExtDataViews(x: End, m: Msg)
    requires LocalInv(x) && Expected(x, m) && m.ExtData?
    ensures var e := InputExtendedData(x.c, m.code, m.data);
      e.Some? && e.value.sent == [] && DeliveryViews(x, m, AfterDelivery(x, m, e.value.c), [])
  {
    hide Lifecycle, LocalCredit, OutputSettled, ChargedWindow;
    ChargeExact(x.c.win, |m.data|, |x.c.output| + |x.c.ErrIncoming()|, x.lost);
    Assoc(x.errWritten, x.c.extended, m.data);
  }

  lemma AdjustViews(x: End, m: Msg)
    requires LocalInv(x) && Expected(x, m) && m.Adjust?
    ensures DeliveryViews(x, m, AfterDelivery(x, m, InputAdjust(x.c, m.credit)), [])
  {
    hide Lifecycle;
  }

  /** `x` after it has noted the EOF, before its output is looked at. */
  function EofNoted(x: End): End {
    var ostate := if x.c.ostate == OutOpen then OutWaitDrain else x.c.ostate;
    x.(c := x.c.(flags := x.c.flags.(eofRcvd := true), ostate := ostate))
  }

  lemma EofNotedViews(x: End, m: Msg)
    requires LocalInv(x) && Expected(x, m) && m.Eof?
    ensures LocalInv(EofNoted(x)) && Snd(EofNoted(x)) == Snd(x) && Rcv(EofNoted(x)) == AfterReceive(Rcv(x), m, Kept)
    ensures x.c.ctype != Opening && (x.c.options.forceDrain && x.c.istate == InOpen ==> x.c.ctype == Open)
  {
    hide LocalCredit, Bounded;
  }

  lemma RcvdEofViews(x: End, m: Msg)
    requires LocalInv(x) && Expected(x, m) && m.Eof?
    ensures var y := x.(c := ChanRcvdEof(x.c));
      && LocalInv(y) && Snd(y) == Snd(x) && Rcv(y) == AfterReceive(Rcv(x), m, Kept)
      && y.c.ctype == x.c.ctype && y.c.istate == x.c.istate && y.c.options == x.c.options
  {
    EofNotedViews(x, m);
    ObufEmptyViews(EofNoted(x));
    hide LocalInv, Snd, Rcv;
  }

  lemma EofViews(x: End, m: Msg)
    requires LocalInv(x) && Expected(x, m) && m.Eof?
    ensures var e := InputEof(x.c); DeliveryViews(x, m, AfterDelivery(x, m, e.c), e.sent)
  {
    hide LocalInv, Snd, Rcv, Expected, ChanRcvdEof, ChanIbufEmpty;
    RcvdEofViews(x, m);
    EofNotedViews(x, m);
    if x.c.options.forceDrain && x.c.istate == InOpen {
      ForceDrainViews(x.(c := ChanRcvdEof(x.c)));
    }
  }

  /** A forced drain behaves like the end of the local input. */
  lemma ForceDrainViews(x: End)
    requires LocalInv(x) && x.c.ctype == Open && x.c.istate == InOpen && x.c.options.forceDrain
    ensures var e := ChanIbufEmpty(x.c.(istate := InWaitDrain));
      var x' := x.(c := e.c);
      && LocalInv(x') && Rcv(x') == Rcv(x)
      && if e.sent == [] then Snd(x') == Snd(x)
         else e.sent == [Eof] && MaySend(Snd(x), Eof) && Snd(x') == AfterSend(Snd(x), Eof)
  {
    hide LocalCredit, Bounded;
  }

  lemma CloseLifecycle(c: Chan, failed: bool)
    requires Lifecycle(c.ctype, c.istate, c.ostate, c.flags, failed) && c.ctype != Opening && !c.flags.closeRcvd
    ensures var d := ChanRcvdClose(c).c;
      && Lifecycle(d.ctype, d.istate, d.ostate, d.flags, failed)
      && d.flags.closeRcvd && d.ctype == c.ctype
      && (d.ostate == OutClosed <==> c.ostate == OutClosed || c.ctype == Larval)
    ensures c.istate == InWaitDrain ==> !c.flags.eofSent && !c.flags.closeSent
  {
  }

  lemma CloseKeeps(c: Chan)
    ensures var d := ChanRcvdClose(c).c;
      && d.win == c.win && d.output == c.output && d.input == c.input && d.extended == c.extended
      && d.tcpwinsz == c.tcpwinsz && d.options == c.options
      && d.fds.efd == c.fds.efd && d.fds.usage == c.fds.usage
  {
  }

  lemma CloseLocal(x: End, m: Msg)
    requires LocalInv(x) && x.c.ctype != Opening && !x.c.flags.closeRcvd
    ensures LocalInv(x.(c := ChanRcvdClose(x.c).c))
    ensures x.c.istate == InWaitDrain ==> !x.c.flags.eofSent && !x.c.flags.closeSent
  {
    hide LocalCredit, Bounded, Lifecycle, ChanRcvdClose;
    CloseLifecycle(x.c, x.failed);
    CloseKeeps(x.c);
  }

  lemma CloseExpected(x: End, m: Msg)
    requires LocalInv(x) && Expected(x, m) && m.Close?
    ensures !x.c.flags.closeRcvd && x.c.ctype != Opening
    ensures x.c.ctype == Larval ==> x.c.istate == InOpen && x.c.output == []
  {
    hide LocalCredit, Bounded;
  }

  lemma CloseCarriesNothing(x: End, m: Msg)
    requires m.Close?
    ensures DataOf(m) == [] && ErrOf(m) == [] && forall c :: AfterDelivery(x, m, c) == x.(c := c)
  {
  }

  lemma CloseViews(x: End, m: Msg)
    requires LocalInv(x) && Expected(x, m) && m.Close?
    ensures var e := ChanRcvdClose(x.c); DeliveryViews(x, m, AfterDelivery(x, m, e.c), e.sent)
  {
    hide LocalInv, Expected, DataOf, ErrOf, AfterDelivery;
    CloseExpected(x, m);
    CloseLocal(x, m);
    CloseCarriesNothing(x, m);
    if x.c.ctype == Larval {
    } else {
      match x.c.istate
      case InOpen =>
      case InWaitDrain =>
      case InClosed =>
    }
  }

  lemma EowViews(x: End, m: Msg)
    requires LocalInv(x) && Expected(x, m) && m.Eow?
    ensures DeliveryViews(x, m, AfterDelivery(x, m, ChanRcvdEow(x.c)), [])
  {
    hide LocalCredit, Bounded;
  }

  lemma ReceiveViews(x: End, m: Msg)
    requires LocalInv(x) && Expected(x, m)
    ensures var e := Receive(x.c, m);
      e.Some? && DeliveryViews(x, m, AfterDelivery(x, m, e.value.c), e.value.sent)
  {
    hide LocalInv, DeliveryViews, Expected, AfterDelivery, InputConfirm, InputData, InputExtendedData, InputAdjust,
         InputEof, ChanRcvdClose, ChanRcvdEow;
    match m
    case Confirm(_, _) => ConfirmViews(x, m);
    case Data(_) => DataViews(x, m);
    case ExtData(_, _) => ExtDataViews(x, m);
    case Adjust(_) => AdjustViews(x, m);
    case Eof => EofViews(x, m);
    case Close => CloseViews(x, m);
    case Eow => EowViews(x, m);
  }
}
