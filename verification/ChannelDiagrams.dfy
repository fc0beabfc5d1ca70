/**
 The state diagrams of the channel close protocol (nchan2.ms): which events move the input and output sides
 of an end, and what each move sends and shuts down. Every step of an end follows them, and no step else moves.
 */
module ChannelDiagrams {
  import opened Bytes
  import opened ChannelSpec
  import opened ChannelSystem

  /** The events of the diagrams. Any other step is `Nothing`. */
  datatype Cause =
    | ReadEnded      // the local input failed or came to its end
    | IbufEmpty      // the poll found an ended input with nothing left to send
    | WriteBroke     // a write to the local output failed
    | ObufEmpty      // an output that waits to drain was found empty
    | RcvdEof
    | RcvdEow
    | RcvdClose
    | ErrEnded       // the descriptor for stderr failed or came to its end
    | BothClosed     // the collection found both sides closed, and no CLOSE sent
    | Nothing

  function CauseOf(c: Chan, arrived: seq<Msg>, ev: Event): Cause {
    match ev
    case DoRead(_, r) => if r.ReadFailed? && c.fds.rfd then ReadEnded else Nothing
    case DoWrite(w) => if w.WriteFailed? && c.fds.wfd && c.output != [] then WriteBroke else Nothing
    case DoErrRead(_, r) => if r.ReadFailed? && c.fds.efd && c.fds.usage != ExtWrite then ErrEnded else Nothing
    case DoErrWrite(w) =>
      if w.WriteFailed? && c.fds.efd && c.fds.usage == ExtWrite && c.extended != [] then ErrEnded else Nothing
    case DoPreOpen(_) =>
      if c.ctype == Open && c.output == [] && c.ostate == OutWaitDrain && !c.EfdOutputActive() then ObufEmpty
      else Nothing
    case DoOutputPoll =>
      if && c.ctype == Open && !c.flags.closeSent && !c.flags.closeRcvd
         && c.istate == InWaitDrain && c.input == [] && !c.EfdInputActive()
      then IbufEmpty else Nothing
    case DoCollect =>
      if c.istate == InClosed && c.ostate == OutClosed && !c.flags.closeSent then BothClosed else Nothing
    case Deliver =>
      if arrived == [] then Nothing
      else (match arrived[0] case Eof => RcvdEof case Eow => RcvdEow case Close => RcvdClose case _ => Nothing)
    case _ => Nothing
  }

  /** Where the input side goes. An EOF moves it only with the option to drain at once. */
  function NextInput(c: Chan, cause: Cause): InState {
    match (c.istate, cause)
    case (InOpen, ReadEnded) => InWaitDrain
    case (InOpen, RcvdEow) => InClosed
    case (InOpen, RcvdEof) =>
      if !c.options.forceDrain then InOpen else if c.input == [] then InClosed else InWaitDrain
    case (InWaitDrain, IbufEmpty) => InClosed
    case (_, RcvdClose) => InClosed
    case (s, _) => s
  }

  /** Where the output side goes; an EOF closes it at once if nothing waits to be written out. */
  function NextOutput(c: Chan, cause: Cause): OutState {
    match (c.ostate, cause)
    case (OutClosed, _) => OutClosed
    case (_, WriteBroke) => OutClosed
    case (OutWaitDrain, ObufEmpty) => OutClosed
    case (_, RcvdEof) =>
      if c.output == [] && !(c.fds.usage == ExtWrite && c.fds.efd && c.extended != []) then OutClosed else OutWaitDrain
    case (_, RcvdClose) => if c.ctype == Larval then OutClosed else OutWaitDrain
    case (s, _) => s
  }

  /** EOF is sent when an ended input closes: drained, cut off by CLOSE, or drained at once. */
  predicate TellsEof(c: Chan, cause: Cause) {
    match cause
    case IbufEmpty => true
    case RcvdClose => c.istate == InWaitDrain && c.ctype != Larval
    case RcvdEof => c.istate == InOpen && c.options.forceDrain && c.input == [] && !c.flags.closeSent
    case _ => false
  }

  /** Reading stops when the open input side is left, but not for what an EOF or a larval channel's CLOSE does. */
  predicate StopsReading(c: Chan, cause: Cause) {
    c.istate == InOpen && (cause == ReadEnded || cause == RcvdEow || (cause == RcvdClose && c.ctype != Larval))
  }

  /** Writing stops, and what was to be written is dropped, when the output side closes. */
  predicate StopsWriting(c: Chan, cause: Cause) {
    c.ostate != OutClosed && NextOutput(c, cause) == OutClosed && cause != RcvdClose
  }

  /** A step as the diagrams have it. */
  predicate Follows(c: Chan, cause: Cause, d: Chan, sent: seq<Msg>) {
    && d.istate == NextInput(c, cause) && d.ostate == NextOutput(c, cause)
    && (Eof in sent <==> TellsEof(c, cause))
    && (Eow in sent <==> cause == WriteBroke && c.ostate != OutClosed && c.options.isSession && c.options.newPeer)
    && (Close in sent <==> cause == BothClosed)
    && d.flags == Flags(c.flags.closeSent || cause == BothClosed, c.flags.closeRcvd || cause == RcvdClose,
                        c.flags.eofSent || TellsEof(c, cause), c.flags.eofRcvd || cause == RcvdEof)
    && (d.fds.rfd == (c.fds.rfd && !(StopsReading(c, cause) && c.ctype != Larval && !c.fds.isSocket)))
    && (d.fds.wfd == (c.fds.wfd && !(StopsWriting(c, cause) && c.ctype != Larval && !c.fds.isSocket)))
    && (StopsWriting(c, cause) ==> d.output == [])
    && d.fds.efd == (c.fds.efd && cause != ErrEnded) && d.fds.usage == c.fds.usage
    && (c.fds.usage == ExtIgnore ==> d.extended == c.extended)
  }

  // ---- Every step follows them ----

  lemma ReadFollows(c: Chan, force: bool, r: ReadResult)
    ensures Follows(c, CauseOf(c, [], DoRead(force, r)), HandleRfd(c, r), [])
  {
  }

  lemma WriteFollows(c: Chan, w: WriteResult)
    requires WriteFits(w, |c.output|)
    ensures var e := HandleWfd(c, w); Follows(c, CauseOf(c, [], DoWrite(w)), e.c, e.sent)
  {
    hide Add32;
  }

  lemma PreOpenFollows(c: Chan, tcpwin: nat)
    ensures Follows(c, CauseOf(c, [], DoPreOpen(tcpwin)), PreOpen(c, tcpwin), [])
  {
  }

  lemma PollInputFollows(c: Chan)
    requires c.ctype == Open && !c.flags.AnyClose()
    ensures var e := PollInput(c); Follows(c, CauseOf(c, [], DoOutputPoll), e.c, e.sent)
  {
    hide SendLength, Spent;
  }

  lemma PollErrSends(c: Chan)
    ensures var e := PollExtended(c);
      && e.c.istate == c.istate && e.c.ostate == c.ostate && e.c.flags == c.flags && e.c.fds == c.fds
      && e.c.output == c.output && (c.fds.usage != ExtRead ==> e.c.extended == c.extended)
      && Eof !in e.sent && Eow !in e.sent && Close !in e.sent
  {
    hide SendLength, Spent;
  }

  lemma PollFollows(c: Chan)
    ensures var e := OutputPoll(c); Follows(c, CauseOf(c, [], DoOutputPoll), e.c, e.sent)
  {
    hide PollInput, PollExtended;
    if c.ctype == Open && !c.flags.AnyClose() {
      PollInputFollows(c);
      PollErrSends(PollInput(c).c);
    }
  }

  lemma CollectFollows(c: Chan)
    ensures var e := ChanCollect(c); Follows(c, CauseOf(c, [], DoCollect), e.c, e.sent)
  {
  }

  lemma EofNoted(c: Chan)
    ensures var d := ChanRcvdEof(c);
      && d.ostate == NextOutput(c, RcvdEof) && d.istate == c.istate && d.flags == c.flags.(eofRcvd := true)
      && d.input == c.input && d.options == c.options && d.fds.rfd == c.fds.rfd && d.extended == c.extended
      && d.fds.efd == c.fds.efd && d.fds.usage == c.fds.usage
      && d.fds.wfd == (c.fds.wfd && !(StopsWriting(c, RcvdEof) && c.ctype != Larval && !c.fds.isSocket))
      && (StopsWriting(c, RcvdEof) ==> d.output == [])
  {
  }

  lemma EofFollows(c: Chan)
    ensures var e := InputEof(c); Follows(c, RcvdEof, e.c, e.sent)
  {
    hide ChanRcvdEof, NextOutput, StopsWriting;
    EofNoted(c);
  }

  lemma CloseFollows(c: Chan)
    ensures var e := ChanRcvdClose(c); Follows(c, RcvdClose, e.c, e.sent)
  {
  }

  lemma DataFollows(c: Chan, m: Msg)
    requires !m.Eof? && !m.Close? && Receive(c, m).Some?
    ensures var e := Receive(c, m).value; Follows(c, if m.Eow? then RcvdEow else Nothing, e.c, e.sent)
  {
    hide Add32, Sub32, InputEof, ChanRcvdClose;
  }

  lemma ReceiveFollows(c: Chan, arrived: seq<Msg>)
    requires arrived != [] && Receive(c, arrived[0]).Some?
    ensures var e := Receive(c, arrived[0]).value; Follows(c, CauseOf(c, arrived, Deliver), e.c, e.sent)
  {
    hide Follows, InputEof, ChanRcvdClose, InputData, InputExtendedData, InputConfirm, InputAdjust, ChanRcvdEow;
    match arrived[0]
    case Eof => EofFollows(c);
    case Close => CloseFollows(c);
    case _ => DataFollows(c, arrived[0]);
  }

  lemma ErrReadFollows(c: Chan, force: bool, r: ReadResult)
    ensures Follows(c, CauseOf(c, [], DoErrRead(force, r)), HandleEfdRead(c, r), [])
  {
  }

  lemma ErrWriteFollows(c: Chan, w: WriteResult)
    requires WriteFits(w, |c.extended|)
    ensures Follows(c, CauseOf(c, [], DoErrWrite(w)), HandleEfdWrite(c, w), [])
  {
    hide Add32;
  }

  lemma OtherFollows(c: Chan)
    ensures Follows(c, Nothing, CheckWindow(c).c, CheckWindow(c).sent)
    ensures forall fds, n :: SetFds(c, fds, n).Some? ==>
      var e := SetFds(c, fds, n).value; Follows(c, Nothing, e.c.(fds := c.fds), e.sent)
  {
    hide Add32, Sub32;
  }

  /** Every step of an end moves its sides exactly as the diagrams say. */
  lemma DiagramsFollowed(x: End, arrived: seq<Msg>, ev: Event)
    requires Enabled(x, arrived, ev) && Act(x, arrived, ev).Some?
    ensures var (y, sent) := Act(x, arrived, ev).value;
      Follows(x.c, CauseOf(x.c, arrived, ev), if ev.DoSetFds? then y.c.(fds := x.c.fds) else y.c, sent)
  {
    hide Follows, HandleRfd, HandleWfd, HandleEfdRead, HandleEfdWrite, CheckWindow, OutputPoll, ChanCollect, Receive,
         PreOpen, SetFds;
    match ev
    case DoPreOpen(tcpwin) => PreOpenFollows(x.c, tcpwin);
    case DoRead(force, r) => ReadFollows(x.c, force, r);
    case DoWrite(w) => WriteFollows(x.c, w);
    case DoErrRead(force, r) => ErrReadFollows(x.c, force, r);
    case DoErrWrite(w) => ErrWriteFollows(x.c, w);
    case DoCheckWindow => OtherFollows(x.c);
    case DoOutputPoll => PollFollows(x.c);
    case DoCollect => CollectFollows(x.c);
    case DoSetFds(fds, windowMax) => OtherFollows(x.c);
    case Deliver => ReceiveFollows(x.c, arrived);
  }
}
