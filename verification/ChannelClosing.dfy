/**
 Every channel can be brought to its end: from every state of every run in which neither end has failed or
 was closed, all that was read can still be written out on the other side, and both ends be freed.
 */
module ChannelClosing {
  import opened Bytes
  import opened FifoBuffer
  import opened ChannelSpec
  import opened ChannelLinks
  import opened ChannelMemory
  import opened ChannelSystem
  import opened ChannelTheorems
  import opened ChannelRuns
  import opened ChannelProgress

  // ---- Ending the input ----

  /** What one end keeps while its sides are ended: its windows, what stderr is for, and its receiving side. */
  predicate Winds(c: Chan, d: Chan) {
    && d.ctype == c.ctype && d.options == c.options && d.fds.usage == c.fds.usage
    && (c.fds.usage == ExtWrite ==> d.fds.efd == c.fds.efd)
    && d.win.localMax == c.win.localMax && d.win.localMaxpacket == c.win.localMaxpacket
    && d.flags.closeSent == c.flags.closeSent && d.flags.closeRcvd == c.flags.closeRcvd
    && (c.flags.eofSent ==> d.flags.eofSent) && (c.flags.eofRcvd ==> d.flags.eofRcvd)
    && (Receiving(c) ==> Receiving(d))
  }

  lemma WindsKeep(c: Chan, d: Chan)
    requires Winds(c, d)
    ensures Suffices(c) ==> Suffices(d)
    ensures d.ctype == c.ctype && d.flags.AnyClose() == c.flags.AnyClose()
    ensures forall r: Chan :: (ErrServed(c, r) ==> ErrServed(d, r)) && (ErrServed(r, c) ==> ErrServed(r, d))
  {
    hide BufferSuffices, Receiving;
  }

  lemma WindsTwice(c: Chan, d: Chan, e: Chan)
    requires Winds(c, d) && Winds(d, e)
    ensures Winds(c, e)
  {
    hide Receiving;
  }

  lemma RoleWinds(c: Chan, d: Chan)
    requires SameRole(c, d) && (Receiving(c) ==> Receiving(d))
    ensures Winds(c, d)
  {
    hide Receiving;
  }

  /** A step of `x` that only winds it up; at most an EOF is sent. */
  ghost predicate Wound(v: Sys, t: Sys) {
    && Sound(t) && Winds(v.x.c, t.x.c) && SameReads(v.x, t.x)
    && t.y == v.y && t.yx == v.yx && (t.xy == v.xy || t.xy == v.xy + [Eof])
  }

  lemma LastRead(c: Chan)
    requires c.ctype == Open && c.istate == InOpen && c.fds.rfd
    ensures var d := HandleRfd(c, ReadFailed);
      Winds(c, d) && d.istate == InWaitDrain && d.input == c.input && d.extended == c.extended && d.flags == c.flags
      && d.fds.efd == c.fds.efd
  {
  }

  lemma LastErrRead(c: Chan)
    requires c.ctype == Open && c.fds.efd && c.fds.usage == ExtRead
    ensures var d := HandleEfdRead(c, ReadFailed);
      Winds(c, d) && d.istate == c.istate && d.input == c.input && d.extended == c.extended && d.flags == c.flags
      && !d.fds.efd
  {
  }

  lemma LastPoll(c: Chan)
    requires c.ctype == Open && !c.flags.AnyClose() && c.istate == InWaitDrain
    requires c.input == [] && !(c.fds.usage == ExtRead && (c.fds.efd || c.extended != []))
    ensures var e := OutputPoll(c);
      Winds(c, e.c) && e.sent == [Eof] && e.c.istate == InClosed && e.c.flags.eofSent
  {
    assert [Eof] + [] == [Eof];
  }

  lemma ReadEnd(v: Sys, swapped: bool) returns (t: Sys)
    requires Reached(v, swapped) && Sound(v) && v.x.c.istate == InOpen && v.x.c.fds.rfd
    ensures Reached(t, swapped) && Wound(v, t) && t.x.c.istate == InWaitDrain && t.x.c.input == v.x.c.input
    ensures t.x.c.extended == v.x.c.extended && t.x.c.flags == v.x.c.flags && t.xy == v.xy
    ensures t.x.c.fds.efd == v.x.c.fds.efd
  {
    hide Reached, Suffices, Winds, HandleRfd;
    LastRead(v.x.c);
    StepReached(v, swapped, DoRead(true, ReadFailed));
    t := StepX(v, DoRead(true, ReadFailed));
    WindsKeep(v.x.c, t.x.c);
    assert v.xy + [] == v.xy;
  }

  lemma ErrReadEnd(v: Sys, swapped: bool) returns (t: Sys)
    requires Reached(v, swapped) && Sound(v) && v.x.c.fds.efd && v.x.c.fds.usage == ExtRead
    ensures Reached(t, swapped) && Wound(v, t) && t.x.c.istate == v.x.c.istate && t.x.c.input == v.x.c.input
    ensures t.x.c.extended == v.x.c.extended && t.x.c.flags == v.x.c.flags && !t.x.c.fds.efd && t.xy == v.xy
  {
    hide Reached, Suffices, Winds, HandleEfdRead;
    LastErrRead(v.x.c);
    StepReached(v, swapped, DoErrRead(true, ReadFailed));
    t := StepX(v, DoErrRead(true, ReadFailed));
    WindsKeep(v.x.c, t.x.c);
    assert v.xy + [] == v.xy;
  }

  lemma PollEnd(v: Sys, swapped: bool) returns (t: Sys)
    requires Reached(v, swapped) && Sound(v) && v.x.c.istate == InWaitDrain
    requires v.x.c.input == [] && !(v.x.c.fds.usage == ExtRead && (v.x.c.fds.efd || v.x.c.extended != []))
    ensures Reached(t, swapped) && Wound(v, t) && t.x.c.istate == InClosed && t.x.c.flags.eofSent
  {
    hide Reached, Suffices, Winds, OutputPoll, MemoryAfter;
    LastPoll(v.x.c);
    StepReached(v, swapped, DoOutputPoll);
    t := StepX(v, DoOutputPoll);
    WindsKeep(v.x.c, t.x.c);
  }

  lemma WoundTwice(v: Sys, u: Sys, t: Sys)
    requires Wound(v, u) && Wound(u, t) && u.xy == v.xy
    ensures Wound(v, t)
  {
    hide Suffices, Winds;
    WindsTwice(v.x.c, u.x.c, t.x.c);
  }

  lemma WoundNot(v: Sys)
    requires Sound(v)
    ensures Wound(v, v)
  {
    hide Suffices;
  }

  lemma EofIsClosed(v: Sys, swapped: bool)
    requires Reached(v, swapped)
    ensures v.x.c.flags.eofSent ==> v.x.c.istate == InClosed
    ensures v.x.c.flags.eofRcvd ==> v.x.c.ostate != OutOpen
  {
    var states, i := ReachedInv(v, swapped);
    hide Reached, Dir, LocalCredit;
  }

  /** With nothing left to send, `x` reads the ends of its input and of stderr, and tells EOF. */
  lemma EndInput(v: Sys, swapped: bool) returns (t: Sys)
    requires Reached(v, swapped) && Sound(v) && EndHeld(v.x.c) && Unsent(v.x.c) == 0
    ensures Reached(t, swapped) && Wound(v, t) && t.x.c.istate == InClosed && t.x.c.flags.eofSent
  {
    hide Reached, Suffices, Winds, Wound;
    EofIsClosed(v, swapped);
    if v.x.c.flags.eofSent {
      WoundNot(v);
      t := v;
    } else {
      t := v;
      WoundNot(v);
      if v.x.c.istate == InOpen {
        t := ReadEnd(v, swapped);
        WoundIsSound(v, t);
      }
      if t.x.c.fds.efd && t.x.c.fds.usage == ExtRead {
        var u := ErrReadEnd(t, swapped);
        WoundTwice(v, t, u);
        WoundIsSound(t, u);
        t := u;
      }
      var u := PollEnd(t, swapped);
      WoundTwice(v, t, u);
      t := u;
    }
  }

  lemma WoundIsSound(v: Sys, t: Sys)
    requires Wound(v, t)
    ensures Sound(t) && t.x.c.fds.usage == v.x.c.fds.usage
  {
    hide Suffices, Receiving;
  }

  // ---- Closing the output ----

  lemma EofArrived(v: Sys, swapped: bool)
    requires Reached(v, swapped)
    ensures v.yx == [] && v.y.c.flags.eofSent ==> v.x.c.flags.eofRcvd
    ensures v.x.c.flags.eofRcvd && OnlyEofs(v.yx) ==> v.yx == []
  {
    hide Reached, Good;
    var states, i := ReachedInv(v, swapped);
    EofOnLink(v);
  }

  lemma EofOnLink(v: Sys)
    requires Good(v.x, v.y, v.xy, v.yx)
    ensures v.yx == [] && v.y.c.flags.eofSent ==> v.x.c.flags.eofRcvd
    ensures v.x.c.flags.eofRcvd && OnlyEofs(v.yx) ==> v.yx == []
  {
    hide CrossCredit, StreamIntact, ErrStreamIntact, EofComplete, LocalInv, LinkLimit;
    assert v.yx != [] ==> v.yx[0] in v.yx;
  }

  lemma PreOpenCloses(c: Chan)
    requires c.ctype == Open && c.flags.eofRcvd && c.ostate != OutOpen && c.output == []
    requires c.fds.efd ==> c.ErrIncoming() == []
    ensures var d := PreOpen(c, BUFFER_MAX_LEN_HPN);
      && Winds(c, d) && d.ostate == OutClosed && d.istate == c.istate && d.flags == c.flags && SameUnsent(c, d)
      && (EndHeld(c) ==> EndHeld(d))
  {
  }

  lemma PreOpenStep(v: Sys, swapped: bool) returns (t: Sys)
    requires Reached(v, swapped) && Sound(v) && v.x.c.flags.eofRcvd && v.x.c.output == []
    requires v.x.c.fds.efd ==> v.x.c.ErrIncoming() == []
    ensures Reached(t, swapped) && Wound(v, t) && t.xy == v.xy && t.x.c.ostate == OutClosed
    ensures t.x.c.istate == v.x.c.istate && t.x.c.flags == v.x.c.flags && SameUnsent(v.x.c, t.x.c)
    ensures EndHeld(v.x.c) ==> EndHeld(t.x.c)
  {
    hide Reached, Suffices, Winds, PreOpen, PreOpenMemory, SameUnsent, EndHeld;
    EofIsClosed(v, swapped);
    PreOpenCloses(v.x.c);
    StepReached(v, swapped, DoPreOpen(BUFFER_MAX_LEN_HPN));
    t := StepX(v, DoPreOpen(BUFFER_MAX_LEN_HPN));
    WindsKeep(v.x.c, t.x.c);
    assert v.xy + [] == v.xy;
  }

  /** `x` takes what is on its way, writes everything out and closes its output; at most EOFs are answered. */
  ghost predicate OutputEnded(v: Sys, t: Sys, eofs: seq<Msg>) {
    && Sound(t) && Winds(v.x.c, t.x.c) && SameReads(v.x, t.x) && SameUnsent(v.x.c, t.x.c)
    && t.y == v.y && t.yx == [] && t.xy == v.xy + eofs && OnlyEofs(eofs)
    && t.x.c.ostate == OutClosed && t.x.c.flags.eofRcvd
    && (EndHeld(v.x.c) && Eow !in v.yx ==> EndHeld(t.x.c))
  }

  lemma EndOutput(v: Sys, swapped: bool) returns (t: Sys, eofs: seq<Msg>)
    requires Reached(v, swapped) && Sound(v) && Receiving(v.x.c) && v.y.c.flags.eofSent
    ensures Reached(t, swapped) && OutputEnded(v, t, eofs)
  {
    hide Reached, Suffices, Winds, SameRole, SameUnsent, Receiving, EndHeld, InputHeld, Chan.ErrIncoming, OnlyEofs;
    var u;
    u, eofs := TakeAll(v, swapped);
    EofArrived(u, swapped);
    var w := WriteAll(u, swapped);
    EofArrived(w, swapped);
    t := PreOpenStep(w, swapped);
    RoleWinds(v.x.c, u.x.c);
    RoleWinds(u.x.c, w.x.c);
    WindsTwice(v.x.c, u.x.c, w.x.c);
    WindsTwice(v.x.c, w.x.c, t.x.c);
    WoundIsSound(w, t);
    UnsentTwice(v.x.c, u.x.c, w.x.c);
    UnsentTwice(v.x.c, w.x.c, t.x.c);
  }

  lemma UnsentTwice(c: Chan, d: Chan, e: Chan)
    requires SameUnsent(c, d) && SameUnsent(d, e)
    ensures SameUnsent(c, e)
  {
    hide Chan.ErrOutgoing;
  }

  // ---- Both ends ----

  /** Everything was sent on both sides, and both may still receive it and tell their ends. */
  ghost predicate Ready(v: Sys) {
    && Sound(v) && Receiving(v.x.c) && Receiving(v.y.c) && !v.x.failed && !v.y.failed
    && ErrServed(v.x.c, v.y.c) && ErrServed(v.y.c, v.x.c) && EndHeld(v.x.c) && EndHeld(v.y.c)
    && Unsent(v.x.c) == 0 && Unsent(v.y.c) == 0 && Eow !in v.xy && Eow !in v.yx
  }

  lemma GetReady(v: Sys, swapped: bool) returns (t: Sys)
    requires Reached(v, swapped) && Both(v)
    ensures Reached(t, swapped) && Ready(t) && SameReads(v.x, t.x) && SameReads(v.y, t.y)
    ensures t.x.c.options == v.x.c.options && t.y.c.options == v.y.c.options
  {
    hide Reached, Receiving, InputHeld, EndHeld, Suffices, ErrServed, Settled, Unsent, Chan.ErrIncoming;
    var u := Empty(v, swapped);
    SwapTwice(u);
    var w := Empty(Swap(u), !swapped);
    SwapTwice(w);
    t := Swap(w);
  }

  /** Both ends have told EOF. */
  ghost predicate Told(v: Sys) {
    && Sound(v) && Receiving(v.x.c) && Receiving(v.y.c) && !v.x.failed && !v.y.failed
    && ErrServed(v.x.c, v.y.c) && ErrServed(v.y.c, v.x.c)
    && v.x.c.flags.eofSent && v.y.c.flags.eofSent
  }

  lemma WoundServed(v: Sys, t: Sys)
    requires Wound(v, t)
    ensures Sound(t) && (Receiving(v.x.c) ==> Receiving(t.x.c)) && t.x.c.options == v.x.c.options
    ensures ErrServed(v.x.c, v.y.c) ==> ErrServed(t.x.c, t.y.c)
    ensures ErrServed(v.y.c, v.x.c) ==> ErrServed(t.y.c, t.x.c)
    ensures v.x.c.flags.eofSent ==> t.x.c.flags.eofSent
  {
    hide Suffices, Receiving;
    WindsKeep(v.x.c, t.x.c);
  }

  lemma Tell(v: Sys, swapped: bool) returns (t: Sys)
    requires Reached(v, swapped) && Ready(v)
    ensures Reached(t, swapped) && Told(t) && SameReads(v.x, t.x) && SameReads(v.y, t.y)
    ensures t.x.c.options == v.x.c.options && t.y.c.options == v.y.c.options
  {
    hide Reached, Receiving, EndHeld, Suffices, ErrServed, Unsent, Winds;
    var u := EndInput(v, swapped);
    WoundServed(v, u);
    SwapTwice(u);
    var w := EndInput(Swap(u), !swapped);
    WoundServed(Swap(u), w);
    SwapTwice(w);
    t := Swap(w);
  }

  lemma OutputServed(v: Sys, t: Sys, eofs: seq<Msg>)
    requires OutputEnded(v, t, eofs)
    ensures Sound(t) && (Receiving(v.x.c) ==> Receiving(t.x.c)) && t.x.c.options == v.x.c.options
    ensures ErrServed(v.x.c, v.y.c) ==> ErrServed(t.x.c, t.y.c)
    ensures ErrServed(v.y.c, v.x.c) ==> ErrServed(t.y.c, t.x.c)
    ensures v.x.c.flags.eofSent ==> t.x.c.flags.eofSent
  {
    hide Suffices, Receiving;
    WindsKeep(v.x.c, t.x.c);
  }

  /** All four sides are closed, and nothing is on its way. */
  ghost predicate Shut(v: Sys) {
    && Told(v) && v.xy == [] && v.yx == []
    && v.x.c.flags.eofRcvd && v.y.c.flags.eofRcvd
    && v.x.c.istate == InClosed && v.y.c.istate == InClosed
    && v.x.c.ostate == OutClosed && v.y.c.ostate == OutClosed
  }

  lemma ShutDown(v: Sys, swapped: bool) returns (t: Sys)
    requires Reached(v, swapped) && Told(v)
    ensures Reached(t, swapped) && Shut(t) && SameReads(v.x, t.x) && SameReads(v.y, t.y)
    ensures t.x.c.options == v.x.c.options && t.y.c.options == v.y.c.options
  {
    hide Reached, Receiving, EndHeld, Suffices, ErrServed, Winds, SameUnsent, OnlyEofs;
    var u, e := EndOutput(v, swapped);
    OutputServed(v, u, e);
    SwapTwice(u);
    var w, g := EndOutput(Swap(u), !swapped);
    OutputServed(Swap(u), w, g);
    SwapTwice(w);
    t := Swap(w);
    EofIsClosed(t, swapped);
    EofIsClosed(w, !swapped);
    assert t.yx == [] + g == g;
    EofArrived(t, swapped);
  }

  /** Then everything that was read has been written out. */
  lemma ShutIsComplete(v: Sys, swapped: bool)
    requires Reached(v, swapped) && Shut(v)
    ensures v.y.written == v.x.read && (!v.x.c.options.forceDrain ==> v.y.errWritten == v.x.errRead)
  {
    hide Reached, Receiving, ErrServed, Suffices;
    var states, i := ReachedInv(v, swapped);
    ShutIsEmpty(v);
    EofMeansComplete(states, i, v.x, v.y, v.xy, v.yx);
    if !v.x.c.options.forceDrain {
      if v.y.leaked == 0 {
        EofMeansStderrComplete(states, i, v.x, v.y, v.xy, v.yx);
        assert v.y.errWritten + [] == v.y.errWritten;
      } else {
        StreamsIntact(states, i, v.x, v.y, v.xy, v.yx);
      }
    }
  }

  lemma ShutIsEmpty(v: Sys)
    requires Good(v.x, v.y, v.xy, v.yx) && v.y.c.ostate == OutClosed && Receiving(v.y.c) && ErrServed(v.x.c, v.y.c)
    ensures v.y.c.output == [] && v.y.c.ErrIncoming() == []
    ensures v.y.leaked == 0 || v.x.errRead == []
  {
    hide CrossCredit, StreamIntact, Orderly, LocalCredit, Bounded, Lifecycle, EofComplete, ErrSettled;
    assert v.y.errWritten + v.y.c.ErrIncoming() <= v.x.errRead;
  }

  // ---- CLOSE ----

  /** An end that has sent CLOSE, with all else as in `e`. */
  function Closing(e: End): End { e.(c := e.c.(flags := e.c.flags.(closeSent := true))) }

  function Closed(e: End): End {
    e.(c := e.c.(flags := e.c.flags.(closeSent := true, closeRcvd := true)))
  }

  lemma SendClose(v: Sys, swapped: bool) returns (t: Sys)
    requires Reached(v, swapped) && Running(v) && v.x.c.istate == InClosed && v.x.c.ostate == OutClosed
    requires !v.x.c.flags.AnyClose()
    ensures Reached(t, swapped) && t == v.(x := Closing(v.x), xy := v.xy + [Close])
  {
    hide Reached;
    StepReached(v, swapped, DoCollect);
    t := StepX(v, DoCollect);
  }

  lemma TakeClose(v: Sys, swapped: bool, e: End) returns (t: Sys)
    requires Reached(v, swapped) && Running(v) && v.x == Closing(e) && v.yx == [Close]
    requires e.c.ctype == Open && e.c.istate == InClosed && e.c.ostate == OutClosed && !e.c.flags.AnyClose()
    ensures Reached(t, swapped) && t == v.(x := Closed(e), yx := [])
  {
    hide Reached;
    StepReached(v, swapped, Deliver);
    t := StepX(v, Deliver);
    assert v.yx[1..] == [] && v.xy + [] == v.xy;
  }

  lemma CloseBoth(v: Sys, swapped: bool) returns (t: Sys)
    requires Reached(v, swapped) && Shut(v)
    ensures Reached(t, swapped) && t == v.(x := Closed(v.x), y := Closed(v.y))
  {
    hide Reached, Receiving, ErrServed, Suffices, StepX, Closing, Closed;
    assert [] + [Close] == [Close];
    t := SendClose(v, swapped);
    SwapTwice(t);
    t := SendClose(Swap(t), !swapped);
    t := TakeClose(t, !swapped, v.y);
    SwapTwice(t);
    t := TakeClose(Swap(t), swapped, v.x);
  }

  /**
   From every state of every run in which neither end has failed or was closed: all that was read can still
   be written out on the other side, and both ends be closed and freed.
   */
  lemma EveryChannelCloses(v: Sys, swapped: bool) returns (t: Sys)
    requires Reached(v, swapped) && Both(v)
    ensures Reached(t, swapped) && Running(t) && Freed(t.x.c) && Freed(t.y.c) && t.xy == [] && t.yx == []
    ensures t.x.read == v.x.read == t.y.written && t.y.read == v.y.read == t.x.written
    ensures !v.x.c.options.forceDrain ==> t.y.errWritten == v.x.errRead
    ensures !v.y.c.options.forceDrain ==> t.x.errWritten == v.y.errRead
  {
    hide Reached, Ready, Told, Both;
    t := GetReady(v, swapped);
    t := Tell(t, swapped);
    t := ShutDown(t, swapped);
    ShutIsComplete(t, swapped);
    SwapTwice(t);
    ShutSwapped(t);
    ShutIsComplete(Swap(t), !swapped);
    ShutRuns(t);
    t := CloseBoth(t, swapped);
  }

  lemma ShutSwapped(v: Sys)
    requires Shut(v)
    ensures Shut(Swap(v))
  {
    hide Receiving, ErrServed, Suffices;
  }

  lemma ShutRuns(v: Sys)
    requires Shut(v)
    ensures Running(v)
  {
    hide Receiving, ErrServed, Suffices;
  }

  /** So it is for a new session with stderr, whatever its window of two bytes and more that its buffers hold. */
  lemma NewChannelCloses(w: nat, p: nat) returns (v: Sys)
    requires 2 <= w < U32_RANGE && 1 <= p <= MAX_CHUNK && BufferSuffices(w, p)
    ensures Reached(v, false) && Both(v) && v.x.c.win.localMax == w == v.y.c.win.localMax
    ensures ErrServed(v.x.c, v.y.c) && v.y.c.fds.usage == ExtRead && v.x.c.fds.usage == ExtWrite
  {
    hide Reachable, BufferSuffices;
    ReachesConnected(w, p, false, ERR_WRITE, ERR_READ);
    v := Connected(w, p, false, ERR_WRITE, ERR_READ);
  }
}
