/**
 What runs can always still do: polling sends all that was read, as far as the window goes, and from every
 state of every run all that was read can still reach the other side.
 */
module ChannelProgress {
  import opened Bytes
  import opened FifoBuffer
  import opened ChannelSpec
  import opened ChannelLinks
  import opened ChannelMemory
  import opened ChannelSystem
  import opened ChannelTheorems
  import opened ChannelRuns

  // ---- Either end as `x` ----

  /** Some run leads to `v`, or with `swapped` to `v` with its ends exchanged. */
  ghost predicate Reached(v: Sys, swapped: bool) { Reachable(if swapped then Swap(v) else v) }

  lemma StepReached(v: Sys, swapped: bool, ev: Event)
    requires Reached(v, swapped) && Running(v) && Enabled(v.x, v.yx, ev)
    ensures Reached(StepX(v, ev), swapped)
  {
    hide Reachable, Enabled, StepX;
    SwapTwice(v);
    if swapped {
      ReachesY(Swap(v), ev);
    } else {
      ReachesX(v, ev);
    }
  }

  lemma SwapTwice(v: Sys)
    ensures Swap(Swap(v)) == v && Swap(v).x == v.y && Swap(v).y == v.x && Swap(v).xy == v.yx && Swap(v).yx == v.xy
    ensures Running(Swap(v)) == Running(v)
    ensures forall swapped :: Reached(v, swapped) == Reached(Swap(v), !swapped)
  {
    hide Reachable;
  }

  /** The invariant, and what follows from it for such a state. */
  lemma ReachedInv(v: Sys, swapped: bool) returns (states: seq<Sys>, i: nat)
    requires Reached(v, swapped)
    ensures Good(v.x, v.y, v.xy, v.yx) && Stored(v.x) && Stored(v.y)
    ensures Linked(states, i, v.x, v.y, v.xy, v.yx) && Linked(states, i, v.y, v.x, v.yx, v.xy)
  {
    hide IsRun, Good, Stored;
    var s := if swapped then Swap(v) else v;
    states :| IsRun(states) && states != [] && states[|states| - 1] == s;
    i := |states| - 1;
    LinkedGood(states, i, v.x, v.y, v.xy, v.yx);
    LinkedStored(states, i, v.x, v.y, v.xy, v.yx);
  }

  lemma {:induction false} BytesAppend(f: seq<Msg>, g: seq<Msg>)
    ensures DataBytes(f + g) == DataBytes(f) + DataBytes(g)
    ensures ErrBytes(f + g) == ErrBytes(f) + ErrBytes(g)
    ensures Credits(f + g) == Credits(f) + Credits(g)
  {
    if f == [] {
      assert f + g == g;
    } else {
      assert (f + g)[1..] == f[1..] + g;
      BytesAppend(f[1..], g);
    }
  }

  lemma BytesOne(m: Msg)
    ensures DataBytes([m]) == DataOf(m) && ErrBytes([m]) == ErrOf(m) && Credits([m]) == CreditOf(m)
    ensures DataBytes([]) == [] && ErrBytes([]) == [] && Credits([]) == 0
  {
    assert [m][1..] == [];
  }

  // ---- Polling ----

  /** An end that may send: what it has read and not sent fits the window. */
  predicate MayPoll(c: Chan) {
    && c.ctype == Open && !c.flags.AnyClose() && c.istate != InClosed && !c.flags.eofSent
    && c.win.Fits() && c.win.remoteMaxpacket >= 1
    && |c.input| + |c.ErrOutgoing()| <= c.win.remote
  }

  /** Nothing is left but to tell the end of the input. */
  predicate OnlyEofLeft(c: Chan) { c.input == [] && c.istate == InWaitDrain && !c.EfdInputActive() }

  predicate Carries(sent: seq<Msg>) { forall m :: m in sent ==> m.Data? || m.ExtData? }

  lemma PollInputSends(c: Chan)
    requires MayPoll(c)
    ensures var e, n := PollInput(c), Min(|c.input|, c.win.remoteMaxpacket);
      if c.input != []
      then e == Effect(c.(input := c.input[n..], win := c.win.(remote := c.win.remote - n)), [Data(c.input[..n])])
      else if OnlyEofLeft(c) then e == Effect(c.(flags := c.flags.(eofSent := true), istate := InClosed), [Eof])
      else e == Effect(c, [])
  {
    hide Sub32;
    SpentIs(c.win, SendLength(c.win, |c.input|));
  }

  lemma SpentIs(w: Windows, n: nat)
    requires w.Fits() && n <= w.remote
    ensures Spent(w, n) == w.(remote := w.remote - n)
  {
  }

  lemma PollErrSends(c: Chan)
    requires MayPoll(c)
    ensures var e, n := PollExtended(c), Min(|c.ErrOutgoing()|, c.win.remoteMaxpacket);
      if c.ErrOutgoing() != []
      then e == Effect(c.(extended := c.extended[n..], win := c.win.(remote := c.win.remote - n)),
                       [ExtData(STDERR_CODE, c.extended[..n])])
      else e == Effect(c, [])
  {
    hide Sub32;
    SpentIs(c.win, SendLength(c.win, |c.extended|));
  }

  /** The packets take the front of what there is, and nothing else changes for a sender. */
  predicate Moves(c: Chan, e: Effect) {
    && Carries(e.sent)
    && DataBytes(e.sent) + e.c.input == c.input && ErrBytes(e.sent) + e.c.ErrOutgoing() == c.ErrOutgoing()
    && MayPoll(e.c) && e.c.istate == c.istate && e.c.fds == c.fds
  }

  predicate PollMoves(c: Chan, e: Effect) {
    if OnlyEofLeft(c) then e == Effect(c.(flags := c.flags.(eofSent := true), istate := InClosed), [Eof])
    else
      && Moves(c, e)
      && (c.input != [] || c.ErrOutgoing() != [] ==>
            |e.c.input| + |e.c.ErrOutgoing()| < |c.input| + |c.ErrOutgoing()|)
  }

  lemma InputMoves(c: Chan)
    requires MayPoll(c) && !OnlyEofLeft(c)
    ensures var e := PollInput(c);
      && Moves(c, e) && e.c.ErrOutgoing() == c.ErrOutgoing()
      && |e.c.input| <= |c.input| && (c.input != [] ==> |e.c.input| < |c.input|)
  {
    hide PollInput, DataBytes, ErrBytes;
    PollInputSends(c);
    BytesOne(Data(c.input[..Min(|c.input|, c.win.remoteMaxpacket)]));
  }

  lemma ErrMoves(c: Chan)
    requires MayPoll(c)
    ensures var e := PollExtended(c);
      && Moves(c, e) && e.c.input == c.input
      && |e.c.ErrOutgoing()| <= |c.ErrOutgoing()| && (c.ErrOutgoing() != [] ==> |e.c.ErrOutgoing()| < |c.ErrOutgoing()|)
  {
    hide PollExtended, DataBytes, ErrBytes;
    PollErrSends(c);
    BytesOne(ExtData(STDERR_CODE, c.extended[..Min(|c.ErrOutgoing()|, c.win.remoteMaxpacket)]));
  }

  lemma MovesTwice(c: Chan, first: Effect, second: Effect)
    requires Moves(c, first) && Moves(first.c, second)
    ensures Moves(c, Effect(second.c, first.sent + second.sent))
  {
    hide DataBytes, ErrBytes, MayPoll, Chan.ErrOutgoing;
    BytesAppend(first.sent, second.sent);
  }

  lemma MoverIsOpen(c: Chan)
    requires MayPoll(c)
    ensures c.ctype == Open && !c.flags.AnyClose()
  {
  }

  lemma OnePoll(c: Chan)
    requires MayPoll(c)
    ensures PollMoves(c, OutputPoll(c))
  {
    hide PollInput, PollExtended, MayPoll, Moves;
    MoverIsOpen(c);
    var first := PollInput(c);
    if OnlyEofLeft(c) {
      PollInputSends(c);
      NoErrAfterEof(first.c);
      assert [Eof] + [] == [Eof];
    } else {
      InputMoves(c);
      MovesOn(c, first);
      ErrMoves(first.c);
      MovesTwice(c, first, PollExtended(first.c));
    }
  }

  lemma MovesOn(c: Chan, e: Effect)
    requires Moves(c, e)
    ensures MayPoll(e.c)
  {
  }

  lemma NoErrAfterEof(c: Chan)
    requires c.flags.eofSent
    ensures PollExtended(c) == Effect(c, [])
  {
  }

  function Polled(v: Sys): Sys { if Freed(v.x.c) then v else StepX(v, DoOutputPoll) }

  /** `k` polls of `x`, and nothing else. */
  function Polls(v: Sys, k: nat): Sys
    decreases k
  {
    if k == 0 then v else Polls(Polled(v), k - 1)
  }

  lemma PolledIs(v: Sys)
    requires !Freed(v.x.c)
    ensures var e, t := OutputPoll(v.x.c), Polled(v);
      && t.x.c == e.c && t.xy == v.xy + e.sent && t.y == v.y && t.yx == v.yx && Running(t) == Running(v)
    ensures Enabled(v.x, v.yx, DoOutputPoll) && Polled(v) == StepX(v, DoOutputPoll)
  {
    hide OutputPoll, MemoryAfter;
  }

  /** All data and stderr is sent, then EOF if the input has ended and no more stderr can come. */
  predicate Drains(c: Chan, d: Chan, sent: seq<Msg>) {
    && DataBytes(sent) == c.input && ErrBytes(sent) == c.ErrOutgoing() && d.input == [] && d.ErrOutgoing() == []
    && if c.istate == InWaitDrain && !(c.fds.usage == ExtRead && c.fds.efd)
       then sent != [] && sent[|sent| - 1] == Eof && Carries(sent[..|sent| - 1]) && d.istate == InClosed
       else Carries(sent) && d.istate == c.istate
  }

  lemma DrainsNothing(c: Chan)
    requires c.input == [] && c.ErrOutgoing() == [] && !OnlyEofLeft(c) && c.istate != InClosed
    ensures Drains(c, c, [])
  {
    BytesOne(Eof);
  }

  lemma DrainsEof(c: Chan)
    requires OnlyEofLeft(c)
    ensures Drains(c, c.(flags := c.flags.(eofSent := true), istate := InClosed), [Eof])
  {
    BytesOne(Eof);
    assert [Eof][..0] == [];
  }

  lemma DrainsMore(c: Chan, e: Effect, d: Chan, more: seq<Msg>)
    requires PollMoves(c, e) && !OnlyEofLeft(c) && Drains(e.c, d, more)
    ensures Drains(c, d, e.sent + more)
  {
    hide DataBytes, ErrBytes, MayPoll;
    BytesAppend(e.sent, more);
    assert Moves(c, e);
    if more != [] {
      assert (e.sent + more)[..|e.sent + more| - 1] == e.sent + more[..|more| - 1];
    }
  }

  /** An open end that was not closed, with all that it has read and not sent within the window. */
  predicate WithinWindow(c: Chan) {
    && c.ctype == Open && !c.flags.AnyClose() && c.istate != InClosed && c.win.remoteMaxpacket >= 1
    && |c.input| + |c.ErrOutgoing()| <= c.win.remote
  }

  /**
   From every state of every run: as long as the window allows it, polling alone puts on the link all that
   was read, in order, and then one EOF if the input has ended.
   */
  lemma PollsDrain(v: Sys, swapped: bool) returns (k: nat, sent: seq<Msg>)
    requires Reached(v, swapped) && Running(v) && WithinWindow(v.x.c)
    ensures var t := Polls(v, k);
      && Reached(t, swapped) && Running(t) && t.xy == v.xy + sent && t.y == v.y && t.yx == v.yx
      && Drains(v.x.c, t.x.c, sent)
  {
    hide Reached, Polls, Drains;
    SenderFits(v, swapped);
    k, sent := PollsDrainOn(v, swapped);
  }

  lemma SenderFits(v: Sys, swapped: bool)
    requires Reached(v, swapped) && WithinWindow(v.x.c)
    ensures MayPoll(v.x.c)
  {
    var states, i := ReachedInv(v, swapped);
    hide Reached, Dir, LocalCredit;
  }

  lemma {:induction false} PollsDrainOn(v: Sys, swapped: bool) returns (k: nat, sent: seq<Msg>)
    requires Reached(v, swapped) && Running(v) && MayPoll(v.x.c)
    ensures var t := Polls(v, k);
      && Reached(t, swapped) && Running(t) && t.xy == v.xy + sent && t.y == v.y && t.yx == v.yx
      && Drains(v.x.c, t.x.c, sent)
    decreases |v.x.c.input| + |v.x.c.ErrOutgoing()|
  {
    hide Reached, StepX, OutputPoll, Drains, PollMoves, Enabled;
    var c := v.x.c;
    if c.input == [] && c.ErrOutgoing() == [] && !OnlyEofLeft(c) {
      DrainsNothing(c);
      k, sent := 0, [];
      assert v.xy + [] == v.xy;
    } else {
      OnePoll(c);
      PolledIs(v);
      StepReached(v, swapped, DoOutputPoll);
      var e := OutputPoll(c);
      if OnlyEofLeft(c) {
        EofPolled(c, e);
        DrainsEof(c);
        k, sent := 1, [Eof];
        assert Polls(Polled(v), 0) == Polled(v);
      } else {
        MorePolled(c, e);
        k, sent := PollsDrainOn(Polled(v), swapped);
        DrainsMore(c, e, Polls(Polled(v), k).x.c, sent);
        assert v.xy + e.sent + sent == v.xy + (e.sent + sent);
        k, sent := k + 1, e.sent + sent;
      }
    }
  }

  lemma EofPolled(c: Chan, e: Effect)
    requires PollMoves(c, e) && OnlyEofLeft(c)
    ensures e == Effect(c.(flags := c.flags.(eofSent := true), istate := InClosed), [Eof])
  {
    hide Moves;
  }

  lemma MorePolled(c: Chan, e: Effect)
    requires PollMoves(c, e) && !OnlyEofLeft(c)
    ensures MayPoll(e.c)
    ensures c.input != [] || c.ErrOutgoing() != [] ==>
      |e.c.input| + |e.c.ErrOutgoing()| < |c.input| + |c.ErrOutgoing()|
  {
  }

  // ---- Everything arrives ----

  /** A window that its buffers hold, with packets within a chunk. */
  predicate Suffices(c: Chan) {
    1 <= c.win.localMaxpacket <= MAX_CHUNK && BufferSuffices(c.win.localMax, c.win.localMaxpacket)
  }

  /** Two open ends, neither closed, whose buffers hold their windows. */
  predicate Sound(v: Sys) {
    && Running(v) && v.x.c.ctype == Open && v.y.c.ctype == Open
    && !v.x.c.flags.AnyClose() && !v.y.c.flags.AnyClose()
    && Suffices(v.x.c) && Suffices(v.y.c)
  }

  /** What `d` has in common with `c`, which it came from by packets, writes, polls and window checks. */
  predicate SameRole(c: Chan, d: Chan) {
    && d.ctype == c.ctype && d.options == c.options && d.tcpwinsz == c.tcpwinsz
    && d.fds.efd == c.fds.efd && d.fds.usage == c.fds.usage
    && d.win.localMax == c.win.localMax && d.win.localMaxpacket == c.win.localMaxpacket
    && d.win.remoteMaxpacket == c.win.remoteMaxpacket
    && d.flags.closeSent == c.flags.closeSent && d.flags.closeRcvd == c.flags.closeRcvd
    && (c.flags.eofSent ==> d.flags.eofSent) && (c.flags.eofRcvd ==> d.flags.eofRcvd)
  }

  predicate SameUnsent(c: Chan, d: Chan) { d.input == c.input && d.ErrOutgoing() == c.ErrOutgoing() }

  /** A sender whose input side is closed has nothing more to send. */
  predicate InputHeld(c: Chan) { c.input != [] ==> c.istate != InClosed }

  /** An input side that was closed by telling EOF, or can still be read to its end. */
  predicate EndHeld(c: Chan) { (c.istate == InClosed ==> c.flags.eofSent) && (c.istate == InOpen ==> c.fds.rfd) }

  /** An output that is open or was ended by an EOF, and that does not close before stderr is written out. */
  predicate Receiving(c: Chan) {
    && (c.ostate == OutOpen || c.flags.eofRcvd)
    && (c.ostate == OutClosed || c.fds.wfd)
    && (c.ostate == OutClosed && c.fds.efd && c.fds.usage == ExtWrite ==> c.extended == [])
  }

  lemma EofKeepsRole(c: Chan)
    requires c.ctype == Open && !c.flags.AnyClose()
    ensures var e := InputEof(c);
      && SameRole(c, e.c) && SameUnsent(c, e.c) && (e.sent == [] || e.sent == [Eof])
      && (InputHeld(c) ==> InputHeld(e.c)) && (EndHeld(c) ==> EndHeld(e.c)) && e.c.win == c.win
      && (Receiving(c) ==> Receiving(e.c))
  {
  }

  lemma ReceiveKeepsRole(c: Chan, m: Msg)
    requires c.ctype == Open && !c.flags.AnyClose() && !m.Close? && Receive(c, m).Some?
    ensures var e := Receive(c, m).value;
      && SameRole(c, e.c) && SameUnsent(c, e.c) && (e.sent == [] || e.sent == [Eof])
      && (InputHeld(c) && !m.Eow? ==> InputHeld(e.c)) && (EndHeld(c) && !m.Eow? ==> EndHeld(e.c))
      && (!m.Eof? ==> e.c.flags == c.flags)
      && e.c.win.remote == (if m.Adjust? then Add32(c.win.remote, m.credit) else c.win.remote)
      && (Receiving(c) ==> Receiving(e.c))
  {
    hide Add32, Sub32, InputEof;
    if m.Eof? {
      EofKeepsRole(c);
    }
  }

  predicate SameReads(e: End, d: End) { d.read == e.read && d.errRead == e.errRead && d.failed == e.failed }

  /** The head packet is neither a CLOSE nor a confirmation, fits the buffers and does not wrap the window. */
  lemma HeadOf(v: Sys, swapped: bool)
    requires Reached(v, swapped) && Sound(v) && v.yx != []
    ensures !v.yx[0].Close? && !v.yx[0].Confirm? && v.x.c.win.remote + CreditOf(v.yx[0]) < U32_RANGE
    ensures !ReceiveOverflows(v.x.mem, v.x.c, v.yx[0]) && Receive(v.x.c, v.yx[0]).Some?
    ensures v.x.c.win.Fits()
  {
    hide Reached, Linked, ReceiveOverflows, Receive;
    var states, i := ReachedInv(v, swapped);
    DeliveryNeverFatal(states, i, v.y, v.x, v.yx, v.xy);
    ConformingPeers(states, i, v.y, v.x, v.yx, v.xy);
    HeadIsPlain(v);
  }

  lemma HeadIsPlain(v: Sys)
    requires Good(v.x, v.y, v.xy, v.yx) && v.yx != [] && v.x.c.ctype == Open && !v.y.c.flags.AnyClose()
    requires !v.x.c.flags.AnyClose()
    ensures !v.yx[0].Close? && !v.yx[0].Confirm? && v.x.c.win.remote + CreditOf(v.yx[0]) < U32_RANGE
    ensures v.x.c.win.Fits()
  {
    NewsFacts(Snd(v.x), Rcv(v.y), v.xy, v.yx);
    HeadFacts(Snd(v.y), Rcv(v.x), v.yx, v.xy);
    hide Dir, LocalCredit, Lifecycle, ErrSettled, OutputSettled;
  }

  /** What a delivery to `x` leaves as it is. */
  ghost predicate TookOne(v: Sys, t: Sys) {
    && v.yx != [] && Sound(t) && SameRole(v.x.c, t.x.c) && SameUnsent(v.x.c, t.x.c) && SameReads(v.x, t.x)
    && t.y == v.y && t.yx == v.yx[1..] && (t.xy == v.xy || t.xy == v.xy + [Eof])
    && (InputHeld(v.x.c) && !v.yx[0].Eow? ==> InputHeld(t.x.c))
    && (EndHeld(v.x.c) && !v.yx[0].Eow? ==> EndHeld(t.x.c)) && (!v.yx[0].Eof? ==> t.x.c.flags == v.x.c.flags)
    && (Receiving(v.x.c) ==> Receiving(t.x.c))
    && t.x.c.win.remote == v.x.c.win.remote + CreditOf(v.yx[0])
  }

  lemma Take(v: Sys, swapped: bool)
    requires Reached(v, swapped) && Sound(v) && v.yx != []
    ensures var t := StepX(v, Deliver); Reached(t, swapped) && TookOne(v, t)
  {
    hide Reached, ReceiveOverflows, Receive, MemoryAfter, Suffices, SameRole, SameUnsent, Receiving, InputHeld, EndHeld;
    HeadOf(v, swapped);
    ReceiveKeepsRole(v.x.c, v.yx[0]);
    StepReached(v, swapped, Deliver);
    Add32Small(v.x.c.win.remote, CreditOf(v.yx[0]));
    RoleIsSound(v.x.c, Receive(v.x.c, v.yx[0]).value.c);
    assert v.xy + [] == v.xy;
  }

  lemma Add32Small(a: nat, b: nat)
    requires a + b < U32_RANGE
    ensures Add32(a, b) == a + b
  {
  }

  lemma RoleIsSound(c: Chan, d: Chan)
    requires SameRole(c, d)
    ensures Suffices(c) ==> Suffices(d)
    ensures d.ctype == c.ctype && d.flags.AnyClose() == c.flags.AnyClose()
  {
    hide BufferSuffices;
  }

  predicate OnlyEofs(f: seq<Msg>) { forall m :: m in f ==> m.Eof? }

  lemma {:induction false} EofsCarryNothing(f: seq<Msg>)
    requires OnlyEofs(f)
    ensures DataBytes(f) == [] && ErrBytes(f) == [] && Credits(f) == 0
  {
    if f != [] {
      assert f[0] in f && forall m :: m in f[1..] ==> m in f;
      EofsCarryNothing(f[1..]);
    }
  }

  /** All that was on its way to `x` has arrived; at most EOFs were answered. */
  ghost predicate TookAll(v: Sys, t: Sys, eofs: seq<Msg>) {
    && Sound(t) && SameRole(v.x.c, t.x.c) && SameUnsent(v.x.c, t.x.c) && SameReads(v.x, t.x)
    && t.y == v.y && t.yx == [] && t.xy == v.xy + eofs && OnlyEofs(eofs)
    && (InputHeld(v.x.c) && Eow !in v.yx ==> InputHeld(t.x.c)) && (EndHeld(v.x.c) && Eow !in v.yx ==> EndHeld(t.x.c))
    && (Receiving(v.x.c) ==> Receiving(t.x.c))
    && t.x.c.win.remote == v.x.c.win.remote + Credits(v.yx)
  }

  lemma TookNothing(v: Sys)
    requires Sound(v) && v.yx == []
    ensures TookAll(v, v, [])
  {
    hide Suffices;
    assert v.xy + [] == v.xy;
  }

  lemma TookMore(v: Sys, u: Sys, t: Sys, eofs: seq<Msg>) returns (all: seq<Msg>)
    requires TookOne(v, u) && TookAll(u, t, eofs)
    ensures TookAll(v, t, all)
  {
    hide Suffices, Receiving, InputHeld, EndHeld, Chan.ErrOutgoing;
    all := if u.xy == v.xy then eofs else [Eof] + eofs;
    assert v.xy + [Eof] + eofs == v.xy + ([Eof] + eofs);
    assert v.yx == [v.yx[0]] + v.yx[1..];
  }

  lemma {:induction false} TakeAll(v: Sys, swapped: bool) returns (t: Sys, eofs: seq<Msg>)
    requires Reached(v, swapped) && Sound(v)
    ensures Reached(t, swapped) && TookAll(v, t, eofs)
    decreases |v.yx|
  {
    hide Reached, TookAll, StepX, Suffices, SameRole, SameUnsent, Receiving, InputHeld, EndHeld;
    if v.yx == [] {
      TookNothing(v);
      t, eofs := v, [];
    } else {
      Take(v, swapped);
      t, eofs := TakeAll(StepX(v, Deliver), swapped);
      eofs := TookMore(v, StepX(v, Deliver), t, eofs);
    }
  }

  // ---- Writing out and refilling ----

  /** Everything that can be is written out. */
  ghost predicate WroteAll(v: Sys, t: Sys) {
    && Sound(t) && SameRole(v.x.c, t.x.c) && SameUnsent(v.x.c, t.x.c) && SameReads(v.x, t.x)
    && t.y == v.y && t.yx == v.yx && t.xy == v.xy
    && t.x.c.output == [] && (t.x.c.fds.efd ==> t.x.c.ErrIncoming() == [])
    && t.x.c.win.remote == v.x.c.win.remote && Receiving(t.x.c)
    && (InputHeld(v.x.c) ==> InputHeld(t.x.c)) && (EndHeld(v.x.c) ==> EndHeld(t.x.c))
  }

  lemma WriteWhole(c: Chan)
    requires c.ctype == Open && Receiving(c) && c.fds.wfd && c.output != []
    ensures var e := HandleWfd(c, Wrote(|c.output|));
      && e.sent == [] && e.c.output == [] && SameRole(c, e.c) && SameUnsent(c, e.c) && Receiving(e.c)
      && e.c.win.remote == c.win.remote && e.c.istate == c.istate && e.c.ostate == c.ostate && e.c.fds == c.fds
      && e.c.extended == c.extended && (InputHeld(c) ==> InputHeld(e.c)) && (EndHeld(c) ==> EndHeld(e.c))
  {
    hide Add32;
  }

  lemma ErrWriteWhole(c: Chan)
    requires c.ctype == Open && Receiving(c) && c.fds.efd && c.fds.usage == ExtWrite && c.extended != []
    ensures var d := HandleEfdWrite(c, Wrote(|c.extended|));
      && d.extended == [] && SameRole(c, d) && SameUnsent(c, d) && Receiving(d)
      && d.win.remote == c.win.remote && d.output == c.output
      && (InputHeld(c) ==> InputHeld(d)) && (EndHeld(c) ==> EndHeld(d))
  {
    hide Add32;
  }

  lemma WriteOutput(v: Sys, swapped: bool) returns (t: Sys)
    requires Reached(v, swapped) && Sound(v) && Receiving(v.x.c)
    ensures Reached(t, swapped) && Sound(t) && SameRole(v.x.c, t.x.c) && SameUnsent(v.x.c, t.x.c)
    ensures SameReads(v.x, t.x) && t.y == v.y && t.yx == v.yx && t.xy == v.xy && t.x.c.output == []
    ensures t.x.c.win.remote == v.x.c.win.remote && Receiving(t.x.c)
    ensures (InputHeld(v.x.c) ==> InputHeld(t.x.c)) && (EndHeld(v.x.c) ==> EndHeld(t.x.c))
  {
    hide Reached, Suffices, HandleWfd, SameRole, SameUnsent, WriteMemory, InputHeld, EndHeld;
    RoleIsOwn(v.x.c);
    ClosedIsEmpty(v, swapped);
    if v.x.c.output == [] {
      t := v;
    } else {
      var ev := DoWrite(Wrote(|v.x.c.output|));
      WriteWhole(v.x.c);
      StepReached(v, swapped, ev);
      t := StepX(v, ev);
      RoleIsSound(v.x.c, t.x.c);
      assert v.xy + [] == v.xy;
    }
  }

  lemma RoleIsOwn(c: Chan)
    ensures SameRole(c, c) && SameUnsent(c, c)
  {
  }

  lemma ClosedIsEmpty(v: Sys, swapped: bool)
    requires Reached(v, swapped)
    ensures v.x.c.ostate == OutClosed ==> v.x.c.output == []
  {
    var states, i := ReachedInv(v, swapped);
    hide Reached, Dir, LocalCredit, Lifecycle;
  }

  lemma WriteAll(v: Sys, swapped: bool) returns (t: Sys)
    requires Reached(v, swapped) && Sound(v) && Receiving(v.x.c)
    ensures Reached(t, swapped) && WroteAll(v, t)
  {
    hide Reached, Suffices, HandleEfdWrite, SameRole, SameUnsent, ErrWriteMemory, InputHeld, EndHeld;
    t := WriteOutput(v, swapped);
    if t.x.c.fds.efd && t.x.c.fds.usage == ExtWrite && t.x.c.extended != [] {
      var ev, u := DoErrWrite(Wrote(|t.x.c.extended|)), t;
      ErrWriteWhole(u.x.c);
      StillHalfOpen(u.x.c);
      StepReached(u, swapped, ev);
      t := StepX(u, ev);
      RoleTwice(v.x.c, u.x.c, t.x.c);
      RoleIsSound(u.x.c, t.x.c);
      assert u.xy + [] == u.xy;
    }
  }

  lemma StillHalfOpen(c: Chan)
    requires Receiving(c) && c.fds.efd && c.fds.usage == ExtWrite && c.extended != []
    ensures HalfOpen(c)
  {
  }

  lemma RoleTwice(c: Chan, d: Chan, e: Chan)
    requires SameRole(c, d) && SameRole(d, e)
    ensures SameRole(c, e)
    ensures SameUnsent(c, d) && SameUnsent(d, e) ==> SameUnsent(c, e)
  {
    hide Chan.ErrOutgoing;
  }

  /** A window that does not grow when it is checked. */
  predicate Settled(c: Chan) { !c.options.dynamicWindow || c.tcpwinsz <= c.win.localMax }

  /** `x` grants all that it has consumed. */
  ghost predicate Refilled(v: Sys, t: Sys) {
    && Sound(t) && SameRole(v.x.c, t.x.c) && SameUnsent(v.x.c, t.x.c) && SameReads(v.x, t.x)
    && t.y == v.y && t.yx == v.yx
    && t.xy == v.xy + [Adjust(v.x.c.win.consumed)] && v.x.c.win.consumed > 0
    && t.x.c.output == v.x.c.output && t.x.c.extended == v.x.c.extended && t.x.c.istate == v.x.c.istate
    && t.x.c.input == v.x.c.input
    && t.x.c.ostate == v.x.c.ostate && t.x.c.fds == v.x.c.fds && t.x.c.flags == v.x.c.flags
  }

  lemma CheckSettled(c: Chan)
    requires WindowIsLow(c) && Settled(c) && c.win.Fits()
    ensures c.win.consumed > 0
    ensures var e := CheckWindow(c);
      && e.sent == [Adjust(c.win.consumed)]
      && e.c == c.(win := c.win.(local := Add32(c.win.local, c.win.consumed), consumed := 0))
  {
    Add32Small(c.win.consumed, 0);
    Add32Small(c.win.localMax, 0);
    hide Add32, Sub32;
  }

  lemma Refill(v: Sys, swapped: bool) returns (t: Sys)
    requires Reached(v, swapped) && Sound(v) && WindowIsLow(v.x.c) && Settled(v.x.c) && v.x.c.win.Fits()
    ensures Reached(t, swapped) && Refilled(v, t)
  {
    hide Reached, Suffices, CheckWindow, WindowIsLow, Settled, SameRole, SameUnsent;
    CheckSettled(v.x.c);
    StepReached(v, swapped, DoCheckWindow);
    t := StepX(v, DoCheckWindow);
    WindowOnly(v.x.c, t.x.c);
    RoleIsSound(v.x.c, t.x.c);
  }

  lemma WindowOnly(c: Chan, d: Chan)
    requires d == c.(win := c.win.(local := d.win.local, consumed := d.win.consumed))
    ensures SameRole(c, d) && SameUnsent(c, d)
  {
  }

  // ---- One poll with an open window ----

  /** What `x` still has to send; after an EOF stderr is not sent any more. */
  function Unsent(c: Chan): nat { |c.input| + if c.flags.eofSent then 0 else |c.ErrOutgoing()| }

  predicate CanPoll(c: Chan) {
    && c.ctype == Open && !c.flags.AnyClose() && InputHeld(c) && c.win.Fits()
    && c.win.remote > 0 && c.win.remoteMaxpacket > 0 && Unsent(c) > 0 && !c.flags.eofSent
  }

  lemma PollInputLess(c: Chan)
    requires CanPoll(c)
    ensures var d := PollInput(c).c;
      && SameRole(c, d) && InputHeld(d) && d.win.Fits() && d.ErrOutgoing() == c.ErrOutgoing() && d.flags == c.flags
      && d.fds == c.fds && d.istate == c.istate && d.ostate == c.ostate && d.extended == c.extended
      && (if c.input != [] then |d.input| < |c.input| else d == c) && Eow !in PollInput(c).sent
  {
    hide Sub32, Add32;
    SpentIs(c.win, SendLength(c.win, |c.input|));
  }

  lemma PollErrLess(c: Chan)
    requires c.win.Fits() && InputHeld(c)
    ensures var d := PollExtended(c).c;
      && SameRole(c, d) && InputHeld(d) && d.win.Fits() && d.input == c.input && d.flags == c.flags
      && d.fds == c.fds && d.istate == c.istate && d.ostate == c.ostate
      && (c.fds.usage != ExtRead ==> d.extended == c.extended) && Eow !in PollExtended(c).sent
      && |d.ErrOutgoing()| <= |c.ErrOutgoing()|
      && (!c.flags.eofSent && c.ErrOutgoing() != [] && c.win.remote > 0 && c.win.remoteMaxpacket > 0 ==>
            |d.ErrOutgoing()| < |c.ErrOutgoing()|)
  {
    hide Sub32, Add32;
    SpentIs(c.win, SendLength(c.win, |c.extended|));
  }

  lemma PollLess(c: Chan)
    requires CanPoll(c)
    ensures var d := OutputPoll(c).c;
      && SameRole(c, d) && InputHeld(d) && Unsent(d) < Unsent(c)
      && d.istate == c.istate && d.ostate == c.ostate && d.flags == c.flags && d.fds == c.fds
      && (Receiving(c) ==> Receiving(d)) && Eow !in OutputPoll(c).sent
  {
    hide PollInput, PollExtended, SameRole, Chan.ErrOutgoing, InputHeld, Windows.Fits;
    PollInputLess(c);
    PollErrLess(PollInput(c).c);
    RoleThrice(c, PollInput(c).c, PollExtended(PollInput(c).c).c);
  }

  lemma RoleThrice(c: Chan, d: Chan, e: Chan)
    requires SameRole(c, d) && SameRole(d, e)
    ensures SameRole(c, e)
  {
  }

  // ---- From any state ----

  /**
   `x` may send to `y`: both are open, with windows of at least two bytes that their buffers hold; `x` holds
   back nothing for good, and no EOW will make it; `y` has an output that never failed, and takes the stderr
   that `x` sends.
   */
  ghost predicate Conveys(v: Sys) {
    && Sound(v) && InputHeld(v.x.c) && Eow !in v.yx
    && Receiving(v.y.c) && !v.y.failed && ErrServed(v.x.c, v.y.c)
    && v.y.c.win.localMax >= 2 && Settled(v.y.c)
  }

  /** Both ends may send to each other, and tell the end of their input. */
  ghost predicate Both(v: Sys) { Conveys(v) && Conveys(Swap(v)) && EndHeld(v.x.c) && EndHeld(v.y.c) }

  /** Nothing is on its way but EOFs, and `y` has written out what it got. */
  ghost predicate Cleared(v: Sys, t: Sys) {
    && Conveys(t) && t.yx == [] && OnlyEofs(t.xy) && t.y.c.output == [] && (t.y.c.fds.efd ==> t.y.c.ErrIncoming() == [])
    && SameReads(v.x, t.x) && SameReads(v.y, t.y) && SameRole(v.x.c, t.x.c) && SameUnsent(v.x.c, t.x.c)
    && SameRole(v.y.c, t.y.c) && SameUnsent(v.y.c, t.y.c)
    && (Both(v) ==> Both(t))
  }

  lemma RoleConveys(c: Chan, d: Chan)
    requires SameRole(c, d)
    ensures forall r: Chan :: ErrServed(c, r) == ErrServed(d, r) && ErrServed(r, c) == ErrServed(r, d)
    ensures Settled(c) == Settled(d) && c.win.localMax == d.win.localMax && c.options == d.options
    ensures SameUnsent(c, d) ==> Unsent(d) <= Unsent(c)
  {
  }

  lemma NoEowAfter(f: seq<Msg>, g: seq<Msg>)
    requires OnlyEofs(g)
    ensures Eow !in f ==> Eow !in f + g
    ensures [] + g == g
  {
  }

  lemma Clear(v: Sys, swapped: bool) returns (t: Sys)
    requires Reached(v, swapped) && Conveys(v)
    ensures Reached(t, swapped) && Cleared(v, t)
  {
    hide Reached, Suffices, SameRole, SameUnsent, Receiving, InputHeld, EndHeld, Settled, ErrServed, Unsent;
    SwapTwice(v);
    var u1, e1 := TakeAll(Swap(v), !swapped);
    SwapTwice(u1);
    NoEowAfter(v.yx, e1);
    var u2, e2 := TakeAll(Swap(u1), swapped);
    SwapTwice(u2);
    NoEowAfter([], e2);
    NoEowAfter(v.xy, []);
    var u3 := WriteAll(Swap(u2), !swapped);
    SwapTwice(u3);
    t := Swap(u3);
    RoleTwice(v.y.c, u1.x.c, u3.x.c);
    RoleConveys(v.y.c, u3.x.c);
    RoleConveys(v.x.c, u2.x.c);
  }

  /** What the invariant says of a cleared state. */
  lemma ClearedFacts(v: Sys, swapped: bool)
    requires Reached(v, swapped) && Conveys(v) && OnlyEofs(v.xy) && v.y.c.output == []
    requires v.y.c.fds.efd ==> v.y.c.ErrIncoming() == []
    ensures v.x.c.win.Fits() && v.y.c.win.Fits() && v.x.c.win.remoteMaxpacket > 0
    ensures v.y.c.ErrIncoming() == []
    ensures Unsent(v.x.c) > 0 ==> !v.x.c.flags.eofSent && v.y.c.ostate != OutClosed
  {
    var states, i := ReachedInv(v, swapped);
    hide Reached, CrossCredit, StreamIntact, LocalCredit, OutputSettled, ErrSettled, Suffices, Settled, EofComplete;
    assert v.x.c.win.remoteMaxpacket == v.y.c.win.localMaxpacket;
    assert Suffices(v.y.c) ==> v.y.c.win.localMaxpacket >= 1 by { SufficesLimit(v.y.c); }
    assert v.y.c.flags.eofRcvd ==> v.x.c.flags.eofSent;
  }

  lemma SufficesLimit(c: Chan)
    requires Suffices(c)
    ensures c.win.localMaxpacket >= 1
  {
    hide BufferSuffices;
  }

  /** With something left to send and no window, `y` refills it. */
  lemma LowWindow(v: Sys, swapped: bool)
    requires Reached(v, swapped) && Conveys(v) && v.yx == [] && OnlyEofs(v.xy) && v.y.c.output == []
    requires v.y.c.ErrIncoming() == [] && v.y.c.ostate != OutClosed && v.x.c.win.remote == 0
    ensures WindowIsLow(v.y.c)
  {
    hide Reached, Linked, WindowIsLow, Suffices, Settled, Receiving, InputHeld;
    var states, i := ReachedInv(v, swapped);
    EofsCarryNothing(v.xy);
    assert Exhausted(v.x, v.y, v.xy, v.yx) by { BytesOne(Eof); }
    OpenReceiverRefills(states, i, v.x, v.y, v.xy, v.yx);
  }

  /** The window is open: either it was, or `y` has refilled it. */
  ghost predicate WindowOpen(v: Sys, t: Sys) {
    && Conveys(t) && t.x.c.win.remote > 0 && SameRole(v.x.c, t.x.c) && SameUnsent(v.x.c, t.x.c) && SameReads(v.x, t.x)
    && t.x.c.flags == v.x.c.flags
    && SameReads(v.y, t.y) && SameUnsent(v.y.c, t.y.c) && SameRole(v.y.c, t.y.c)
    && (Both(v) ==> Both(t))
  }

  lemma OpenWindow(v: Sys, swapped: bool) returns (t: Sys)
    requires Reached(v, swapped) && Conveys(v) && v.yx == [] && OnlyEofs(v.xy) && v.y.c.output == []
    requires v.y.c.ErrIncoming() == [] && v.y.c.ostate != OutClosed && v.y.c.win.Fits()
    ensures Reached(t, swapped) && WindowOpen(v, t)
  {
    hide Reached, Suffices, SameRole, SameUnsent, Receiving, InputHeld, EndHeld, Settled, ErrServed, WindowIsLow, StepX;
    RoleIsOwn(v.x.c);
    RoleIsOwn(v.y.c);
    if v.x.c.win.remote > 0 {
      t := v;
    } else {
      LowWindow(v, swapped);
      SwapTwice(v);
      var u := Refill(Swap(v), !swapped);
      SwapTwice(u);
      var w := Swap(u);
      Take(w, swapped);
      t := StepX(w, Deliver);
      RoleConveys(v.y.c, u.x.c);
      RoleConveys(v.x.c, t.x.c);
      SameSides(v.y.c, u.x.c);
      assert w.yx == [Adjust(v.y.c.win.consumed)] && t.yx == [];
    }
  }

  lemma SameSides(c: Chan, d: Chan)
    requires d.extended == c.extended && d.ostate == c.ostate && d.fds == c.fds && d.flags == c.flags
    requires d.istate == c.istate && (d.input != [] ==> c.input != [])
    ensures Receiving(c) == Receiving(d) && EndHeld(c) == EndHeld(d) && (InputHeld(c) ==> InputHeld(d))
  {
  }

  /** `x` polls once, and has less left to send. */
  lemma PollOnce(v: Sys, swapped: bool) returns (t: Sys)
    requires Reached(v, swapped) && Conveys(v) && CanPoll(v.x.c)
    ensures Reached(t, swapped) && Conveys(t) && SameReads(v.x, t.x) && Unsent(t.x.c) < Unsent(v.x.c)
    ensures t.x.c.options == v.x.c.options && t.y == v.y && (Both(v) ==> Both(t))
  {
    hide Reached, Suffices, SameRole, Receiving, InputHeld, EndHeld, Settled, ErrServed, OutputPoll, Unsent, CanPoll,
         MemoryAfter;
    PollLess(v.x.c);
    StepReached(v, swapped, DoOutputPoll);
    t := StepX(v, DoOutputPoll);
    RoleIsSound(v.x.c, t.x.c);
    RoleConveys(v.x.c, t.x.c);
    SameEnd(v.x.c, t.x.c);
  }

  lemma SameEnd(c: Chan, d: Chan)
    requires d.istate == c.istate && d.flags == c.flags && d.fds == c.fds
    ensures EndHeld(c) == EndHeld(d)
  {
  }

  /** All that was read and may still be sent has been written out on the other side. */
  ghost predicate Arrived(v: Sys, t: Sys) {
    && SameReads(v.x, t.x) && t.y.written == v.x.read
    && (!v.x.c.options.forceDrain ==> t.y.errWritten == v.x.errRead)
  }

  lemma NothingUnsent(v: Sys, swapped: bool)
    requires Reached(v, swapped) && Conveys(v) && OnlyEofs(v.xy) && v.y.c.output == [] && v.y.c.ErrIncoming() == []
    requires Unsent(v.x.c) == 0
    ensures v.y.written == v.x.read && (!v.x.c.options.forceDrain ==> v.y.errWritten == v.x.errRead)
  {
    hide Reached, Suffices, Settled;
    var states, i := ReachedInv(v, swapped);
    EofsCarryNothing(v.xy);
    StreamsIntact(states, i, v.x, v.y, v.xy, v.yx);
    if v.y.c.ostate == OutOpen {
      assert v.y.written + [] + [] + [] == v.y.written;
    } else {
      EofMeansComplete(states, i, v.x, v.y, v.xy, v.yx);
    }
    if !v.x.c.options.forceDrain {
      ErrAllSent(v);
      assert v.y.errWritten + [] + [] + [] == v.y.errWritten;
    }
  }

  lemma ErrAllSent(v: Sys)
    requires Good(v.x, v.y, v.xy, v.yx) && ErrServed(v.x.c, v.y.c) && !v.x.c.flags.AnyClose()
    requires Unsent(v.x.c) == 0 && !v.x.c.options.forceDrain
    ensures v.x.c.ErrOutgoing() == [] && (v.y.leaked == 0 || v.x.errRead == [])
    ensures v.y.errWritten <= v.x.errRead
  {
    hide CrossCredit, StreamIntact, Orderly, LocalCredit, Bounded, Lifecycle, OutputSettled, EofComplete;
    assert v.y.errWritten <= v.y.errWritten + v.y.c.ErrIncoming();
  }

  /** `x` has nothing left to send, and `y` nothing left to write. */
  ghost predicate Emptied(v: Sys, t: Sys) {
    && Conveys(t) && t.yx == [] && OnlyEofs(t.xy) && Unsent(t.x.c) == 0
    && t.y.c.output == [] && t.y.c.ErrIncoming() == []
    && SameReads(v.x, t.x) && SameReads(v.y, t.y) && t.x.c.options == v.x.c.options && t.y.c.options == v.y.c.options
    && Unsent(t.y.c) <= Unsent(v.y.c) && (Both(v) ==> Both(t))
  }

  lemma {:induction false} Empty(v: Sys, swapped: bool) returns (t: Sys)
    requires Reached(v, swapped) && Conveys(v)
    ensures Reached(t, swapped) && Emptied(v, t)
    decreases Unsent(v.x.c)
  {
    hide Reached, Conveys, Both, SameRole, SameUnsent, Unsent, Chan.ErrIncoming, OnlyEofs;
    var u := Clear(v, swapped);
    RoleConveys(v.x.c, u.x.c);
    RoleConveys(v.y.c, u.y.c);
    ClearedFacts(u, swapped);
    if Unsent(u.x.c) == 0 {
      t := u;
    } else {
      var w := OpenWindow(u, swapped);
      RoleConveys(u.y.c, w.y.c);
      PollableAfter(u, w, swapped);
      var z := PollOnce(w, swapped);
      t := Empty(z, swapped);
    }
  }

  /**
   From every state of every run: what an end has read can still reach the other side and be written out
   there, by deliveries, writes, window checks and polls alone. Stderr arrives too, unless the end was told
   to drain at once.
   */
  lemma EverythingArrives(v: Sys, swapped: bool) returns (t: Sys)
    requires Reached(v, swapped) && Conveys(v)
    ensures Reached(t, swapped) && Running(t) && Arrived(v, t)
  {
    hide Reached, Unsent, Chan.ErrIncoming, OnlyEofs, Both;
    t := Empty(v, swapped);
    ConveysRuns(t);
    hide Conveys;
    NothingUnsent(t, swapped);
  }

  lemma ConveysRuns(v: Sys)
    requires Conveys(v)
    ensures Running(v)
  {
    hide Suffices;
  }

  lemma PollableAfter(u: Sys, w: Sys, swapped: bool)
    requires Reached(w, swapped) && WindowOpen(u, w) && Unsent(u.x.c) > 0 && !u.x.c.flags.eofSent
    requires u.x.c.win.remoteMaxpacket > 0
    ensures CanPoll(w.x.c) && Unsent(w.x.c) == Unsent(u.x.c) && w.x.c.options == u.x.c.options
  {
    hide Reached, Suffices, Settled, Receiving, ErrServed, InputHeld, Chan.ErrOutgoing, Windows.Fits;
    FitsHere(w, swapped);
  }

  lemma FitsHere(v: Sys, swapped: bool)
    requires Reached(v, swapped)
    ensures v.x.c.win.Fits()
  {
    var states, i := ReachedInv(v, swapped);
    hide Reached, Dir, LocalCredit, Lifecycle;
  }
}
