/** Every step of either end, every delivery, and so every run keeps the invariant of both directions. */
module ChannelSafety {
  import opened Bytes
  import opened ChannelSpec
  import opened ChannelLinks
  import opened ChannelSystem
  import opened ChannelMemory

  // ---- Steps other than deliveries ----

  /** Carries views over to the invariant of the pair. */
  lemma QuietGood(x: End, x': End, y: End, f: seq<Msg>, b: seq<Msg>)
    requires Good(x, y, f, b) && LocalInv(x')
    requires Snd(x') == Snd(x) && Rcv(x') == Rcv(x)
    ensures Good(x', y, f + [], b)
  {
    assert f + [] == f;
  }

  lemma SameViews(x: End)
    ensures Rcv(x).opening == Snd(x).opening
    ensures Rcv(x).larval == (x.c.ctype == Larval)
  {
  }

  lemma SendGood(x: End, x': End, y: End, f: seq<Msg>, b: seq<Msg>, m: Msg)
    requires Good(x, y, f, b) && LocalInv(x')
    requires MaySend(Snd(x), m) && Snd(x') == AfterSend(Snd(x), m) && (m.Eow? ==> y.c.ctype != Larval)
    requires Rcv(x') == Rcv(x).(window := Rcv(x).window + CreditOf(m))
    ensures Good(x', y, f + [m], b)
  {
    SameViews(x);
    SameViews(y);
    hide Dir, LocalInv, Snd, Rcv;
    DirSend(Snd(x), Rcv(y), f, b, m);
    DirGrant(Snd(y), Rcv(x), b, f, m);
  }

  lemma ReadGood(x: End, y: End, f: seq<Msg>, b: seq<Msg>, r: ReadResult)
    requires Good(x, y, f, b) && x.c.ctype == Open && x.c.istate != InClosed
    ensures Good(AfterRead(x, r, HandleRfd(x.c, r)), y, f, b)
  {
    ReadViews(x, r);
    if x.c.fds.rfd && r.ReadBytes? {
      DirRead(Snd(x), Rcv(y), f, b, r.bytes);
    }
    hide Dir, LocalInv, Snd, Rcv, AfterRead, HandleRfd;
  }

  lemma WriteGood(x: End, y: End, f: seq<Msg>, b: seq<Msg>, w: WriteResult)
    requires Good(x, y, f, b) && x.c.ctype == Open && WriteFits(w, |x.c.output|)
    ensures var e := HandleWfd(x.c, w); Good(AfterWrite(x, w, e.c), y, f + e.sent, b)
  {
    WriteViews(x, w);
    var e := HandleWfd(x.c, w);
    var x' := AfterWrite(x, w, e.c);
    WriteNeedsPeer(x, y, f, b, w);
    WrittenIsTaken(x);
    hide LocalInv, AfterWrite, HandleWfd, Snd, Rcv, Dir;
    if WriteBreaks(x, w) {
      BreakGood(x, x', y, f, b, e.sent);
    } else {
      QuietGood(x, x', y, f, b);
    }
  }

  lemma WrittenIsTaken(x: End)
    ensures x.written <= Rcv(x).taken
    ensures Snd(x).opening == (x.c.ctype == Opening) && Snd(x).closeSent == x.c.flags.closeSent
  {
  }

  /** A failed write: what was not written is given up, and a session's peer may be told so. */
  lemma BreakGood(x: End, x': End, y: End, f: seq<Msg>, b: seq<Msg>, sent: seq<Msg>)
    requires Good(x, y, f, b) && LocalInv(x') && y.c.ctype != Larval
    requires x.written <= Rcv(x).taken && !Snd(x).opening && !Snd(x).closeSent
    requires Snd(x') == Snd(x) && Rcv(x') == Rcv(x).(accepting := false, taken := x.written, failed := true)
    requires sent == [Eow] || sent == []
    ensures Good(x', y, f + sent, b)
  {
    hide LocalInv, Snd, Rcv, Dir;
    DirStopAccepting(Snd(y), Rcv(x), b, f, x.written, true);
    if sent == [Eow] {
      SendGood(x', x', y, f, b, Eow);
    } else {
      QuietGood(x', x', y, f, b);
    }
  }

  /** There is only something to write when the other end has read something. */
  lemma WriteNeedsPeer(x: End, y: End, f: seq<Msg>, b: seq<Msg>, w: WriteResult)
    requires Good(x, y, f, b)
    ensures WriteBreaks(x, w) ==> y.c.ctype != Larval
  {
    assert Rcv(x).taken <= Snd(y).read;
  }

  lemma ErrReadGood(x: End, y: End, f: seq<Msg>, b: seq<Msg>, r: ReadResult)
    requires Good(x, y, f, b) && x.c.ctype == Open
    ensures Good(AfterErrRead(x, r, HandleEfdRead(x.c, r)), y, f, b)
  {
    ErrReadViews(x, r);
    if x.c.fds.efd && x.c.fds.usage == ExtRead && r.ReadBytes? {
      DirErrRead(Snd(x), Rcv(y), f, b, r.bytes);
    }
    hide Dir, LocalInv, Snd, Rcv, AfterErrRead, HandleEfdRead;
  }

  lemma CheckWindowGood(x: End, y: End, f: seq<Msg>, b: seq<Msg>)
    requires Good(x, y, f, b)
    ensures var e := CheckWindow(x.c); Good(x.(c := e.c), y, f + e.sent, b)
  {
    CheckWindowViews(x);
    var e := CheckWindow(x.c);
    var x' := x.(c := e.c);
    hide CheckWindow, LocalInv, Dir, Snd, Rcv;
    if WindowIsLow(x.c) {
      SendGood(x, x', y, f, b, e.sent[0]);
    } else {
      QuietGood(x, x', y, f, b);
    }
  }

  /** A step that either goes unnoticed or sends one packet. */
  lemma MaybeSendGood(x: End, x': End, y: End, f: seq<Msg>, b: seq<Msg>, sent: seq<Msg>)
    requires Good(x, y, f, b) && LocalInv(x') && Rcv(x') == Rcv(x)
    requires if sent == [] then Snd(x') == Snd(x)
             else sent == [sent[0]] && !sent[0].Eow? && CreditOf(sent[0]) == 0
                  && MaySend(Snd(x), sent[0]) && Snd(x') == AfterSend(Snd(x), sent[0])
    ensures Good(x', y, f + sent, b)
  {
    hide LocalInv, Dir, Snd, Rcv;
    if sent == [] {
      QuietGood(x, x', y, f, b);
    } else {
      SendGood(x, x', y, f, b, sent[0]);
    }
  }

  lemma PollGood(x: End, y: End, f: seq<Msg>, b: seq<Msg>)
    requires Good(x, y, f, b) && x.c.ctype == Open && !x.c.flags.AnyClose()
    ensures var e := PollInput(x.c);
      && e.c.ctype == Open && !e.c.flags.AnyClose()
      && Good(x.(c := e.c), y, f + e.sent, b)
    ensures var e := PollExtended(x.c); Good(x.(c := e.c), y, f + e.sent, b)
  {
    hide PollInput, PollExtended, LocalInv, Dir, Snd, Rcv;
    PollInputViews(x);
    MaybeSendGood(x, x.(c := PollInput(x.c).c), y, f, b, PollInput(x.c).sent);
    PollExtendedViews(x);
    MaybeSendGood(x, x.(c := PollExtended(x.c).c), y, f, b, PollExtended(x.c).sent);
  }

  lemma OutputPollGood(x: End, y: End, f: seq<Msg>, b: seq<Msg>)
    requires Good(x, y, f, b)
    ensures var e := OutputPoll(x.c); Good(x.(c := e.c), y, f + e.sent, b)
  {
    hide PollInput, PollExtended, Good;
    if x.c.ctype != Open || x.c.flags.AnyClose() {
      assert f + [] == f;
    } else {
      PollGood(x, y, f, b);
      var first := PollInput(x.c);
      var z := x.(c := first.c);
      PollGood(z, y, f + first.sent, b);
      assert f + first.sent + PollExtended(z.c).sent == f + (first.sent + PollExtended(z.c).sent);
    }
  }

  lemma CollectGood(x: End, y: End, f: seq<Msg>, b: seq<Msg>)
    requires Good(x, y, f, b)
    ensures var e := ChanCollect(x.c); Good(x.(c := e.c), y, f + e.sent, b)
  {
    CollectViews(x);
    var e := ChanCollect(x.c);
    hide ChanCollect, LocalInv, Dir, Snd, Rcv;
    MaybeSendGood(x, x.(c := e.c), y, f, b, e.sent);
  }

  lemma SetFdsGood(x: End, y: End, f: seq<Msg>, b: seq<Msg>, fds: Fds, windowMax: nat)
    requires Good(x, y, f, b) && x.c.ctype == Larval && !Freed(x.c) && windowMax < U32_RANGE
    ensures var e := SetFds(x.c, fds, windowMax);
      e.Some? && Good(x.(c := e.value.c, initialMax := windowMax), y, f + e.value.sent, b)
  {
    hide SetFds, LocalInv, Dir, Snd, Rcv, MaySend;
    var e := SetFds(x.c, fds, windowMax);
    GoodLocal(x, y, f, b);
    LarvalSends(x, windowMax);
    SetFdsViews(x, fds, windowMax);
    ActivateGood(x, x.(c := e.value.c, initialMax := windowMax), y, f, b, Adjust(windowMax));
  }

  lemma LarvalSends(x: End, windowMax: nat)
    requires LocalInv(x) && x.c.ctype == Larval && !Freed(x.c)
    ensures MaySend(Snd(x), Adjust(windowMax)) && Rcv(x).window == x.c.win.local
  {
    hide LocalCredit, Bounded;
  }

  lemma ActivateGood(x: End, x': End, y: End, f: seq<Msg>, b: seq<Msg>, m: Msg)
    requires Good(x, y, f, b) && LocalInv(x')
    requires m.Adjust? && MaySend(Snd(x), m) && Snd(x') == Snd(x)
    requires Rcv(x') == Rcv(x).(window := Rcv(x).window + CreditOf(m), larval := false)
    ensures Good(x', y, f + [m], b)
  {
    hide LocalInv, Dir, Snd, Rcv;
    SameViews(x);
    DirSend(Snd(x), Rcv(y), f, b, m);
    DirGrant(Snd(y), Rcv(x), b, f, m);
    DirActivated(Snd(y), Rcv(x).(window := Rcv(x).window + CreditOf(m)), b, f + [m]);
  }

  // ---- Deliveries ----

  /** The links deliver only what the receiving end expects. */
  lemma HeadExpected(x: End, y: End, f: seq<Msg>, b: seq<Msg>)
    requires Good(x, y, f, b) && b != []
    ensures Expected(x, b[0])
    ensures b[0].Eof? && !x.failed ==> x.c.ostate == OutOpen && !y.c.flags.closeRcvd
    ensures b[0].Confirm? ==> Snd(x).window == 0 && b[0].maxpacket == Rcv(y).limit
  {
    HeadFacts(Snd(y), Rcv(x), b, f);
    NewsFacts(Snd(x), Rcv(y), f, b);
    assert Rcv(y).closeRcvd ==> Snd(x).closeSent;
    hide Dir, LocalCredit;
  }

  /** Whatever the receiving end does with a packet is one of the moves of its direction. */
  lemma HeadReceivable(x: End, y: End, m: Msg)
    requires LocalInv(x) && Expected(x, m)
    requires m.Eof? && !x.failed ==> x.c.ostate == OutOpen && !y.c.flags.closeRcvd
    ensures MayReceive(Snd(y), Rcv(x), m, FateOf(x.c, m))
  {
    hide Lifecycle, Bounded;
  }

  /** The pair after the views of a delivery are known. */
  lemma DeliverViewsGood(x: End, x': End, y: End, f: seq<Msg>, b: seq<Msg>, sent: seq<Msg>)
    requires Good(x, y, f, b) && b != []
    requires |DataOf(b[0])| + |ErrOf(b[0])| <= x.c.win.local && DeliveryViews(x, b[0], x', sent)
    requires MayReceive(Snd(y), Rcv(x), b[0], FateOf(x.c, b[0]))
    requires Dir(AfterNews(Snd(x), b[0]), Rcv(y), f, b[1..])
    ensures Good(x', y, f + sent, b[1..])
  {
    SameViews(x');
    DirReceive(Snd(y), Rcv(x), b, f, FateOf(x.c, b[0]));
    hide LocalInv, Dir, Snd, Rcv, FateOf, MayReceive, AfterReceive, AfterNews;
    if sent == [] {
      assert f + [] == f;
    } else {
      DirSend(AfterNews(Snd(x), b[0]), Rcv(y), f, b[1..], Eof);
      DirGrant(Snd(y), Rcv(x'), b[1..], f, Eof);
    }
  }

  lemma DeliverGood(x: End, y: End, f: seq<Msg>, b: seq<Msg>)
    requires Good(x, y, f, b) && b != []
    ensures var e := Receive(x.c, b[0]);
      e.Some? && Good(AfterDelivery(x, b[0], e.value.c), y, f + e.value.sent, b[1..])
  {
    var m := b[0];
    HeadExpected(x, y, f, b);
    assert |DataOf(m)| + |ErrOf(m)| <= x.c.win.local;
    hide LocalInv, Dir, Snd, Rcv, FateOf, AfterDelivery, Receive, MayReceive, DeliveryViews, Expected;
    HeadReceivable(x, y, m);
    ReceiveViews(x, m);
    DirNewsOf(x, y, f, b);
    var e := Receive(x.c, m).value;
    DeliverViewsGood(x, AfterDelivery(x, m, e.c), y, f, b, e.sent);
  }

  lemma DirNewsOf(x: End, y: End, f: seq<Msg>, b: seq<Msg>)
    requires Good(x, y, f, b) && b != []
    ensures Dir(AfterNews(Snd(x), b[0]), Rcv(y), f, b[1..])
  {
    HeadExpected(x, y, f, b);
    assert b[0].Confirm? ==> Snd(x).opening;
    hide Dir, LocalInv;
    DirNews(Snd(x), Rcv(y), f, b);
  }

  // ---- Every step and every run ----

  lemma ActGood(x: End, y: End, f: seq<Msg>, b: seq<Msg>, ev: Event)
    requires Good(x, y, f, b) && Enabled(x, b, ev)
    ensures Act(x, b, ev).Some?
    ensures Good(Act(x, b, ev).value.0, y, f + Act(x, b, ev).value.1, if ev.Deliver? then b[1..] else b)
  {
    hide Good;
    assert f + [] == f;
    match ev
    case DoPreOpen(tcpwin) => PreOpenGood(x, y, f, b, tcpwin);
    case DoRead(_, r) => ReadGood(x, y, f, b, r);
    case DoWrite(w) => WriteGood(x, y, f, b, w);
    case DoErrRead(_, r) => ErrReadGood(x, y, f, b, r);
    case DoErrWrite(w) => ErrWriteGood(x, y, f, b, w);
    case DoCheckWindow => CheckWindowGood(x, y, f, b);
    case DoOutputPoll => OutputPollGood(x, y, f, b);
    case DoCollect => CollectGood(x, y, f, b);
    case DoSetFds(fds, windowMax) => SetFdsGood(x, y, f, b, fds, windowMax);
    case Deliver => DeliverGood(x, y, f, b);
  }

  lemma PreOpenGood(x: End, y: End, f: seq<Msg>, b: seq<Msg>, tcpwin: nat)
    requires Good(x, y, f, b) && tcpwin <= BUFFER_MAX_LEN_HPN
    ensures Good(x.(c := PreOpen(x.c, tcpwin)), y, f + [], b)
  {
    PreOpenViews(x, tcpwin);
    QuietGood(x, x.(c := PreOpen(x.c, tcpwin)), y, f, b);
  }

  lemma ErrWriteGood(x: End, y: End, f: seq<Msg>, b: seq<Msg>, w: WriteResult)
    requires Good(x, y, f, b) && x.c.ctype == Open && WriteFits(w, |x.c.extended|)
    ensures Good(AfterErrWrite(x, w, HandleEfdWrite(x.c, w)), y, f + [], b)
  {
    ErrWriteViews(x, w);
    QuietGood(x, AfterErrWrite(x, w, HandleEfdWrite(x.c, w)), y, f, b);
  }

  // ---- The blocks behind the buffers ----

  lemma WriteStored(x: End, w: WriteResult)
    requires Stored(x) && LocalInv(x) && x.c.ctype == Open && WriteFits(w, |x.c.output|)
    ensures WriteMemory(x.mem, x.c, w).Holds(HandleWfd(x.c, w).c)
    ensures AfterWrite(x, w, HandleWfd(x.c, w).c).lost < BUFFER_MAX_LEN_HPN
  {
    WriteHolds(x.mem, x.c, w);
    hide HandleWfd, WriteMemory, LocalCredit, Bounded, Lifecycle, ErrSettled;
    assert |x.c.output| == x.mem.output.Len() < BUFFER_MAX_LEN_HPN;
  }

  /** A step keeps the blocks in step with the buffers, unless it ends the process. */
  lemma ActStored(x: End, arrived: seq<Msg>, ev: Event)
    requires Stored(x) && LocalInv(x) && Enabled(x, arrived, ev) && !Overflows(x, arrived, ev)
    requires Act(x, arrived, ev).Some?
    ensures Stored(Act(x, arrived, ev).value.0.(mem := MemoryAfter(x, arrived, ev)))
  {
    hide LocalInv, PreOpen, HandleRfd, HandleWfd, HandleEfdRead, HandleEfdWrite, CheckWindow, OutputPoll, ChanCollect,
         Receive, PreOpenMemory, ReadMemory, WriteMemory, ErrReadMemory, ErrWriteMemory, PollMemory, ReceiveMemory;
    match ev
    case DoPreOpen(tcpwin) => PreOpenHolds(x.mem, x.c, tcpwin);
    case DoRead(_, r) => ReadHolds(x.mem, x.c, r);
    case DoWrite(w) => WriteStored(x, w);
    case DoErrRead(_, r) => ErrReadHolds(x.mem, x.c, r);
    case DoErrWrite(w) => ErrWriteHolds(x.mem, x.c, w);
    case DoOutputPoll => PollHolds(x.mem, x.c);
    case Deliver => ReceiveHolds(x.mem, x.c, arrived[0]);
    case _ => OtherStepsKeepBuffers(x.c);
  }

  lemma OtherStepsKeepBuffers(c: Chan)
    ensures forall d :: d == CheckWindow(c).c || d == ChanCollect(c).c ==>
      d.input == c.input && d.output == c.output && d.extended == c.extended
  {
  }

  /** The two views of an end do not show its blocks. */
  lemma MemoryGood(x: End, y: End, f: seq<Msg>, b: seq<Msg>, mem: Memory)
    requires Good(x, y, f, b)
    ensures Good(x.(mem := mem), y, f, b)
  {
    hide Dir;
  }

  lemma DeliveryNeedsPacket(x: End, arrived: seq<Msg>, ev: Event)
    requires Enabled(x, arrived, ev)
    ensures ev.Deliver? ==> arrived != []
  {
  }

  lemma StepInv(s: Sys, ev: Event)
    requires Inv(s) && Enabled(s.x, s.yx, ev)
    ensures Inv(StepX(s, ev))
  {
    hide Good, LocalInv, Stored, Act, Enabled, Overflows, MemoryAfter;
    if !Overflows(s.x, s.yx, ev) {
      GoodLocal(s.x, s.y, s.xy, s.yx);
      DeliveryNeedsPacket(s.x, s.yx, ev);
      ActGood(s.x, s.y, s.xy, s.yx, ev);
      ActStored(s.x, s.yx, ev);
      var r := Act(s.x, s.yx, ev).value;
      MemoryGood(r.0, s.y, s.xy + r.1, if ev.Deliver? then s.yx[1..] else s.yx, MemoryAfter(s.x, s.yx, ev));
    }
  }

  lemma GoodLocal(x: End, y: End, f: seq<Msg>, b: seq<Msg>)
    requires Good(x, y, f, b)
    ensures LocalInv(x) && LocalInv(y) && Good(y, x, b, f)
  {
    hide LocalInv, Dir, Snd, Rcv;
  }

  /** The invariant does not care which end is called `x`. */
  lemma NextInv(s: Sys, t: Sys)
    requires Inv(s) && Next(s, t)
    ensures Inv(t)
  {
    hide Good, Stored, Enabled, StepX;
    GoodLocal(s.x, s.y, s.xy, s.yx);
    var ev :| || (Enabled(s.x, s.yx, ev) && t == StepX(s, ev))
              || (Enabled(s.y, s.xy, ev) && t == Swap(StepX(Swap(s), ev)));
    if Enabled(s.x, s.yx, ev) && t == StepX(s, ev) {
      StepInv(s, ev);
    } else {
      StepInv(Swap(s), ev);
      var u := StepX(Swap(s), ev);
      GoodLocal(u.x, u.y, u.xy, u.yx);
    }
  }

  /** The invariant holds throughout every run: in particular no end ever drops the connection. */
  lemma {:induction false} RunInv(states: seq<Sys>, i: nat)
    requires IsRun(states) && i < |states|
    ensures Inv(states[i])
  {
    if i == 0 {
      InitInv(states[0]);
    } else {
      RunInv(states, i - 1);
      NextInv(states[i - 1], states[i]);
    }
  }
}
