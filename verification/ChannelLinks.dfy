/**
 One direction of a channel: what the sending side holds, what the receiving side took, and the
 packets between them. The invariant `Dir` is kept by every elementary move of either side.
 */
module ChannelLinks {
  import opened Bytes
  import opened ChannelSpec

  /** A channel end as a sender. */
  datatype SendSide = SendSide(
    window: nat,
    maxpacket: nat,
    input: seq<Byte>,       // read locally, not yet sent
    read: seq<Byte>,        // all that was ever read locally
    errPending: seq<Byte>,
    errRead: seq<Byte>,
    eofSent: bool,
    closeSent: bool,
    closeRcvd: bool,
    opening: bool,
    ownLimit: nat)          // the packet limit it announces

  /** A channel end as a receiver. */
  datatype RecvSide = RecvSide(
    window: nat,
    limit: nat,
    accepting: bool,        // its output side is open
    taken: seq<Byte>,       // written out or waiting to be
    errTaken: seq<Byte>,
    leaked: nat,
    failed: bool,
    eofRcvd: bool,
    closeRcvd: bool,
    opening: bool,
    larval: bool)

  // ---- What travels on a link ----

  function DataOf(m: Msg): seq<Byte> { if m.Data? then m.data else [] }

  function ErrOf(m: Msg): seq<Byte> { if m.ExtData? then m.data else [] }

  function CreditOf(m: Msg): nat {
    match m case Adjust(n) => n case Confirm(w, _) => w case _ => 0
  }

  function DataBytes(f: seq<Msg>): seq<Byte> {
    if f == [] then [] else DataOf(f[0]) + DataBytes(f[1..])
  }

  function ErrBytes(f: seq<Msg>): seq<Byte> {
    if f == [] then [] else ErrOf(f[0]) + ErrBytes(f[1..])
  }

  function Credits(f: seq<Msg>): nat {
    if f == [] then 0 else CreditOf(f[0]) + Credits(f[1..])
  }

  lemma Assoc(a: seq<Byte>, b: seq<Byte>, c: seq<Byte>)
    ensures (a + b) + c == a + (b + c)
  {
  }

  /** Moving `d` from the right neighbour of a boundary to its left one. */
  lemma Shift(a: seq<Byte>, b: seq<Byte>, d: seq<Byte>, c: seq<Byte>)
    ensures a + (b + d) + c == a + b + (d + c)
  {
    Assoc(a, b, d);
    Assoc(a + b, d, c);
  }

  lemma {:induction false} LinkAppend(f: seq<Msg>, m: Msg)
    ensures DataBytes(f + [m]) == DataBytes(f) + DataOf(m)
    ensures ErrBytes(f + [m]) == ErrBytes(f) + ErrOf(m)
    ensures Credits(f + [m]) == Credits(f) + CreditOf(m)
  {
    if f == [] {
      assert f + [m] == [m];
    } else {
      var g := f[1..];
      assert (f + [m])[1..] == g + [m];
      LinkAppend(g, m);
      Assoc(DataOf(f[0]), DataBytes(g), DataOf(m));
      Assoc(ErrOf(f[0]), ErrBytes(g), ErrOf(m));
    }
  }

  predicate Payload(m: Msg) { m.Data? || m.ExtData? || m.Eof? }

  /** The order of packets on a link: a confirmation only first, nothing after CLOSE, no data after EOF. */
  ghost predicate LinkOrder(f: seq<Msg>, opening: bool, eofSent: bool, eofRcvd: bool, closeSent: bool,
                            closeRcvd: bool) {
    && (forall i :: 0 <= i < |f| && f[i].Confirm? ==> i == 0 && opening)
    && (opening ==> f != [] && f[0].Confirm?)
    && (forall i :: 0 <= i < |f| && f[i].Close? ==> i == |f| - 1)
    && (forall i, j :: 0 <= i < j < |f| && f[i].Eof? ==> !Payload(f[j]))
    && (closeRcvd ==> f == [])
    && (eofRcvd ==> forall i :: 0 <= i < |f| ==> !Payload(f[i]))
    && (closeSent <==> closeRcvd || Close in f)
    && (eofSent <==> eofRcvd || Eof in f)
  }

  /** A packet within the receiver's limit and of the one extended data type. */
  predicate WithinLimit(m: Msg, limit: nat) {
    match m
    case Data(d) => |d| <= limit
    case ExtData(code, d) => |d| <= limit && code == STDERR_CODE
    case _ => true
  }

  ghost predicate LinkLimit(f: seq<Msg>, limit: nat) {
    forall m :: m in f ==> WithinLimit(m, limit)
  }

  // ---- The invariant of a direction ----

  /** Credit held by the sender, on the way, or spent in flight is exactly the receiver's window. */
  predicate CrossCredit(s: SendSide, r: RecvSide, f: seq<Msg>, b: seq<Msg>) {
    s.window + |DataBytes(f)| + |ErrBytes(f)| + Credits(b) + r.leaked == r.window
  }

  /** Nothing is reordered, invented or lost while the receiver accepts data. */
  predicate StreamIntact(s: SendSide, r: RecvSide, f: seq<Msg>) {
    && r.taken <= s.read
    && (r.accepting ==> r.taken + DataBytes(f) + s.input == s.read)
  }

  predicate ErrStreamIntact(s: SendSide, r: RecvSide, f: seq<Msg>) {
    && r.errTaken <= s.errRead
    && |r.errTaken| + r.leaked + |ErrBytes(f)| + |s.errPending| == |s.errRead|
    && (r.leaked == 0 ==> r.errTaken + ErrBytes(f) + s.errPending == s.errRead)
  }

  ghost predicate Orderly(s: SendSide, r: RecvSide, f: seq<Msg>, b: seq<Msg>) {
    && LinkOrder(f, r.opening, s.eofSent, r.eofRcvd, s.closeSent, r.closeRcvd)
    && LinkLimit(f, r.limit)
    && (r.opening ==> f != [] && f[0].Confirm? && f[0].maxpacket == s.ownLimit && b == [])
    && (!s.opening ==> s.maxpacket == r.limit)
    && (r.eofRcvd ==> s.eofSent)
    && (r.closeRcvd ==> s.closeSent)
    && (r.larval ==> Eow !in f)
  }

  /** Once EOF was sent nothing is held back, unless the peer closed first. */
  predicate EofComplete(s: SendSide, r: RecvSide) {
    && (s.eofSent && !s.closeRcvd ==> s.input == [])
    && (r.eofRcvd && !r.failed ==> r.taken == s.read)
  }

  ghost predicate Dir(s: SendSide, r: RecvSide, f: seq<Msg>, b: seq<Msg>) {
    && CrossCredit(s, r, f, b)
    && StreamIntact(s, r, f)
    && ErrStreamIntact(s, r, f)
    && Orderly(s, r, f, b)
    && EofComplete(s, r)
  }

  // ---- Moves of the sender ----

  lemma DirRead(s: SendSide, r: RecvSide, f: seq<Msg>, b: seq<Msg>, bytes: seq<Byte>)
    requires Dir(s, r, f, b) && !s.eofSent
    ensures Dir(s.(input := s.input + bytes, read := s.read + bytes), r, f, b)
  {
    hide LinkOrder, LinkLimit, DataBytes, ErrBytes, Credits;
    assert r.taken + DataBytes(f) + (s.input + bytes) == r.taken + DataBytes(f) + s.input + bytes;
  }

  lemma DirErrRead(s: SendSide, r: RecvSide, f: seq<Msg>, b: seq<Msg>, bytes: seq<Byte>)
    requires Dir(s, r, f, b)
    ensures Dir(s.(errPending := s.errPending + bytes, errRead := s.errRead + bytes), r, f, b)
  {
    hide LinkOrder, LinkLimit, DataBytes, ErrBytes, Credits;
    assert r.errTaken + ErrBytes(f) + (s.errPending + bytes) == r.errTaken + ErrBytes(f) + s.errPending + bytes;
  }

  lemma SendKeepsOrder(f: seq<Msg>, m: Msg, opening: bool, eofSent: bool, eofRcvd: bool, closeSent: bool,
                       closeRcvd: bool)
    requires LinkOrder(f, opening, eofSent, eofRcvd, closeSent, closeRcvd)
    requires !closeSent && !m.Confirm? && (Payload(m) ==> !eofSent)
    ensures LinkOrder(f + [m], opening, eofSent || m.Eof?, eofRcvd, closeSent || m.Close?, closeRcvd)
  {
    assert forall k :: k in f + [m] <==> k in f || k == m;
  }

  lemma SendKeepsLimit(f: seq<Msg>, m: Msg, limit: nat)
    requires LinkLimit(f, limit) && WithinLimit(m, limit)
    ensures LinkLimit(f + [m], limit)
  {
  }

  /** Whether the sender may put `m` on the link. */
  predicate MaySend(s: SendSide, m: Msg) {
    && !s.opening && !s.closeSent && !m.Confirm?
    && (Payload(m) ==> !s.eofSent)
    && (m.Data? ==> m.data <= s.input && |m.data| <= s.window && |m.data| <= s.maxpacket)
    && (m.ExtData? ==>
          m.data <= s.errPending && |m.data| <= s.window && |m.data| <= s.maxpacket && m.code == STDERR_CODE)
    && (m.Eof? ==> s.input == [] || s.closeRcvd)
  }

  function AfterSend(s: SendSide, m: Msg): SendSide
    requires MaySend(s, m)
  {
    match m
    case Data(d) => s.(input := s.input[|d|..], window := s.window - |d|)
    case ExtData(_, d) => s.(errPending := s.errPending[|d|..], window := s.window - |d|)
    case Eof => s.(eofSent := true)
    case Close => s.(closeSent := true)
    case _ => s
  }

  lemma SendKeepsStreams(s: SendSide, r: RecvSide, f: seq<Msg>, m: Msg)
    requires StreamIntact(s, r, f) && ErrStreamIntact(s, r, f) && MaySend(s, m)
    ensures StreamIntact(AfterSend(s, m), r, f + [m])
    ensures ErrStreamIntact(AfterSend(s, m), r, f + [m])
  {
    LinkAppend(f, m);
    hide DataBytes, ErrBytes, Credits;
    var s' := AfterSend(s, m);
    assert DataOf(m) + s'.input == s.input && ErrOf(m) + s'.errPending == s.errPending;
    Shift(r.taken, DataBytes(f), DataOf(m), s'.input);
    Shift(r.errTaken, ErrBytes(f), ErrOf(m), s'.errPending);
  }

  lemma SendKeepsCredit(s: SendSide, r: RecvSide, f: seq<Msg>, b: seq<Msg>, m: Msg)
    requires CrossCredit(s, r, f, b) && MaySend(s, m)
    ensures CrossCredit(AfterSend(s, m), r, f + [m], b)
  {
    LinkAppend(f, m);
    hide DataBytes, ErrBytes, Credits;
  }

  lemma SendKeepsOrderly(s: SendSide, r: RecvSide, f: seq<Msg>, b: seq<Msg>, m: Msg)
    requires Orderly(s, r, f, b) && MaySend(s, m) && (m.Eow? ==> !r.larval)
    ensures Orderly(AfterSend(s, m), r, f + [m], b)
  {
    hide LinkOrder, LinkLimit;
    SendKeepsOrder(f, m, r.opening, s.eofSent, r.eofRcvd, s.closeSent, r.closeRcvd);
    SendKeepsLimit(f, m, r.limit);
    assert r.opening ==> (f + [m])[0] == f[0];
  }

  lemma SendKeepsEof(s: SendSide, r: RecvSide, m: Msg)
    requires EofComplete(s, r) && MaySend(s, m)
    ensures EofComplete(AfterSend(s, m), r)
  {
  }

  lemma DirSend(s: SendSide, r: RecvSide, f: seq<Msg>, b: seq<Msg>, m: Msg)
    requires Dir(s, r, f, b) && MaySend(s, m) && (m.Eow? ==> !r.larval)
    ensures Dir(AfterSend(s, m), r, f + [m], b)
  {
    hide CrossCredit, StreamIntact, ErrStreamIntact, Orderly, EofComplete, MaySend, AfterSend;
    SendKeepsCredit(s, r, f, b, m);
    SendKeepsOrderly(s, r, f, b, m);
    SendKeepsStreams(s, r, f, m);
    SendKeepsEof(s, r, m);
  }

  /** What the sender learns from a packet on the link that leads back. */
  function AfterNews(s: SendSide, m: Msg): SendSide {
    match m
    case Confirm(w, p) => s.(window := w, maxpacket := p, opening := false)
    case Adjust(n) => s.(window := s.window + n)
    case Close => s.(closeRcvd := true)
    case _ => s
  }

  /** The sender takes a packet, and the credit in it, from the link that leads back. */
  lemma DirNews(s: SendSide, r: RecvSide, f: seq<Msg>, b: seq<Msg>)
    requires Dir(s, r, f, b) && b != []
    requires b[0].Confirm? ==> s.opening && s.window == 0 && b[0].maxpacket == r.limit
    ensures Dir(AfterNews(s, b[0]), r, f, b[1..])
  {
    hide LinkOrder, LinkLimit, DataBytes, ErrBytes;
  }

  // ---- Moves of the receiver ----

  /** The receiver grants `m`'s credit to the sender, or sends it anything else. */
  lemma DirGrant(s: SendSide, r: RecvSide, f: seq<Msg>, b: seq<Msg>, m: Msg)
    requires Dir(s, r, f, b) && !r.opening
    ensures Dir(s, r.(window := r.window + CreditOf(m)), f, b + [m])
  {
    LinkAppend(b, m);
    hide LinkOrder, LinkLimit, DataBytes, ErrBytes, Credits;
  }

  /** The receiver's output side closes; after a failed write only a prefix of its data was kept. */
  lemma DirStopAccepting(s: SendSide, r: RecvSide, f: seq<Msg>, b: seq<Msg>, taken: seq<Byte>, failed: bool)
    requires Dir(s, r, f, b)
    requires taken <= r.taken && (r.failed ==> failed) && (taken != r.taken ==> failed)
    ensures Dir(s, r.(accepting := false, taken := taken, failed := failed), f, b)
  {
    hide LinkOrder, LinkLimit, DataBytes, ErrBytes, Credits;
  }

  /** A larval session is activated. */
  lemma DirActivated(s: SendSide, r: RecvSide, f: seq<Msg>, b: seq<Msg>)
    requires Dir(s, r, f, b)
    ensures Dir(s, r.(larval := false), f, b)
  {
    hide LinkOrder, LinkLimit, DataBytes, ErrBytes, Credits;
  }

  lemma ReceiveKeepsLink(f: seq<Msg>, limit: nat, opening: bool, eofSent: bool, eofRcvd: bool, closeSent: bool,
                         closeRcvd: bool)
    requires f != [] && LinkLimit(f, limit)
    requires LinkOrder(f, opening, eofSent, eofRcvd, closeSent, closeRcvd)
    ensures LinkOrder(f[1..], false, eofSent, eofRcvd || f[0].Eof?, closeSent, closeRcvd || f[0].Close?)
    ensures LinkLimit(f[1..], limit)
    ensures WithinLimit(f[0], limit)
    ensures Payload(f[0]) ==> !eofRcvd
    ensures f[0].Eof? ==> eofSent
    ensures f[0].Close? ==> closeSent
    ensures f[0].Confirm? == opening
    ensures !closeRcvd
  {
    assert forall k :: k in f <==> k == f[0] || k in f[1..];
  }

  /** What the receiver does with the packet at the head of the link. */
  datatype Fate = Kept | Charged | Ignored

  function AfterReceive(r: RecvSide, m: Msg, fate: Fate): RecvSide
    requires |DataOf(m)| + |ErrOf(m)| <= r.window
  {
    var n := |DataOf(m)| + |ErrOf(m)|;
    r.(window := if fate == Ignored then r.window else r.window - n,
       leaked := if fate == Ignored then r.leaked + n else r.leaked,
       taken := if m.Data? && fate == Kept then r.taken + m.data else r.taken,
       errTaken := if m.ExtData? && fate == Kept then r.errTaken + m.data else r.errTaken,
       accepting := r.accepting && !m.Eof? && !m.Close?,
       eofRcvd := r.eofRcvd || m.Eof?,
       closeRcvd := r.closeRcvd || m.Close?,
       opening := r.opening && !m.Confirm?)
  }

  predicate MayReceive(s: SendSide, r: RecvSide, m: Msg, fate: Fate) {
    && (fate == Kept ==> (m.Data? ==> r.accepting) && (m.ExtData? ==> r.leaked == 0))
    && (fate == Charged ==> !m.ExtData? && (m.Data? ==> !r.accepting))
    && (fate == Ignored ==> (m.Data? ==> m.data == []))
    && (m.Eof? && !r.failed ==> r.accepting && !s.closeRcvd)
  }

  lemma ReceiveKeepsStream(s: SendSide, r: RecvSide, f: seq<Msg>, fate: Fate)
    requires f != [] && StreamIntact(s, r, f) && MayReceive(s, r, f[0], fate)
    requires |DataOf(f[0])| + |ErrOf(f[0])| <= r.window
    ensures StreamIntact(s, AfterReceive(r, f[0], fate), f[1..])
  {
    var m, g := f[0], DataBytes(f[1..]);
    assert DataBytes(f) == DataOf(m) + g;
    hide DataBytes;
    if r.accepting && m.Data? && m.data != [] {
      Assoc(r.taken, m.data, g);
    } else {
      assert r.accepting ==> DataOf(m) == [] && DataOf(m) + g == g;
      assert m.Data? && fate == Kept && m.data == [] ==> r.taken + m.data == r.taken;
    }
  }

  lemma ReceiveKeepsErrStream(s: SendSide, r: RecvSide, f: seq<Msg>, fate: Fate)
    requires f != [] && ErrStreamIntact(s, r, f) && MayReceive(s, r, f[0], fate)
    requires |DataOf(f[0])| + |ErrOf(f[0])| <= r.window
    ensures ErrStreamIntact(s, AfterReceive(r, f[0], fate), f[1..])
  {
    hide ErrBytes;
    var m, g := f[0], ErrBytes(f[1..]);
    ErrFirst(f);
    if m.ExtData? && m.data != [] {
      Assoc(r.errTaken, m.data, g);
    } else {
      NoErrFirst(m, g);
      assert m.ExtData? ==> r.errTaken + m.data == r.errTaken;
    }
  }

  lemma ErrFirst(f: seq<Msg>)
    requires f != []
    ensures ErrBytes(f) == ErrOf(f[0]) + ErrBytes(f[1..])
  {
  }

  lemma NoErrFirst(m: Msg, g: seq<Byte>)
    requires !m.ExtData? || m.data == []
    ensures ErrOf(m) + g == g && ErrOf(m) == []
  {
  }

  lemma ReceiveKeepsCredit(s: SendSide, r: RecvSide, f: seq<Msg>, b: seq<Msg>, fate: Fate)
    requires f != [] && CrossCredit(s, r, f, b)
    ensures |DataOf(f[0])| + |ErrOf(f[0])| <= r.window
    ensures CrossCredit(s, AfterReceive(r, f[0], fate), f[1..], b)
  {
    hide Credits;
  }

  lemma ReceiveKeepsEof(s: SendSide, r: RecvSide, f: seq<Msg>, fate: Fate)
    requires f != [] && StreamIntact(s, r, f) && EofComplete(s, r) && MayReceive(s, r, f[0], fate)
    requires LinkOrder(f, r.opening, s.eofSent, r.eofRcvd, s.closeSent, r.closeRcvd)
    requires |DataOf(f[0])| + |ErrOf(f[0])| <= r.window
    ensures EofComplete(s, AfterReceive(r, f[0], fate))
  {
    if f[0].Eof? {
      NoDataLeft(f[1..]);
      assert DataBytes(f) == [];
    }
    assert f[0].Data? ==> !r.eofRcvd;
    hide LinkOrder, DataBytes;
  }

  lemma DirReceive(s: SendSide, r: RecvSide, f: seq<Msg>, b: seq<Msg>, fate: Fate)
    requires Dir(s, r, f, b) && f != [] && MayReceive(s, r, f[0], fate)
    ensures |DataOf(f[0])| + |ErrOf(f[0])| <= r.window
    ensures Dir(s, AfterReceive(r, f[0], fate), f[1..], b)
  {
    ReceiveKeepsCredit(s, r, f, b, fate);
    ReceiveKeepsLink(f, r.limit, r.opening, s.eofSent, r.eofRcvd, s.closeSent, r.closeRcvd);
    ReceiveKeepsStream(s, r, f, fate);
    ReceiveKeepsErrStream(s, r, f, fate);
    ReceiveKeepsEof(s, r, f, fate);
    hide LinkOrder, LinkLimit, StreamIntact, ErrStreamIntact, CrossCredit, EofComplete, DataOf, ErrOf;
  }

  lemma {:induction false} NoDataLeft(f: seq<Msg>)
    requires forall i :: 0 <= i < |f| ==> !Payload(f[i])
    ensures DataBytes(f) == []
  {
    if f != [] {
      NoDataLeft(f[1..]);
    }
  }

  /** What the receiver may rely on when a packet reaches it. */
  lemma HeadFacts(s: SendSide, r: RecvSide, f: seq<Msg>, b: seq<Msg>)
    requires Dir(s, r, f, b) && f != []
    ensures |DataOf(f[0])| + |ErrOf(f[0])| <= r.window
    ensures WithinLimit(f[0], r.limit)
    ensures f[0].Confirm? <==> r.opening
    ensures f[0].Confirm? ==> f[0].maxpacket == s.ownLimit
    ensures f[0].Eow? ==> !r.larval
    ensures Payload(f[0]) ==> !r.eofRcvd
    ensures f[0].Eof? ==> s.eofSent
    ensures f[0].Close? ==> s.closeSent
    ensures !r.closeRcvd
  {
    ReceiveKeepsCredit(s, r, f, b, Kept);
    ReceiveKeepsLink(f, r.limit, r.opening, s.eofSent, r.eofRcvd, s.closeSent, r.closeRcvd);
  }

  /** Credit on its way to the sender never lifts it above the receiver's window. */
  lemma NewsFacts(s: SendSide, r: RecvSide, f: seq<Msg>, b: seq<Msg>)
    requires Dir(s, r, f, b) && b != []
    ensures s.window + CreditOf(b[0]) <= r.window
  {
    hide LinkOrder, LinkLimit, DataBytes, ErrBytes;
  }
}
