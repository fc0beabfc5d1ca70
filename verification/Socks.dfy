/**
 The SOCKS 4, 4A and 5 decoder of dynamic port forwarding: a parser that is called again and again
 on a growing input, until it accepts a request, rejects it, or needs more.
 */
module Socks {
  import opened Bytes

  const NI_MAXHOST: nat := 1025
  const SCAN_LIMIT: nat := 1024
  const HEADER4: nat := 8
  const GRANTED4: seq<Byte> := [0, 90, 0, 0, 0, 0, 0, 0]
  const NO_AUTH5: seq<Byte> := [5, 0]
  const SUCCESS5: seq<Byte> := [5, 0, 0, 1, 0, 0, 0, 0, 0, 0]

  datatype Host = NoHost | IPv4(addr: seq<Byte>) | IPv6(addr: seq<Byte>) | Name(text: seq<Byte>)

  datatype Verdict = NeedMore | Reject | Accept

  /** A dynamic channel: `input` is what it has read and not consumed, `output` what it replied. */
  datatype Dyn = Dyn(input: seq<Byte>, output: seq<Byte>, authDone: bool, host: Host, port: nat, verdict: Verdict)

  function Fresh(input: seq<Byte>): Dyn { Dyn(input, [], false, NoHost, 0, NeedMore) }

  /** More bytes arrive from the client. */
  function Feed(d: Dyn, bytes: seq<Byte>): Dyn { d.(input := d.input + bytes) }

  function Port(hi: Byte, lo: Byte): nat { 256 * hi + lo }

  /** A C string read back: the bytes up to the first NUL. */
  function CString(s: seq<Byte>): seq<Byte> { s[..StrLen(s, 0)] }

  // ---- SOCKS 4 and 4A ----

  /** Version 4A marks itself with the invalid address 0.0.0.x. */
  predicate Is4A(p: seq<Byte>)
    requires |p| >= HEADER4
  {
    p[4] == 0 && p[5] == 0 && p[6] == 0 && p[7] != 0
  }

  /** Where the last of the NUL-terminated strings ends; past the input if it is incomplete. */
  function LastNul(p: seq<Byte>): nat
    requires |p| >= HEADER4
  {
    var user := HEADER4 + StrLen(p, HEADER4);
    if !Is4A(p) || user == |p| then user else user + 1 + StrLen(p, user + 1)
  }

  datatype Scan = Complete | TooLong | Incomplete

  function ScanStrings(p: seq<Byte>): Scan
    requires |p| >= HEADER4
  {
    var end := LastNul(p);
    if end < |p| && end <= SCAN_LIMIT + 1 then Complete
    else if |p| > SCAN_LIMIT + 1 then TooLong
    else Incomplete
  }

  /** Takes the request off the input; `user` and `end` are where its first and last strings end. */
  function Take4(d: Dyn, user: nat, end: nat): Dyn
    requires HEADER4 <= user <= end < |d.input|
    requires Is4A(d.input) ==> user < end
  {
    var p := d.input;
    var decoded := d.(input := p[end + 1..],
                      host := if Is4A(p) then Name(p[user + 1..end]) else IPv4(p[4..8]),
                      port := Port(p[2], p[3]));
    if p[1] != 1 then decoded.(verdict := Reject)
    else decoded.(output := d.output + GRANTED4, verdict := Accept)
  }

  function Decode4(d: Dyn): Dyn {
    var p := d.input;
    if |p| < HEADER4 then d
    else
      match ScanStrings(p)
      case Incomplete => d
      case TooLong => d.(verdict := Reject)
      case Complete => Take4(d, HEADER4 + StrLen(p, HEADER4), LastNul(p))
  }

  // ---- SOCKS 5 ----

  /** The length of the address field, which for a name is its first byte. */
  function AddrLen5(p: seq<Byte>): Option<nat>
    requires |p| >= 5
  {
    match p[3]
    case 1 => Some(4)
    case 3 => Some(p[4])
    case 4 => Some(16)
    case _ => None
  }

  /** The length of the greeting: version, count, and that many methods. */
  function Greeting5(p: seq<Byte>): nat
    requires |p| >= 2
  {
    var nmethods: nat := p[1];
    nmethods + 2
  }

  function Decode5(d: Dyn): Dyn
    requires d.input != []
  {
    var p := d.input;
    if p[0] != 5 then d.(verdict := Reject)
    else if !d.authDone then
      if |p| < 2 || |p| < Greeting5(p) then d
      else if 0 !in p[2..Greeting5(p)] then d.(verdict := Reject)
      else d.(input := p[Greeting5(p)..], output := d.output + NO_AUTH5, authDone := true)
    else if |p| < 5 then d
    else if p[1] != 1 || p[2] != 0 || AddrLen5(p).None? then d.(verdict := Reject)
    else
      var addrlen := AddrLen5(p).value;
      var start := if p[3] == 3 then 5 else 4;
      var end := start + addrlen;
      if |p| < end + 2 then d
      else
        d.(input := p[end + 2..],
           output := d.output + SUCCESS5,
           host := match p[3]
                   case 1 => IPv4(p[start..end])
                   case 4 => IPv6(p[start..end])
                   case _ => Name(CString(p[start..end])),
           port := Port(p[end], p[end + 1]),
           verdict := Accept)
  }

  /** One call of `channel_pre_dynamic`. The version byte is looked at anew on every call. */
  function Poll(d: Dyn): Dyn {
    if d.verdict != NeedMore || |d.input| < 3 then d
    else
      match d.input[0]
      case 4 => Decode4(d)
      case 5 => Decode5(d)
      case _ => d.(verdict := Reject)
  }

  /** Calling until nothing changes; only the method negotiation leaves more to do. */
  function Quiesce(d: Dyn): Dyn
    decreases !d.authDone
  {
    var d' := Poll(d);
    if d'.verdict == NeedMore && !d.authDone && d'.authDone then Quiesce(d') else d'
  }

  /** A call that neither decides nor ends the negotiation changes nothing, and a decision stays. */
  lemma PollSettles(d: Dyn)
    ensures Poll(d).verdict == NeedMore && (d.authDone || !Poll(d).authDone) ==> Poll(d) == d
    ensures Poll(d).verdict != NeedMore ==> Poll(Poll(d)) == Poll(d)
  {
    hide StrLen, LastNul, Is4A, Port, CString;
  }

  lemma {:induction false} QuiesceIsStable(d: Dyn)
    ensures Poll(Quiesce(d)) == Quiesce(d)
    decreases !d.authDone
  {
    hide Poll;
    PollSettles(d);
    var d' := Poll(d);
    if d'.verdict == NeedMore && !d.authDone && d'.authDone {
      QuiesceIsStable(d');
    }
  }

  // ---- Fragmentation ----

  /** The client's bytes and the calls of the decoder, in any order. */
  datatype Action = Arrive(bytes: seq<Byte>) | Call

  function Run(d: Dyn, actions: seq<Action>): Dyn
    decreases |actions|
  {
    if actions == [] then d
    else
      var d' := match actions[0] case Arrive(bytes) => Feed(d, bytes) case Call => Poll(d);
      Run(d', actions[1..])
  }

  function Arrived(actions: seq<Action>): seq<Byte> {
    if actions == [] then []
    else (match actions[0] case Arrive(bytes) => bytes case Call => []) + Arrived(actions[1..])
  }

  lemma {:induction false} StrLenStable(p: seq<Byte>, q: seq<Byte>, pos: nat)
    requires pos <= |p|
    ensures pos + StrLen(p, pos) < |p| ==> StrLen(p + q, pos) == StrLen(p, pos)
    ensures pos + StrLen(p, pos) == |p| ==> StrLen(p + q, pos) >= StrLen(p, pos)
    decreases |p| - pos
  {
    if pos < |p| && p[pos] != 0 {
      StrLenStable(p, q, pos + 1);
    }
  }

  /** The scan for the strings decides alike however much follows what it has seen. */
  lemma ScanStable(p: seq<Byte>, q: seq<Byte>)
    requires |p| >= HEADER4 && ScanStrings(p) != Incomplete
    ensures ScanStrings(p + q) == ScanStrings(p)
    ensures ScanStrings(p) == Complete ==> LastNul(p + q) == LastNul(p) && StrLen(p + q, HEADER4) == StrLen(p, HEADER4)
  {
    hide StrLen, LastNul;
    LastNulStable(p, q);
  }

  lemma LastNulStable(p: seq<Byte>, q: seq<Byte>)
    requires |p| >= HEADER4
    ensures LastNul(p) < |p| ==> LastNul(p + q) == LastNul(p) && StrLen(p + q, HEADER4) == StrLen(p, HEADER4)
    ensures LastNul(p) >= |p| ==> LastNul(p + q) >= |p|
  {
    hide StrLen, NulFree, Is4A;
    SameAddress(p, q);
    StrLenStable(p, q, HEADER4);
    var user := HEADER4 + StrLen(p, HEADER4);
    if Is4A(p) && user < |p| {
      StrLenStable(p, q, user + 1);
    }
  }

  lemma SameAddress(p: seq<Byte>, q: seq<Byte>)
    requires |p| >= HEADER4
    ensures Is4A(p + q) == Is4A(p)
  {
  }

  lemma DropOfSum(p: seq<Byte>, q: seq<Byte>, n: nat)
    requires n <= |p|
    ensures (p + q)[n..] == p[n..] + q
  {
  }

  lemma SliceOfSum(p: seq<Byte>, q: seq<Byte>, m: nat, n: nat)
    requires m <= n <= |p|
    ensures (p + q)[m..n] == p[m..n]
  {
  }

  lemma Take4Stable(d: Dyn, q: seq<Byte>, user: nat, end: nat)
    requires HEADER4 <= user <= end < |d.input| && (Is4A(d.input) ==> user < end)
    ensures Is4A(d.input + q) == Is4A(d.input)
    ensures Take4(Feed(d, q), user, end) == Feed(Take4(d, user, end), q)
  {
    DropOfSum(d.input, q, end + 1);
    SliceOfSum(d.input, q, 4, 8);
    if Is4A(d.input) {
      SliceOfSum(d.input, q, user + 1, end);
    }
  }

  lemma Decode4Stable(d: Dyn, q: seq<Byte>)
    requires Decode4(d) != d
    ensures Decode4(Feed(d, q)) == Feed(Decode4(d), q)
  {
    var p := d.input;
    ScanStable(p, q);
    if ScanStrings(p) == Complete {
      Take4Stable(d, q, HEADER4 + StrLen(p, HEADER4), LastNul(p));
      hide StrLen, Take4, LastNul, Is4A;
    }
  }

  lemma Decode5Stable(d: Dyn, q: seq<Byte>)
    requires d.input != [] && Decode5(d) != d
    ensures Decode5(Feed(d, q)) == Feed(Decode5(d), q)
  {
    var p := d.input;
    if p[0] == 5 && !d.authDone {
      var n := Greeting5(p);
      SliceOfSum(p, q, 2, n);
      DropOfSum(p, q, n);
    } else if p[0] == 5 && p[1] == 1 && p[2] == 0 && AddrLen5(p).Some? {
      var start := if p[3] == 3 then 5 else 4;
      var end := start + AddrLen5(p).value;
      SliceOfSum(p, q, start, end);
      DropOfSum(p, q, end + 2);
    }
  }

  /** Whatever a call decides, it decides the same when more input is already there. */
  lemma PollStable(d: Dyn, q: seq<Byte>)
    requires Poll(d) != d
    ensures Poll(Feed(d, q)) == Feed(Poll(d), q)
  {
    if d.input[0] == 4 {
      Decode4Stable(d, q);
    } else if d.input[0] == 5 {
      Decode5Stable(d, q);
    }
  }

  lemma PollThenFeed(d: Dyn, q: seq<Byte>)
    ensures Quiesce(Feed(Poll(d), q)) == Quiesce(Feed(d, q))
  {
    if Poll(d) != d {
      PollStable(d, q);
      var e := Feed(d, q);
      assert Poll(e) == Feed(Poll(d), q);
      if Poll(e).verdict != NeedMore {
        assert Poll(Poll(e)) == Poll(e);
      }
    }
  }

  /**
   The decoder is insensitive to fragmentation: whatever the pieces the bytes come in, and whenever
   it is called in between, once it has nothing left to do its verdict, host, port, replies and
   leftover input are those of the whole stream delivered at once.
   */
  lemma {:induction false} FragmentationInsensitive(d: Dyn, actions: seq<Action>)
    ensures Quiesce(Run(d, actions)) == Quiesce(Feed(d, Arrived(actions)))
    decreases |actions|
  {
    hide Quiesce, Poll;
    if actions == [] {
      assert d.input + [] == d.input;
    } else {
      var rest := actions[1..];
      match actions[0]
      case Arrive(bytes) =>
        FragmentationInsensitive(Feed(d, bytes), rest);
        assert d.input + bytes + Arrived(rest) == d.input + (bytes + Arrived(rest));
      case Call =>
        FragmentationInsensitive(Poll(d), rest);
        PollThenFeed(d, Arrived(rest));
        assert [] + Arrived(rest) == Arrived(rest);
    }
  }

  // ---- What is accepted ----

  /** A CONNECT request: version 4 or 4A, or version 5 with an address of kind 1 (IPv4), 3 (name) or 4 (IPv6). */
  datatype Request =
    | Request4(addr: seq<Byte>, port: nat, user: seq<Byte>, name: seq<Byte>)
    | Request5(kind: Byte, addr: seq<Byte>, port: nat)

  predicate Marks4A(addr: seq<Byte>) {
    |addr| == 4 && addr[0] == 0 && addr[1] == 0 && addr[2] == 0 && addr[3] != 0
  }

  predicate WellFormed(r: Request) {
    && r.port < 0x1_0000
    && match r
       case Request4(addr, _, user, name) =>
         && |addr| == 4 && NulFree(user) && NulFree(name)
         && HEADER4 + |user| + (if Marks4A(addr) then 1 + |name| else 0) <= SCAN_LIMIT + 1
         && (!Marks4A(addr) ==> name == [])
       case Request5(kind, addr, _) =>
         (kind == 1 && |addr| == 4) || (kind == 3 && |addr| < 256) || (kind == 4 && |addr| == 16)
  }

  /** The destination asked for. A version 5 name ends at its first NUL. */
  function HostOf(r: Request): (h: Host)
    ensures r.Request4? ==> h == if Marks4A(r.addr) then Name(r.name) else IPv4(r.addr)
    ensures r.Request5? && r.kind == 1 ==> h == IPv4(r.addr)
    ensures r.Request5? && r.kind == 4 ==> h == IPv6(r.addr)
    ensures r.Request5? && r.kind == 3 ==>
      h.Name? && h.text <= r.addr && NulFree(h.text) && (h.text == r.addr || r.addr[|h.text|] == 0)
  {
    match r
    case Request4(addr, _, _, name) => if Marks4A(addr) then Name(name) else IPv4(addr)
    case Request5(kind, addr, _) =>
      if kind == 1 then IPv4(addr) else if kind == 4 then IPv6(addr) else Name(CString(addr))
  }

  function PortBytes(port: nat): (s: seq<Byte>)
    requires port < 0x1_0000
    ensures |s| == 2 && var hi: int, lo: int := s[0], s[1]; port == 256 * hi + lo
  {
    [port / 256, port % 256]
  }

  /** The request on the wire, for version 5 as in section 4 of RFC 1928. */
  function Encode(r: Request): seq<Byte>
    requires WellFormed(r)
  {
    match r
    case Request4(addr, port, user, name) =>
      [4, 1] + PortBytes(port) + addr + user + [0] + if Marks4A(addr) then name + [0] else []
    case Request5(kind, addr, port) =>
      [5, 1, 0, kind] + (if kind == 3 then [|addr|] else []) + addr + PortBytes(port)
  }

  /** The greeting of section 3 of RFC 1928. */
  function Greet(methods: seq<Byte>): seq<Byte>
    requires |methods| < 256
  {
    [5, |methods|] + methods
  }

  /** Two bytes at `p`, the more significant first, hold `port`. */
  predicate PortLaid(s: seq<Byte>, p: nat, port: nat) {
    p + 2 <= |s| && var hi: int, lo: int := s[p], s[p + 1]; port == 256 * hi + lo
  }

  /** The layout of a request, byte by byte. */
  predicate RequestLaid(s: seq<Byte>, r: Request) {
    match r
    case Request4(addr, port, user, name) =>
      && |addr| == 4 && |s| == 8 + |user| + 1 + (if Marks4A(addr) then |name| + 1 else 0)
      && s[0] == 4 && s[1] == 1 && PortLaid(s, 2, port) && s[4..8] == addr
      && s[8..8 + |user|] == user && s[8 + |user|] == 0
      && (Marks4A(addr) ==> s[9 + |user|..9 + |user| + |name|] == name && s[9 + |user| + |name|] == 0)
    case Request5(kind, addr, port) =>
      var at := if kind == 3 then 5 else 4;
      && |s| == at + |addr| + 2
      && s[0] == 5 && s[1] == 1 && s[2] == 0 && s[3] == kind && (kind == 3 ==> s[4] == |addr|)
      && s[at..at + |addr|] == addr && PortLaid(s, at + |addr|, port)
  }

  lemma PartsLaid(port: seq<Byte>, addr: seq<Byte>, user: seq<Byte>, tail: seq<Byte>)
    requires |port| == 2 && |addr| == 4
    ensures var s := [4, 1] + port + addr + user + [0] + tail;
      && |s| == 9 + |user| + |tail| && s[0] == 4 && s[1] == 1 && s[2] == port[0] && s[3] == port[1]
      && s[4..8] == addr && s[8..8 + |user|] == user && s[8 + |user|] == 0 && s[9 + |user|..] == tail
  {
  }

  lemma TailLaid(s: seq<Byte>, at: nat, name: seq<Byte>)
    requires at <= |s| && s[at..] == name + [0]
    ensures |s| == at + |name| + 1 && s[at..at + |name|] == name && s[at + |name|] == 0
  {
    assert s[at..at + |name|] == s[at..][..|name|];
  }

  lemma Encode4IsLaid(r: Request)
    requires r.Request4? && WellFormed(r)
    ensures RequestLaid(Encode(r), r)
  {
    hide PortBytes, NulFree, Marks4A;
    var tail := if Marks4A(r.addr) then r.name + [0] else [];
    PartsLaid(PortBytes(r.port), r.addr, r.user, tail);
    if Marks4A(r.addr) {
      TailLaid(Encode(r), 9 + |r.user|, r.name);
    }
  }

  lemma EncodeIsLaid(r: Request)
    requires WellFormed(r)
    ensures RequestLaid(Encode(r), r)
  {
    hide PortBytes, NulFree, Marks4A;
    if r.Request4? {
      Encode4IsLaid(r);
    }
  }

  function ReplyTo(r: Request): seq<Byte> { if r.Request4? then GRANTED4 else SUCCESS5 }

  function Granted(d: Dyn, r: Request, rest: seq<Byte>): Dyn {
    d.(input := rest, output := d.output + ReplyTo(r), host := HostOf(r), port := r.port, verdict := Accept)
  }

  lemma StringsOfEncode(r: Request, rest: seq<Byte>)
    requires r.Request4? && WellFormed(r)
    ensures var p := Encode(r) + rest;
      var user := HEADER4 + |r.user|;
      && |p| > user && p[HEADER4..user] == r.user && p[user] == 0
      && p[0] == 4 && p[1] == 1 && Port(p[2], p[3]) == r.port && Is4A(p) == Marks4A(r.addr) && p[4..8] == r.addr
      && if Marks4A(r.addr)
         then var end := user + 1 + |r.name|;
              |p| > end && p[user + 1..end] == r.name && p[end] == 0 && p[end + 1..] == rest
         else p[user + 1..] == rest
  {
  }

  predicate TextAt(p: seq<Byte>, start: nat, end: nat, text: seq<Byte>) {
    NulFree(text) && end == start + |text| < |p| && p[start..end] == text && p[end] == 0
  }

  lemma StrLenIs(p: seq<Byte>, start: nat, end: nat, text: seq<Byte>)
    requires TextAt(p, start, end, text)
    ensures StrLen(p, start) == |text|
  {
    hide StrLen, NulFree;
    StrLenOfText(p, start, text);
  }

  lemma ScanOfStrings(p: seq<Byte>, u: nat, end: nat, user: seq<Byte>, name: seq<Byte>)
    requires TextAt(p, HEADER4, u, user)
    requires if Is4A(p) then TextAt(p, u + 1, end, name) else end == u
    ensures StrLen(p, HEADER4) == |user| && LastNul(p) == end
  {
    hide StrLen, NulFree, Is4A, LastNul;
    StrLenIs(p, HEADER4, u, user);
    LastNulBehind(p, u);
    if Is4A(p) {
      StrLenIs(p, u + 1, end, name);
    }
  }

  lemma LastNulBehind(p: seq<Byte>, user: nat)
    requires |p| > user >= HEADER4 && user == HEADER4 + StrLen(p, HEADER4)
    ensures LastNul(p) == user + if Is4A(p) then 1 + StrLen(p, user + 1) else 0
  {
    hide StrLen, Is4A;
  }

  lemma DecodeComplete(d: Dyn, user: nat, end: nat)
    requires |d.input| >= HEADER4 && ScanStrings(d.input) == Complete
    requires HEADER4 + StrLen(d.input, HEADER4) == user && LastNul(d.input) == end
    ensures user <= end < |d.input| && end <= SCAN_LIMIT + 1 && (Is4A(d.input) ==> user < end)
    ensures Decode4(d) == Take4(d, user, end)
  {
    hide StrLen, Take4;
  }

  lemma Encoded4Accepted(d: Dyn, r: Request, rest: seq<Byte>)
    requires r.Request4? && WellFormed(r) && d.input == Encode(r) + rest && d.verdict == NeedMore
    ensures Poll(d) == Granted(d, r, rest)
  {
    hide Encode, StrLen, LastNul, Is4A, Marks4A, Decode4, NulFree;
    var p := d.input;
    StringsOfEncode(r, rest);
    var user := HEADER4 + |r.user|;
    var end := if Is4A(p) then user + 1 + |r.name| else user;
    ScanOfStrings(p, user, end, r.user, r.name);
    DecodeComplete(d, user, end);
  }

  lemma PartsOfEncode(r: Request, rest: seq<Byte>)
    requires r.Request5? && WellFormed(r)
    ensures var p := Encode(r) + rest;
      var start := if r.kind == 3 then 5 else 4;
      var end := start + |r.addr|;
      && |p| >= end + 2 && |p| >= 5
      && p[0] == 5 && p[1] == 1 && p[2] == 0 && p[3] == r.kind && AddrLen5(p) == Some(|r.addr|)
      && p[start..end] == r.addr && Port(p[end], p[end + 1]) == r.port && p[end + 2..] == rest
  {
  }

  lemma Encoded5Accepted(d: Dyn, r: Request, rest: seq<Byte>)
    requires r.Request5? && WellFormed(r) && d.input == Encode(r) + rest && d.verdict == NeedMore && d.authDone
    ensures Poll(d) == Granted(d, r, rest)
  {
    PartsOfEncode(r, rest);
    hide Encode, CString;
  }

  /** The request that an accepting call has decoded, and what follows it. */
  lemma AcceptedEncodes(d: Dyn) returns (r: Request, rest: seq<Byte>)
    requires d.verdict == NeedMore && Poll(d).verdict == Accept
    ensures WellFormed(r) && (r.Request5? ==> d.authDone)
    ensures d.input == Encode(r) + rest
    ensures Poll(d) == Granted(d, r, rest)
  {
    if d.input[0] == 4 {
      r, rest := Accepted4(d);
      Encoded4Accepted(d, r, rest);
    } else {
      r, rest := Accepted5(d);
      Encoded5Accepted(d, r, rest);
    }
  }

  lemma PortRoundTrip(hi: Byte, lo: Byte)
    ensures Port(hi, lo) < 0x1_0000 && PortBytes(Port(hi, lo)) == [hi, lo]
  {
  }

  /** What the version 4 decoder has found when it accepts. */
  lemma Accepted4Parts(d: Dyn)
    requires d.verdict == NeedMore && Poll(d).verdict == Accept && d.input[0] == 4
    ensures |d.input| >= HEADER4 && ScanStrings(d.input) == Complete && d.input[1] == 1
    ensures var p, user, end := d.input, HEADER4 + StrLen(d.input, HEADER4), LastNul(d.input);
      && user <= end < |p| && end <= SCAN_LIMIT + 1 && p[user] == 0 && p[end] == 0 && NulFree(p[HEADER4..user])
      && if Is4A(p) then user < end && NulFree(p[user + 1..end]) else user == end
  {
  }

  lemma Accepted4(d: Dyn) returns (r: Request, rest: seq<Byte>)
    requires d.verdict == NeedMore && Poll(d).verdict == Accept && d.input[0] == 4
    ensures r.Request4? && WellFormed(r) && d.input == Encode(r) + rest
  {
    hide StrLen, LastNul, ScanStrings, Poll, Port, PortBytes, Is4A, Marks4A, NulFree;
    var p := d.input;
    Accepted4Parts(d);
    var user, end := HEADER4 + StrLen(p, HEADER4), LastNul(p);
    PortRoundTrip(p[2], p[3]);
    rest := p[end + 1..];
    r := Request4(p[4..8], Port(p[2], p[3]), p[HEADER4..user], if Is4A(p) then p[user + 1..end] else []);
    MarkIsCopied(p);
    Rebuild4(p, user, end, r.name);
  }

  lemma MarkIsCopied(p: seq<Byte>)
    requires |p| >= HEADER4
    ensures Marks4A(p[4..8]) == Is4A(p) && NulFree([])
  {
  }

  lemma Rebuild4(p: seq<Byte>, user: nat, end: nat, name: seq<Byte>)
    requires HEADER4 <= user <= end < |p| && p[0] == 4 && p[1] == 1 && p[user] == 0 && p[end] == 0
    requires if Is4A(p) then user < end && name == p[user + 1..end] else user == end
    ensures p == [4, 1] + [p[2], p[3]] + p[4..8] + p[HEADER4..user] + [0] + (if Is4A(p) then name + [0] else [])
                 + p[end + 1..]
  {
  }

  lemma Accepted5(d: Dyn) returns (r: Request, rest: seq<Byte>)
    requires d.verdict == NeedMore && Poll(d).verdict == Accept && d.input[0] != 4
    ensures r.Request5? && WellFormed(r) && d.input == Encode(r) + rest && d.authDone
  {
    var p := d.input;
    Accepted5Parts(d);
    hide StrLen, Port, PortBytes, CString, Poll;
    var addrlen := AddrLen5(p).value;
    var start := if p[3] == 3 then 5 else 4;
    var end := start + addrlen;
    PortRoundTrip(p[end], p[end + 1]);
    rest := p[end + 2..];
    r := Request5(p[3], p[start..end], Port(p[end], p[end + 1]));
    Rebuild5(p, start, end);
  }

  lemma Accepted5Parts(d: Dyn)
    requires d.verdict == NeedMore && Poll(d).verdict == Accept && d.input[0] != 4
    ensures d.authDone && |d.input| >= 5 && d.input[..3] == [5, 1, 0] && AddrLen5(d.input).Some?
    ensures (if d.input[3] == 3 then 5 else 4) + AddrLen5(d.input).value + 2 <= |d.input|
  {
    hide StrLen, Decode4;
  }

  lemma Rebuild5(p: seq<Byte>, start: nat, end: nat)
    requires |p| >= 5 && p[..3] == [5, 1, 0] && start == (if p[3] == 3 then 5 else 4) <= end && end + 2 <= |p|
    ensures p == [5, 1, 0, p[3]] + (if p[3] == 3 then [p[4]] else []) + p[start..end] + [p[end], p[end + 1]]
                 + p[end + 2..]
  {
    assert p == p[..start] + p[start..end] + [p[end], p[end + 1]] + p[end + 2..];
    assert p[..start] == p[..3] + p[3..start];
    assert p[3..start] == [p[3]] + if p[3] == 3 then [p[4]] else [];
  }

  /** The byte streams the decoder accepts, with what it makes of them. */
  ghost predicate Handshake(stream: seq<Byte>, methods: Option<seq<Byte>>, r: Request, rest: seq<Byte>) {
    && WellFormed(r)
    && match methods
       case None => r.Request4? && stream == Encode(r) + rest
       case Some(m) => |m| < 256 && 0 in m && stream == Greet(m) + (Encode(r) + rest)
  }

  lemma GreetingTaken(m: seq<Byte>, tail: seq<Byte>)
    requires |m| < 256 && 0 in m
    ensures Poll(Fresh(Greet(m) + tail)) == Dyn(tail, NO_AUTH5, true, NoHost, 0, NeedMore)
  {
    var p := Greet(m) + tail;
    assert p[2..|m| + 2] == m && p[|m| + 2..] == tail;
    hide Decode4;
  }

  lemma GreetingGiven(p: seq<Byte>) returns (m: seq<Byte>, tail: seq<Byte>)
    requires Poll(Fresh(p)).authDone
    ensures |m| < 256 && 0 in m && p == Greet(m) + tail
    ensures Poll(Fresh(p)) == Dyn(tail, NO_AUTH5, true, NoHost, 0, NeedMore)
  {
    var n := Greeting5(p);
    m, tail := p[2..n], p[n..];
    assert p == [p[0], p[1]] + m + tail;
  }

  /** A handshake, byte by byte: the greeting if there is one, the request, and what follows. */
  lemma HandshakeIsLaid(stream: seq<Byte>, methods: Option<seq<Byte>>, r: Request, rest: seq<Byte>)
    returns (request: seq<Byte>)
    requires Handshake(stream, methods, r, rest)
    ensures RequestLaid(request, r)
    ensures stream == (if methods.None? then [] else [5, |methods.value|] + methods.value) + request + rest
    ensures methods.Some? ==> 0 in methods.value
  {
    hide RequestLaid, Encode;
    EncodeIsLaid(r);
    request := Encode(r);
    if methods.Some? {
      assert [5, |methods.value|] + methods.value + request + rest == Greet(methods.value) + (request + rest);
    } else {
      assert [] + request + rest == request + rest;
    }
  }

  /** Every handshake is accepted, however it is cut into pieces, with its host and port. */
  lemma HandshakeAccepted(actions: seq<Action>, methods: Option<seq<Byte>>, r: Request, rest: seq<Byte>)
    requires Handshake(Arrived(actions), methods, r, rest)
    ensures Quiesce(Run(Fresh([]), actions))
            == Dyn(rest,
                   (if methods.Some? then [5, 0] else [])
                   + (if r.Request4? then [0, 90, 0, 0, 0, 0, 0, 0] else [5, 0, 0, 1, 0, 0, 0, 0, 0, 0]),
                   methods.Some?, HostOf(r), r.port, Accept)
  {
    FragmentationInsensitive(Fresh([]), actions);
    assert [] + Arrived(actions) == Arrived(actions);
    hide Encode, HostOf, Poll;
    match methods {
      case None =>
        assert [] + ReplyTo(r) == ReplyTo(r);
        Encoded4Accepted(Fresh(Arrived(actions)), r, rest);
      case Some(m) =>
        GreetingTaken(m, Encode(r) + rest);
        var d := Dyn(Encode(r) + rest, NO_AUTH5, true, NoHost, 0, NeedMore);
        if r.Request4? {
          Encoded4Accepted(d, r, rest);
        } else {
          Encoded5Accepted(d, r, rest);
        }
    }
  }

  /**
   Nothing else is accepted. The version byte is read anew after the negotiation of version 5, so a
   version 4 request may follow it.
   */
  lemma AcceptedIsHandshake(actions: seq<Action>) returns (methods: Option<seq<Byte>>, r: Request, rest: seq<Byte>)
    requires Quiesce(Run(Fresh([]), actions)).verdict == Accept
    ensures Handshake(Arrived(actions), methods, r, rest)
  {
    FragmentationInsensitive(Fresh([]), actions);
    var p := Arrived(actions);
    assert [] + p == p;
    var d := Poll(Fresh(p));
    hide Encode, HostOf, Poll;
    if d.verdict == Accept {
      r, rest := AcceptedEncodes(Fresh(p));
      methods := None;
    } else {
      var m, tail := GreetingGiven(p);
      r, rest := AcceptedEncodes(d);
      methods := Some(m);
    }
  }
}
