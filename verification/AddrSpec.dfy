/** Network addresses as bits, most significant first, and what it means to lie in a network. */
module AddrSpec {
  import opened Bytes

  /** 32 bits in network order. */
  type Word = w: seq<bool> | |w| == 32 witness seq(32, i => false)

  type Words = ws: seq<Word> | |ws| == 4 witness seq(4, i => seq(32, j => false))

  /** `struct xaddr` of the two families that exist here. */
  datatype Addr = V4(word: Word) | V6(words: Words, scope: nat)

  function Size(v6: bool): nat { if v6 then 128 else 32 }

  function Bits(a: Addr): (s: seq<bool>)
    ensures |s| == Size(a.V6?)
  {
    match a
    case V4(w) => w
    case V6(ws, _) =>
      var s0: seq<bool>, s1: seq<bool>, s2: seq<bool>, s3: seq<bool> := ws[0], ws[1], ws[2], ws[3];
      s0 + s1 + s2 + s3
  }

  function Scope(a: Addr): nat { if a.V6? then a.scope else 0 }

  /** An address is its family, its bits and its scope. */
  lemma BitsDetermine(a: Addr, b: Addr)
    requires a.V6? == b.V6? && Bits(a) == Bits(b) && Scope(a) == Scope(b)
    ensures a == b
  {
    if a.V6? {
      forall k | 0 <= k < 4 ensures a.words[k] == b.words[k] {
        WordOfBits(a, k);
        WordOfBits(b, k);
      }
    }
  }

  lemma WordOfBits(a: Addr, k: nat)
    requires a.V6? && k < 4
    ensures a.words[k] == Bits(a)[32 * k..32 * k + 32]
  {
    var ws := a.words;
    if k == 0 {
    } else if k == 1 {
    } else if k == 2 {
    } else {
    }
  }

  const ONES: Word := seq(32, i => true)
  const ZEROS: Word := seq(32, i => false)

  /** `w << k`. */
  function Shl(w: Word, k: nat): Word
    requires k < 32
  {
    w[k..] + seq(k, i => false)
  }

  function And(a: Word, b: Word): Word { seq(32, i requires 0 <= i < 32 => a[i] && b[i]) }

  function Not(a: Word): Word { seq(32, i requires 0 <= i < 32 => !a[i]) }

  /** The number that bits stand for. */
  function Number(s: seq<bool>): nat {
    if s == [] then 0 else 2 * Number(s[..|s| - 1]) + if s[|s| - 1] then 1 else 0
  }

  lemma {:induction false} NumberInjective(a: seq<bool>, b: seq<bool>)
    requires |a| == |b| && Number(a) == Number(b)
    ensures a == b
  {
    if a != [] {
      var n := |a| - 1;
      NumberInjective(a[..n], b[..n]);
      assert a == a[..n] + [a[n]] && b == b[..n] + [b[n]];
    }
  }

  /** Numbers of the same length are ordered by the first part in which they differ. */
  lemma {:induction false} NumberOrder(p: seq<bool>, q: seq<bool>, a: seq<bool>, b: seq<bool>)
    requires |p| == |q| && |a| == |b| && Number(p) > Number(q)
    ensures Number(p + a) > Number(q + b)
  {
    if a == [] {
      assert p + a == p && q + b == q;
    } else {
      var n := |a| - 1;
      NumberOrder(p, q, a[..n], b[..n]);
      assert (p + a)[..|p| + n] == p + a[..n] && (q + b)[..|q| + n] == q + b[..n];
    }
  }

  lemma {:induction false} NumberSamePrefix(p: seq<bool>, a: seq<bool>, b: seq<bool>)
    requires |a| == |b|
    ensures Number(p + a) > Number(p + b) <==> Number(a) > Number(b)
    decreases |a|
  {
    if a == [] {
      assert p + a == p && p + b == p;
    } else {
      var n := |a| - 1;
      NumberSamePrefix(p, a[..n], b[..n]);
      NumberSamePrefix(p, b[..n], a[..n]);
      assert (p + a)[..|p| + n] == p + a[..n] && (p + b)[..|p| + n] == p + b[..n];
    }
  }

  // ---- Masks ----

  /** `l` bits set, then none. */
  predicate IsMask(n: Addr, l: nat) {
    forall i :: 0 <= i < |Bits(n)| ==> (Bits(n)[i] <==> i < l)
  }

  predicate Cleared(s: seq<bool>, from: nat) { forall i :: from <= i < |s| ==> !s[i] }

  /** The bits of `a` that are set in `m` too; the scope stays that of `a`. */
  predicate Masked(r: Addr, a: Addr, m: Addr) {
    && r.V6? == a.V6? == m.V6? && Scope(r) == Scope(a)
    && forall i :: 0 <= i < |Bits(a)| ==> (Bits(r)[i] <==> Bits(a)[i] && Bits(m)[i])
  }

  /** The host lies in the network: same family, same scope, and the same first bits. */
  predicate InNetwork(host: Addr, net: Addr, l: nat) {
    && host.V6? == net.V6? && l <= Size(net.V6?) && Scope(host) == Scope(net)
    && Bits(host)[..l] == Bits(net)[..l]
  }

  /** Comparing the masked host with the network decides membership, and that no host bit of the network is set. */
  lemma MaskedEquals(r: Addr, host: Addr, net: Addr, m: Addr, l: nat)
    requires host.V6? == net.V6? == m.V6? && l <= Size(net.V6?) && IsMask(m, l) && Masked(r, host, m)
    ensures r == net <==> InNetwork(host, net, l) && Cleared(Bits(net), l)
  {
    var h, n := Bits(host), Bits(net);
    if InNetwork(host, net, l) && Cleared(n, l) {
      forall i | 0 <= i < |n| ensures Bits(r)[i] == n[i] {
        if i < l {
          assert h[..l][i] == n[..l][i];
        }
      }
      BitsDetermine(r, net);
    }
  }

  // ---- Lists ----

  /** What the rest of the program tells about text: numeric addresses, numbers and wildcard patterns. */
  datatype Resolver = Resolver(
    pton: string -> Option<Addr>,
    strtoul: string -> Option<nat>,
    pattern: (string, string) -> bool)

  datatype Cidr = NoCidr | Inconsistent | Network(net: Addr, masklen: nat)

  function FirstSlash(s: string): (n: nat)
    ensures n <= |s| && '/' !in s[..n] && (n < |s| ==> s[n] == '/')
  {
    if s == "" || s[0] == '/' then 0
    else
      var n := 1 + FirstSlash(s[1..]);
      assert s[..n] == [s[0]] + s[1..][..n - 1];
      n
  }

  /** `addr_pton_cidr`. */
  function ParseCidr(p: string, resolver: Resolver): Cidr {
    var n := FirstSlash(p);
    var masklen := if n < |p| && p[n + 1..] != "" then resolver.strtoul(p[n + 1..]) else None;
    if |p| >= 64 then NoCidr
    else if n < |p| && (masklen.None? || masklen.value > 128) then NoCidr
    else
      match resolver.pton(p[..n])
      case None => NoCidr
      case Some(a) =>
        var l := if n < |p| then masklen.value else Size(a.V6?);
        if l <= Size(a.V6?) && Cleared(Bits(a), l) then Network(a, l) else Inconsistent
  }

  /** What one entry of a list says about an address. */
  datatype Verdict = Invalid | Denied | Matched | Silent

  function Judge(entry: string, addr: Option<string>, resolver: Resolver): Verdict {
    var neg := entry != "" && entry[0] == '!';
    var cp := if neg then entry[1..] else entry;
    if cp == "" then Invalid
    else
      var hit := match ParseCidr(cp, resolver)
                 case NoCidr => addr.Some? && resolver.pattern(addr.value, cp)
                 case Inconsistent => false
                 case Network(net, l) =>
                   addr.Some? && resolver.pton(addr.value).Some? && InNetwork(resolver.pton(addr.value).value, net, l);
      if ParseCidr(cp, resolver).Inconsistent? then Invalid
      else if !hit then Silent
      else if neg then Denied else Matched
  }

  /** The verdicts are taken in order; the first that is invalid or a negated match ends the list. */
  function Outcome(verdicts: seq<Verdict>, ret: int): int {
    if verdicts == [] then ret
    else
      match verdicts[0]
      case Invalid => -2
      case Denied => -1
      case Matched => Outcome(verdicts[1..], 1)
      case Silent => Outcome(verdicts[1..], ret)
  }

  function Judged(entries: seq<string>, addr: Option<string>, resolver: Resolver): seq<Verdict> {
    seq(|entries|, i requires 0 <= i < |entries| => Judge(entries[i], addr, resolver))
  }

  predicate Stops(v: Verdict) { v == Invalid || v == Denied }

  /** A list fails at its first invalid or negated entry; otherwise it matches if any entry does. */
  lemma {:induction false} OutcomeMeaning(verdicts: seq<Verdict>, ret: int)
    requires ret == 0 || ret == 1
    ensures Outcome(verdicts, ret) == -2 <==>
      exists k :: 0 <= k < |verdicts| && verdicts[k] == Invalid && forall j :: 0 <= j < k ==> !Stops(verdicts[j])
    ensures Outcome(verdicts, ret) == -1 <==>
      exists k :: 0 <= k < |verdicts| && verdicts[k] == Denied && forall j :: 0 <= j < k ==> !Stops(verdicts[j])
    ensures Outcome(verdicts, ret) == 1 <==>
      (ret == 1 || Matched in verdicts) && forall j :: 0 <= j < |verdicts| ==> !Stops(verdicts[j])
    ensures -2 <= Outcome(verdicts, ret) <= 1
  {
    if verdicts != [] && !Stops(verdicts[0]) {
      var rest := verdicts[1..];
      var ret' := if verdicts[0] == Matched then 1 else ret;
      OutcomeMeaning(rest, ret');
      assert verdicts == [verdicts[0]] + rest;
      FirstStopShifts(verdicts, Invalid);
      FirstStopShifts(verdicts, Denied);
      assert forall j :: 1 <= j < |verdicts| ==> verdicts[j] == rest[j - 1];
    }
  }

  lemma FirstStopShifts(verdicts: seq<Verdict>, v: Verdict)
    requires verdicts != [] && !Stops(verdicts[0]) && Stops(v)
    ensures (exists k :: 0 <= k < |verdicts| && verdicts[k] == v && forall j :: 0 <= j < k ==> !Stops(verdicts[j]))
        <==> (exists k :: 0 <= k < |verdicts[1..]| && verdicts[1..][k] == v
                          && forall j :: 0 <= j < k ==> !Stops(verdicts[1..][j]))
  {
    var rest := verdicts[1..];
    if k :| 0 <= k < |verdicts| && verdicts[k] == v && forall j :: 0 <= j < k ==> !Stops(verdicts[j]) {
      assert rest[k - 1] == v;
      forall j | 0 <= j < k - 1 ensures !Stops(rest[j]) {
        assert rest[j] == verdicts[j + 1];
      }
    }
    if k :| 0 <= k < |rest| && rest[k] == v && forall j :: 0 <= j < k ==> !Stops(rest[j]) {
      assert verdicts[k + 1] == v;
      forall j | 0 <= j < k + 1 ensures !Stops(verdicts[j]) {
        assert j > 0 ==> verdicts[j] == rest[j - 1];
      }
    }
  }

  // ---- What a list says, by its text ----

  /** The text states address `a` and prefix length `l`: an address alone, or with a length behind a slash. */
  ghost predicate Names(text: string, resolver: Resolver, a: Addr, l: nat) {
    && |text| < 64
    && (|| ('/' !in text && resolver.pton(text) == Some(a) && l == if a.V4? then 32 else 128)
        || exists host: string, length: string ::
             && text == host + "/" + length && '/' !in host && length != ""
             && resolver.pton(host) == Some(a) && resolver.strtoul(length) == Some(l) && l <= 128)
  }

  /** A network has no more prefix bits than bits, and no bit set behind them. */
  predicate IsNetwork(a: Addr, l: nat) { l <= Size(a.V6?) && Cleared(Bits(a), l) }

  ghost predicate NamesNothing(text: string, resolver: Resolver) {
    forall a, l :: !Names(text, resolver, a, l)
  }

  /** The text stands for this address: as a network that it lies in, or else as a pattern. */
  ghost predicate Covers(text: string, addr: Option<string>, resolver: Resolver) {
    && addr.Some?
    && (|| (resolver.pton(addr.value).Some? && exists net, l ::
              && Names(text, resolver, net, l) && IsNetwork(net, l)
              && InNetwork(resolver.pton(addr.value).value, net, l))
        || (NamesNothing(text, resolver) && resolver.pattern(addr.value, text)))
  }

  ghost predicate Unfit(text: string, resolver: Resolver) {
    exists a, l :: Names(text, resolver, a, l) && !IsNetwork(a, l)
  }

  /** An entry with nothing in it, or with an address and a length that do not go together. */
  ghost predicate Faulty(entry: string, resolver: Resolver) {
    || entry == "" || entry == "!"
    || (entry[0] != '!' && Unfit(entry, resolver))
    || exists text: string :: entry == "!" + text && Unfit(text, resolver)
  }

  /** An entry with "!" in front of a text that covers the address. */
  ghost predicate Denies(entry: string, addr: Option<string>, resolver: Resolver) {
    exists text: string :: entry == "!" + text && text != "" && Covers(text, addr, resolver)
  }

  /** An entry without "!" that covers the address. */
  ghost predicate Accepts(entry: string, addr: Option<string>, resolver: Resolver) {
    entry != "" && entry[0] != '!' && Covers(entry, addr, resolver)
  }

  lemma SlashSplits(text: string, host: string, length: string)
    requires text == host + "/" + length && '/' !in host
    ensures FirstSlash(text) == |host| && text[..|host|] == host && text[|host| + 1..] == length
  {
    assert text[|host|] == '/' && text[..|host|] == host && text[|host| + 1..] == length;
    forall i | 0 <= i < |host| ensures text[i] != '/' {
      assert host[i] in host;
    }
  }

  /** What the text states is what the parser makes of it. */
  lemma NamesParsed(text: string, resolver: Resolver, a: Addr, l: nat)
    requires Names(text, resolver, a, l)
    ensures ParseCidr(text, resolver) == if IsNetwork(a, l) then Network(a, l) else Inconsistent
  {
    hide ParseCidr, IsNetwork;
    if '/' !in text && resolver.pton(text) == Some(a) && l == if a.V4? then 32 else 128 {
      WholeParsed(text, resolver, a);
    } else {
      var host: string, length: string :|
        && text == host + "/" + length && '/' !in host && length != ""
        && resolver.pton(host) == Some(a) && resolver.strtoul(length) == Some(l) && l <= 128;
      SplitParsed(text, host, length, resolver, a, l);
    }
  }

  lemma WholeParsed(text: string, resolver: Resolver, a: Addr)
    requires |text| < 64 && '/' !in text && resolver.pton(text) == Some(a)
    ensures var l := if a.V4? then 32 else 128;
      ParseCidr(text, resolver) == if IsNetwork(a, l) then Network(a, l) else Inconsistent
  {
    hide Cleared, Bits;
    var n := FirstSlash(text);
    assert n == |text| && text[..n] == text;
  }

  lemma SplitParsed(text: string, host: string, length: string, resolver: Resolver, a: Addr, l: nat)
    requires |text| < 64 && text == host + "/" + length && '/' !in host && length != ""
    requires resolver.pton(host) == Some(a) && resolver.strtoul(length) == Some(l) && l <= 128
    ensures ParseCidr(text, resolver) == if IsNetwork(a, l) then Network(a, l) else Inconsistent
  {
    hide Cleared, Bits, FirstSlash;
    SlashSplits(text, host, length);
  }

  lemma ParsedNames(text: string, resolver: Resolver) returns (a: Addr, l: nat)
    requires !ParseCidr(text, resolver).NoCidr?
    ensures Names(text, resolver, a, l)
  {
    hide Cleared, Bits;
    var n := FirstSlash(text);
    a := resolver.pton(text[..n]).value;
    if n == |text| {
      l := Size(a.V6?);
      assert text[..n] == text;
    } else {
      l := resolver.strtoul(text[n + 1..]).value;
      assert text == text[..n] + "/" + text[n + 1..];
    }
  }

  /** The parser's three answers, by what the text states. */
  lemma ParseMeaning(text: string, resolver: Resolver)
    ensures ParseCidr(text, resolver).NoCidr? <==> NamesNothing(text, resolver)
    ensures ParseCidr(text, resolver).Inconsistent? <==> Unfit(text, resolver)
    ensures forall a, l :: ParseCidr(text, resolver) == Network(a, l) <==>
      Names(text, resolver, a, l) && IsNetwork(a, l)
  {
    hide ParseCidr, Names, IsNetwork;
    forall a, l | Names(text, resolver, a, l)
      ensures ParseCidr(text, resolver) == if IsNetwork(a, l) then Network(a, l) else Inconsistent
    {
      NamesParsed(text, resolver, a, l);
    }
    if !ParseCidr(text, resolver).NoCidr? {
      var a, l := ParsedNames(text, resolver);
    }
  }

  lemma CoversMeaning(text: string, addr: Option<string>, resolver: Resolver)
    ensures Covers(text, addr, resolver) <==>
      match ParseCidr(text, resolver)
      case NoCidr => addr.Some? && resolver.pattern(addr.value, text)
      case Inconsistent => false
      case Network(net, l) =>
        addr.Some? && resolver.pton(addr.value).Some? && InNetwork(resolver.pton(addr.value).value, net, l)
  {
    hide ParseCidr, Names, IsNetwork, InNetwork;
    ParseMeaning(text, resolver);
  }

  /** The verdict on an entry, by its text. */
  lemma JudgeMeaning(entry: string, addr: Option<string>, resolver: Resolver)
    ensures Judge(entry, addr, resolver) == Invalid <==> Faulty(entry, resolver)
    ensures Judge(entry, addr, resolver) == Denied <==> Denies(entry, addr, resolver)
    ensures Judge(entry, addr, resolver) == Matched <==> Accepts(entry, addr, resolver)
  {
    hide ParseCidr, Names, IsNetwork, InNetwork, Unfit, Covers, NamesNothing;
    if entry != "" && entry[0] == '!' {
      assert entry == "!" + entry[1..];
      assert forall text: string :: entry == "!" + text ==> text == entry[1..];
      ParseMeaning(entry[1..], resolver);
      CoversMeaning(entry[1..], addr, resolver);
    } else {
      assert forall text: string {:trigger "!" + text} :: entry == "!" + text ==> entry[0] == '!';
      ParseMeaning(entry, resolver);
      CoversMeaning(entry, addr, resolver);
    }
  }

  /** The walk gets to entry `k`: none before it ends the list. */
  ghost predicate Gets(entries: seq<string>, k: nat, addr: Option<string>, resolver: Resolver)
    requires k <= |entries|
  {
    forall j :: 0 <= j < k ==> !Faulty(entries[j], resolver) && !Denies(entries[j], addr, resolver)
  }

  /** What the whole list says: the first faulty or denying entry decides, else whether one accepts. */
  lemma ListMeaning(entries: seq<string>, addr: Option<string>, resolver: Resolver)
    ensures var ret := Outcome(Judged(entries, addr, resolver), 0);
      && -2 <= ret <= 1
      && (ret == -2 <==>
          exists k :: 0 <= k < |entries| && Faulty(entries[k], resolver) && Gets(entries, k, addr, resolver))
      && (ret == -1 <==>
          exists k :: 0 <= k < |entries| && Denies(entries[k], addr, resolver) && Gets(entries, k, addr, resolver))
      && (ret == 1 <==>
          && Gets(entries, |entries|, addr, resolver)
          && exists k :: 0 <= k < |entries| && Accepts(entries[k], addr, resolver))
  {
    hide Judge, Outcome, Faulty, Denies, Accepts;
    var verdicts := Judged(entries, addr, resolver);
    OutcomeMeaning(verdicts, 0);
    forall k | 0 <= k < |entries|
      ensures verdicts[k] == Invalid <==> Faulty(entries[k], resolver)
      ensures verdicts[k] == Denied <==> Denies(entries[k], addr, resolver)
      ensures verdicts[k] == Matched <==> Accepts(entries[k], addr, resolver)
    {
      JudgeMeaning(entries[k], addr, resolver);
    }
  }
}
