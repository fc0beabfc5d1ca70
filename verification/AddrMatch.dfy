/**
 The CIDR functions of addrmatch.c. Words are taken in network order; a byte is eight bits of an
 address. Text that is neither a list nor a mask is left to the resolver.
 */
module AddrMatch {
  import opened Bytes
  import opened AddrSpec

  function UnicastMasklen(v6: bool): nat { Size(v6) }

  function MasklenValid(v6: bool, masklen: nat): int { if masklen <= Size(v6) then 0 else -1 }

  lemma MaskOfWords(ws: Words, l: nat)
    requires l <= 128
    requires forall k, j :: 0 <= k < 4 && 0 <= j < 32 ==> (ws[k][j] <==> 32 * k + j < l)
    ensures IsMask(V6(ws, 0), l)
  {
    var n := V6(ws, 0);
    forall i | 0 <= i < 128 ensures Bits(n)[i] <==> i < l {
      WordOfBits(n, i / 32);
      assert Bits(n)[i] == Bits(n)[32 * (i / 32)..32 * (i / 32) + 32][i % 32];
    }
  }

  /** `addr_netmask`: whole words of ones, then a word shifted to the rest. */
  method Netmask(v6: bool, masklen: nat) returns (ret: int, n: Addr)
    ensures ret == if masklen <= Size(v6) then 0 else -1
    ensures ret == 0 ==> n.V6? == v6 && Scope(n) == 0 && IsMask(n, masklen)
  {
    n := V4(ZEROS);
    if MasklenValid(v6, masklen) != 0 {
      return -1, n;
    }
    if !v6 {
      if masklen == 0 {
        return 0, V4(ZEROS);
      }
      return 0, V4(Shl(ONES, 32 - masklen));
    }
    var words: Words := [ZEROS, ZEROS, ZEROS, ZEROS];
    var i, l := 0, masklen;
    while i < 4 && l >= 32
      invariant i <= 4 && 32 * i + l == masklen
      invariant forall k, j :: 0 <= k < 4 && 0 <= j < 32 ==> (words[k][j] <==> k < i)
    {
      words := words[i := ONES];
      i, l := i + 1, l - 32;
    }
    if i < 4 && l != 0 {
      words := words[i := Shl(ONES, 32 - l)];
    }
    MaskOfWords(words, masklen);
    return 0, V6(words, 0);
  }

  lemma AndOfWords(r: Addr, a: Addr, b: Addr)
    requires a.V6? && b.V6? && r.V6? && r.scope == a.scope
    requires forall k :: 0 <= k < 4 ==> r.words[k] == And(a.words[k], b.words[k])
    ensures Masked(r, a, b)
  {
    forall i | 0 <= i < 128 ensures Bits(r)[i] <==> Bits(a)[i] && Bits(b)[i] {
      var k := i / 32;
      WordOfBits(r, k);
      WordOfBits(a, k);
      WordOfBits(b, k);
      assert Bits(r)[i] == r.words[k][i % 32] && Bits(a)[i] == a.words[k][i % 32] && Bits(b)[i] == b.words[k][i % 32];
    }
  }

  /** `addr_and`. */
  method AddrAnd(a: Addr, b: Addr) returns (ret: int, dst: Addr)
    ensures ret == if a.V6? == b.V6? then 0 else -1
    ensures ret == 0 ==> Masked(dst, a, b)
  {
    if a.V6? != b.V6? {
      return -1, a;
    }
    dst := a;
    match a {
      case V4(w) =>
        return 0, V4(And(w, b.word));
      case V6(ws, scope) =>
        var words := ws;
        for i := 0 to 4
          invariant forall k :: 0 <= k < 4 ==> words[k] == if k < i then And(ws[k], b.words[k]) else ws[k]
        {
          words := words[i := And(words[i], b.words[i])];
        }
        AndOfWords(V6(words, scope), a, b);
        return 0, V6(words, scope);
    }
  }

  /** How `addr_cmp` orders addresses: by family, then by their number, then by scope. */
  function Order(a: Addr, b: Addr): int {
    if a.V6? != b.V6? then if a.V6? then 1 else -1
    else if Bits(a) != Bits(b) then if Number(Bits(a)) > Number(Bits(b)) then 1 else -1
    else if Scope(a) != Scope(b) then if Scope(a) > Scope(b) then 1 else -1
    else 0
  }

  lemma OrderIsStrict(a: Addr, b: Addr)
    ensures Order(a, b) == 0 <==> a == b
    ensures Order(a, b) == -Order(b, a)
  {
    if a.V6? == b.V6? {
      if Bits(a) == Bits(b) && Scope(a) == Scope(b) {
        BitsDetermine(a, b);
      }
      if Number(Bits(a)) == Number(Bits(b)) {
        NumberInjective(Bits(a), Bits(b));
      }
    }
  }

  /** The texts of bits part at `i`, where the first has a zero and the second a one. */
  predicate PartAt(x: seq<bool>, y: seq<bool>, i: nat) { i < |x| && i < |y| && x[..i] == y[..i] && !x[i] && y[i] }

  lemma PartDecides(x: seq<bool>, y: seq<bool>, i: nat)
    requires |x| == |y| && PartAt(x, y, i)
    ensures Number(x) < Number(y)
  {
    var p, s, t := x[..i], x[i + 1..], y[i + 1..];
    assert x == (p + [false]) + s && y == (p + [true]) + t;
    OneBit();
    NumberSamePrefix(p, [true], [false]);
    NumberOrder(p + [true], p + [false], t, s);
  }

  lemma OneBit()
    ensures Number([false]) == 0 && Number([true]) == 1
  {
    assert [false][..0] == [] && [true][..0] == [];
  }

  lemma {:induction false} FirstPart(x: seq<bool>, y: seq<bool>) returns (i: nat)
    requires |x| == |y| && x != y
    ensures PartAt(x, y, i) || PartAt(y, x, i)
  {
    if x[0] != y[0] {
      i := 0;
    } else {
      assert x == [x[0]] + x[1..] && y == [y[0]] + y[1..];
      i := FirstPart(x[1..], y[1..]);
      assert x[..i + 1] == [x[0]] + x[1..][..i] && y[..i + 1] == [y[0]] + y[1..][..i];
      i := i + 1;
    }
  }

  /** IPv4 comes first; then the first bit in which two addresses differ decides, then their scope. */
  lemma OrderMeaning(a: Addr, b: Addr)
    ensures Order(a, b) == -1 <==>
      || (a.V4? && b.V6?)
      || (a.V6? == b.V6? && exists i :: PartAt(Bits(a), Bits(b), i))
      || (a.V6? == b.V6? && Bits(a) == Bits(b) && Scope(a) < Scope(b))
    ensures -1 <= Order(a, b) <= 1
  {
    hide Bits, Number, PartAt;
    if a.V6? == b.V6? {
      var x, y := Bits(a), Bits(b);
      forall i: nat ensures PartAt(x, y, i) ==> Number(x) < Number(y) {
        if PartAt(x, y, i) {
          PartDecides(x, y, i);
        }
      }
      if x != y {
        var i := FirstPart(x, y);
        if PartAt(y, x, i) {
          PartDecides(y, x, i);
        }
      }
    }
  }

  /** The first byte that differs decides. */
  lemma ByteDecides(x: seq<bool>, y: seq<bool>, i: nat)
    requires |x| == |y| && 8 * i + 8 <= |x| && x[..8 * i] == y[..8 * i] && x[8 * i..8 * i + 8] != y[8 * i..8 * i + 8]
    ensures x != y
    ensures Number(x) > Number(y) <==> Number(x[8 * i..8 * i + 8]) > Number(y[8 * i..8 * i + 8])
  {
    var p, b, c := x[..8 * i], x[8 * i..8 * i + 8], y[8 * i..8 * i + 8];
    var s, t := x[8 * i + 8..], y[8 * i + 8..];
    assert x == (p + b) + s && y == (p + c) + t;
    NumberSamePrefix(p, b, c);
    NumberSamePrefix(p, c, b);
    if Number(b) == Number(c) {
      NumberInjective(b, c);
    } else if Number(b) > Number(c) {
      NumberOrder(p + b, p + c, s, t);
    } else {
      NumberOrder(p + c, p + b, t, s);
    }
  }

  /** `addr_cmp`. */
  method AddrCmp(a: Addr, b: Addr) returns (ret: int)
    ensures ret == Order(a, b)
  {
    if a.V6? != b.V6? {
      return if a.V6? then 1 else -1;
    }
    var x, y := Bits(a), Bits(b);
    if a.V4? {
      if a.word == b.word {
        return 0;
      }
      return if Number(a.word) > Number(b.word) then 1 else -1;
    }
    for i := 0 to 16
      invariant x[..8 * i] == y[..8 * i]
    {
      var p, q := x[8 * i..8 * i + 8], y[8 * i..8 * i + 8];
      if p != q {
        ByteDecides(x, y, i);
        return if Number(p) > Number(q) then 1 else -1;
      }
      assert x[..8 * (i + 1)] == x[..8 * i] + p && y[..8 * (i + 1)] == y[..8 * i] + q;
    }
    assert x[..128] == x && y[..128] == y;
    if a.scope == b.scope {
      return 0;
    }
    return if a.scope > b.scope then 1 else -1;
  }

  /** `addr_netmatch`: 0 exactly when the host lies in the network, and the network has no host bits set. */
  method Netmatch(host: Addr, net: Addr, masklen: nat) returns (ret: int)
    ensures ret == 0 <==> InNetwork(host, net, masklen) && Cleared(Bits(net), masklen)
  {
    hide Bits, Number, Order, IsMask, Masked, InNetwork, Cleared;
    FamilyAndSize(host, net, masklen);
    if host.V6? != net.V6? {
      return -1;
    }
    var tmpMask, tmpResult;
    ret, tmpMask := Netmask(host.V6?, masklen);
    if ret == -1 {
      return -1;
    }
    ret, tmpResult := AddrAnd(host, tmpMask);
    MaskedEquals(tmpResult, host, net, tmpMask, masklen);
    ret := AddrCmp(tmpResult, net);
    OrderIsStrict(tmpResult, net);
  }

  lemma FamilyAndSize(host: Addr, net: Addr, l: nat)
    ensures InNetwork(host, net, l) ==> host.V6? == net.V6? && l <= Size(net.V6?)
  {
  }

  /** `addr_hostmask`: the netmask inverted. */
  method Hostmask(v6: bool, masklen: nat) returns (ret: int, n: Addr)
    ensures ret == if masklen <= Size(v6) then 0 else -1
    ensures ret == 0 ==> n.V6? == v6 && forall i :: 0 <= i < Size(v6) ==> (Bits(n)[i] <==> i >= masklen)
  {
    ret, n := Netmask(v6, masklen);
    if ret == -1 {
      return -1, n;
    }
    ghost var mask := n;
    match n {
      case V4(w) =>
        n := V4(Not(w));
      case V6(ws, scope) =>
        var words := ws;
        for i := 0 to 4
          invariant forall k :: 0 <= k < 4 ==> words[k] == if k < i then Not(ws[k]) else ws[k]
        {
          words := words[i := Not(words[i])];
        }
        n := V6(words, scope);
        NotOfWords(n, mask);
    }
    assert forall i :: 0 <= i < Size(v6) ==> (Bits(n)[i] <==> !Bits(mask)[i]);
    return 0, n;
  }

  lemma NotOfWords(r: Addr, a: Addr)
    requires a.V6? && r.V6? && forall k :: 0 <= k < 4 ==> r.words[k] == Not(a.words[k])
    ensures forall i :: 0 <= i < 128 ==> (Bits(r)[i] <==> !Bits(a)[i])
  {
    forall i | 0 <= i < 128 ensures Bits(r)[i] <==> !Bits(a)[i] {
      var k := i / 32;
      WordOfBits(r, k);
      WordOfBits(a, k);
      assert Bits(r)[i] == r.words[k][i % 32] && Bits(a)[i] == a.words[k][i % 32];
    }
  }

  lemma AllZeroWords(a: Addr)
    requires a.V6?
    ensures Cleared(Bits(a), 0) <==> forall k :: 0 <= k < 4 ==> a.words[k] == ZEROS
  {
    WordOfBits(a, 0);
    WordOfBits(a, 1);
    WordOfBits(a, 2);
    WordOfBits(a, 3);
    if forall k :: 0 <= k < 4 ==> a.words[k] == ZEROS {
      forall i | 0 <= i < 128 ensures !Bits(a)[i] {
        assert Bits(a)[i] == a.words[i / 32][i % 32];
      }
    }
  }

  /** `addr_is_all0s`. */
  method IsAllZeros(a: Addr) returns (ret: int)
    ensures ret == if Cleared(Bits(a), 0) then 0 else -1
  {
    match a {
      case V4(w) =>
        assert Cleared(w, 0) <==> w == ZEROS;
        return if w == ZEROS then 0 else -1;
      case V6(ws, _) =>
        AllZeroWords(a);
        for i := 0 to 4
          invariant forall k :: 0 <= k < i ==> ws[k] == ZEROS
        {
          if ws[i] != ZEROS {
            return -1;
          }
        }
        return 0;
    }
  }

  /** `addr_host_is_all0s`. */
  method HostIsAllZeros(a: Addr, masklen: nat) returns (ret: int)
    ensures ret == if masklen <= Size(a.V6?) && Cleared(Bits(a), masklen) then 0 else -1
  {
    var mask, result;
    ret, mask := Hostmask(a.V6?, masklen);
    if ret == -1 {
      return -1;
    }
    ret, result := AddrAnd(a, mask);
    ret := IsAllZeros(result);
    assert Cleared(Bits(result), 0) <==> Cleared(Bits(a), masklen);
  }

  /** `addr_pton_cidr`: 0, or -1 when the text is no network, or -2 when mask and address disagree. */
  method PtonCidr(p: string, resolver: Resolver) returns (ret: int, n: Addr, l: nat)
    ensures ret == match ParseCidr(p, resolver) case NoCidr => -1 case Inconsistent => -2 case Network(_, _) => 0
    ensures ret == 0 ==> ParseCidr(p, resolver) == Network(n, l)
  {
    hide Bits, Cleared;
    n, l := V4(ZEROS), 999;
    if |p| >= 64 {
      return -1, n, l;
    }
    var mp := FirstSlash(p);
    if mp < |p| {
      var text := p[mp + 1..];
      var masklen := resolver.strtoul(text);
      if text == "" || masklen.None? || masklen.value > 128 {
        return -1, n, l;
      }
      l := masklen.value;
    }
    var tmp := resolver.pton(p[..mp]);
    if tmp.None? {
      return -1, n, l;
    }
    if mp == |p| {
      l := UnicastMasklen(tmp.value.V6?);
    }
    if MasklenValid(tmp.value.V6?, l) == -1 {
      return -2, n, l;
    }
    var zeros := HostIsAllZeros(tmp.value, l);
    if zeros != 0 {
      return -2, n, l;
    }
    return 0, tmp.value, l;
  }

  lemma JudgedStep(entries: seq<string>, rest: string, addr: Option<string>, resolver: Resolver, ret: int)
    ensures entries == Pieces(rest) ==>
      var n := FirstComma(rest);
      var v := Judge(rest[..n], addr, resolver);
      Outcome(Judged(entries, addr, resolver), ret)
      == Outcome([v] + if n == |rest| then [] else Judged(Pieces(rest[n + 1..]), addr, resolver), ret)
  {
    hide Judge, Outcome, Pieces;
    PiecesFirst(rest);
    var n := FirstComma(rest);
    var more := if n == |rest| then [] else Pieces(rest[n + 1..]);
    assert Judged([rest[..n]] + more, addr, resolver)
           == [Judge(rest[..n], addr, resolver)] + Judged(more, addr, resolver);
    assert Judged([], addr, resolver) == [];
  }

  lemma OutcomeFirst(v: Verdict, rest: seq<Verdict>, ret: int)
    ensures Outcome([v] + rest, ret)
            == match v
               case Invalid => -2
               case Denied => -1
               case Matched => Outcome(rest, 1)
               case Silent => Outcome(rest, ret)
    ensures Outcome([], ret) == ret
  {
    assert ([v] + rest)[1..] == rest;
  }

  /** One entry of the list; 1 for a match, -1 for a negated one, -2 for an invalid entry, 0 otherwise. */
  method MatchEntry(entry: string, addr: Option<string>, resolver: Resolver) returns (r: int)
    requires addr.Some? ==> resolver.pton(addr.value).Some?
    ensures r == match Judge(entry, addr, resolver)
                 case Invalid => -2
                 case Denied => -1
                 case Matched => 1
                 case Silent => 0
    ensures r == -2 <==> Faulty(entry, resolver)
    ensures r == -1 <==> Denies(entry, addr, resolver)
    ensures r == 1 <==> Accepts(entry, addr, resolver)
    ensures -2 <= r <= 1
  {
    hide ParseCidr, InNetwork, Cleared, Bits, Faulty, Denies, Accepts;
    JudgeMeaning(entry, addr, resolver);
    var neg := entry != "" && entry[0] == '!';
    var cp := if neg then entry[1..] else entry;
    if cp == "" {
      return -2;
    }
    CidrIsClear(cp, resolver);
    var net, masklen;
    r, net, masklen := PtonCidr(cp, resolver);
    if r == -2 {
      return -2;
    }
    var found := false;
    if r == 0 {
      if addr.Some? {
        var m := Netmatch(resolver.pton(addr.value).value, net, masklen);
        found := m == 0;
      }
    } else if addr.Some? {
      found := resolver.pattern(addr.value, cp);
    }
    return if !found then 0 else if neg then -1 else 1;
  }

  lemma CidrIsClear(p: string, resolver: Resolver)
    ensures match ParseCidr(p, resolver) case Network(net, l) => Cleared(Bits(net), l) case _ => true
  {
  }

  /**
   `addr_match_list`, on the entries between the commas: the first that is faulty or denies the address ends
   the list; otherwise it matches if some entry accepts the address. Without one the list is only checked.
   */
  method MatchList(addr: Option<string>, list: string, resolver: Resolver) returns (ret: int)
    ensures addr.Some? && resolver.pton(addr.value).None? ==> ret == 0
    ensures addr.None? || resolver.pton(addr.value).Some? ==>
      var entries := Pieces(list);
      && (ret == -2 <==>
          exists k :: 0 <= k < |entries| && Faulty(entries[k], resolver) && Gets(entries, k, addr, resolver))
      && (ret == -1 <==>
          exists k :: 0 <= k < |entries| && Denies(entries[k], addr, resolver) && Gets(entries, k, addr, resolver))
      && (ret == 1 <==>
          && Gets(entries, |entries|, addr, resolver)
          && exists k :: 0 <= k < |entries| && Accepts(entries[k], addr, resolver))
      && -2 <= ret <= 1
  {
    hide Faulty, Denies, Accepts, Gets, Outcome, Judged, Pieces;
    ret := WalkList(addr, list, resolver);
    ListMeaning(Pieces(list), addr, resolver);
  }

  method WalkList(addr: Option<string>, list: string, resolver: Resolver) returns (ret: int)
    ensures ret == if addr.Some? && resolver.pton(addr.value).None? then 0
                   else Outcome(Judged(Pieces(list), addr, resolver), 0)
  {
    hide Judge, Outcome, Judged, Pieces, Faulty, Denies, Accepts;
    if addr.Some? && resolver.pton(addr.value).None? {
      return 0;
    }
    ret := 0;
    var rest := Some(list);
    OutcomeFirst(Silent, [], ret);
    while rest.Some?
      invariant rest.Some? ==> Outcome(Judged(Pieces(rest.value), addr, resolver), ret)
                               == Outcome(Judged(Pieces(list), addr, resolver), 0)
      invariant rest.None? ==> ret == Outcome(Judged(Pieces(list), addr, resolver), 0)
      decreases if rest.Some? then |rest.value| + 1 else 0
    {
      var n := FirstComma(rest.value);
      JudgedStep(Pieces(rest.value), rest.value, addr, resolver, ret);
      var entry := rest.value[..n];
      OutcomeFirst(Judge(entry, addr, resolver),
                   if n == |rest.value| then [] else Judged(Pieces(rest.value[n + 1..]), addr, resolver), ret);
      rest := if n == |rest.value| then None else Some(rest.value[n + 1..]);
      var r := MatchEntry(entry, addr, resolver);
      if r < 0 {
        return r;
      }
      if r == 1 {
        ret := 1;
      }
      OutcomeFirst(Silent, [], ret);
    }
  }
}
