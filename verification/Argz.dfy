/** The functions of argz.c and ltdl.c that build and walk argz vectors in place. */
module ArgzVector {
  import opened Bytes
  import opened ArgzSpec

  /** `argz_next`, on the bytes of a vector: the position behind the terminator of `entry`. */
  function NextOf(s: seq<Byte>, entry: Option<nat>): Option<nat>
    requires entry.Some? ==> entry.value <= |s|
  {
    match entry
    case None => if |s| > 0 then Some(0) else None
    case Some(e) => var next := e + StrLen(s, e) + 1; if next >= |s| then None else Some(next)
  }

  function TextAt(s: seq<Byte>, at: nat): Text
    requires at <= |s|
  {
    s[at..at + StrLen(s, at)]
  }

  /** The start of the entry that position `at` lies in. */
  function EntryStart(s: seq<Byte>, at: nat): (b: nat)
    requires at <= |s|
    ensures b <= at && (b == 0 || s[b - 1] == 0) && NulFree(s[b..at])
  {
    if at == 0 || s[at - 1] == 0 then at else EntryStart(s, at - 1)
  }

  /** Going from entry to entry visits them all, in order. */
  lemma NextVisits(names: seq<Text>, k: nat)
    requires AllNulFree(names) && k < |names|
    ensures Offset(names, k) < |Encode(names)| && TextAt(Encode(names), Offset(names, k)) == names[k]
    ensures NextOf(Encode(names), Some(Offset(names, k)))
            == if k + 1 < |names| then Some(Offset(names, k + 1)) else None
    ensures NextOf(Encode(names), None) == Some(Offset(names, 0))
    ensures Offset(names, k) + StrLen(Encode(names), Offset(names, k)) < |Encode(names)|
    ensures EntryStart(Encode(names), Offset(names, k)) == Offset(names, k)
  {
    hide StrLen, NulFree, Encode, Offset;
    EntryAt(names, k);
    FirstOffset(names);
    if k > 0 {
      EntryAt(names, k - 1);
      assert Encode(names)[Offset(names, k) - 1] == 0;
    }
  }

  lemma FirstOffset(names: seq<Text>)
    ensures Offset(names, 0) == 0
  {
    assert names[..0] == [];
  }

  /** From inside a string, the first NUL is its end. */
  lemma NulEnds(s: seq<Byte>, from: nat, e: nat)
    requires from <= e <= |s| && e <= from + StrLen(s, from) < |s|
    ensures s[e] == 0 <==> e == from + StrLen(s, from)
  {
    var t := s[from..from + StrLen(s, from)];
    assert NulFree(t);
    assert e < from + StrLen(s, from) ==> s[e] in t;
  }

  lemma SeparatedStep(out: seq<Byte>, str: Text, p: nat, delim: Byte, mid: bool)
    requires p < |str|
    ensures out + Separated(str[p..], delim, mid)
            == if str[p] != delim then out + [str[p]] + Separated(str[p + 1..], delim, true)
               else if mid then out + [0] + Separated(str[p + 1..], delim, false)
               else out + Separated(str[p + 1..], delim, false)
  {
    assert str[p..][0] == str[p] && str[p..][1..] == str[p + 1..];
  }

  lemma NotNul(str: Text)
    ensures NulFree(str) ==> forall p :: 0 <= p < |str| ==> str[p] != 0
  {
  }

  lemma SeparatedEnds(str: Text, delim: Byte, mid: bool)
    ensures Separated(str[|str|..], delim, mid) == [0] && str[0..] == str
  {
  }

  lemma AppendSlices(s: seq<Byte>, entry: seq<Byte>)
    ensures s[..|s|] + entry + s[|s|..] == s + entry
  {
  }

  /** Inserting before entry `k` of the bytes is inserting it into the list. */
  lemma InsertBefore(names: seq<Text>, k: nat, x: Text)
    requires AllNulFree(names) && k <= |names|
    ensures var s, b := Encode(names), Offset(names, k);
      b <= |s| && s[..b] + (x + [0]) + s[b..] == Encode(names[..k] + ([x] + names[k..]))
  {
    hide Encode;
    assert names == names[..k] + names[k..];
    EncodeAppend(names[..k], names[k..]);
    EncodeAppend(names[..k], [x] + names[k..]);
    EncodeFirst(x, names[k..]);
    assert Encode(names)[Offset(names, k)..] == Encode(names[k..]);
  }

  lemma InsertFrom(names: seq<Text>, k: nat, x: Text)
    requires k < |names|
    ensures var cmp := Strcmp(x, names[k]);
      Insert(names[k..], x) == if cmp < 0 then [x] + names[k..] else if cmp == 0 then names[k..]
                               else [names[k]] + Insert(names[k + 1..], x)
  {
    hide Strcmp;
    assert names[k..][1..] == names[k + 1..];
  }

  /** The largest value of a `size_t`. */
  const SIZE_MAX: nat := 0xffff_ffff_ffff_ffff

  /** `--n` on a `size_t`. */
  function LessOne(n: nat): nat { if n == 0 then SIZE_MAX else n - 1 }

  class Argz {
    var argz: array<Byte>
    var len: nat

    ghost predicate Valid()
      reads this
    {
      len <= argz.Length
    }

    ghost function Contents(): (s: seq<Byte>)
      requires Valid()
      reads this, argz
      ensures |s| == len
    {
      argz[..len]
    }

    constructor ()
      ensures Valid() && fresh(argz) && Contents() == []
    {
      argz := new Byte[0];
      len := 0;
    }

    /** `realloc`: room for `size` bytes, or no change when there is no memory. */
    method Reallocate(size: nat, memory: bool) returns (ok: bool)
      requires Valid() && len <= size
      modifies this`argz
      ensures Valid() && ok == memory && Contents() == old(Contents())
      ensures if ok then fresh(argz) && argz.Length == size else argz == old(argz)
    {
      if !memory {
        return false;
      }
      var block := new Byte[size];
      forall i | 0 <= i < len {
        block[i] := argz[i];
      }
      argz := block;
      return true;
    }

    method Append(buf: seq<Byte>, memory: bool) returns (error: bool)
      requires Valid()
      modifies this
      ensures Valid() && (argz == old(argz) || fresh(argz))
      ensures error == (buf != [] && !memory)
      ensures Contents() == if error then old(Contents()) else old(Contents()) + buf
    {
      if |buf| == 0 {
        return false;
      }
      var ok := Reallocate(len + |buf|, memory);
      if !ok {
        return true;
      }
      forall i | 0 <= i < |buf| {
        argz[len + i] := buf[i];
      }
      len := len + |buf|;
      return false;
    }

    /** `argz_create_sep`: a copy with NULs for the delimiters, of which runs are folded. */
    method CreateSep(str: Text, delim: Byte, memory: bool) returns (error: bool)
      requires Valid() && NulFree(str)
      modifies this
      ensures Valid() && (argz == old(argz) || fresh(argz)) && error == !memory
      ensures Contents() == if error then old(Contents()) else Separated(str, delim, false)
    {
      if !memory {
        return true;
      }
      hide Separated, NulFree;
      NotNul(str);
      var block := new Byte[1 + |str|];
      var size, q := 1 + |str|, 0;
      ghost var out, mid: bool := [], false;
      SeparatedEnds(str, delim, mid);
      for p := 0 to |str|
        invariant q <= p && size == q + 1 + |str| - p
        invariant block[..q] == out && mid == (q > 0 && block[q - 1] != 0)
        invariant out + Separated(str[p..], delim, mid) == Separated(str, delim, false)
      {
        SeparatedStep(out, str, p, delim, mid);
        if str[p] == delim {
          if q > 0 && block[q - 1] != 0 {
            block[q] := 0;
            assert block[..q] == out && block[..q + 1] == block[..q] + [0];
            q := q + 1;
            out := out + [0];
          } else {
            size := size - 1;
          }
          mid := false;
        } else {
          block[q] := str[p];
          assert block[..q] == out && block[..q + 1] == block[..q] + [str[p]];
          q := q + 1;
          out, mid := out + [str[p]], true;
        }
      }
      SeparatedEnds(str, delim, mid);
      block[q] := 0;
      argz, len := block, size;
      assert argz[..len] == out + [0];
      return false;
    }

    method Next(entry: Option<nat>) returns (next: Option<nat>)
      requires Valid()
      requires entry.Some? ==> entry.value < len && entry.value + StrLen(Contents(), entry.value) < len
      ensures next == NextOf(Contents(), entry)
    {
      hide StrLen;
      if entry.None? {
        return if len > 0 then Some(0) else None;
      }
      var e := entry.value;
      ghost var s := Contents();
      NulEnds(s, entry.value, e);
      while argz[e] != 0
        invariant entry.value <= e <= entry.value + StrLen(s, entry.value)
        invariant argz[e] == 0 <==> e == entry.value + StrLen(s, entry.value)
        decreases len - e
      {
        e := e + 1;
        NulEnds(s, entry.value, e);
      }
      return if e + 1 >= len then None else Some(e + 1);
    }

    /**
     `argz_stringify`, which counts down from the terminator of the last entry. In an empty vector and in
     one of a single byte the unsigned counter passes zero, and the loop starts behind the block.
     */
    method Stringify(sep: Byte) returns (overrun: bool)
      requires Valid()
      modifies argz
      ensures overrun <==> sep != 0 && len < 2
      ensures Contents() == if sep == 0 || overrun then old(Contents()) else Stringified(old(Contents()), sep)
    {
      if sep == 0 {
        return false;
      }
      ghost var s := Contents();
      var i := LessOne(LessOne(len));
      if i > 0 && i >= len {
        return true;
      }
      overrun := false;
      while i > 0
        invariant 0 <= i <= len - 2
        invariant forall j :: 0 <= j < len ==> argz[j] == if i < j < len - 1 && s[j] == 0 then sep else s[j]
      {
        if argz[i] == 0 {
          argz[i] := sep;
        }
        i := i - 1;
      }
    }

    /** Back to the start of the entry that `before` points into. */
    method StartOf(before: nat) returns (b: nat)
      requires Valid() && before <= len
      ensures b == EntryStart(Contents(), before)
    {
      b := before;
      while b > 0 && argz[b - 1] != 0
        invariant b <= len && EntryStart(Contents(), b) == EntryStart(Contents(), before)
      {
        b := b - 1;
      }
    }

    /** `argz_insert`: in front of the entry that `before` points into, or at the end. */
    method Insert(before: Option<nat>, entry: Text, memory: bool) returns (error: bool)
      requires Valid() && entry != [] && (before.Some? ==> before.value <= len)
      modifies this
      ensures Valid() && (argz == old(argz) || fresh(argz)) && error == !memory
      ensures error ==> Contents() == old(Contents())
      ensures !error ==>
        var s := old(Contents());
        var b := if before.None? then |s| else EntryStart(s, before.value);
        Contents() == s[..b] + (entry + [0]) + s[b..]
    {
      hide Contents, EntryStart;
      if before.None? {
        AppendSlices(old(Contents()), entry + [0]);
        error := Append(entry + [0], memory);
        return;
      }
      var b := StartOf(before.value);
      var entryLen := 1 + |entry|;
      var ok := Reallocate(len + entryLen, memory);
      if !ok {
        return true;
      }
      OpenGap(b, entryLen);
      WriteEntry(b, entry);
      return false;
    }

    /** `memmove`: the bytes from `b` on move up by `gap`. */
    method OpenGap(b: nat, gap: nat)
      requires Valid() && b <= len && len + gap <= argz.Length
      modifies this`len, argz
      ensures Valid() && len == old(len) + gap
      ensures Contents()[..b] == old(Contents())[..b] && Contents()[b + gap..] == old(Contents())[b..]
    {
      ghost var s := Contents();
      forall i | b <= i < len {
        argz[i + gap] := argz[i];
      }
      len := len + gap;
      forall j | 0 <= j < len - (b + gap) ensures Contents()[b + gap..][j] == s[b..][j] {
        assert argz[b + j + gap] == s[b + j];
      }
    }

    /** `memcpy` of an entry and its terminator. */
    method WriteEntry(b: nat, entry: Text)
      requires Valid() && b + |entry| + 1 <= len
      modifies argz
      ensures Contents() == old(Contents())[..b] + (entry + [0]) + old(Contents())[b + |entry| + 1..]
    {
      ghost var s := Contents();
      var bytes := entry + [0];
      forall i | 0 <= i < |bytes| {
        argz[b + i] := bytes[i];
      }
      assert argz[b..b + |bytes|] == bytes;
      assert argz[..len] == argz[..b] + argz[b..b + |bytes|] + argz[b + |bytes|..len];
    }

    /** `lt_argz_insertinorder`: keeps the names in strictly increasing order, without duplicates. */
    method InsertInOrder(entry: Text, memory: bool, ghost names: seq<Text>) returns (error: bool)
      requires Valid() && entry != [] && NulFree(entry)
      requires AllNulFree(names) && Contents() == Encode(names)
      modifies this
      ensures Valid() && (argz == old(argz) || fresh(argz))
      ensures error ==> !memory && Contents() == old(Contents())
      ensures !error ==> Contents() == Encode(ArgzSpec.Insert(names, entry))
    {
      hide Encode, Strcmp, ArgzSpec.Insert, NulFree, StrLen, Walking, EntryStart, NextOf, TextAt;
      ghost var k := 0;
      WalkStarts(names, entry);
      var before := Next(None);
      while before.Some?
        invariant Valid() && argz == old(argz) && Contents() == old(Contents())
        invariant k <= |names| && Walking(names, entry, k, before)
        decreases |names| - k
      {
        WalkGoesOn(names, entry, k, before);
        var cmp := Strcmp(entry, TextAt(argz[..len], before.value));
        if cmp < 0 {
          break;
        }
        if cmp == 0 {
          return false;
        }
        before := Next(before);
        k := k + 1;
      }
      WalkEnds(names, entry, k, before);
      error := Insert(before, entry, memory);
    }
  }

  /** The walk has come to entry `k`, and everything before it is smaller than `x`. */
  ghost predicate Walking(names: seq<Text>, x: Text, k: nat, before: Option<nat>) {
    && k <= |names| && before == (if k < |names| then Some(Offset(names, k)) else None)
    && Insert(names, x) == names[..k] + Insert(names[k..], x)
  }

  lemma WalkStarts(names: seq<Text>, x: Text)
    requires AllNulFree(names)
    ensures Walking(names, x, 0, NextOf(Encode(names), None))
  {
    hide Encode, Insert;
    assert names[0..] == names && names[..0] == [];
    if names == [] {
      NoEntries();
    } else {
      NextVisits(names, 0);
    }
  }

  lemma WalkGoesOn(names: seq<Text>, x: Text, k: nat, before: Option<nat>)
    requires AllNulFree(names) && Walking(names, x, k, before) && before.Some?
    ensures k < |names| && before.value < |Encode(names)|
    ensures before.value + StrLen(Encode(names), before.value) < |Encode(names)|
    ensures TextAt(Encode(names), before.value) == names[k]
    ensures Strcmp(x, names[k]) == 0 ==> Insert(names, x) == names
    ensures Strcmp(x, names[k]) > 0 ==> Walking(names, x, k + 1, NextOf(Encode(names), before))
  {
    hide Encode, Insert, Strcmp, NulFree, StrLen, TextAt, NextOf, Offset, EntryStart;
    NextVisits(names, k);
    WalkInserts(names, x, k);
  }

  lemma WalkInserts(names: seq<Text>, x: Text, k: nat)
    requires k < |names| && Insert(names, x) == names[..k] + Insert(names[k..], x)
    ensures Strcmp(x, names[k]) == 0 ==> Insert(names, x) == names
    ensures Strcmp(x, names[k]) > 0 ==> Insert(names, x) == names[..k + 1] + Insert(names[k + 1..], x)
  {
    hide Insert, Strcmp;
    InsertFrom(names, k, x);
    assert names[..k] + names[k..] == names;
    assert names[..k + 1] == names[..k] + [names[k]];
  }

  lemma WalkEnds(names: seq<Text>, x: Text, k: nat, before: Option<nat>)
    requires AllNulFree(names) && Walking(names, x, k, before)
    requires before.Some? ==> k < |names| && Strcmp(x, names[k]) < 0
    ensures before.Some? ==> before.value < |Encode(names)|
    ensures var s := Encode(names);
      var b := if before.None? then |s| else EntryStart(s, before.value);
      s[..b] + (x + [0]) + s[b..] == Encode(Insert(names, x))
  {
    hide Encode, Strcmp, NulFree, StrLen, TextAt, NextOf, EntryStart;
    InsertBefore(names, k, x);
    if k < |names| {
      NextVisits(names, k);
      InsertFrom(names, k, x);
    } else {
      assert names[k..] == [] && names[..k] == names && [x] + [] == [x];
    }
  }
}
