/** The growable FIFO byte buffer of buffer.c. */
module FifoBuffer {
  import opened Bytes

  const MAX_CHUNK: nat := 0x10_0000
  const MAX_LEN: nat := 0xa0_0000
  const ALLOC_SIZE: nat := 0x8000
  const INITIAL_SIZE: nat := 4096

  /** `roundup(x, BUFFER_ALLOCSZ)` of <sys/param.h>. */
  function RoundUp(x: nat): (r: nat)
    ensures x <= r < x + ALLOC_SIZE
    ensures r % ALLOC_SIZE == 0
  {
    (x + (ALLOC_SIZE - 1)) / ALLOC_SIZE * ALLOC_SIZE
  }

  /** The sizes a block can have: that of a new buffer, or a multiple of what blocks grow by. */
  predicate BlockSize(alloc: nat) { alloc == INITIAL_SIZE || alloc % ALLOC_SIZE == 0 }

  /** The three indices of a buffer: they alone decide what an append does. */
  datatype Shape = Shape(alloc: nat, offset: nat, end: nat) {
    predicate Live() { offset <= end < alloc <= BUFFER_MAX_LEN_HPN && BlockSize(alloc) }

    function Len(): nat requires Live() { end - offset }

    predicate Holds(n: nat) { Live() && Len() == n }

    function Cleared(): Shape { this.(offset := 0, end := 0) }

    function Consumed(n: nat): Shape { this.(offset := offset + n) }

    /** An empty buffer restarts at its beginning. */
    function Reset(): (s: Shape) {
      if offset == end then this.(offset := 0, end := 0) else this
    }

    predicate MustCompact() { offset > Min(alloc, MAX_CHUNK) }

    function Compact(): Shape requires offset <= end {
      if MustCompact() then this.(offset := 0, end := end - offset) else this
    }

    /** Where the data lies once there is room for `len` more bytes without growing, if ever. */
    function Settle(len: nat): Shape requires offset <= end {
      var s := Reset();
      if s.end + len < s.alloc then s else s.Compact()
    }

    function GrownSize(len: nat): nat { RoundUp(alloc + len) }

    /** Whether `buffer_append_space(len)` ends the process. */
    predicate AppendIsFatal(len: nat) requires offset <= end {
      || len > MAX_CHUNK
      || (var s := Settle(len); s.end + len >= s.alloc && s.GrownSize(len) > BUFFER_MAX_LEN_HPN)
    }

    /** The check of an append may compact, as the append would. */
    function AfterCheck(len: nat): Shape requires offset <= end {
      var s := Reset();
      if Add32(s.end, len) < s.alloc then s else s.Compact()
    }

    /**
     What `buffer_check_alloc(len)` answers: by the arithmetic of an append, but against the smaller
     limit MAX_LEN, and with the wrap-around of `u_int`.
     */
    predicate CheckSucceeds(len: nat) requires offset <= end {
      var s := AfterCheck(len);
      Add32(s.end, len) < s.alloc || RoundUp(Add32(s.alloc, len)) % U32_RANGE <= MAX_LEN
    }

    /** The shape a successful append leaves: at most one compaction, then at most one growth. */
    function AfterAppend(len: nat): Shape requires offset <= end {
      var s := Settle(len);
      var grown := if s.end + len < s.alloc then s else s.(alloc := s.GrownSize(len));
      grown.(end := grown.end + len)
    }
  }

  /** A buffer stays live, keeps its length plus `len`, and never needs a second growth. */
  lemma AppendKeepsLive(s: Shape, len: nat)
    requires s.Live() && !s.AppendIsFatal(len)
    ensures s.AfterAppend(len).Holds(s.Len() + len)
  {
    var t := s.Settle(len);
    assert t.Live() && t.Len() == s.Len();
  }

  /** Room for `len` bytes is room for fewer. */
  lemma AppendMonotone(s: Shape, m: nat, len: nat)
    requires s.Live() && m <= len && !s.AppendIsFatal(len)
    ensures !s.AppendIsFatal(m)
  {
    var a, b := s.Settle(m), s.Settle(len);
    assert a == b || a.end + m < a.alloc;
    if a.end + m >= a.alloc {
      RoundUpMonotone(a.alloc + m, a.alloc + len);
    }
  }

  lemma RoundUpMonotone(a: nat, b: nat)
    requires a <= b
    ensures RoundUp(a) <= RoundUp(b)
  {
  }

  /** A fill level at which no append of `n` bytes ends the process, whatever the history. */
  ghost predicate AppendAlwaysSafe(length: nat, n: nat) {
    forall s: Shape :: s.Holds(length) ==> !s.AppendIsFatal(n)
  }

  /** The smallest block that cannot grow by `n` bytes any more. */
  function Ceiling(n: nat): (r: nat)
    requires 1 <= n <= MAX_CHUNK
    ensures r % ALLOC_SIZE == 0 && BUFFER_MAX_LEN_HPN - MAX_CHUNK <= r
    ensures r <= BUFFER_MAX_LEN_HPN < r + n <= BUFFER_MAX_LEN_HPN + ALLOC_SIZE
  {
    BUFFER_MAX_LEN_HPN - (n - 1) / ALLOC_SIZE * ALLOC_SIZE
  }

  /** Exactly the blocks that can grow by `n` bytes. */
  lemma GrowsBelowCeiling(alloc: nat, n: nat)
    requires 1 <= n <= MAX_CHUNK && BlockSize(alloc)
    ensures RoundUp(alloc + n) <= BUFFER_MAX_LEN_HPN <==> alloc < Ceiling(n)
  {
  }

  lemma AppendSafeBelow(s: Shape, n: nat)
    requires s.Live() && 1 <= n <= MAX_CHUNK
    requires s.Len() + n + MAX_CHUNK < Ceiling(n)
    ensures !s.AppendIsFatal(n)
  {
    hide RoundUp, Ceiling;
    var t := s.Settle(n);
    GrowsBelowCeiling(t.alloc, n);
    assert t.end + n >= t.alloc ==> t.offset <= MAX_CHUNK && t.Len() == s.Len();
  }

  /** The shape that can take the least: as much unused space in front as is not yet worth compacting. */
  function TightShape(length: nat, n: nat): Shape
    requires 1 <= n <= MAX_CHUNK && length < BUFFER_MAX_LEN_HPN
  {
    if length + n >= BUFFER_MAX_LEN_HPN then Shape(BUFFER_MAX_LEN_HPN, 0, length)
    else
      var offset := Min(MAX_CHUNK, Ceiling(n) - 1 - length);
      Shape(Ceiling(n), offset, offset + length)
  }

  lemma TightShapeOverflows(length: nat, n: nat)
    requires 1 <= length < BUFFER_MAX_LEN_HPN && 1 <= n <= MAX_CHUNK
    requires length + n + MAX_CHUNK >= Ceiling(n)
    ensures TightShape(length, n).Holds(length)
    ensures TightShape(length, n).AppendIsFatal(n)
  {
    hide RoundUp, Ceiling;
    var s := TightShape(length, n);
    GrowsBelowCeiling(s.alloc, n);
    assert s.Settle(n) == s && s.end + n >= s.alloc;
  }

  /** An empty buffer takes a whole chunk. */
  lemma AppendToEmpty(s: Shape, n: nat)
    requires s.Holds(0) && n <= MAX_CHUNK
    ensures !s.AppendIsFatal(n)
  {
    hide RoundUp;
    assert s.Settle(n).end == 0 && s.Settle(n).alloc == s.alloc;
    if n >= s.alloc {
      RoundUpMonotone(s.alloc + n, BUFFER_MAX_LEN_HPN);
      RoundUpLimit();
    }
  }

  lemma RoundUpLimit()
    ensures RoundUp(BUFFER_MAX_LEN_HPN) == BUFFER_MAX_LEN_HPN
  {
  }

  lemma AppendNothing(s: Shape)
    requires s.Live()
    ensures !s.AppendIsFatal(0)
  {
  }

  /** A fill level that leaves room for `n` more bytes even behind as much unused space as is never compacted. */
  predicate RoomFor(length: nat, n: nat) {
    n == 0 || (n <= MAX_CHUNK && (length == 0 || length + n + MAX_CHUNK < Ceiling(n)))
  }

  /** Exactly the fill levels at which an append of `n` bytes can never end the process. */
  lemma AppendSafeExactly(length: nat, n: nat)
    requires length < BUFFER_MAX_LEN_HPN
    ensures AppendAlwaysSafe(length, n) <==> RoomFor(length, n)
  {
    hide Ceiling;
    if RoomFor(length, n) {
      forall s: Shape | s.Holds(length) ensures !s.AppendIsFatal(n) {
        AppendFits(s, n);
      }
    } else if n > MAX_CHUNK {
      var s := Shape(BUFFER_MAX_LEN_HPN, 0, length);
      assert s.Holds(length) && s.AppendIsFatal(n);
    } else {
      TightShapeOverflows(length, n);
    }
  }

  /** The same in numbers of bytes. */
  lemma RoomInBytes(length: nat, n: nat)
    ensures RoomFor(length, n) <==>
      || n == 0
      || (n <= 1048576 && (length == 0 || length + n + 1048576 + (n - 1) / 32768 * 32768 < 67108864))
  {
  }

  lemma AppendFits(s: Shape, n: nat)
    requires s.Live() && RoomFor(s.Len(), n)
    ensures !s.AppendIsFatal(n)
  {
    hide Ceiling, Shape.AppendIsFatal;
    if n == 0 {
      AppendNothing(s);
    } else if s.Len() == 0 {
      AppendToEmpty(s, n);
    } else {
      AppendSafeBelow(s, n);
    }
  }

  /** The fill level from which every append ends the process, whatever the history. */
  lemma AppendFatalAbove(s: Shape, len: nat)
    requires s.Live()
    requires s.Len() + len >= BUFFER_MAX_LEN_HPN
    ensures s.AppendIsFatal(len)
  {
    if !s.AppendIsFatal(len) {
      AppendKeepsLive(s, len);
      assert false;
    }
  }

  lemma CheckedShape(s: Shape, len: nat)
    requires s.Live() && len <= MAX_CHUNK
    ensures Add32(s.end, len) == s.end + len && Add32(s.alloc, len) == s.alloc + len
    ensures s.AfterCheck(len) == s.Settle(len) && s.AfterCheck(len).Live()
    ensures s.Settle(len).Settle(len) == s.Settle(len)
  {
  }

  lemma RoundUpSmall(n: nat)
    requires n <= 2 * BUFFER_MAX_LEN_HPN
    ensures RoundUp(n) % U32_RANGE == RoundUp(n)
  {
  }

  /**
   For at most a chunk, the check succeeds exactly when the data settles in the present block or in a
   grown one of at most MAX_LEN; then the append is not fatal.
   */
  lemma CheckMeansAppend(s: Shape, len: nat)
    requires s.Live() && len <= MAX_CHUNK
    ensures var t := s.Settle(len);
      s.CheckSucceeds(len) <==> t.end + len < t.alloc || t.GrownSize(len) <= 10 * 1024 * 1024
    ensures s.CheckSucceeds(len) ==> !s.AppendIsFatal(len) && !s.AfterCheck(len).AppendIsFatal(len)
  {
    hide RoundUp, Add32, Shape.Settle, Shape.AfterCheck;
    CheckedShape(s, len);
    CheckedShape(s.AfterCheck(len), len);
    RoundUpSmall(s.AfterCheck(len).alloc + len);
  }

  /** The shape within the restart loop of an append: not moved yet, compacted once, or grown once after that. */
  ghost predicate Appending(before: Shape, now: Shape, len: nat, grown: bool) {
    && before.Live() && len <= MAX_CHUNK
    && var s := before.Reset();
    if grown then
      && s.end + len >= s.alloc && s.Compact().end + len >= s.alloc
      && now == s.Compact().(alloc := s.GrownSize(len)) && now.end + len < now.alloc
    else
      now == s || (s.MustCompact() && now == s.Compact() && s.end + len >= s.alloc)
  }

  lemma AppendBegins(before: Shape, len: nat)
    requires before.Live()
    ensures len > MAX_CHUNK ==> before.AppendIsFatal(len)
    ensures len <= MAX_CHUNK ==> Appending(before, before.Reset(), len, false)
  {
    hide RoundUp;
  }

  lemma AppendGoesOn(before: Shape, now: Shape, len: nat, grown: bool)
    requires Appending(before, now, len, grown) && now.Live() && now.end + len >= now.alloc
    ensures !grown && now.alloc <= RoundUp(now.alloc + len) && BlockSize(RoundUp(now.alloc + len))
    ensures now.MustCompact() ==> Appending(before, now.Compact(), len, false) && !now.Compact().MustCompact()
    ensures !now.MustCompact() && RoundUp(now.alloc + len) > BUFFER_MAX_LEN_HPN ==> before.AppendIsFatal(len)
    ensures !now.MustCompact() && RoundUp(now.alloc + len) <= BUFFER_MAX_LEN_HPN ==>
      Appending(before, now.(alloc := RoundUp(now.alloc + len)), len, true)
  {
    hide RoundUp;
  }

  lemma AppendEnds(before: Shape, now: Shape, len: nat, grown: bool)
    requires Appending(before, now, len, grown) && now.Live() && now.end + len < now.alloc
    ensures !before.AppendIsFatal(len) && before.AfterAppend(len) == now.(end := now.end + len)
  {
    hide RoundUp;
  }

  class Buffer {
    var buf: array<Byte>
    var alloc: nat
    var offset: nat
    var end: nat

    ghost predicate Valid()
      reads this
    {
      buf.Length == alloc && GetShape().Live()
    }

    ghost function GetShape(): Shape
      reads this
    {
      Shape(alloc, offset, end)
    }

    ghost function Contents(): (s: seq<Byte>)
      requires Valid()
      reads this, buf
    {
      buf[offset..end]
    }

    function Len(): (n: nat)
      requires Valid()
      reads this, buf
      ensures n == |Contents()|
    {
      end - offset
    }

    constructor ()
      ensures Valid() && fresh(buf)
      ensures Contents() == []
      ensures GetShape() == Shape(INITIAL_SIZE, 0, 0)
    {
      buf := new Byte[INITIAL_SIZE];
      alloc := INITIAL_SIZE;
      offset := 0;
      end := 0;
    }

    method Clear()
      requires Valid()
      modifies this
      ensures Valid() && buf == old(buf)
      ensures Contents() == [] && GetShape() == old(GetShape()).Cleared()
    {
      offset := 0;
      end := 0;
    }

    /** Moves the data to the front when a large part of the buffer lies unused before it. */
    method Compact() returns (moved: bool)
      requires Valid()
      modifies this, buf
      ensures Valid() && buf == old(buf)
      ensures moved == old(GetShape().MustCompact())
      ensures GetShape() == old(GetShape().Compact())
      ensures Contents() == old(Contents())
    {
      if offset > Min(alloc, MAX_CHUNK) {
        var n := end - offset;
        forall i | 0 <= i < n {
          buf[i] := buf[offset + i];
        }
        end := n;
        offset := 0;
        return true;
      }
      return false;
    }

    /** `xrealloc`: the old bytes are carried over into the larger block. */
    method Reallocate(newlen: nat)
      requires Valid() && alloc <= newlen <= BUFFER_MAX_LEN_HPN && BlockSize(newlen)
      modifies this
      ensures Valid() && fresh(buf)
      ensures GetShape() == old(GetShape()).(alloc := newlen)
      ensures Contents() == old(Contents())
    {
      var bigger := new Byte[newlen];
      forall i | 0 <= i < alloc {
        bigger[i] := buf[i];
      }
      buf := bigger;
      alloc := newlen;
    }

    /** Opens `len` bytes of space at the end; `p` is the index of the first of them. */
    method AppendSpace(len: nat) returns (fatal: bool, p: nat)
      requires Valid() && len < U32_RANGE
      modifies this, buf
      ensures Valid()
      ensures buf == old(buf) || fresh(buf)
      ensures fatal == old(GetShape()).AppendIsFatal(len)
      ensures fatal ==> Contents() == old(Contents())
      ensures !fatal ==> GetShape() == old(GetShape()).AfterAppend(len)
      ensures !fatal ==> p + len == end && offset <= p && buf[offset..p] == old(Contents())
    {
      hide RoundUp, Appending, Shape.AppendIsFatal, Shape.AfterAppend, Shape.GrownSize, BlockSize;
      ghost var before := GetShape();
      AppendBegins(before, len);
      if len > MAX_CHUNK {
        return true, 0;
      }
      if offset == end {
        offset := 0;
        end := 0;
      }
      ghost var grown := false;
      while !(end + len < alloc)
        invariant Valid() && (buf == old(buf) || fresh(buf))
        invariant Contents() == old(Contents())
        invariant Appending(before, GetShape(), len, grown)
        decreases !grown, if GetShape().MustCompact() then 1 else 0
      {
        AppendGoesOn(before, GetShape(), len, grown);
        var moved := Compact();
        if !moved {
          var newlen := RoundUp(alloc + len);
          if newlen > BUFFER_MAX_LEN_HPN {
            return true, 0;
          }
          Reallocate(newlen);
          grown := true;
        }
      }
      AppendEnds(before, GetShape(), len, grown);
      p := end;
      end := end + len;
      return false, p;
    }

    /** `memcpy` to the space opened for `data`. */
    method Store(p: nat, data: seq<Byte>)
      requires Valid() && offset <= p && p + |data| == end
      modifies buf
      ensures buf[offset..p] == old(buf[offset..p]) && buf[p..end] == data
    {
      forall i | 0 <= i < |data| {
        buf[p + i] := data[i];
      }
      forall j | 0 <= j < |data| ensures buf[p..end][j] == data[j] {
        assert buf[p + j] == data[j];
      }
    }

    /** Appends `data`, growing the buffer if needed; `fatal` means the process ends here. */
    method Append(data: seq<Byte>) returns (fatal: bool)
      requires Valid() && |data| < U32_RANGE
      modifies this, buf
      ensures Valid()
      ensures buf == old(buf) || fresh(buf)
      ensures fatal == old(GetShape().AppendIsFatal(|data|))
      ensures Contents() == if fatal then old(Contents()) else old(Contents()) + data
      ensures !fatal ==> GetShape() == old(GetShape().AfterAppend(|data|))
    {
      hide RoundUp, Shape.AppendIsFatal, Shape.AfterAppend, Shape.Settle, Shape.GrownSize;
      var p;
      fatal, p := AppendSpace(|data|);
      if !fatal {
        Store(p, data);
        assert buf[offset..end] == buf[offset..p] + buf[p..end];
      }
    }

    /** Tells whether `len` more bytes would fit. */
    method CheckAlloc(len: nat) returns (ok: bool)
      requires Valid() && len < U32_RANGE
      modifies this, buf
      ensures Valid() && buf == old(buf)
      ensures Contents() == old(Contents())
      ensures GetShape() == old(GetShape()).AfterCheck(len)
      ensures ok == old(GetShape()).CheckSucceeds(len)
    {
      hide RoundUp, Add32, BlockSize;
      if offset == end {
        offset := 0;
        end := 0;
      }
      ghost var start := GetShape();
      while true
        invariant Valid() && buf == old(buf)
        invariant Contents() == old(Contents())
        invariant GetShape() == start ||
                  (start.MustCompact() && GetShape() == start.Compact() && Add32(start.end, len) >= start.alloc)
        decreases offset
      {
        if Add32(end, len) < alloc {
          return true;
        }
        var moved := Compact();
        if !moved {
          break;
        }
      }
      if RoundUp(Add32(alloc, len)) % U32_RANGE <= MAX_LEN {
        return true;
      }
      return false;
    }

    /** Removes `len` bytes from the front; -1 and no change when there are too few. */
    method GetRet(len: nat) returns (r: int, data: seq<Byte>)
      requires Valid()
      modifies this
      ensures Valid() && buf == old(buf)
      ensures r == if len > |old(Contents())| then -1 else 0
      ensures r == -1 ==> Contents() == old(Contents()) && data == []
      ensures r == 0 ==> data + Contents() == old(Contents()) && |data| == len
      ensures GetShape() == if r == -1 then old(GetShape()) else old(GetShape()).Consumed(len)
    {
      if len > end - offset {
        return -1, [];
      }
      data := buf[offset..offset + len];
      offset := offset + len;
      return 0, data;
    }

    method ConsumeRet(len: nat) returns (r: int)
      requires Valid()
      modifies this
      ensures Valid() && buf == old(buf)
      ensures r == if len > |old(Contents())| then -1 else 0
      ensures Contents() == if r == -1 then old(Contents()) else old(Contents())[len..]
      ensures GetShape() == if r == -1 then old(GetShape()) else old(GetShape()).Consumed(len)
    {
      if len > end - offset {
        return -1;
      }
      offset := offset + len;
      return 0;
    }

    method ConsumeEndRet(len: nat) returns (r: int)
      requires Valid()
      modifies this
      ensures Valid() && buf == old(buf)
      ensures r == if len > |old(Contents())| then -1 else 0
      ensures Contents() == if r == -1 then old(Contents()) else old(Contents())[..|old(Contents())| - len]
    {
      if len > end - offset {
        return -1;
      }
      end := end - len;
      return 0;
    }
  }
}
