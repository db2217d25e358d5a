/**
Pack entry headers of `src/worker/git/pack/packMeta.ts` and `src/worker/git/core/objects.ts`:
the type-and-size varint, the OFS_DELTA distance coding, and the header parser, following
gitformat-pack(5), "pack-*.pack files have the following format".
 */
module PackMeta {
  import opened Bytes
  import opened Bits

  const OFS_DELTA: nat := 6
  const REF_DELTA: nat := 7

  /** A group of seven bits. */
  type septet = g: int | 0 <= g < 128

  /** `b & 0x7f`. */
  function Low7(b: byte): septet {
    if b < 128 then b else b - 128
  }

  datatype PackHeaderEx = PackHeaderEx(
    kind: nat,
    sizeVarBytes: seq<byte>,
    headerLen: nat,
    baseOid: Option<Oid>,
    baseRel: Option<int>)

  // ---------- OFS_DELTA distances ----------

  /** The distance of the format: each continuation adds one before shifting. */
  function Distance(current: nat, flag: nat): (s: seq<byte>)
    requires flag == 0 || flag == 128
    ensures |s| > 0
    decreases current
  {
    (if current < 128 then [] else Distance(current / 128 - 1, 128)) + [current % 128 + flag]
  }

  /** `rel >>> 0` keeps the low 32 bits. */
  function EncodeDistance(rel: int): (s: seq<byte>)
    ensures |s| > 0
  {
    if rel <= 0 then [0] else Distance(rel % INT32_SPAN, 0)
  }

  /** What one more byte makes of the distance read so far, in 32-bit arithmetic. */
  function NextDistance(distance: int, b: byte): int {
    ToInt32((distance + 1) * 128) + Low7(b)
  }

  /** Reads a distance that goes on after `distance`; the result is the value and the end. */
  function ReadDistance(buf: seq<byte>, p: nat, distance: int): (r: Option<(int, nat)>)
    ensures r.Some? ==> p < r.value.1 <= |buf|
    decreases |buf| - p
  {
    if p >= |buf| then None
    else
      var next := NextDistance(distance, buf[p]);
      if buf[p] < 128 then Some((next, p + 1)) else ReadDistance(buf, p + 1, next)
  }

  function DecodeDistance(buf: seq<byte>, p: nat): (r: Option<(int, nat)>)
    ensures r.Some? ==> p < r.value.1 <= |buf|
  {
    if p >= |buf| then None
    else if buf[p] < 128 then Some((buf[p] as int, p + 1))
    else ReadDistance(buf, p + 1, Low7(buf[p]))
  }

  // ---------- Headers ----------

  /** The position just after the size varint whose byte before `p` was `c`. */
  function SizeEnd(buf: seq<byte>, p: nat, c: byte): (r: Option<nat>)
    ensures r.Some? ==> p <= r.value && (p <= |buf| ==> r.value <= |buf|)
    decreases |buf| - p
  {
    if c < 128 then Some(p)
    else if p >= |buf| then None
    else SizeEnd(buf, p + 1, buf[p])
  }

  function ParseHeader(buf: seq<byte>, offset: nat): (r: Option<PackHeaderEx>)
    ensures r.Some? ==> offset + r.value.headerLen <= |buf|
  {
    if offset >= |buf| then None
    else
      var c := buf[offset];
      var kind := c / 16 % 8;
      match SizeEnd(buf, offset + 1, c)
      case None => None
      case Some(p) =>
        var size := buf[offset..p];
        if kind == REF_DELTA then
          if p + 20 > |buf| then None
          else Some(PackHeaderEx(kind, size, |size| + 20, Some(buf[p..p + 20]), None))
        else if kind == OFS_DELTA then
          match DecodeDistance(buf, p)
          case None => None
          case Some((distance, end)) => Some(PackHeaderEx(kind, size, |size| + (end - p), None, Some(distance)))
        else Some(PackHeaderEx(kind, size, |size|, None, None))
  }

  /** The size bytes after the first, low group first, ended by a signed test. */
  function SizeTail(size: int): seq<byte>
    decreases size
  {
    if size <= 0 then []
    else [size % 128 + (if size / 128 > 0 then 128 else 0)] + SizeTail(size / 128)
  }

  /** `size >>= 4` works on the signed 32-bit value. */
  function EncodeHeader(kind: nat, size: nat): (s: seq<byte>)
    requires kind < 8
    ensures |s| > 0
  {
    var rest := ToInt32(size) / 16;
    [kind * 16 + size % 16 + (if rest > 0 then 128 else 0)] + SizeTail(rest)
  }

  // ---------- The code, as loops ----------

  method EncodeOfsDeltaDistance(rel: int) returns (s: seq<byte>)
    ensures s == EncodeDistance(rel)
  {
    if rel <= 0 {
      return [0];
    }
    var groups := CollectGroups(rel % INT32_SPAN);
    s := seq(|groups|, k requires 0 <= k < |groups| => groups[|groups| - 1 - k]);
    for index := 0 to |groups| - 1
      invariant |s| == |groups|
      invariant forall k :: 0 <= k < |s| ==> s[k] == groups[|groups| - 1 - k] as int + if k < index then 128 else 0
    {
      s := s[index := s[index] + 128];
    }
    WrittenAt(groups);
  }

  method CollectGroups(start: nat) returns (groups: seq<septet>)
    ensures groups != [] && Written(groups) == Distance(start, 0)
  {
    var current: int := start;
    groups := [];
    while true
      invariant current >= 0
      invariant Distance(start, 0) == Distance(current, if groups == [] then 0 else 128) + Written(groups)
      decreases current
    {
      var group := current % 128;
      LowestGroup(current, groups);
      groups := groups + [group];
      current := (current - group) / 128 - 1;
      if current < 0 {
        break;
      }
    }
  }

  /** Groups collected low first, as they are finally written: high first, flagged except the lowest. */
  function Written(groups: seq<septet>): (s: seq<byte>)
    ensures |s| == |groups|
  {
    if groups == [] then []
    else [groups[|groups| - 1] as int + if |groups| > 1 then 128 else 0] + Written(groups[..|groups| - 1])
  }

  /** Moving the lowest group of `current` to the groups written so far. */
  lemma {:induction false} LowestGroup(current: nat, groups: seq<septet>)
    ensures Distance(current, if groups == [] then 0 else 128) + Written(groups) ==
            (if current < 128 then [] else Distance(current / 128 - 1, 128)) + Written(groups + [current % 128])
  {
    var more := groups + [current % 128];
    assert more[..|more| - 1] == groups;
    AppendAssociates(if current < 128 then [] else Distance(current / 128 - 1, 128),
                     [current % 128 + if groups == [] then 0 else 128], Written(groups));
  }

  lemma {:induction false} WrittenAt(groups: seq<septet>)
    ensures forall k :: 0 <= k < |groups| ==>
              Written(groups)[k] == groups[|groups| - 1 - k] as int + if k < |groups| - 1 then 128 else 0
  {
    if groups != [] {
      WrittenAt(groups[..|groups| - 1]);
    }
  }

  method OfsDeltaDistanceLength(rel: int) returns (count: nat)
    ensures count == |EncodeDistance(rel)|
  {
    if rel <= 0 {
      return 1;
    }
    var current := rel % INT32_SPAN;
    ghost var start := current;
    count := 0;
    while true
      invariant current >= 0
      invariant forall f :: f == 0 || f == 128 ==> |Distance(start, 0)| == count + |Distance(current, f)|
      decreases current
    {
      count := count + 1;
      assert |Distance(current, 0)| == 1 + if current < 128 then 0 else |Distance(current / 128 - 1, 128)|;
      var group := current % 128;
      SameLength(current / 128 - 1);
      current := (current - group) / 128 - 1;
      if current < 0 {
        break;
      }
    }
  }

  lemma {:induction false} SameLength(current: int)
    ensures current >= 0 ==> |Distance(current, 0)| == |Distance(current, 128)|
  {
  }

  method EncodeObjHeader(kind: nat, size: nat) returns (s: seq<byte>)
    requires kind < 8
    ensures s == EncodeHeader(kind, size)
  {
    var first := kind * 16 + size % 16;
    var rest := ToInt32(size) / 16;
    if rest > 0 {
      first := first + 128;
    }
    s := [first];
    while rest > 0
      invariant EncodeHeader(kind, size) == s + SizeTail(rest)
      decreases rest
    {
      var b := rest % 128;
      rest := rest / 128;
      if rest > 0 {
        b := b + 128;
      }
      s := s + [b];
    }
  }

  method ReadPackHeaderExFromBuf(buf: seq<byte>, offset: nat) returns (r: Option<PackHeaderEx>)
    ensures r == ParseHeader(buf, offset)
  {
    var p := offset;
    if p >= |buf| {
      return None;
    }
    var c := buf[p];
    p := p + 1;
    var kind := c / 16 % 8;
    while c >= 128
      invariant offset < p <= |buf|
      invariant SizeEnd(buf, offset + 1, buf[offset]) == SizeEnd(buf, p, c)
      decreases |buf| - p
    {
      if p >= |buf| {
        return None;
      }
      c := buf[p];
      p := p + 1;
    }
    var size := buf[offset..p];
    if kind == REF_DELTA {
      if p + 20 > |buf| {
        return None;
      }
      return Some(PackHeaderEx(kind, size, |size| + 20, Some(buf[p..p + 20]), None));
    }
    if kind == OFS_DELTA {
      var distance := ReadOfsDistance(buf, p);
      if distance.None? {
        return None;
      }
      var (value, end) := distance.value;
      return Some(PackHeaderEx(kind, size, |size| + (end - p), None, Some(value)));
    }
    return Some(PackHeaderEx(kind, size, |size|, None, None));
  }

  method ReadOfsDistance(buf: seq<byte>, start: nat) returns (r: Option<(int, nat)>)
    ensures r == DecodeDistance(buf, start)
  {
    var p := start;
    if p >= |buf| {
      return None;
    }
    var b := buf[p];
    p := p + 1;
    var distance: int := Low7(b);
    while b >= 128
      invariant start < p <= |buf|
      invariant DecodeDistance(buf, start) ==
                if b < 128 then Some((distance, p)) else ReadDistance(buf, p, distance)
      decreases |buf| - p
    {
      if p >= |buf| {
        return None;
      }
      b := buf[p];
      p := p + 1;
      distance := NextDistance(distance, b);
    }
    return Some((distance, p));
  }

  // ---------- The distance coding is a bijection ----------

  /** The value of a distance in unbounded arithmetic. */
  function Value(s: seq<byte>): nat
    requires |s| > 0
  {
    if |s| == 1 then Low7(s[0]) else (Value(s[..|s| - 1]) + 1) * 128 + Low7(s[|s| - 1])
  }

  /** Every byte is flagged except the last. */
  ghost predicate Terminated(s: seq<byte>) {
    |s| > 0 && s[|s| - 1] < 128 && forall k :: 0 <= k < |s| - 1 ==> s[k] >= 128
  }

  lemma {:induction false} ValueAppend(high: seq<byte>, low: nat, flag: nat)
    requires low < 128 && (flag == 0 || flag == 128)
    ensures Value(high + [low + flag]) == if high == [] then low else (Value(high) + 1) * 128 + low
  {
    AppendParts(high, [low + flag]);
  }

  lemma {:induction false} DistanceValue(current: nat, flag: nat)
    requires flag == 0 || flag == 128
    ensures Value(Distance(current, flag)) == current
    decreases current
  {
    if current >= 128 {
      var q, low := current / 128, current % 128;
      DistanceValue(q - 1, 128);
      assert Distance(current, flag) == Distance(q - 1, 128) + [low + flag];
      ValueAppend(Distance(q - 1, 128), low, flag);
      GroupsRejoin(current, q, low);
    } else {
      assert Distance(current, flag) == [current + flag];
      ValueAppend([], current, flag);
    }
  }

  lemma {:induction false} GroupsRejoin(current: nat, q: nat, low: nat)
    requires q == current / 128 && low == current % 128
    ensures (q - 1 + 1) * 128 + low == current
  {
  }

  lemma {:induction false} DistanceFlags(current: nat, flag: nat)
    requires flag == 0 || flag == 128
    ensures var s := Distance(current, flag);
            s[|s| - 1] == current % 128 + flag && forall k :: 0 <= k < |s| - 1 ==> s[k] >= 128
    decreases current
  {
    if current >= 128 {
      DistanceFlags(current / 128 - 1, 128);
    }
  }

  lemma {:induction false} ValueThenDistance(s: seq<byte>, flag: nat)
    requires |s| > 0 && (flag == 0 || flag == 128)
    requires s[|s| - 1] == Low7(s[|s| - 1]) + flag && forall k :: 0 <= k < |s| - 1 ==> s[k] >= 128
    ensures Distance(Value(s), flag) == s
  {
    var init := s[..|s| - 1];
    assert s == init + [s[|s| - 1]];
    if |s| > 1 {
      var low := Low7(s[|s| - 1]);
      ValueThenDistance(init, 128);
      ValueAppend(init, low, flag);
      DistanceJoins(s, init, low, flag, Value(init), Value(s));
    } else {
      DistanceOfLow(Low7(s[0]), flag);
    }
  }

  lemma {:induction false} DistanceOfLow(low: nat, flag: nat)
    requires low < 128 && (flag == 0 || flag == 128)
    ensures Distance(low, flag) == [low + flag]
  {
    assert low % 128 == low;
  }

  lemma {:induction false} DistanceJoins(s: seq<byte>, init: seq<byte>, low: nat, flag: nat, high: nat, v: nat)
    requires low < 128 && (flag == 0 || flag == 128)
    requires s == init + [low + flag] && v == (high + 1) * 128 + low && Distance(high, 128) == init
    ensures Distance(v, flag) == s
  {
    DistanceOfNext(high, low, flag);
  }

  lemma {:induction false} DistanceOfNext(high: nat, low: nat, flag: nat)
    requires low < 128 && (flag == 0 || flag == 128)
    ensures Distance((high + 1) * 128 + low, flag) == Distance(high, 128) + [low + flag]
  {
    ModOfSum(high + 1, low, 128);
  }

  lemma {:induction false} NextDistanceWraps(v: nat, b: byte)
    ensures NextDistance(ToInt32(v), b) == ToInt32((v + 1) * 128 + Low7(b))
  {
    var w := ToInt32(v);
    var k := v / INT32_SPAN + if v % INT32_SPAN >= 0x8000_0000 then 1 else 0;
    assert v == w + k * INT32_SPAN;
    assert (v + 1) * 128 == (w + 1) * 128 + 128 * k * INT32_SPAN;
    WrapIgnoresSpans((w + 1) * 128, 128 * k);
    WrapAddsLow(v + 1, Low7(b));
  }

  lemma {:induction false} WrapAddsLow(n: int, low: nat)
    requires low < 128
    ensures ToInt32(n * 128) + low == ToInt32(n * 128 + low)
  {
    var m := n % 0x200_0000;
    assert n * 128 == m * 128 + n / 0x200_0000 * INT32_SPAN;
    WrapIgnoresSpans(m * 128, n / 0x200_0000);
    WrapIgnoresSpans(m * 128 + low, n / 0x200_0000);
  }

  lemma {:induction false} ReadDistanceIsValue(buf: seq<byte>, p: nat, s: seq<byte>, k: nat)
    requires Terminated(s) && p + |s| <= |buf| && buf[p..p + |s|] == s && 1 <= k <= |s|
    ensures k < |s| ==> ReadDistance(buf, p + k, ToInt32(Value(s[..k]))) == Some((ToInt32(Value(s)), p + |s|))
    decreases |s| - k
  {
    if k < |s| {
      assert buf[p + k] == s[k];
      assert s[..k + 1][..k] == s[..k];
      NextDistanceWraps(Value(s[..k]), s[k]);
      ReadDistanceIsValue(buf, p, s, k + 1);
      assert s[..|s|] == s;
    }
  }

  /** Decoding any terminated string gives its value, wrapped to a signed 32-bit integer. */
  lemma {:induction false} DecodeIsWrappedValue(buf: seq<byte>, p: nat, s: seq<byte>)
    requires Terminated(s) && p + |s| <= |buf| && buf[p..p + |s|] == s
    ensures DecodeDistance(buf, p) == Some((ToInt32(Value(s)), p + |s|))
  {
    assert buf[p] == s[0];
    assert Value(s[..1]) == Low7(s[0]);
    ReadDistanceIsValue(buf, p, s, 1);
  }

  lemma {:induction false} EncodedIsTerminated(rel: nat)
    ensures Terminated(EncodeDistance(rel)) && Value(EncodeDistance(rel)) == rel % INT32_SPAN
  {
    DistanceValue(rel % INT32_SPAN, 0);
    DistanceFlags(rel % INT32_SPAN, 0);
  }

  /** Decoding an encoded distance gives it back exactly when it is below 2^31. */
  lemma {:induction false} DistanceRoundTrip(buf: seq<byte>, p: nat, rel: nat)
    requires p + |EncodeDistance(rel)| <= |buf| && buf[p..p + |EncodeDistance(rel)|] == EncodeDistance(rel)
    ensures DecodeDistance(buf, p) == Some((ToInt32(rel), p + |EncodeDistance(rel)|))
    ensures DecodeDistance(buf, p).value.0 == rel <==> rel < 0x8000_0000
  {
    EncodedIsTerminated(rel);
    DecodeIsWrappedValue(buf, p, EncodeDistance(rel));
    WrapIgnoresSpans(rel % INT32_SPAN, rel / INT32_SPAN);
  }

  /** Re-encoding a decoded string gives it back exactly when its value is below 2^31. */
  lemma {:induction false} EncodingIsOnto(s: seq<byte>)
    requires Terminated(s)
    ensures DecodeDistance(s, 0).Some?
    ensures EncodeDistance(DecodeDistance(s, 0).value.0) == s <==> Value(s) < 0x8000_0000
  {
    assert s[0..0 + |s|] == s;
    DecodeIsWrappedValue(s, 0, s);
    if Value(s) < 0x8000_0000 {
      ReEncodes(s, Value(s));
    } else {
      EncodedValue(ToInt32(Value(s)));
    }
  }

  lemma {:induction false} ReEncodes(s: seq<byte>, v: nat)
    requires Terminated(s) && v == Value(s) < 0x8000_0000
    ensures EncodeDistance(v) == s
  {
    ValueThenDistance(s, 0);
    EncodeSmall(v);
  }

  lemma {:induction false} EncodeSmall(v: nat)
    requires v < 0x8000_0000
    ensures EncodeDistance(v) == Distance(v, 0)
  {
    if v == 0 {
      DistanceOfLow(0, 0);
    } else {
      assert v % INT32_SPAN == v;
    }
  }

  lemma {:induction false} EncodedValue(rel: int)
    requires rel < 0x8000_0000
    ensures Value(EncodeDistance(rel)) == if rel <= 0 then 0 else rel
  {
    if rel > 0 {
      EncodedIsTerminated(rel);
    }
  }

  // ---------- Headers round-trip ----------

  /** The size a header spells: four bits in the first byte, then seven a byte. */
  function SizeOf(s: seq<byte>): nat
    requires |s| > 0
  {
    s[0] % 16 + 16 * GroupsOf(s[1..])
  }

  function GroupsOf(s: seq<byte>): nat {
    if s == [] then 0 else s[0] % 128 + 128 * GroupsOf(s[1..])
  }

  lemma {:induction false} SizeTailValue(size: int)
    ensures GroupsOf(SizeTail(size)) == if size <= 0 then 0 else size
    decreases size
  {
    if size > 0 {
      SizeTailValue(size / 128);
      assert SizeTail(size)[1..] == SizeTail(size / 128);
    }
  }

  lemma {:induction false} SizeTailEnds(buf: seq<byte>, p: nat, size: int, c: byte)
    requires p + |SizeTail(size)| <= |buf| && buf[p..p + |SizeTail(size)|] == SizeTail(size)
    requires c < 128 <==> size <= 0
    ensures SizeEnd(buf, p, c) == Some(p + |SizeTail(size)|)
    decreases size
  {
    if size > 0 {
      var tail, n := SizeTail(size), p + |SizeTail(size)|;
      assert buf[p] == buf[p..n][0] == tail[0];
      assert buf[p + 1..n] == buf[p..n][1..] == SizeTail(size / 128);
      SizeTailEnds(buf, p + 1, size / 128, buf[p]);
    }
  }

  /** An encoded header spells its size exactly when the size is below 2^31. */
  lemma {:induction false} EncodedSize(kind: nat, size: nat)
    requires kind < 8
    ensures SizeOf(EncodeHeader(kind, size)) == size <==> size < 0x8000_0000
  {
    var rest := ToInt32(size) / 16;
    SizeTailValue(rest);
    var s := EncodeHeader(kind, size);
    assert s[1..] == SizeTail(rest);
    assert s[0] % 16 == size % 16;
  }

  lemma {:induction false} HeaderBytes(kind: nat, size: nat)
    requires kind < 8
    ensures var s, rest := EncodeHeader(kind, size), ToInt32(size) / 16;
            s[0] / 16 % 8 == kind && (s[0] < 128 <==> rest <= 0) && s[1..] == SizeTail(rest)
  {
    var low, rest := size % 16, ToInt32(size) / 16;
    var flag := if rest > 0 then 8 else 0;
    assert EncodeHeader(kind, size)[0] == (kind + flag) * 16 + low;
    ModOfSum(kind + flag, low, 16);
  }

  lemma {:induction false} ParsesKindAndSize(buf: seq<byte>, offset: nat, kind: nat, size: nat)
    requires kind < 8 && offset + |EncodeHeader(kind, size)| <= |buf|
    requires buf[offset..offset + |EncodeHeader(kind, size)|] == EncodeHeader(kind, size)
    ensures offset < |buf| && buf[offset] / 16 % 8 == kind
    ensures SizeEnd(buf, offset + 1, buf[offset]) == Some(offset + |EncodeHeader(kind, size)|)
  {
    HeaderBytes(kind, size);
    ReadsSize(buf, offset, EncodeHeader(kind, size), ToInt32(size) / 16);
  }

  lemma {:induction false} ReadsSize(buf: seq<byte>, offset: nat, s: seq<byte>, rest: int)
    requires |s| > 0 && offset + |s| <= |buf| && buf[offset..offset + |s|] == s
    requires s[1..] == SizeTail(rest) && (s[0] < 128 <==> rest <= 0)
    ensures buf[offset] == s[0] && SizeEnd(buf, offset + 1, buf[offset]) == Some(offset + |s|)
  {
    var n := offset + |s|;
    assert buf[offset] == buf[offset..n][0];
    assert buf[offset + 1..n] == buf[offset..n][1..];
    SizeTailEnds(buf, offset + 1, rest, buf[offset]);
  }

  /** What follows the size bytes of an entry of this kind. */
  function BaseBytes(kind: nat, rel: nat, baseOid: Oid): seq<byte> {
    if kind == 6 then EncodeDistance(rel) else if kind == 7 then baseOid else []
  }

  /** A header, then a distance, a base id, or nothing: parsing recovers kind, size bytes, base and length. */
  lemma {:induction false} HeaderRoundTrip(before: seq<byte>, kind: nat, size: nat, rel: nat, baseOid: Oid,
                                           suffix: seq<byte>)
    requires kind < 8
    ensures var s, base := EncodeHeader(kind, size), BaseBytes(kind, rel, baseOid);
            ParseHeader(before + (s + base) + suffix, |before|) ==
            Some(PackHeaderEx(kind, s, |s| + |base|,
                              if kind == 7 then Some(baseOid) else None,
                              if kind == 6 then Some(ToInt32(rel)) else None))
  {
    var s, base := EncodeHeader(kind, size), BaseBytes(kind, rel, baseOid);
    var buf := before + (s + base) + suffix;
    var p := |before| + |s|;
    EntrySlices(before, s, base, suffix);
    ParsesKindAndSize(buf, |before|, kind, size);
    ParsesBase(buf, p, kind, rel, baseOid);
    ParsesHeader(buf, |before|, p, kind, s, base, ToInt32(rel), baseOid);
  }

  lemma {:induction false} ParsesHeader(buf: seq<byte>, offset: nat, p: nat, kind: nat, s: seq<byte>, base: seq<byte>,
                                        distance: int, baseOid: Oid)
    requires offset < p <= |buf| && buf[offset] / 16 % 8 == kind && buf[offset..p] == s
    requires SizeEnd(buf, offset + 1, buf[offset]) == Some(p)
    requires kind == 6 ==> DecodeDistance(buf, p) == Some((distance, p + |base|))
    requires kind == 7 ==> p + 20 <= |buf| && buf[p..p + 20] == baseOid && |base| == 20
    requires kind != 6 && kind != 7 ==> base == []
    ensures ParseHeader(buf, offset) ==
            Some(PackHeaderEx(kind, s, |s| + |base|,
                              if kind == 7 then Some(baseOid) else None,
                              if kind == 6 then Some(distance) else None))
  {
  }

  lemma {:induction false} EntrySlices(before: seq<byte>, s: seq<byte>, base: seq<byte>, suffix: seq<byte>)
    ensures var buf, p := before + (s + base) + suffix, |before| + |s|;
            p + |base| <= |buf| && buf[|before|..p] == s && buf[p..p + |base|] == base
  {
  }

  lemma {:induction false} ParsesBase(buf: seq<byte>, p: nat, kind: nat, rel: nat, baseOid: Oid)
    requires p + |BaseBytes(kind, rel, baseOid)| <= |buf|
    requires buf[p..p + |BaseBytes(kind, rel, baseOid)|] == BaseBytes(kind, rel, baseOid)
    ensures kind == 6 ==> DecodeDistance(buf, p) == Some((ToInt32(rel), p + |EncodeDistance(rel)|))
    ensures kind == 7 ==> p + 20 <= |buf| && buf[p..p + 20] == baseOid
  {
    if kind == 6 {
      DistanceRoundTrip(buf, p, rel);
    }
  }
}
