/**
Bytes, raw object ids and the big-endian integers shared by the binary formats.
 */
module Bytes {

  type byte = b: int | 0 <= b < 256

  type Oid = o: seq<byte> | |o| == 20 witness seq(20, i => 0)

  const UINT32_SPAN: nat := 0x1_0000_0000
  const MAX_SAFE_INTEGER: nat := 0x1F_FFFF_FFFF_FFFF

  datatype Option<+T> = None | Some(value: T)

  /** A computation of the source that returns a value or throws. */
  datatype Result<+T> = Ok(value: T) | Err(message: string) {
    predicate IsFailure() {
      Err?
    }

    function PropagateFailure<U>(): Result<U>
      requires Err?
    {
      Err(message)
    }

    function Extract(): T
      requires Ok?
    {
      value
    }
  }

  // ---------- Big-endian integers ----------

  function GetUint32(s: seq<byte>, pos: nat): (n: nat)
    requires pos + 4 <= |s|
    ensures n < UINT32_SPAN
  {
    s[pos] as int * 0x100_0000 + s[pos + 1] as int * 0x1_0000 + s[pos + 2] as int * 0x100 + s[pos + 3] as int
  }

  /** `setUint32` keeps the low 32 bits of its argument. */
  function PutUint32(n: nat): (s: seq<byte>)
    ensures |s| == 4
  {
    [n / 0x100_0000 % 0x100, n / 0x1_0000 % 0x100, n / 0x100 % 0x100, n % 0x100]
  }

  lemma {:induction false} PutThenGetUint32(n: nat)
    ensures GetUint32(PutUint32(n), 0) == n % UINT32_SPAN
  {
    var q3 := n / 0x100_0000;
    var q2 := n / 0x1_0000;
    var q1 := n / 0x100;
    assert q1 / 0x100 == q2 && q2 / 0x100 == q3;
    assert n == q1 * 0x100 + n % 0x100;
    assert q1 == q2 * 0x100 + q1 % 0x100;
    assert q2 == q3 * 0x100 + q2 % 0x100;
    assert q3 == q3 / 0x100 * 0x100 + q3 % 0x100;
    var low := GetUint32(PutUint32(n), 0);
    assert n == q3 / 0x100 * UINT32_SPAN + low;
    ModOfSum(q3 / 0x100, low, UINT32_SPAN);
  }

  /** Four bytes that were put read back as the low 32 bits. */
  lemma {:induction false} ReadsBack(s: seq<byte>, pos: nat, n: nat)
    requires pos + 4 <= |s| && s[pos..pos + 4] == PutUint32(n)
    ensures GetUint32(s, pos) == n % UINT32_SPAN
  {
    var four := s[pos..pos + 4];
    assert four[0] == s[pos] && four[1] == s[pos + 1] && four[2] == s[pos + 2] && four[3] == s[pos + 3];
    PutThenGetUint32(n);
  }

  lemma {:induction false} ModOfSum(q: nat, r: nat, m: nat)
    requires r < m
    ensures (q * m + r) % m == r && (q * m + r) / m == q
  {
    var n := q * m + r;
    var k := n / m - q;
    assert k * m == r - n % m;
    MultipleIsLarge(k, m);
  }

  lemma {:induction false} MultipleIsLarge(k: int, m: int)
    requires m > 0
    ensures k >= 1 ==> k * m >= m
    ensures k <= -1 ==> k * m <= -m
  {
    if k >= 1 {
      assert (k - 1) * m >= 0;
    } else if k <= -1 {
      assert (-k - 1) * m >= 0;
    }
  }

  /** The most significant byte comes first. */
  lemma {:induction false} BigEndian()
    ensures PutUint32(0x0102_0304) == [1, 2, 3, 4] && GetUint32([1, 2, 3, 4], 0) == 0x0102_0304
  {
  }

  // ---------- ASCII ----------

  function Ascii(text: string): (s: seq<byte>)
    requires forall i :: 0 <= i < |text| ==> text[i] < 128 as char
    ensures |s| == |text|
  {
    seq(|text|, i requires 0 <= i < |text| => text[i] as int)
  }

  // ---------- Hexadecimal digits ----------

  function HexNibble(value: byte): (n: int)
    ensures -1 <= n < 16
  {
    if 0x30 <= value <= 0x39 then value - 0x30
    else if 0x61 <= value <= 0x66 then value - 0x61 + 10
    else if 0x41 <= value <= 0x46 then value - 0x41 + 10
    else -1
  }

  predicate IsHex(text: seq<byte>) {
    forall i :: 0 <= i < |text| ==> HexNibble(text[i]) >= 0
  }

  function HexDigit(n: nat): (c: byte)
    requires n < 16
    ensures HexNibble(c) == n
  {
    if n < 10 then 0x30 + n else 0x61 + n - 10
  }

  lemma {:induction false} HexText(n: nat)
    requires n < 16
    ensures HexDigit(n) == Ascii("0123456789abcdef")[n]
    ensures HexNibble(Ascii("0123456789abcdef")[n]) == n && HexNibble(Ascii("0123456789ABCDEF")[n]) == n
  {
  }

  lemma {:induction false} OnlyHexIsHex(b: byte)
    ensures HexNibble(b) >= 0 <==> b in Ascii("0123456789abcdefABCDEF")
  {
    var text := Ascii("0123456789abcdefABCDEF");
    if HexNibble(b) >= 0 {
      assert text[if b < 0x41 then b - 0x30 else if b < 0x61 then b - 0x41 + 16 else b - 0x61 + 10] == b;
    }
  }

  // ---------- Names in a flat table of raw object ids ----------

  function NameAt(table: seq<byte>, row: nat): (o: Oid)
    requires 20 * row + 20 <= |table|
  {
    table[20 * row..20 * row + 20]
  }

  /** The first non-zero byte difference of two strings of one length, or 0. */
  function Compare(x: seq<byte>, y: seq<byte>): int
    requires |x| == |y|
  {
    if x == [] then 0
    else if x[0] != y[0] then x[0] as int - y[0] as int
    else Compare(x[1..], y[1..])
  }

  /** Byte-wise comparison is a total order. */
  lemma {:induction false} CompareIsOrder(x: seq<byte>, y: seq<byte>)
    requires |x| == |y|
    ensures Compare(x, y) == -Compare(y, x)
    ensures Compare(x, y) == 0 <==> x == y
  {
    if x != [] {
      CompareIsOrder(x[1..], y[1..]);
      assert x == [x[0]] + x[1..] && y == [y[0]] + y[1..];
    }
  }

  /** The first byte that differs decides. */
  lemma {:induction false} FirstDifferenceDecides(x: seq<byte>, y: seq<byte>, k: nat)
    requires |x| == |y| && k < |x| && x[..k] == y[..k] && x[k] != y[k]
    ensures Compare(x, y) == x[k] as int - y[k] as int
  {
    if k > 0 {
      assert x[0] == x[..k][0] == y[..k][0] == y[0];
      assert x[1..][..k - 1] == x[..k][1..] == y[..k][1..] == y[1..][..k - 1];
      FirstDifferenceDecides(x[1..], y[1..], k - 1);
    }
  }

  lemma {:induction false} CompareTransitive(x: seq<byte>, y: seq<byte>, z: seq<byte>)
    requires |x| == |y| == |z|
    requires Compare(x, y) <= 0 && Compare(y, z) <= 0
    ensures Compare(x, z) <= 0
    ensures Compare(x, y) < 0 || Compare(y, z) < 0 ==> Compare(x, z) < 0
  {
    if x != [] && x[0] == y[0] == z[0] {
      CompareTransitive(x[1..], y[1..], z[1..]);
    }
  }

  // ---------- Slices ----------

  lemma {:induction false} DropDrop<T>(s: seq<T>, i: nat, j: nat)
    requires i + j <= |s|
    ensures s[i..][j..] == s[i + j..]
    ensures s[i..][..j] == s[i..i + j]
  {
  }

  lemma {:induction false} SubSlice<T>(s: seq<T>, i: nat, j: nat, a: nat, b: nat)
    requires i <= j <= |s| && a <= b <= j - i
    ensures s[i..j][a..b] == s[i + a..i + b]
  {
    forall k | 0 <= k < b - a ensures s[i..j][a..b][k] == s[i + a..i + b][k] {
      assert s[i..j][a + k] == s[i + a + k];
    }
  }

  lemma {:induction false} AppendAssociates<T>(x: seq<T>, y: seq<T>, z: seq<T>)
    ensures x + (y + z) == x + y + z
  {
  }

  lemma {:induction false} AppendParts<T>(x: seq<T>, y: seq<T>)
    ensures (x + y)[..|x|] == x && (x + y)[|x|..] == y
  {
  }

  lemma {:induction false} AppendDrop<T>(x: seq<T>, y: seq<T>, i: nat)
    requires i <= |x|
    ensures (x + y)[i..] == x[i..] + y
  {
  }

  lemma {:induction false} MiddleSlice<T>(x: seq<T>, y: seq<T>, z: seq<T>)
    ensures (x + y + z)[|x|..|x| + |y|] == y
  {
  }

  // ---------- Chunked byte strings ----------

  function Flatten(chunks: seq<seq<byte>>): seq<byte> {
    if chunks == [] then [] else chunks[0] + Flatten(chunks[1..])
  }

  lemma {:induction false} FlattenAppend(chunks: seq<seq<byte>>, more: seq<seq<byte>>)
    ensures Flatten(chunks + more) == Flatten(chunks) + Flatten(more)
  {
    if chunks == [] {
      assert chunks + more == more;
    } else {
      assert (chunks + more)[1..] == chunks[1..] + more;
      FlattenAppend(chunks[1..], more);
    }
  }

  lemma {:induction false} FlattenSnoc(chunks: seq<seq<byte>>, chunk: seq<byte>)
    ensures Flatten(chunks + [chunk]) == Flatten(chunks) + chunk
  {
    FlattenAppend(chunks, [chunk]);
    assert Flatten([chunk]) == chunk + Flatten([]) == chunk;
  }

  // ---------- Typed arrays ----------

  /** `out.set(data, at)`, which throws when the data does not fit. */
  method SetBytes(out: array<byte>, data: seq<byte>, at: nat) returns (fits: bool)
    requires at <= out.Length
    modifies out
    ensures fits == (at + |data| <= out.Length)
    ensures fits ==> out[..at + |data|] == old(out[..at]) + data
    ensures !fits ==> out[..] == old(out[..])
  {
    fits := at + |data| <= out.Length;
    if fits {
      for i := 0 to |data|
        invariant out[..at + i] == old(out[..at]) + data[..i]
      {
        out[at + i] := data[i];
      }
      assert data[..|data|] == data;
    }
  }
}
