/**
The copy/insert interpreter of `src/worker/git/object-store/delta.ts`, measured
against the instruction format of gitformat-pack(5), "Deltified representation".
 */
module Delta {
  import opened Bytes
  import opened Bits

  // ---------- The code, as a function ----------

  /** Reading past the end gives undefined, which or-s in as zero. */
  function At(delta: seq<byte>, pos: nat): byte {
    if pos < |delta| then delta[pos] else 0
  }

  /** Groups of seven bits, low group first; the shift count is taken modulo 32. */
  function ReadVarint(delta: seq<byte>, pos: nat, bits: nat, shift: nat): (r: Result<(int, nat)>)
    ensures r.Ok? ==> pos < r.value.1 <= |delta|
    decreases |delta| - pos
  {
    if pos >= |delta| then Err("delta:truncated-varint")
    else
      var group := delta[pos] % 128 * Pow2(shift % 32) % INT32_SPAN;
      var next := BitOr(bits, group);
      if delta[pos] < 128 then Ok((ToInt32(next), pos + 1))
      else ReadVarint(delta, pos + 1, next, shift + 7)
  }

  /** The seven operand flags of a copy opcode, offset bytes first. */
  function Flags(mask: nat): (flags: seq<bool>)
    ensures |flags| == 7
  {
    seq(7, k requires 0 <= k < 7 => Bit(mask, k))
  }

  /** The operand bytes of a copy instruction; a byte whose flag is clear is zero. */
  function Operands(delta: seq<byte>, pos: nat, flags: seq<bool>): (args: seq<byte>)
    ensures |args| == |flags|
    decreases flags
  {
    if flags == [] then []
    else if flags[0] then [At(delta, pos)] + Operands(delta, pos + 1, flags[1..])
    else [0] + Operands(delta, pos, flags[1..])
  }

  function OperandCount(flags: seq<bool>): nat {
    if flags == [] then 0 else (if flags[0] then 1 else 0) + OperandCount(flags[1..])
  }

  function CopyOffset(args: seq<byte>): int
    requires |args| == 7
  {
    ToInt32(args[0] as int + args[1] as int * 0x100 + args[2] as int * 0x1_0000 + args[3] as int * 0x100_0000)
  }

  /** A zero size field means 0x10000. */
  function CopySize(args: seq<byte>): (n: nat)
    requires |args| == 7
    ensures n > 0
  {
    var n := args[4] as int + args[5] as int * 0x100 + args[6] as int * 0x1_0000;
    if n == 0 then 0x1_0000 else n
  }

  /** The bytes one instruction produces, and where the next one starts. */
  function Instruction(base: seq<byte>, delta: seq<byte>, pos: nat): (r: Result<(seq<byte>, nat)>)
    requires pos < |delta|
    ensures r.Ok? ==> pos < r.value.1 && |r.value.0| > 0
  {
    var opcode := delta[pos];
    if opcode >= 128 then
      var flags := Flags(opcode - 128);
      var args := Operands(delta, pos + 1, flags);
      var offset, n := CopyOffset(args), CopySize(args);
      if offset < 0 || offset + n > |base| then Err("delta:copy-out-of-bounds")
      else Ok((base[offset..offset + n], pos + 1 + OperandCount(flags)))
    else if opcode == 0 then Err("delta:invalid-opcode")
    else if pos + 1 + opcode > |delta| then Err("delta:insert-out-of-bounds")
    else Ok((delta[pos + 1..pos + 1 + opcode], pos + 1 + opcode))
  }

  /** Interprets the instructions from `pos` on, after `out` has been written. */
  function Run(base: seq<byte>, delta: seq<byte>, pos: nat, out: seq<byte>, size: nat): (r: Result<seq<byte>>)
    ensures r.Ok? ==> |r.value| == size && out <= r.value
    decreases |delta| - pos
  {
    if pos >= |delta| then
      if |out| != size then Err("delta:result-size-mismatch") else Ok(out)
    else
      var (data, next) :- Instruction(base, delta, pos);
      if |out| + |data| > size then Err("RangeError") else Run(base, delta, next, out + data, size)
  }

  function Apply(base: seq<byte>, delta: seq<byte>): Result<seq<byte>> {
    var (baseSize, afterBase) :- ReadVarint(delta, 0, 0, 0);
    var (resultSize, start) :- ReadVarint(delta, afterBase, 0, 0);
    if baseSize != |base| then Err("delta:base-size-mismatch")
    else if resultSize < 0 then Err("RangeError")
    else Run(base, delta, start, [], resultSize)
  }

  // ---------- The code, in place ----------

  method ReadVarintAt(delta: seq<byte>, start: nat) returns (r: Result<(int, nat)>)
    ensures r == ReadVarint(delta, start, 0, 0)
  {
    var pos, bits, shift := start, 0, 0;
    while true
      invariant ReadVarint(delta, start, 0, 0) == ReadVarint(delta, pos, bits, shift)
      decreases |delta| - pos
    {
      if pos >= |delta| {
        return Err("delta:truncated-varint");
      }
      var b := delta[pos];
      pos := pos + 1;
      bits := BitOr(bits, b % 128 * Pow2(shift % 32) % INT32_SPAN);
      if b < 128 {
        return Ok((ToInt32(bits), pos));
      }
      shift := shift + 7;
    }
  }

  method ReadOperands(delta: seq<byte>, start: nat, flags: seq<bool>) returns (args: seq<byte>, pos: nat)
    ensures args == Operands(delta, start, flags)
    ensures pos == start + OperandCount(flags)
  {
    args, pos := [], start;
    for k := 0 to |flags|
      invariant Operands(delta, start, flags) == args + Operands(delta, pos, flags[k..])
      invariant start + OperandCount(flags) == pos + OperandCount(flags[k..])
    {
      OperandsFrom(delta, pos, flags, k, args);
      if flags[k] {
        args := args + [At(delta, pos)];
        pos := pos + 1;
      } else {
        args := args + [0];
      }
    }
  }

  lemma {:induction false} OperandsFrom(delta: seq<byte>, pos: nat, flags: seq<bool>, k: nat, args: seq<byte>)
    requires k < |flags|
    ensures var next, value := if flags[k] then pos + 1 else pos, if flags[k] then At(delta, pos) else 0;
            && args + Operands(delta, pos, flags[k..]) == args + [value] + Operands(delta, next, flags[k + 1..])
            && pos + OperandCount(flags[k..]) == next + OperandCount(flags[k + 1..])
  {
    assert flags[k..][1..] == flags[k + 1..];
    var next, value := if flags[k] then pos + 1 else pos, if flags[k] then At(delta, pos) else 0;
    AppendAssociates(args, [value], Operands(delta, next, flags[k + 1..]));
  }

  method ReadInstruction(base: seq<byte>, delta: seq<byte>, start: nat) returns (r: Result<(seq<byte>, nat)>)
    requires start < |delta|
    ensures r == Instruction(base, delta, start)
  {
    var opcode := delta[start];
    if opcode >= 128 {
      var args, pos := ReadOperands(delta, start + 1, Flags(opcode - 128));
      var copyOffset, copySize := CopyOffset(args), CopySize(args);
      if copyOffset < 0 || copyOffset + copySize > |base| {
        return Err("delta:copy-out-of-bounds");
      }
      return Ok((base[copyOffset..copyOffset + copySize], pos));
    }
    if opcode == 0 {
      return Err("delta:invalid-opcode");
    }
    var pos := start + 1;
    if pos + opcode > |delta| {
      return Err("delta:insert-out-of-bounds");
    }
    return Ok((delta[pos..pos + opcode], pos + opcode));
  }

  method ApplyGitDelta(base: seq<byte>, delta: seq<byte>) returns (r: Result<seq<byte>>)
    ensures r == Apply(base, delta)
  {
    var baseSize := ReadVarintAt(delta, 0);
    if baseSize.Err? {
      return Err(baseSize.message);
    }
    var resultSize := ReadVarintAt(delta, baseSize.value.1);
    if resultSize.Err? {
      return Err(resultSize.message);
    }
    if baseSize.value.0 != |base| {
      return Err("delta:base-size-mismatch");
    }
    if resultSize.value.0 < 0 {
      return Err("RangeError");
    }
    var out := new byte[resultSize.value.0];
    r := RunInto(base, delta, resultSize.value.1, out);
  }

  method RunInto(base: seq<byte>, delta: seq<byte>, start: nat, out: array<byte>) returns (r: Result<seq<byte>>)
    modifies out
    ensures r == Run(base, delta, start, [], out.Length)
    ensures r.Ok? ==> out[..] == r.value
  {
    var pos, outPos := start, 0;
    ghost var written: seq<byte> := [];
    while pos < |delta|
      invariant 0 <= outPos <= out.Length && out[..outPos] == written
      invariant Run(base, delta, start, [], out.Length) == Run(base, delta, pos, written, out.Length)
      decreases |delta| - pos
    {
      var instruction := ReadInstruction(base, delta, pos);
      if instruction.Err? {
        return Err(instruction.message);
      }
      var (data, next) := instruction.value;
      RunStep(base, delta, pos, data, next, written, out.Length);
      var fits := SetBytes(out, data, outPos);
      if !fits {
        return Err("RangeError");
      }
      written := written + data;
      outPos, pos := outPos + |data|, next;
    }
    if outPos != out.Length {
      return Err("delta:result-size-mismatch");
    }
    assert out[..outPos] == out[..];
    return Ok(out[..]);
  }

  // ---------- The format ----------

  /**
  A copy names an offset and a size, of which the bytes marked in `present` are written, low
  byte first; bytes that are not written must be zero, and size 0 means 0x10000.
   */
  datatype Op = Copy(present: seq<bool>, offset: nat, size: nat) | Insert(data: seq<byte>)

  /** Four bytes of the offset and three of the size. */
  function OperandBytes(offset: nat, size: nat): (args: seq<byte>)
    ensures |args| == 7
  {
    [offset % 0x100, offset / 0x100 % 0x100, offset / 0x1_0000 % 0x100, offset / 0x100_0000 % 0x100,
     size % 0x100, size / 0x100 % 0x100, size / 0x1_0000 % 0x100]
  }

  function CopyLength(size: nat): nat {
    if size == 0 then 65536 else size
  }

  predicate ZeroWhereClear(flags: seq<bool>, args: seq<byte>)
    requires |flags| == |args|
  {
    flags == [] || ((flags[0] || args[0] == 0) && ZeroWhereClear(flags[1..], args[1..]))
  }

  predicate ValidOp(base: seq<byte>, op: Op) {
    match op
    case Copy(present, offset, size) =>
      && |present| == 7 && offset < 0x8000_0000 && size < 0x100_0000
      && ZeroWhereClear(present, OperandBytes(offset, size))
      && offset + CopyLength(size) <= |base|
    case Insert(data) => 1 <= |data| < 128
  }

  function OpOutput(base: seq<byte>, op: Op): seq<byte>
    requires ValidOp(base, op)
  {
    match op
    case Copy(_, offset, size) => base[offset..offset + CopyLength(size)]
    case Insert(data) => data
  }

  predicate ValidOps(base: seq<byte>, ops: seq<Op>) {
    ops == [] || (ValidOp(base, ops[0]) && ValidOps(base, ops[1..]))
  }

  /** What a delta means: the concatenation of the outputs of its instructions. */
  function Output(base: seq<byte>, ops: seq<Op>): seq<byte>
    requires ValidOps(base, ops)
  {
    if ops == [] then [] else OpOutput(base, ops[0]) + Output(base, ops[1..])
  }

  function EncodeOperands(flags: seq<bool>, args: seq<byte>): (s: seq<byte>)
    requires |flags| == |args|
    ensures |s| == OperandCount(flags)
  {
    if flags == [] then [] else (if flags[0] then [args[0]] else []) + EncodeOperands(flags[1..], args[1..])
  }

  /** The low bit for the first operand byte. */
  function FlagBits(flags: seq<bool>): nat {
    if flags == [] then 0 else (if flags[0] then 1 else 0) + 2 * FlagBits(flags[1..])
  }

  lemma {:induction false} FlagBitsBound(flags: seq<bool>)
    ensures FlagBits(flags) < Pow2(|flags|)
  {
    if flags != [] {
      FlagBitsBound(flags[1..]);
    }
  }

  /** The opcode of a copy: the high bit and one bit for each operand byte that follows. */
  function CopyOpcode(present: seq<bool>): (opcode: byte)
    requires |present| == 7
  {
    FlagBitsBound(present);
    Pow2Values();
    128 + FlagBits(present)
  }

  function EncodeOp(base: seq<byte>, op: Op): (s: seq<byte>)
    requires ValidOp(base, op)
    ensures |s| > 0
  {
    match op
    case Copy(present, offset, size) => [CopyOpcode(present)] + EncodeOperands(present, OperandBytes(offset, size))
    case Insert(data) => [|data|] + data
  }

  function EncodeOps(base: seq<byte>, ops: seq<Op>): seq<byte>
    requires ValidOps(base, ops)
  {
    if ops == [] then [] else EncodeOp(base, ops[0]) + EncodeOps(base, ops[1..])
  }

  function EncodeVarint(n: nat): seq<byte> {
    if n < 128 then [n] else [128 + n % 128] + EncodeVarint(n / 128)
  }

  function EncodeDelta(base: seq<byte>, baseSize: nat, resultSize: nat, ops: seq<Op>): seq<byte>
    requires ValidOps(base, ops)
  {
    EncodeVarint(baseSize) + EncodeVarint(resultSize) + EncodeOps(base, ops)
  }

  // ---------- Sizes ----------

  /** The groups of a size, or-ed together the way the size loop does it. */
  function OrGroups(n: nat, bits: nat, shift: nat): nat {
    if n < 128 then NextBits(n, bits, shift) else OrGroups(n / 128, NextBits(n, bits, shift), shift + 7)
  }

  /** The value the size loop gives for the encoding of `n`. */
  function ReadsAs(n: nat): int {
    ToInt32(OrGroups(n, 0, 0))
  }

  function NextBits(n: nat, bits: nat, shift: nat): nat {
    BitOr(bits, n % 128 * Pow2(shift % 32) % INT32_SPAN)
  }

  /** The size loop reads the encoding of any size to its end, and gives what `ReadsAs` says. */
  lemma {:induction false} VarintReads(delta: seq<byte>, pos: nat, n: nat, bits: nat, shift: nat)
    requires pos <= |delta| && EncodeVarint(n) <= delta[pos..]
    ensures ReadVarint(delta, pos, bits, shift)
         == Ok((ToInt32(OrGroups(n, bits, shift)), pos + |EncodeVarint(n)|))
    decreases n
  {
    FirstGroup(delta, pos, n);
    GroupStep(delta, pos, n, bits, shift);
    if n >= 128 {
      VarintReads(delta, pos + 1, n / 128, NextBits(n, bits, shift), shift + 7);
    }
  }

  lemma {:induction false} FirstGroup(delta: seq<byte>, pos: nat, n: nat)
    requires pos <= |delta| && EncodeVarint(n) <= delta[pos..]
    ensures pos < |delta| && delta[pos] == (if n < 128 then n else 128 + n % 128)
    ensures n >= 128 ==> EncodeVarint(n / 128) <= delta[pos + 1..] && |EncodeVarint(n)| == 1 + |EncodeVarint(n / 128)|
    ensures n < 128 ==> |EncodeVarint(n)| == 1
  {
    assert delta[pos] == delta[pos..][0] == EncodeVarint(n)[0];
    if n >= 128 {
      assert EncodeVarint(n / 128) == EncodeVarint(n)[1..] <= delta[pos..][1..] == delta[pos + 1..];
    }
  }

  lemma {:induction false} GroupStep(delta: seq<byte>, pos: nat, n: nat, bits: nat, shift: nat)
    requires pos < |delta| && delta[pos] == (if n < 128 then n else 128 + n % 128)
    ensures var next := NextBits(n, bits, shift);
            && ReadVarint(delta, pos, bits, shift)
               == (if n < 128 then Ok((ToInt32(next), pos + 1)) else ReadVarint(delta, pos + 1, next, shift + 7))
            && OrGroups(n, bits, shift) == if n < 128 then next else OrGroups(n / 128, next, shift + 7)
  {
    assert delta[pos] % 128 == n % 128;
  }

  /** A size reads back exactly when it is below 2^31; below 2^35 its low 32 bits are read, as a signed value. */
  lemma {:induction false} VarintRoundTrip(n: nat)
    ensures ReadsAs(n) == n <==> n < 0x8000_0000
    ensures n < 0x8_0000_0000 ==> ReadsAs(n) == ToInt32(n)
  {
    if n < 0x8_0000_0000 {
      assert n * Pow2(0) == n;
      var lost := GroupsAddUp(n, 0, 0, n);
      WrapIgnoresSpans(OrGroups(n, 0, 0), lost);
    }
  }

  /** Up to the fifth group, or-ing adds; only a multiple of 2^32 is lost. */
  lemma {:induction false} GroupsAddUp(n: nat, bits: nat, shift: nat, value: nat) returns (lost: nat)
    requires shift <= 28 && shift % 7 == 0 && bits < Pow2(shift) && value == n * Pow2(shift) < 0x8_0000_0000
    ensures bits + value == OrGroups(n, bits, shift) + lost * INT32_SPAN
    decreases n
  {
    if n < 128 {
      lost := LastGroup(n, bits, shift, value);
    } else {
      var next, higher := GroupIsKept(n, bits, shift, value);
      lost := GroupsAddUp(n / 128, next, shift + 7, higher);
    }
  }

  lemma {:induction false} LastGroup(n: nat, bits: nat, shift: nat, value: nat) returns (lost: nat)
    requires n < 128 && shift <= 28 && bits < Pow2(shift) && value == n * Pow2(shift)
    ensures bits + value == OrGroups(n, bits, shift) + lost * INT32_SPAN
  {
    lost := GroupLands(n, bits, shift);
  }

  /** Nothing is shifted out of a group that is not the last. */
  lemma {:induction false} GroupIsKept(n: nat, bits: nat, shift: nat, value: nat) returns (next: nat, higher: nat)
    requires n >= 128
    requires shift <= 28 && shift % 7 == 0 && bits < Pow2(shift) && value == n * Pow2(shift) < 0x8_0000_0000
    ensures shift <= 21 && next == NextBits(n, bits, shift) < Pow2(shift + 7)
    ensures higher == n / 128 * Pow2(shift + 7) <= value && bits + value == next + higher
  {
    var p := Pow2(shift);
    SplitGroup(n, p);
    GroupFits(n / 128, shift);
    LowGroupFits(bits, n % 128, p);
    Pow2Seven(shift);
    var lost := GroupLands(n, bits, shift);
    next, higher := NextBits(n, bits, shift), n / 128 * (128 * p);
  }

  /** A group that lands above the bits read so far is added to them, without what is shifted out. */
  lemma {:induction false} GroupLands(n: nat, bits: nat, shift: nat) returns (lost: nat)
    requires shift <= 28 && bits < Pow2(shift)
    ensures lost == n % 128 * Pow2(shift) / INT32_SPAN
    ensures bits + n % 128 * Pow2(shift) == NextBits(n, bits, shift) + lost * INT32_SPAN
  {
    var group, kept;
    WordSplits(shift);
    lost, group, kept := KeepsLow(n % 128, Pow2(shift), Pow2(32 - shift));
    NextBitsAdd(n, bits, shift, group, kept);
  }

  lemma {:induction false} NextBitsAdd(n: nat, bits: nat, shift: nat, group: nat, kept: nat)
    requires shift < 32 && bits < Pow2(shift)
    requires group == n % 128 * Pow2(shift) % INT32_SPAN && group == kept * Pow2(shift)
    ensures NextBits(n, bits, shift) == bits + group
  {
    OrAbove(bits, kept, shift);
  }

  lemma {:induction false} WordSplits(shift: nat)
    requires shift <= 32
    ensures Pow2(shift) * Pow2(32 - shift) == INT32_SPAN
  {
    Pow2Values();
    Pow2Adds(shift, 32 - shift);
  }

  lemma {:induction false} KeepsLow(low: nat, p: nat, high: nat) returns (lost: nat, group: nat, kept: nat)
    requires high > 0 && p > 0 && p * high == INT32_SPAN
    ensures lost == low * p / INT32_SPAN && group == low * p % INT32_SPAN == kept * p
    ensures low * p == group + lost * INT32_SPAN
  {
    lost, group, kept := low / high, low * p % INT32_SPAN, low % high;
    SplitProduct(low, p, high);
    ModOfSum(lost, kept * p, INT32_SPAN);
  }

  lemma {:induction false} SplitProduct(low: nat, p: nat, high: nat)
    requires high > 0 && p > 0
    ensures low * p == low / high * (p * high) + low % high * p
    ensures 0 <= low % high * p < p * high
  {
    var q, r := low / high, low % high;
    assert low == q * high + r;
    assert (q * high + r) * p == q * (p * high) + r * p;
    assert r * p <= (high - 1) * p;
    assert (high - 1) * p == p * high - p;
  }

  lemma {:induction false} SplitGroup(n: nat, p: nat)
    ensures n * p == n / 128 * (128 * p) + n % 128 * p
    ensures n / 128 * (128 * p) >= 0 && n % 128 * p >= 0
  {
    assert n == n / 128 * 128 + n % 128;
    assert (n / 128 * 128 + n % 128) * p == n / 128 * (128 * p) + n % 128 * p;
  }

  /** A group that is not the last starts at bit 21 at the latest. */
  lemma {:induction false} GroupFits(high: nat, shift: nat)
    requires high >= 1 && high * (128 * Pow2(shift)) < 0x8_0000_0000 && shift <= 28 && shift % 7 == 0
    ensures shift <= 21 && 128 * Pow2(shift) <= INT32_SPAN
  {
    AtLeastOnce(high, 128 * Pow2(shift));
    Pow2Values();
    if shift <= 21 {
      Pow2Monotone(shift, 24);
    }
  }

  lemma {:induction false} AtLeastOnce(high: nat, m: nat)
    requires high >= 1
    ensures m <= high * m
  {
    assert (high - 1) * m >= 0;
  }

  lemma {:induction false} Pow2Seven(shift: nat)
    ensures Pow2(shift + 7) == 128 * Pow2(shift)
  {
    Pow2Values();
    Pow2Adds(shift, 7);
  }

  lemma {:induction false} LowGroupFits(bits: nat, low: nat, p: nat)
    requires bits < p && low < 128
    ensures bits + low * p < 128 * p
  {
    assert low * p <= 127 * p;
  }

  // ---------- Sizes of any length, bit by bit ----------

  /** Where bit `j` of a size is read to when its first group is shifted by `shift`; from 32 on it is lost. */
  function LandsAt(shift: nat, j: nat): nat {
    (shift + 7 * (j / 7)) % 32 + j % 7
  }

  /** Some bit of `n` is read to bit `k`. */
  ghost predicate Landed(n: nat, shift: nat, k: nat) {
    exists j: nat :: Bit(n, j) && LandsAt(shift, j) == k
  }

  /** Bit `k` of what a group lands on: set already, or by bit `k` less the shift of the group. */
  lemma {:induction false} NextBitsAt(n: nat, bits: nat, shift: nat, k: nat)
    requires k < 32
    ensures Bit(NextBits(n, bits, shift), k) <==> Bit(bits, k) || (0 <= k - shift % 32 < 7 && Bit(n, k - shift % 32))
  {
    var s := shift % 32;
    Pow2Values();
    ShiftedBits(n % 128, s, k);
    LowBits(n % 128 * Pow2(s), 32, k);
    OrBits(bits, n % 128 * Pow2(s) % INT32_SPAN, k);
    if k >= s {
      LowBits(n, 7, k - s);
    }
  }

  lemma {:induction false} LastLanded(n: nat, shift: nat, k: nat)
    requires n < 128
    ensures Landed(n, shift, k) <==> 0 <= k - shift % 32 < 7 && Bit(n, k - shift % 32)
  {
    var s := shift % 32;
    Pow2Values();
    forall j: nat | Bit(n, j) ensures j < 7 && LandsAt(shift, j) == s + j {
      assert n % 128 == n;
      LowBits(n, 7, j);
    }
    if 0 <= k - s < 7 && Bit(n, k - s) {
      assert LandsAt(shift, k - s) == k;
    }
  }

  lemma {:induction false} NextLanded(n: nat, shift: nat, k: nat)
    ensures Landed(n, shift, k) <==>
            (0 <= k - shift % 32 < 7 && Bit(n, k - shift % 32)) || Landed(n / 128, shift + 7, k)
  {
    if j: nat :| Bit(n, j) && LandsAt(shift, j) == k {
      if j >= 7 {
        HighBits(n, j - 7);
        LandsInNext(shift, j - 7);
      }
    }
    if 0 <= k - shift % 32 < 7 && Bit(n, k - shift % 32) {
      assert LandsAt(shift, k - shift % 32) == k;
    }
    if j: nat :| Bit(n / 128, j) && LandsAt(shift + 7, j) == k {
      HighBits(n, j);
      LandsInNext(shift, j);
    }
  }

  lemma {:induction false} LandsInNext(shift: nat, j: nat)
    ensures LandsAt(shift, j + 7) == LandsAt(shift + 7, j)
  {
    assert (j + 7) / 7 == j / 7 + 1 && (j + 7) % 7 == j % 7;
  }

  lemma {:induction false} GroupBits(n: nat, bits: nat, shift: nat, k: nat)
    requires k < 32
    ensures Bit(OrGroups(n, bits, shift), k) <==> Bit(bits, k) || Landed(n, shift, k)
    decreases n
  {
    NextBitsAt(n, bits, shift, k);
    if n < 128 {
      LastLanded(n, shift, k);
    } else {
      NextLanded(n, shift, k);
      GroupBits(n / 128, NextBits(n, bits, shift), shift + 7, k);
    }
  }

  lemma {:induction false} GroupsAreBounded(n: nat, bits: nat, shift: nat)
    requires bits < INT32_SPAN
    ensures OrGroups(n, bits, shift) < INT32_SPAN
    decreases n
  {
    Pow2Values();
    NonNegative(n % 128, Pow2(shift % 32));
    OrBound(bits, n % 128 * Pow2(shift % 32) % INT32_SPAN, 32);
    if n >= 128 {
      GroupsAreBounded(n / 128, NextBits(n, bits, shift), shift + 7);
    }
  }

  lemma {:induction false} NonNegative(a: nat, b: nat)
    ensures a * b >= 0
  {
  }

  /** The bits of `n` land on exactly those of `m`. */
  ghost predicate LandsOn(n: nat, m: nat) {
    forall k: nat :: k < 32 ==> (Bit(m, k) <==> Landed(n, 0, k))
  }

  /**
  A size of any length reads as `m` exactly when its bits land on those of `m`: the groups
  wrap around every 32 bits, where they meet the groups read before.
   */
  lemma {:induction false} SizeReadsAs(n: nat, m: nat)
    requires m < 0x8000_0000
    ensures ReadsAs(n) == m <==> LandsOn(n, m)
  {
    GroupsAreBounded(n, 0, 0);
    BitsLand(n);
    SameLanding(n, OrGroups(n, 0, 0), m);
    SignedIsSame(OrGroups(n, 0, 0), m);
  }

  lemma {:induction false} SignedIsSame(bits: nat, m: nat)
    requires bits < INT32_SPAN && m < 0x8000_0000
    ensures ToInt32(bits) == m <==> bits == m
  {
  }

  lemma {:induction false} BitsLand(n: nat)
    ensures forall k: nat :: k < 32 ==> (Bit(OrGroups(n, 0, 0), k) <==> Landed(n, 0, k))
  {
    forall k: nat | k < 32 ensures Bit(OrGroups(n, 0, 0), k) <==> Landed(n, 0, k) {
      GroupBits(n, 0, 0, k);
      ZeroHasNoBits(k);
    }
  }

  lemma {:induction false} SameLanding(n: nat, bits: nat, m: nat)
    requires bits < INT32_SPAN && m < 0x8000_0000
    requires forall k: nat :: k < 32 ==> (Bit(bits, k) <==> Landed(n, 0, k))
    ensures bits == m <==> LandsOn(n, m)
  {
    Pow2Values();
    if LandsOn(n, m) {
      SameBits(bits, m, 32);
    }
  }

  /** From 2^35 on a size is not read modulo 2^32 any more: 2^35 + 16 reads as 24. */
  lemma {:induction false} SixthGroupMeetsFirst()
    ensures ReadsAs(0x8_0000_0010) == 24 && 0x8_0000_0010 % INT32_SPAN == 16
  {
    assert NextBits(0x8_0000_0010, 0, 0) == 16;
    ZeroGroup(0x1000_0000, 16, 7);
    ZeroGroup(0x20_0000, 16, 14);
    ZeroGroup(0x4000, 16, 21);
    ZeroGroup(0x80, 16, 28);
    SixthGroup();
  }

  lemma {:induction false} ZeroGroup(n: nat, bits: nat, shift: nat)
    requires n >= 128 && n % 128 == 0
    ensures OrGroups(n, bits, shift) == OrGroups(n / 128, bits, shift + 7)
  {
    assert 0 * Pow2(shift % 32) == 0;
    assert NextBits(n, bits, shift) == bits;
  }

  lemma {:induction false} SixthGroup()
    ensures OrGroups(1, 16, 35) == 24
  {
    Pow2Values();
    EightMeetsSixteen();
    assert 1 * Pow2(3) % INT32_SPAN == 8;
  }

  lemma {:induction false} EightMeetsSixteen()
    ensures BitOr(16, 8) == 24
  {
    assert BitOr(2, 1) == 3;
    assert BitOr(4, 2) == 6;
    assert BitOr(8, 4) == 12;
  }

  // ---------- Encoded deltas are understood ----------

  lemma {:induction false} FlagOfBits(flags: seq<bool>, k: nat)
    requires k < |flags|
    ensures Bit(FlagBits(flags), k) == flags[k]
  {
    var rest := FlagBits(flags[1..]);
    assert FlagBits(flags) == (if flags[0] then 1 else 0) + 2 * rest;
    assert FlagBits(flags) / 2 == rest;
    if k > 0 {
      FlagOfBits(flags[1..], k - 1);
    }
  }

  lemma {:induction false} FlagsReadBack(present: seq<bool>)
    requires |present| == 7
    ensures Flags(CopyOpcode(present) - 128) == present
  {
    forall k | 0 <= k < 7 ensures Flags(FlagBits(present))[k] == present[k] {
      FlagOfBits(present, k);
    }
  }

  /** Any seven flag bits are those of some flags. */
  lemma {:induction false} OpcodeOfFlags(mask: nat)
    requires mask < 128
    ensures CopyOpcode(Flags(mask)) == 128 + mask
  {
    var flags := Flags(mask);
    FlagBitsBound(flags);
    Pow2Values();
    forall k: nat | k < 7 ensures Bit(FlagBits(flags), k) <==> Bit(mask, k) {
      FlagOfBits(flags, k);
    }
    SameBits(FlagBits(flags), mask, 7);
  }

  /** The bytes of an offset below 2^31 and of a size read back as these numbers. */
  lemma {:induction false} OperandsAreNumbers(offset: nat, size: nat)
    requires offset < 0x8000_0000 && size < 0x100_0000
    ensures CopyOffset(OperandBytes(offset, size)) == offset
    ensures CopySize(OperandBytes(offset, size)) == CopyLength(size)
  {
    OffsetBytes(offset);
    SizeBytes(size);
  }

  lemma {:induction false} OffsetBytes(offset: nat)
    requires offset < 0x8000_0000
    ensures offset == offset % 0x100 + offset / 0x100 % 0x100 * 0x100 + offset / 0x1_0000 % 0x100 * 0x1_0000
                      + offset / 0x100_0000 % 0x100 * 0x100_0000
  {
    PutThenGetUint32(offset);
  }

  lemma {:induction false} SizeBytes(size: nat)
    requires size < 0x100_0000
    ensures size == size % 0x100 + size / 0x100 % 0x100 * 0x100 + size / 0x1_0000 % 0x100 * 0x1_0000
  {
    var q := size / 0x100;
    assert q / 0x100 == size / 0x1_0000;
    assert q == q / 0x100 * 0x100 + q % 0x100;
  }

  /** Any operand bytes are those of the two numbers they spell. */
  lemma {:induction false} NumbersOfOperands(args: seq<byte>) returns (offset: nat, size: nat)
    requires |args| == 7 && CopyOffset(args) >= 0
    ensures offset == CopyOffset(args) < 0x8000_0000 && CopySize(args) == CopyLength(size) && size < 0x100_0000
    ensures OperandBytes(offset, size) == args
  {
    offset := CopyOffset(args);
    size := args[4] as int + args[5] as int * 0x100 + args[6] as int * 0x1_0000;
    FourBytes(args[0], args[1], args[2], args[3]);
    FourBytes(args[4], args[5], args[6], 0);
    assert offset == args[0] as int + args[1] as int * 0x100 + args[2] as int * 0x1_0000 + args[3] as int * 0x100_0000;
  }

  lemma {:induction false} FourBytes(b0: byte, b1: byte, b2: byte, b3: byte)
    ensures var n: nat := b0 as int + b1 as int * 0x100 + b2 as int * 0x1_0000 + b3 as int * 0x100_0000;
            && n % 0x100 == b0 && n / 0x100 % 0x100 == b1 && n / 0x1_0000 % 0x100 == b2
            && n / 0x100_0000 % 0x100 == b3
  {
    var n: nat := b0 as int + b1 as int * 0x100 + b2 as int * 0x1_0000 + b3 as int * 0x100_0000;
    assert n / 0x100 == b1 as int + b2 as int * 0x100 + b3 as int * 0x1_0000;
    assert n / 0x1_0000 == b2 as int + b3 as int * 0x100;
    assert n / 0x100_0000 == b3;
  }

  lemma {:induction false} OperandsRoundTrip(delta: seq<byte>, pos: nat, flags: seq<bool>, args: seq<byte>)
    requires |flags| == |args| && ZeroWhereClear(flags, args)
    requires pos + OperandCount(flags) <= |delta|
    requires delta[pos..pos + OperandCount(flags)] == EncodeOperands(flags, args)
    ensures Operands(delta, pos, flags) == args
    decreases flags
  {
    if flags != [] {
      var next := if flags[0] then pos + 1 else pos;
      var end := pos + OperandCount(flags);
      var code := EncodeOperands(flags[1..], args[1..]);
      assert delta[next..end] == code by {
        assert delta[next..end] == delta[pos..end][next - pos..];
      }
      OperandsRoundTrip(delta, next, flags[1..], args[1..]);
      assert flags[0] ==> delta[pos] == delta[pos..end][0] == args[0];
    }
  }

  lemma {:induction false} OpRoundTrip(base: seq<byte>, delta: seq<byte>, pos: nat, op: Op)
    requires ValidOp(base, op) && pos + |EncodeOp(base, op)| <= |delta|
    requires delta[pos..pos + |EncodeOp(base, op)|] == EncodeOp(base, op)
    ensures Instruction(base, delta, pos) == Ok((OpOutput(base, op), pos + |EncodeOp(base, op)|))
  {
    var code := EncodeOp(base, op);
    var next := pos + |code|;
    assert delta[pos] == delta[pos..next][0] == code[0];
    assert delta[pos + 1..next] == delta[pos..next][1..] == code[1..];
    match op
    case Copy(present, offset, size) =>
      var args := OperandBytes(offset, size);
      assert EncodeOperands(present, args) == code[1..];
      FlagsReadBack(present);
      OperandsRoundTrip(delta, pos + 1, present, args);
      OperandsAreNumbers(offset, size);
    case Insert(data) =>
      assert code[1..] == data;
  }

  /** The outcome of a run whose instructions produce `total`. */
  predicate Yields(r: Result<seq<byte>>, total: seq<byte>, size: nat) {
    if |total| == size then r == Ok(total) else r.Err?
  }

  lemma {:induction false} OpsRoundTrip(base: seq<byte>, delta: seq<byte>, pos: nat, ops: seq<Op>, out: seq<byte>,
                                        size: nat)
    requires ValidOps(base, ops)
    requires pos <= |delta| && delta[pos..] == EncodeOps(base, ops)
    ensures Yields(Run(base, delta, pos, out, size), out + Output(base, ops), size)
    decreases |ops|
  {
    if ops == [] {
      assert out + [] == out;
      assert |delta[pos..]| == 0;
    } else {
      var code, data, rest := EncodeOp(base, ops[0]), OpOutput(base, ops[0]), ops[1..];
      SplitAt(delta, pos, code, EncodeOps(base, rest));
      OpsRoundTrip(base, delta, pos + |code|, rest, out + data, size);
      FirstOpYields(base, delta, pos, ops[0], out, Output(base, rest), size);
    }
  }

  /** The first instruction runs, then whatever the rest yields follows. */
  lemma {:induction false} FirstOpYields(base: seq<byte>, delta: seq<byte>, pos: nat, op: Op, out: seq<byte>,
                                         rest: seq<byte>, size: nat)
    requires ValidOp(base, op) && pos + |EncodeOp(base, op)| <= |delta|
    requires delta[pos..pos + |EncodeOp(base, op)|] == EncodeOp(base, op)
    requires Yields(Run(base, delta, pos + |EncodeOp(base, op)|, out + OpOutput(base, op), size),
                    out + OpOutput(base, op) + rest, size)
    ensures Yields(Run(base, delta, pos, out, size), out + (OpOutput(base, op) + rest), size)
  {
    var next, data := pos + |EncodeOp(base, op)|, OpOutput(base, op);
    OpRoundTrip(base, delta, pos, op);
    RunStepYields(base, delta, pos, data, next, out, rest, size, Run(base, delta, next, out + data, size));
  }

  lemma {:induction false} RunStepYields(base: seq<byte>, delta: seq<byte>, pos: nat, data: seq<byte>, next: nat,
                                         out: seq<byte>, rest: seq<byte>, size: nat, r: Result<seq<byte>>)
    requires pos < |delta| && Instruction(base, delta, pos) == Ok((data, next))
    requires r == Run(base, delta, next, out + data, size) && Yields(r, out + data + rest, size)
    ensures Yields(Run(base, delta, pos, out, size), out + (data + rest), size)
  {
    AppendAssociates(out, data, rest);
    RunStep(base, delta, pos, data, next, out, size);
  }

  lemma {:induction false} RunStep(base: seq<byte>, delta: seq<byte>, pos: nat, data: seq<byte>, next: nat,
                                   out: seq<byte>, size: nat)
    requires pos < |delta| && Instruction(base, delta, pos) == Ok((data, next))
    ensures Run(base, delta, pos, out, size)
         == if |out| + |data| > size then Err("RangeError") else Run(base, delta, next, out + data, size)
  {
  }

  lemma {:induction false} SplitAt(delta: seq<byte>, pos: nat, first: seq<byte>, second: seq<byte>)
    requires pos <= |delta| && delta[pos..] == first + second
    ensures pos + |first| <= |delta|
    ensures delta[pos..pos + |first|] == first && delta[pos + |first|..] == second
  {
    AppendParts(first, second);
    DropDrop(delta, pos, |first|);
  }

  /**
  Any instruction list, in any of its encodings, under any declared sizes: the interpreter
  returns its meaning when both declared sizes read as the right ones, and fails otherwise.
   */
  lemma {:induction false} EncodedDeltaApplies(base: seq<byte>, baseSize: nat, resultSize: nat, ops: seq<Op>)
    requires ValidOps(base, ops)
    ensures var r := Apply(base, EncodeDelta(base, baseSize, resultSize, ops));
            if ReadsAs(baseSize) == |base| && ReadsAs(resultSize) == |Output(base, ops)| then r == Ok(Output(base, ops))
            else r.Err?
  {
    var delta := EncodeDelta(base, baseSize, resultSize, ops);
    var start := SizesRead(delta, baseSize, resultSize, EncodeOps(base, ops));
    if ReadsAs(resultSize) >= 0 {
      OpsRoundTrip(base, delta, start, ops, [], ReadsAs(resultSize));
      assert [] + Output(base, ops) == Output(base, ops);
    }
  }

  lemma {:induction false} SizesRead(delta: seq<byte>, baseSize: nat, resultSize: nat,
                                     rest: seq<byte>) returns (start: nat)
    requires delta == EncodeVarint(baseSize) + EncodeVarint(resultSize) + rest
    ensures ReadVarint(delta, 0, 0, 0).Ok?
    ensures ReadVarint(delta, 0, 0, 0).value.0 == ReadsAs(baseSize)
    ensures ReadVarint(delta, ReadVarint(delta, 0, 0, 0).value.1, 0, 0) == Ok((ReadsAs(resultSize), start))
    ensures start <= |delta| && delta[start..] == rest
  {
    assert delta[0..] == delta;
    AppendAssociates(EncodeVarint(baseSize), EncodeVarint(resultSize), rest);
    var afterBase := SizeReads(delta, 0, baseSize, EncodeVarint(resultSize) + rest);
    start := SizeReads(delta, afterBase, resultSize, rest);
  }

  lemma {:induction false} SizeReads(delta: seq<byte>, pos: nat, n: nat, rest: seq<byte>) returns (next: nat)
    requires pos <= |delta| && delta[pos..] == EncodeVarint(n) + rest
    ensures ReadVarint(delta, pos, 0, 0) == Ok((ReadsAs(n), next))
    ensures next <= |delta| && delta[next..] == rest
  {
    next := pos + |EncodeVarint(n)|;
    SplitAt(delta, pos, EncodeVarint(n), rest);
    VarintReads(delta, pos, n, 0, 0);
  }

  /** With its true sizes declared, a delta applies exactly when base and result are both shorter than 2^31. */
  lemma {:induction false} TrueSizesApply(base: seq<byte>, ops: seq<Op>)
    requires ValidOps(base, ops)
    ensures var delta := EncodeDelta(base, |base|, |Output(base, ops)|, ops);
            Apply(base, delta) == Ok(Output(base, ops)) <==>
            |base| < 0x8000_0000 && |Output(base, ops)| < 0x8000_0000
  {
    EncodedDeltaApplies(base, |base|, |Output(base, ops)|, ops);
    VarintRoundTrip(|base|);
    VarintRoundTrip(|Output(base, ops)|);
  }

  /** Declared sizes of any length are accepted exactly when their bits land on those of the true ones. */
  lemma {:induction false} DeclaredSizesApply(base: seq<byte>, baseSize: nat, resultSize: nat, ops: seq<Op>)
    requires ValidOps(base, ops)
    ensures Apply(base, EncodeDelta(base, baseSize, resultSize, ops)) == Ok(Output(base, ops)) <==>
            && |base| < 0x8000_0000 && LandsOn(baseSize, |base|)
            && |Output(base, ops)| < 0x8000_0000 && LandsOn(resultSize, |Output(base, ops)|)
  {
    EncodedDeltaApplies(base, baseSize, resultSize, ops);
    if |base| < 0x8000_0000 {
      SizeReadsAs(baseSize, |base|);
    }
    if |Output(base, ops)| < 0x8000_0000 {
      SizeReadsAs(resultSize, |Output(base, ops)|);
    }
  }

  /** A declared base size of 2^35 + 16 is refused for a base of 16 bytes and accepted for one of 24. */
  lemma {:induction false} SixthGroupApplies(base: seq<byte>, ops: seq<Op>)
    requires ValidOps(base, ops) && |Output(base, ops)| < 0x8000_0000
    ensures var r := Apply(base, EncodeDelta(base, 0x8_0000_0010, |Output(base, ops)|, ops));
            (|base| == 16 ==> r.Err?) && (|base| == 24 ==> r == Ok(Output(base, ops)))
  {
    EncodedDeltaApplies(base, 0x8_0000_0010, |Output(base, ops)|, ops);
    SixthGroupMeetsFirst();
    VarintRoundTrip(|Output(base, ops)|);
  }

  /** Declared sizes below 2^35 are wrong unnoticed exactly when they are too large by a multiple of 2^32. */
  lemma {:induction false} WrappedSizesApply(base: seq<byte>, baseSize: nat, resultSize: nat, ops: seq<Op>)
    requires ValidOps(base, ops) && |base| < 0x8000_0000 && |Output(base, ops)| < 0x8000_0000
    requires baseSize < 0x8_0000_0000 && resultSize < 0x8_0000_0000
    ensures Apply(base, EncodeDelta(base, baseSize, resultSize, ops)) == Ok(Output(base, ops)) <==>
            baseSize % INT32_SPAN == |base| && resultSize % INT32_SPAN == |Output(base, ops)|
  {
    EncodedDeltaApplies(base, baseSize, resultSize, ops);
    VarintRoundTrip(baseSize);
    VarintRoundTrip(resultSize);
  }

  // ---------- Accepted deltas have a meaning ----------

  /** `code` is what stands at `pos`, with zeros where the delta has already ended. */
  predicate StandsAt(code: seq<byte>, delta: seq<byte>, pos: nat) {
    code == []
    || (code[0] == (if pos < |delta| then delta[pos] else 0) && StandsAt(code[1..], delta, pos + 1))
  }

  lemma {:induction false} SliceStands(delta: seq<byte>, pos: nat, end: nat)
    requires pos <= end <= |delta|
    ensures StandsAt(delta[pos..end], delta, pos)
    decreases end - pos
  {
    if pos < end {
      SliceStands(delta, pos + 1, end);
      assert delta[pos..end][1..] == delta[pos + 1..end];
    }
  }

  lemma {:induction false} OperandsAreEncoded(delta: seq<byte>, pos: nat, flags: seq<bool>)
    ensures var args := Operands(delta, pos, flags);
            StandsAt(EncodeOperands(flags, args), delta, pos) && ZeroWhereClear(flags, args)
    decreases flags
  {
    if flags != [] {
      var next := if flags[0] then pos + 1 else pos;
      OperandsAreEncoded(delta, next, flags[1..]);
      var args := Operands(delta, pos, flags);
      assert args[1..] == Operands(delta, next, flags[1..]);
      StandsAtAppend(if flags[0] then [args[0]] else [], EncodeOperands(flags[1..], args[1..]), delta, pos);
    }
  }

  lemma {:induction false} AcceptedInstruction(base: seq<byte>, delta: seq<byte>, pos: nat) returns (op: Op)
    requires pos < |delta| && Instruction(base, delta, pos).Ok?
    ensures ValidOp(base, op) && StandsAt(EncodeOp(base, op), delta, pos)
    ensures Instruction(base, delta, pos) == Ok((OpOutput(base, op), pos + |EncodeOp(base, op)|))
  {
    var opcode := delta[pos];
    if opcode >= 128 {
      op := AcceptedCopy(base, delta, pos);
    } else {
      op := Insert(delta[pos + 1..pos + 1 + opcode]);
      SliceStands(delta, pos + 1, pos + 1 + opcode);
      StandsAtAppend([opcode], op.data, delta, pos);
    }
  }

  lemma {:induction false} AcceptedCopy(base: seq<byte>, delta: seq<byte>, pos: nat) returns (op: Op)
    requires pos < |delta| && delta[pos] >= 128 && Instruction(base, delta, pos).Ok?
    ensures ValidOp(base, op) && StandsAt(EncodeOp(base, op), delta, pos)
    ensures Instruction(base, delta, pos) == Ok((OpOutput(base, op), pos + |EncodeOp(base, op)|))
  {
    var mask := delta[pos] - 128;
    var args := Operands(delta, pos + 1, Flags(mask));
    var offset, size := NumbersOfOperands(args);
    op := Copy(Flags(mask), offset, size);
    OpcodeOfFlags(mask);
    OperandsAreEncoded(delta, pos + 1, Flags(mask));
    StandsAtAppend([128 + mask], EncodeOperands(Flags(mask), args), delta, pos);
  }

  /** The instructions of `delta` from `pos` to its end are `ops`. */
  ghost predicate Spells(base: seq<byte>, delta: seq<byte>, pos: nat, ops: seq<Op>) {
    && ValidOps(base, ops)
    && StandsAt(EncodeOps(base, ops), delta, pos)
    && |delta| <= pos + |EncodeOps(base, ops)|
  }

  lemma {:induction false} AcceptedRun(base: seq<byte>, delta: seq<byte>, pos: nat, out: seq<byte>, size: nat)
    returns (ops: seq<Op>)
    requires Run(base, delta, pos, out, size).Ok?
    ensures Spells(base, delta, pos, ops)
    ensures Run(base, delta, pos, out, size).value == out + Output(base, ops)
    decreases |delta| - pos
  {
    if pos >= |delta| {
      ops := [];
      assert out + [] == out;
    } else {
      var op, data, next := AcceptedStep(base, delta, pos, out, size);
      var rest := AcceptedRun(base, delta, next, out + data, size);
      ops := PrependOp(base, delta, pos, op, data, next, rest);
      AppendAssociates(out, data, Output(base, rest));
    }
  }

  /** Instruction `op` stands at `pos`, produces `data` and ends before `next`. */
  predicate OpStands(base: seq<byte>, delta: seq<byte>, pos: nat, op: Op, data: seq<byte>, next: nat) {
    && ValidOp(base, op)
    && StandsAt(EncodeOp(base, op), delta, pos)
    && data == OpOutput(base, op) && next == pos + |EncodeOp(base, op)|
  }

  lemma {:induction false} AcceptedStep(base: seq<byte>, delta: seq<byte>, pos: nat, out: seq<byte>, size: nat)
    returns (op: Op, data: seq<byte>, next: nat)
    requires pos < |delta| && Run(base, delta, pos, out, size).Ok?
    ensures OpStands(base, delta, pos, op, data, next)
    ensures pos < next && Run(base, delta, next, out + data, size) == Run(base, delta, pos, out, size)
  {
    op := AcceptedInstruction(base, delta, pos);
    data, next := OpOutput(base, op), pos + |EncodeOp(base, op)|;
    RunStep(base, delta, pos, data, next, out, size);
  }

  lemma {:induction false} PrependOp(base: seq<byte>, delta: seq<byte>, pos: nat, op: Op, data: seq<byte>, next: nat,
                                     rest: seq<Op>) returns (ops: seq<Op>)
    requires OpStands(base, delta, pos, op, data, next) && Spells(base, delta, next, rest)
    ensures Spells(base, delta, pos, ops)
    ensures Output(base, ops) == data + Output(base, rest)
  {
    var code := EncodeOp(base, op);
    ops := [op] + rest;
    ConsOps(base, op, rest, code, data, ops);
    StandsAtAppend(code, EncodeOps(base, rest), delta, pos);
  }

  lemma {:induction false} ConsOps(base: seq<byte>, op: Op, rest: seq<Op>, code: seq<byte>, data: seq<byte>,
                                   ops: seq<Op>)
    requires ValidOp(base, op) && code == EncodeOp(base, op) && data == OpOutput(base, op)
    requires ValidOps(base, rest) && ops == [op] + rest
    ensures ValidOps(base, ops)
    ensures EncodeOps(base, ops) == code + EncodeOps(base, rest) && Output(base, ops) == data + Output(base, rest)
  {
    assert ops[1..] == rest;
  }

  lemma {:induction false} StandsAtAppend(first: seq<byte>, second: seq<byte>, delta: seq<byte>, pos: nat)
    requires StandsAt(first, delta, pos) && StandsAt(second, delta, pos + |first|)
    ensures StandsAt(first + second, delta, pos)
  {
    if first == [] {
      assert first + second == second;
    } else {
      assert (first + second)[1..] == first[1..] + second;
      StandsAtAppend(first[1..], second, delta, pos + 1);
    }
  }

  /**
  Whatever bytes are accepted, the result has the declared length and is the output
  of an instruction list that the delta spells out, every missing operand byte
  at its very end counting as zero.
   */
  lemma {:induction false} AcceptedDeltaHasMeaning(base: seq<byte>, delta: seq<byte>) returns (start: nat, ops: seq<Op>)
    requires Apply(base, delta).Ok?
    ensures var first := ReadVarint(delta, 0, 0, 0);
            first.Ok? && first.value.0 == |base|
            && ReadVarint(delta, first.value.1, 0, 0) == Ok((|Apply(base, delta).value|, start))
    ensures start <= |delta| && Spells(base, delta, start, ops)
    ensures Apply(base, delta).value == Output(base, ops)
  {
    var (_, afterBase) := ReadVarint(delta, 0, 0, 0).value;
    var (size, next) := ReadVarint(delta, afterBase, 0, 0).value;
    start := next;
    ops := AcceptedRun(base, delta, start, [], size);
    assert [] + Output(base, ops) == Output(base, ops);
  }
}
