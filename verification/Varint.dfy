/** Base 128 varints: what the decode loops, encodeVarintGenerated and sovGenerated compute. */
module Varint {
  import opened GoInt

  datatype Read = Read(value: nat, size: nat)

  /** The base 128 number at the front of b, least significant group first, in at most
      `budget` bytes: its exact value and the bytes it takes. */
  function ReadVarint(b: seq<byte>, budget: nat := 10): (r: Result<Read>)
    ensures r.Ok? ==> 1 <= r.value.size <= |b| && r.value.size <= budget
    decreases |b|
  {
    if budget == 0 then Err(IntOverflow)
    else if b == [] then Err(UnexpectedEOF)
    else if b[0] < 128 then Ok(Read(b[0], 1))
    else
      match ReadVarint(b[1..], budget - 1)
      case Err(e) => Err(e)
      case Ok(rest) => Ok(Read(b[0] % 128 + 128 * rest.value, 1 + rest.size))
  }

  /** The bits collected from the front of b, up to the first byte without the continuation
      mark, the end of b or the budget: the value, or what a failed decode leaves of one. */
  function Gathered(b: seq<byte>, budget: nat := 10): nat
    decreases |b|
  {
    if budget == 0 || b == [] then 0
    else b[0] % 128 + if b[0] < 128 then 0 else 128 * Gathered(b[1..], budget - 1)
  }

  /** The shortest base 128 encoding of v. */
  function VarintBytes(v: nat): (b: seq<byte>)
    ensures |b| >= 1
  {
    if v < 128 then [v] else [v % 128 + 128] + VarintBytes(v / 128)
  }

  /** math/bits.Len64: the bits needed to write x. */
  function BitLen(x: nat): nat {
    if x == 0 then 0 else 1 + BitLen(x / 2)
  }

  /** sovGenerated. */
  function Sov(x: nat): nat {
    (BitLen(BitOr(x, 1)) + 6) / 7
  }

  lemma BitLenShift(x: nat, n: nat)
    requires x >= Pow2(n)
    ensures BitLen(x) == n + BitLen(x / Pow2(n))
  {
    if n > 0 {
      var p := Pow2(n - 1);
      BitLenShift(x / 2, n - 1);
      DivDiv(x, p);
    }
  }

  lemma DivDiv(x: nat, p: nat)
    requires p > 0
    ensures x / 2 / p == x / (2 * p)
  {
    var a, k, r := x / 2, x / 2 / p, x / 2 % p;
    assert a == p * k + r;
    assert x == (2 * p) * k + (2 * r + x % 2);
    ModUnique(x, 2 * p, k, 2 * r + x % 2);
  }

  /** Or-ing in the low bit does not change how many groups of seven bits there are. */
  lemma SovStep(x: nat)
    ensures x < 128 ==> Sov(x) == 1
    ensures x >= 128 ==> Sov(x) == 1 + Sov(x / 128)
  {
    hide BitOr, BitLen, Pow2;
    Pow2Constants();
    var y := BitOr(x, 1);
    OrOne(x);
    if x >= 128 {
      BitLenShift(y, 7);
      var z := x / 128;
      assert y / 128 == z;
      OrOne(z);
      BitLenOdd(z);
    } else {
      BitLenBound(y, 7);
    }
  }

  lemma OrOne(x: nat)
    ensures BitOr(x, 1) == if x % 2 == 1 then x else x + 1
  {
    if x != 0 { assert BitOr(x / 2, 0) == x / 2; }
  }

  lemma BitLenOdd(z: nat)
    requires z > 0
    ensures BitLen(BitOr(z, 1)) == BitLen(z)
  {
    OrOne(z);
  }

  lemma {:induction false} BitLenBound(y: nat, n: nat)
    requires y < Pow2(n)
    ensures BitLen(y) <= n && (y > 0 ==> BitLen(y) >= 1)
  {
    if y != 0 { BitLenBound(y / 2, n - 1); }
  }

  /** sovGenerated is the length of the encoding, between one and ten bytes for a uint64. */
  lemma {:induction false} SovIsLength(v: nat)
    ensures Sov(v) == |VarintBytes(v)|
    ensures v < TWO_64 ==> 1 <= Sov(v) <= 10
  {
    if v < TWO_64 {
      Pow2Constants();
      Pow2Add(64, 6);
      VarintLength(v, 10);
    }
    SovStep(v);
    if v >= 128 { SovIsLength(v / 128); }
  }

  lemma VarintLength(v: nat, k: nat)
    requires k > 0
    requires v < Pow2(7 * k)
    ensures |VarintBytes(v)| <= k
  {
    Pow2Constants();
    if v >= 128 {
      assert Pow2(7 * k) == 128 * Pow2(7 * (k - 1)) by { Pow2Add(7, 7 * (k - 1)); }
      VarintLength(v / 128, k - 1);
    }
  }

  /** Decoding an encoding, whatever bytes follow, restores the number and its length. */
  lemma {:induction false} ReadVarintBytes(v: nat, rest: seq<byte>, budget: nat)
    requires |VarintBytes(v)| <= budget
    ensures ReadVarint(VarintBytes(v) + rest, budget) == Ok(Read(v, |VarintBytes(v)|))
  {
    if v >= 128 {
      ReadVarintBytes(v / 128, rest, budget - 1);
      assert (VarintBytes(v) + rest)[1..] == VarintBytes(v / 128) + rest;
    }
  }

  /** When a decode fails, and how: ten bytes that all announce another one, or fewer and then
      the end of the buffer. */
  lemma {:induction false} VarintErrors(b: seq<byte>, budget: nat)
    ensures ReadVarint(b, budget) == Err(IntOverflow)
       <==> |b| >= budget && forall i :: 0 <= i < budget ==> b[i] >= 128
    ensures ReadVarint(b, budget) == Err(UnexpectedEOF)
       <==> |b| < budget && forall i :: 0 <= i < |b| ==> b[i] >= 128
    ensures ReadVarint(b, budget).Err? ==> ReadVarint(b, budget).error in {IntOverflow, UnexpectedEOF}
  {
    if budget > 0 && b != [] {
      VarintErrors(b[1..], budget - 1);
      assert b == [b[0]] + b[1..];
    }
  }

  /** A varint that was read does not depend on the bytes after it. */
  lemma {:induction false} ReadVarintPrefix(b: seq<byte>, rest: seq<byte>, budget: nat)
    requires ReadVarint(b, budget).Ok?
    ensures ReadVarint(b + rest, budget) == ReadVarint(b, budget)
  {
    if b[0] >= 128 {
      ReadVarintPrefix(b[1..], rest, budget - 1);
      assert (b + rest)[1..] == b[1..] + rest;
    }
  }

  /** A varint that was read is the same varint on its own. */
  lemma {:induction false} ReadVarintAlone(b: seq<byte>, budget: nat)
    requires ReadVarint(b, budget).Ok?
    ensures ReadVarint(b[..ReadVarint(b, budget).value.size], budget) == ReadVarint(b, budget)
  {
    if b[0] >= 128 {
      var rest := ReadVarint(b[1..], budget - 1).value;
      ReadVarintAlone(b[1..], budget - 1);
      assert b[..1 + rest.size][1..] == b[1..][..rest.size];
    }
  }

  lemma {:induction false} ReadIsGathered(b: seq<byte>, budget: nat)
    requires ReadVarint(b, budget).Ok?
    ensures ReadVarint(b, budget).value.value == Gathered(b, budget)
  {
    if b[0] >= 128 { ReadIsGathered(b[1..], budget - 1); }
  }

  /** What the loop will return after `k` bytes worth `raw`, if `r` is read from the rest. */
  ghost function Resume(raw: nat, k: nat, r: Result<Read>): Result<Read> {
    match r
    case Err(e) => Err(e)
    case Ok(v) => Ok(Read(raw + v.value * Pow2(7 * k), k + v.size))
  }

  lemma ResumeStep(raw: nat, k: nat, b: seq<byte>, budget: nat)
    requires b != [] && budget > 0 && raw < Pow2(7 * k)
    ensures raw + (b[0] % 128) * Pow2(7 * k) < Pow2(7 * (k + 1))
    ensures Resume(raw, k, ReadVarint(b, budget))
         == if b[0] < 128 then Ok(Read(raw + (b[0] % 128) * Pow2(7 * k), k + 1))
            else Resume(raw + (b[0] % 128) * Pow2(7 * k), k + 1, ReadVarint(b[1..], budget - 1))
  {
    var p, y := Pow2(7 * k), b[0] % 128;
    Pow2Group(7 * k);
    Distribute(y, 0, p);
    var rest := ReadVarint(b[1..], budget - 1);
    if b[0] >= 128 && rest.Ok? {
      Distribute(y, rest.value.value, p);
    }
  }

  /** All bits, given those of the first k bytes and of the rest. */
  ghost function Joined(raw: nat, k: nat, rest: nat): nat {
    raw + rest * Pow2(7 * k)
  }

  lemma JoinedStep(raw: nat, k: nat, b: seq<byte>, budget: nat)
    requires b != [] && budget > 0
    ensures Joined(raw, k, Gathered(b, budget))
         == var next := raw + (b[0] % 128) * Pow2(7 * k);
            if b[0] < 128 then next else Joined(next, k + 1, Gathered(b[1..], budget - 1))
  {
    Pow2Group(7 * k);
    Distribute(b[0] % 128, if b[0] < 128 then 0 else Gathered(b[1..], budget - 1), Pow2(7 * k));
  }

  /** One turn of the decode loop: `next` is the exact value after the byte at the front of b. */
  lemma LoopStep(raw: nat, k: nat, b: seq<byte>, budget: nat, width: nat) returns (next: nat)
    requires b != [] && budget > 0 && raw < Pow2(7 * k)
    ensures next < Pow2(7 * (k + 1))
    ensures BitOr(raw % Pow2(width), Shl(b[0] % 128, 7 * k, width)) == next % Pow2(width)
    ensures Resume(raw, k, ReadVarint(b, budget))
         == if b[0] < 128 then Ok(Read(next, k + 1)) else Resume(next, k + 1, ReadVarint(b[1..], budget - 1))
    ensures Joined(raw, k, Gathered(b, budget))
         == if b[0] < 128 then next else Joined(next, k + 1, Gathered(b[1..], budget - 1))
  {
    next := raw + (b[0] % 128) * Pow2(7 * k);
    ResumeStep(raw, k, b, budget);
    JoinedStep(raw, k, b, budget);
    hide Joined, Resume, Gathered, ReadVarint;
    OrShift(raw, b[0] % 128, 7 * k, width);
  }

  /** After k bytes of b worth `raw`, with `rest` to come and the register at `wire`. */
  ghost predicate Reading(b: seq<byte>, width: nat, raw: nat, k: nat, wire: nat, rest: seq<byte>) {
    && k <= 10
    && raw < Pow2(7 * k) && wire == raw % Pow2(width)
    && Resume(raw, k, ReadVarint(rest, 10 - k)) == ReadVarint(b)
    && Joined(raw, k, Gathered(rest, 10 - k)) == Gathered(b)
  }

  lemma ReadingStarts(b: seq<byte>, width: nat)
    ensures Reading(b, width, 0, 0, 0, b)
  {
    hide ReadVarint, Gathered;
    ModUnique(0, Pow2(width), 0, 0);
    assert Pow2(7 * 0) == 1;
  }

  lemma ReadingEnds(b: seq<byte>, width: nat, raw: nat, k: nat, wire: nat, rest: seq<byte>)
    requires Reading(b, width, raw, k, wire, rest) && (k == 10 || rest == [])
    ensures ReadVarint(b) == Err(if k == 10 then IntOverflow else UnexpectedEOF)
    ensures wire == Gathered(b) % Pow2(width)
  {
    hide Pow2;
    assert Gathered(rest, 10 - k) == 0;
  }

  lemma ReadingStep(b: seq<byte>, width: nat, raw: nat, k: nat, wire: nat, rest: seq<byte>) returns (next: nat)
    requires Reading(b, width, raw, k, wire, rest) && k < 10 && rest != []
    ensures var wire' := BitOr(wire, Shl(rest[0] % 128, 7 * k, width));
            if rest[0] >= 128 then Reading(b, width, next, k + 1, wire', rest[1..])
            else ReadVarint(b) == Ok(Read(next, k + 1)) && Gathered(b) == next && wire' == next % Pow2(width)
  {
    hide ReadVarint, Gathered, Resume, Joined, Pow2, BitOr, Shl;
    next := LoopStep(raw, k, rest, 10 - k, width);
  }

  /** The decode loop, with the accumulator in a register of `width` bits: 64 for tags,
      lengths and bools, 32 for an int32 field. `start` is iNdEx on entry; `wire` is what the
      register holds in the end, also after an error. */
  method DecodeVarint(dAtA: seq<byte>, start: nat, width: nat) returns (r: Result<Read>, wire: nat)
    requires start <= |dAtA|
    ensures wire == Gathered(dAtA[start..]) % Pow2(width)
    ensures r == match ReadVarint(dAtA[start..])
                 case Err(e) => Err(e)
                 case Ok(v) => Ok(Read(v.value % Pow2(width), v.size))
    ensures r.Ok? ==> start < start + r.value.size <= |dAtA|
  {
    hide Reading, Gathered, ReadVarint, Pow2, BitOr, Shl;
    wire := 0;
    var iNdEx, shift := start, 0;
    ghost var all, raw: nat, k := dAtA[start..], 0, 0;
    ReadingStarts(all, width);
    while true
      invariant k <= 10 && iNdEx == start + k <= |dAtA| && shift == 7 * k
      invariant Reading(all, width, raw, k, wire, dAtA[iNdEx..])
      decreases 70 - shift
    {
      if shift >= 64 || iNdEx >= |dAtA| { ReadingEnds(all, width, raw, k, wire, dAtA[iNdEx..]); }
      if shift >= 64 { return Err(IntOverflow), wire; }
      if iNdEx >= |dAtA| { return Err(UnexpectedEOF), wire; }
      var b := dAtA[iNdEx];
      raw := ReadingStep(all, width, raw, k, wire, dAtA[iNdEx..]);
      assert dAtA[iNdEx..][1..] == dAtA[iNdEx + 1..];
      k := k + 1;
      iNdEx := iNdEx + 1;
      wire := BitOr(wire, Shl(b % 128, shift, width));
      if b < 128 {
        return Ok(Read(wire, iNdEx - start)), wire;
      }
      shift := shift + 7;
    }
  }

  /** The decode loop into a uint64 (or an int, which holds the same bits). */
  method DecodeUint64(dAtA: seq<byte>, start: nat) returns (r: Result<Read>)
    requires start <= |dAtA|
    ensures r == match ReadVarint(dAtA[start..])
                 case Err(e) => Err(e)
                 case Ok(v) => Ok(Read(v.value % TWO_64, v.size))
    ensures r.Ok? ==> start < start + r.value.size <= |dAtA|
  {
    Pow2Constants();
    var wire;
    r, wire := DecodeVarint(dAtA, start, 64);
  }

  /** Only dAtA[i..hi] was written. */
  twostate predicate OnlyWrote(dAtA: array<byte>, i: nat, hi: nat)
    reads dAtA
  {
    && i <= hi
    && (forall j :: 0 <= j < i && j < dAtA.Length ==> dAtA[j] == old(dAtA[j]))
    && (forall j :: hi <= j < dAtA.Length ==> dAtA[j] == old(dAtA[j]))
  }

  lemma VarintUnfold(v: nat)
    ensures if v < 128 then VarintBytes(v) == [v] else VarintBytes(v) == [v % 128 + 128] + VarintBytes(v / 128)
  {
  }

  /** encodeVarintGenerated: v's varint ends at offset; nothing else is written. */
  method EncodeVarint(dAtA: array<byte>, offset: nat, v: nat) returns (base: nat)
    requires Sov(v) <= offset <= dAtA.Length
    modifies dAtA
    ensures base == offset - |VarintBytes(v)|
    ensures dAtA[base..offset] == VarintBytes(v)
    ensures OnlyWrote(dAtA, base, offset)
  {
    hide Sov, BitOr, VarintBytes;
    SovIsLength(v);
    var i := offset - Sov(v);
    base := i;
    var u := v;
    ghost var done: seq<byte> := [];
    while u >= 128
      invariant base <= i && i + |VarintBytes(u)| == offset
      invariant dAtA[base..i] == done && done + VarintBytes(u) == VarintBytes(v)
      invariant OnlyWrote(dAtA, base, offset)
    {
      ContinuationByte(u);
      VarintUnfold(u);
      dAtA[i] := BitOr(u % 128, 128);
      assert dAtA[base..i + 1] == done + [dAtA[i]];
      assert done + ([dAtA[i]] + VarintBytes(u / 128)) == done + [dAtA[i]] + VarintBytes(u / 128);
      done := done + [dAtA[i]];
      u := u / 128;
      i := i + 1;
    }
    VarintUnfold(u);
    dAtA[i] := u;
    assert dAtA[base..i + 1] == done + [u];
  }

  /** The byte uint8(u&0x7f | 0x80) carries seven bits and the continuation mark. */
  lemma ContinuationByte(u: nat)
    ensures BitOr(u % 128, 128) == u % 128 + 128
  {
    Pow2Constants();
    BitOrDisjoint(u % 128, 1, 7);
  }
}
