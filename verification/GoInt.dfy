/** Go's fixed-width integers, written out over mathematical integers: wrap-around
    addition, shifts, bitwise OR and truncating conversions. */
module GoInt {
  type byte = x: int | 0 <= x < 256

  const MAX_INT64: int := 0x7FFF_FFFF_FFFF_FFFF
  const TWO_31: int := 0x8000_0000
  const TWO_32: nat := 0x1_0000_0000
  const TWO_64: nat := 0x1_0000_0000_0000_0000

  datatype Option<+T> = None | Some(value: T)

  /** The errors of the generated decoders, by the branch that returns them. */
  datatype Error =
    | IntOverflow
    | UnexpectedEOF
    | InvalidLength
    | EndGroupOutsideGroup
    | UnexpectedEndOfGroup
    | IllegalTag
    | WrongWireType
    | IllegalWireType

  datatype Result<+T> = Ok(value: T) | Err(error: Error)

  /** The signed reading of a 64-bit pattern: int(u) for a uint64 u. */
  function ToInt64(u: nat): int
    requires u < TWO_64
  {
    if u <= MAX_INT64 then u else u - TWO_64
  }

  /** int32(u) for a uint64 u: the low 32 bits, read as signed. */
  function ToInt32(u: nat): int {
    var low := u % TWO_32;
    if low < TWO_31 then low else low - TWO_32
  }

  /** uint64(x) for a signed x: the two's complement pattern, sign-extended. */
  function ToUint64(x: int): nat
    requires -MAX_INT64 - 1 <= x <= MAX_INT64
  {
    if x >= 0 then x else x + TWO_64
  }

  /** a + b in Go's int, for operands whose exact sum wraps around at most once. */
  function AddInt(a: nat, b: nat): int
    requires a + b < TWO_64
  {
    ToInt64(a + b)
  }

  function Pow2(n: nat): nat
    ensures Pow2(n) >= 1
  {
    if n == 0 then 1 else 2 * Pow2(n - 1)
  }

  /** x << s in a register of `width` bits. */
  function Shl(x: nat, s: nat, width: nat): nat {
    (x * Pow2(s)) % Pow2(width)
  }

  /** Bitwise OR, bit by bit. */
  function BitOr(a: nat, b: nat): nat {
    if a == 0 then b else if b == 0 then a
    else (if a % 2 == 1 || b % 2 == 1 then 1 else 0) + 2 * BitOr(a / 2, b / 2)
  }

  lemma Pow2Add(a: nat, b: nat)
    ensures Pow2(a + b) == Pow2(a) * Pow2(b)
  {
    if a != 0 { Pow2Add(a - 1, b); }
  }

  lemma Pow2Constants()
    ensures Pow2(7) == 128
    ensures Pow2(32) == TWO_32
    ensures Pow2(64) == TWO_64
  {
    assert Pow2(8) == 256;
    Pow2Add(8, 8);
    Pow2Add(16, 16);
    Pow2Add(32, 32);
  }

  lemma Pow2Group(n: nat)
    ensures Pow2(n + 7) == 128 * Pow2(n)
  {
    Pow2Constants();
    Pow2Add(n, 7);
  }

  lemma Distribute(y: nat, v: nat, p: nat)
    ensures (y + 128 * v) * p == y * p + v * (128 * p)
    ensures y < 128 && p > 0 ==> y * p + p <= 128 * p
  {
    assert v * (128 * p) == (128 * v) * p;
    if y < 128 { MulBelow(p, y, 128); }
  }

  /** OR-ing a value into bits that are still clear is addition. */
  lemma {:induction false} BitOrDisjoint(a: nat, y: nat, s: nat)
    requires a < Pow2(s)
    ensures BitOr(a, y * Pow2(s)) == a + y * Pow2(s)
  {
    if s == 0 || a == 0 || y * Pow2(s) == 0 {
    } else {
      var p := Pow2(s - 1);
      var z := y * p;
      assert y * Pow2(s) == 2 * z;
      BitOrDisjoint(a / 2, y, s - 1);
      assert BitOr(a, 2 * z) == a % 2 + 2 * BitOr(a / 2, z);
    }
  }

  lemma ModFactor(y: nat, p: nat, q: nat)
    requires p > 0 && q > 0
    ensures p * q > 0 && (y * p) % (p * q) == (y % q) * p
    ensures y * p == (p * q) * (y / q) + (y % q) * p
    ensures (y % q) * p + p <= p * q
  {
    var k, r := y / q, y % q;
    assert y * p == (k * q + r) * p == (k * q) * p + r * p;
    assert (k * q) * p == (p * q) * k;
    MulBelow(p, r, q);
    ModUnique(y * p, p * q, k, r * p);
  }

  lemma ModUnique(x: nat, m: nat, k: nat, r: nat)
    requires r < m
    requires x == m * k + r
    ensures x / m == k && x % m == r
  {
    var d, e := x / m, x % m;
    assert x == m * d + e;
    if d < k {
      MulBelow(m, d, k);
    } else if k < d {
      MulBelow(m, k, d);
    }
  }

  lemma MulBelow(m: nat, a: nat, b: nat)
    requires a < b
    ensures m * a + m <= m * b
  {
    var d := b - a - 1;
    assert m * b == m * a + m + m * d;
  }

  /** One step of `acc |= T(b & 0x7F) << shift` in a register of `width` bits keeps
      the accumulator equal to the low bits of the exact sum, at every shift. */
  lemma OrShift(raw: nat, y: nat, s: nat, width: nat)
    requires raw < Pow2(s)
    ensures BitOr(raw % Pow2(width), Shl(y, s, width)) == (raw + y * Pow2(s)) % Pow2(width)
  {
    if s <= width {
      OrShiftInside(raw, y, s, width);
    } else {
      OrShiftOutside(raw, y, s, width);
    }
  }

  lemma OrShiftInside(raw: nat, y: nat, s: nat, width: nat)
    requires raw < Pow2(s) && s <= width
    ensures BitOr(raw % Pow2(width), Shl(y, s, width)) == (raw + y * Pow2(s)) % Pow2(width)
  {
    var p, w, q := Pow2(s), Pow2(width), Pow2(width - s);
    assert w == p * q by { Pow2Add(s, width - s); }
    var t, sum := y % q, (y % q) * p;
    assert Shl(y, s, width) == sum && sum + p <= w by { ModFactor(y, p, q); }
    assert raw % w == raw by { ModUnique(raw, w, 0, raw); }
    assert BitOr(raw, sum) == raw + sum by { BitOrDisjoint(raw, t, s); }
    assert (raw + y * p) % w == raw + sum by { SumModFactor(raw, y, p, q); }
  }

  lemma SumModFactor(x: nat, y: nat, p: nat, q: nat)
    requires q > 0 && x < p
    ensures p * q > 0 && (x + y * p) % (p * q) == x + (y % q) * p
  {
    ModFactor(y, p, q);
    ModUnique(x + y * p, p * q, y / q, x + (y % q) * p);
  }

  lemma OrShiftOutside(raw: nat, y: nat, s: nat, width: nat)
    requires raw < Pow2(s) && s > width
    ensures BitOr(raw % Pow2(width), Shl(y, s, width)) == (raw + y * Pow2(s)) % Pow2(width)
  {
    var p, w, q := Pow2(s), Pow2(width), Pow2(s - width);
    Pow2Add(width, s - width);
    var z := q * y;
    assert y * p == w * z by { assert (w * q) * y == w * z; }
    ModMultiple(0, w, z);
    ModMultiple(raw, w, z);
  }

  lemma ModMultiple(x: nat, w: nat, z: nat)
    requires w > 0
    ensures (x + w * z) % w == x % w
  {
    var k, r := x / w, x % w;
    assert w * (k + z) == w * k + w * z;
    ModUnique(x + w * z, w, k + z, r);
  }
}
