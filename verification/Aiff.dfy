/** python/lib/aiff.py: audio files with a header whose size fields are patched when the size is known. */
module Aiff {

  type Byte = b: int | 0 <= b < 256

  type Bytes = seq<Byte>

  datatype Option<T> = None | Some(value: T)

  // ---- numbers as bytes ----

  function Pow2(n: nat): (p: nat)
    ensures p > 0
  {
    if n == 0 then 1 else 2 * Pow2(n - 1)
  }

  /** The big-endian number that bytes denote. */
  function Big(b: Bytes): nat
    decreases |b|
  {
    if b == [] then 0 else 256 * Big(b[..|b| - 1]) + b[|b| - 1]
  }

  /** The lowest `n` bytes of a number, the highest first. */
  function Low(x: nat, n: nat): (b: Bytes)
    ensures |b| == n
  {
    if n == 0 then [] else Low(x / 256, n - 1) + [x % 256]
  }

  const TWO_32: int := 0x1_0000_0000

  /** What write_long writes: a negative number gets 2^32 added. */
  function LongBytes(x: int): (b: Bytes)
    requires -TWO_32 <= x
    ensures |b| == 4
  {
    Low(if x < 0 then x + TWO_32 else x, 4)
  }

  function Signed(x: int, limit: nat): int { if x >= limit then x - 2 * limit else x }

  /** Bytes read as they were written, as far as there are bytes for the number. */
  lemma BigLow2(x: nat)
    requires x < 0x1_0000
    ensures Big(Low(x, 2)) == x
  {
    BigLowStep(x, 1);
    BigLowStep(x / 256, 0);
  }

  lemma BigLow4(x: nat)
    ensures Big(Low(x, 4)) == x % TWO_32
  {
    BigLowStep(x, 3);
    BigLowStep(x / 256, 2);
    BigLowStep(x / 256 / 256, 1);
    BigLowStep(x / 256 / 256 / 256, 0);
    hide Big, Low;
    FourBytes(x);
  }

  lemma FourBytes(x: nat)
    ensures var a, b, c := x / 256, x / 256 / 256, x / 256 / 256 / 256;
      256 * (256 * (256 * (c % 256) + b % 256) + a % 256) + x % 256 == x % TWO_32
  {
    var a := x / 256;
    var b := a / 256;
    var c := b / 256;
    Bytewise(x, a, b, c, c / 256, x % 256, a % 256, b % 256, c % 256);
  }

  lemma Bytewise(x: nat, a: nat, b: nat, c: nat, d: nat, r0: nat, r1: nat, r2: nat, r3: nat)
    requires x == 256 * a + r0 && a == 256 * b + r1 && b == 256 * c + r2 && c == 256 * d + r3
    requires r0 < 256 && r1 < 256 && r2 < 256 && r3 < 256
    ensures 256 * (256 * (256 * r3 + r2) + r1) + r0 == x % TWO_32
  {
    assert x == TWO_32 * d + (256 * (256 * (256 * r3 + r2) + r1) + r0);
  }

  lemma BigLowStep(x: nat, n: nat)
    ensures Big(Low(x, n + 1)) == 256 * Big(Low(x / 256, n)) + x % 256
    ensures n == 0 ==> Big(Low(x, n + 1)) == x % 256
  {
    assert Low(x, n + 1)[..n] == Low(x / 256, n);
  }

  /** The highest byte comes first. */
  lemma HighestFirst(a: Byte, b: Byte, c: Byte, d: Byte)
    ensures var x: int := 0x100_0000 * a as int + 0x1_0000 * b as int + 0x100 * c as int + d;
      Big([a, b, c, d]) == x && LongBytes(x) == [a, b, c, d]
  {
    hide Big, Low;
    HighestOfTwo(a, b);
    BigMore([a, b], c);
    BigMore([a, b, c], d);
    LowMore(0x100 * a as int + b, c, 2);
    LowMore(0x1_0000 * a as int + 0x100 * b as int + c, d, 3);
    assert [a, b] + [c] == [a, b, c] && [a, b, c] + [d] == [a, b, c, d];
  }

  lemma HighestOfTwo(a: Byte, b: Byte)
    ensures var x: int := 0x100 * a as int + b; Big([a, b]) == x && Low(x, 2) == [a, b]
  {
    hide Big, Low;
    BigMore([], a);
    BigMore([a], b);
    LowMore(0, a, 0);
    LowMore(a, b, 1);
    assert [] + [a] == [a] && [a] + [b] == [a, b];
  }

  lemma BigMore(b: Bytes, c: Byte)
    ensures Big(b + [c]) == 0x100 * Big(b) + c && Big([]) == 0
  {
    assert (b + [c])[..|b|] == b;
  }

  lemma LowMore(x: nat, c: Byte, n: nat)
    ensures Low(0x100 * x + c, n + 1) == Low(x, n) + [c] && Low(x, 0) == []
  {
  }

  // ---- files ----

  function Zeros(n: nat): (z: Bytes)
    ensures |z| == n && forall k :: 0 <= k < n ==> z[k] == 0
  {
    seq(n, _ => 0)
  }

  /** The file contents after `b` has been written at `p`. */
  function Put(data: Bytes, p: nat, b: Bytes): (r: Bytes)
    ensures |r| >= p + |b| && r[p..p + |b|] == b
  {
    if p + |b| <= |data| then data[..p] + b + data[p + |b|..]
    else if p <= |data| then data[..p] + b
    else data + Zeros(p - |data|) + b
  }

  function Min(a: nat, b: nat): nat { if a < b then a else b }

  /** What a read of `n` bytes at `p` returns. */
  function Got(data: Bytes, p: nat, n: nat): (b: Bytes)
    ensures |b| <= n
  {
    data[Min(p, |data|)..Min(p + n, |data|)]
  }

  class File {
    var data: Bytes
    var pos: nat

    constructor ()
      ensures data == [] && pos == 0
    {
      data, pos := [], 0;
    }

    method Write(b: Bytes)
      modifies this
      ensures data == Put(old(data), old(pos), b) && pos == old(pos) + |b|
    {
      data := Put(data, pos, b);
      pos := pos + |b|;
    }

    method Read(n: nat) returns (b: Bytes)
      modifies this`pos
      ensures b == Got(data, old(pos), n) && pos == old(pos) + |b|
    {
      b := Got(data, pos, n);
      pos := pos + |b|;
    }

    method Seek(p: nat)
      modifies this`pos
      ensures pos == p
    {
      pos := p;
    }
  }

  /** Writing one piece after the other is writing all of it. */
  lemma PutTwice(data: Bytes, p: nat, a: Bytes, b: Bytes)
    ensures Put(Put(data, p, a), p + |a|, b) == Put(data, p, a + b)
  {
    hide Put;
    var first := Put(data, p, a);
    var x, y := Put(first, p + |a|, b), Put(data, p, a + b);
    PutIs(data, p, a);
    PutIs(first, p + |a|, b);
    PutIs(data, p, a + b);
    forall k | 0 <= k < |x| ensures x[k] == y[k] {
      assert p + |a| <= k < p + |a| + |b| ==> (a + b)[k - p] == b[k - (p + |a|)];
    }
  }

  /** The bytes of the file one by one; a gap is filled with zeros. */
  lemma PutIs(data: Bytes, p: nat, b: Bytes)
    ensures var r := Put(data, p, b);
      && |r| == (if p + |b| <= |data| then |data| else p + |b|)
      && forall k :: 0 <= k < |r| ==> r[k] == if p <= k < p + |b| then b[k - p] else if k < |data| then data[k] else 0
  {
  }

  method WriteLong(f: File, x: int)
    requires -TWO_32 <= x
    modifies f
    ensures f.data == Put(old(f.data), old(f.pos), LongBytes(x)) && f.pos == old(f.pos) + 4
  {
    hide Put;
    var data := LongDigits(if x < 0 then x + TWO_32 else x);
    ghost var d0, p0 := f.data, f.pos;
    f.Write(data[..1]);
    for i := 1 to 4
      invariant f.data == Put(d0, p0, data[..i]) && f.pos == p0 + i
    {
      PutTwice(d0, p0, data[..i], [data[i]]);
      assert data[..i] + [data[i]] == data[..i + 1];
      f.Write([data[i]]);
    }
    assert data[..4] == data;
  }

  /** The first loop of write_long. */
  method LongDigits(x: nat) returns (data: Bytes)
    ensures data == Low(x, 4)
  {
    var y := x;
    data := [];
    for i := 0 to 4
      invariant |data| == i && Low(y, 4 - i) + data == Low(x, 4)
    {
      assert Low(y, 4 - i) == Low(y / 256, 4 - i - 1) + [y % 256];
      assert Low(y / 256, 4 - i - 1) + ([y % 256] + data) == Low(y, 4 - i) + data;
      data := [y % 256] + data;
      y := y / 256;
    }
  }

  method WriteShort(f: File, x: nat)
    requires x < 0x1_0000
    modifies f
    ensures f.data == Put(old(f.data), old(f.pos), Low(x, 2)) && f.pos == old(f.pos) + 2
  {
    var d, m := x / 256, x % 256;
    ghost var d0, p0 := f.data, f.pos;
    f.Write([d]);
    f.Write([m]);
    PutTwice(d0, p0, [d], [m]);
    TwoBytes(x);
  }

  lemma TwoBytes(x: nat)
    requires x < 0x1_0000
    ensures Low(x, 2) == [x / 256] + [x % 256]
  {
    assert Low(x / 256, 1) == Low(x / 256 / 256, 0) + [x / 256 % 256];
    assert Low(x, 2) == Low(x / 256, 1) + [x % 256];
  }

  /** `n` bytes read as a big-endian number; None at the end of the file. */
  method ReadBig(f: File, n: nat) returns (r: Option<nat>)
    modifies f`pos
    ensures r == BigAt(f.data, old(f.pos), n)
    ensures r.Some? ==> f.pos == old(f.pos) + n
  {
    var x: nat := 0;
    ghost var p := f.pos;
    for i := 0 to n
      invariant f.pos == p + i && (i > 0 ==> p + i <= |f.data|)
      invariant x == Big(Got(f.data, p, i))
    {
      var byte := f.Read(1);
      if byte == [] { return None; }
      GotOneMore(f.data, p, i);
      x := x * 256 + byte[0];
    }
    return Some(x);
  }

  lemma GotOneMore(data: Bytes, p: nat, i: nat)
    requires p + i < |data|
    ensures Got(data, p + i, 1) == [data[p + i]]
    ensures |Got(data, p, i + 1)| == i + 1 && Got(data, p, i + 1)[..i] == Got(data, p, i) && Got(data, p, i + 1)[i] == data[p + i]
  {
  }

  function BigAt(data: Bytes, p: nat, n: nat): Option<nat> {
    if n > 0 && p + n > |data| then None else Some(Big(Got(data, p, n)))
  }

  // ---- the 80-bit extended format ----

  lemma {:induction false} Pow2Add(a: nat, b: nat)
    ensures Pow2(a + b) == Pow2(a) * Pow2(b)
    decreases a
  {
    if a > 0 {
      Pow2Add(a - 1, b);
      assert Pow2(a + b) == 2 * Pow2(a + b - 1) && Pow2(a) == 2 * Pow2(a - 1);
      hide Pow2;
      Twice(Pow2(a - 1), Pow2(b));
    }
  }

  lemma Twice(a: int, b: int)
    ensures 2 * (a * b) == (2 * a) * b
  {
  }

  lemma Pow2Of32()
    ensures Pow2(32) == TWO_32 && Pow2(64) == TWO_32 * TWO_32
  {
    assert Pow2(4) == 16;
    Pow2Add(4, 4);
    Pow2Add(8, 8);
    Pow2Add(16, 16);
    Pow2Add(32, 32);
  }

  /** The number of bits of `x`. */
  function BitLength(x: nat): (n: nat)
    ensures x < Pow2(n) && (x > 0 ==> n > 0 && Pow2(n - 1) <= x)
  {
    if x == 0 then 0 else 1 + BitLength(x / 2)
  }

  lemma {:induction false} AtMostBits(x: nat, n: nat)
    requires x < Pow2(n)
    ensures BitLength(x) <= n
    decreases n
  {
    if x > 0 { AtMostBits(x / 2, n - 1); }
  }

  // ---- C doubles ----

  /** A double has 53 significant bits. */
  predicate Representable(x: nat) {
    BitLength(x) <= 53 || x % Pow2(BitLength(x) - 53) == 0
  }

  /** q * p + r, with r < p, to the nearest multiple of p; half way to the even one. */
  function ToEven(q: nat, r: nat, p: nat): nat {
    if 2 * r > p || (2 * r == p && q % 2 == 1) then (q + 1) * p else q * p
  }

  /** An integer as a C double. */
  function Double(x: nat): nat {
    if BitLength(x) <= 53 then x
    else
      var p := Pow2(BitLength(x) - 53);
      ToEven(x / p, x % p, p)
  }

  lemma DivMul(x: nat, p: nat)
    requires p > 0
    ensures x == x / p * p + x % p && x % p < p
  {
  }

  lemma MultipleOf(a: nat, p: nat)
    requires p > 0
    ensures a * p % p == 0
  {
    DivMul(a * p, p);
    OnlyZero(a, a * p / p, a * p % p, p);
  }

  lemma OnlyZero(a: int, q: int, r: int, p: int)
    requires a * p == q * p + r && 0 <= r < p
    ensures r == 0
  {
    assert (a - q) * p == r;
    if a - q >= 1 { ProductAtMost(1, a - q, p); }
    if a - q <= -1 { ProductAtMost(a - q, -1, p); }
  }

  lemma ProductBelow(a: nat, b: nat, p: nat)
    requires a < b && p > 0
    ensures a * p < b * p
  {
  }

  lemma ProductAtMost(a: int, b: int, p: nat)
    requires a <= b
    ensures a * p <= b * p
  {
  }

  lemma {:induction false} Pow2Grows(a: nat, b: nat)
    requires a <= b
    ensures Pow2(a) <= Pow2(b)
    decreases b
  {
    if a < b { Pow2Grows(a, b - 1); }
  }

  /** A number of up to 53 bits, times a power of two, is a double. */
  lemma ShiftedIsRepresentable(a: nat, k: nat)
    requires a <= Pow2(53)
    ensures Representable(a * Pow2(k))
  {
    hide Pow2, BitLength, Representable;
    var x := a * Pow2(k);
    Pow2Add(53, k);
    ProductAtMost(a, Pow2(53), Pow2(k));
    if a == Pow2(53) {
      BitsOfPow2(53 + k);
      Pow2Add(52, k + 1);
      MultipleOf(Pow2(52), Pow2(k + 1));
      RepresentableIf(x);
    } else {
      ProductBelow(a, Pow2(53), Pow2(k));
      AtMostBits(x, 53 + k);
      if BitLength(x) > 53 {
        var j := BitLength(x) - 53;
        Pow2Add(k - j, j);
        Regroups(a, Pow2(k - j), Pow2(j));
        MultipleOf(a * Pow2(k - j), Pow2(j));
      }
      RepresentableIf(x);
    }
  }

  lemma Regroups(a: int, b: int, c: int)
    ensures a * (b * c) == a * b * c
  {
  }

  lemma RepresentableIf(x: nat)
    ensures Representable(x) <==> BitLength(x) <= 53 || x % Pow2(BitLength(x) - 53) == 0
  {
  }

  lemma {:induction false} BitsOfPow2(n: nat)
    ensures BitLength(Pow2(n)) == n + 1
  {
    if n > 0 {
      BitsOfPow2(n - 1);
      assert Pow2(n) / 2 == Pow2(n - 1);
    }
  }

  /** The quotient by the last place has 53 bits. */
  lemma LeadingBits(x: nat, k: nat)
    requires k == BitLength(x) - 53 && BitLength(x) > 53
    ensures x / Pow2(k) < Pow2(53)
  {
    hide Pow2, BitLength;
    Pow2Add(53, k);
    DivMul(x, Pow2(k));
    var q := x / Pow2(k);
    if q >= Pow2(53) { ProductAtMost(Pow2(53), q, Pow2(k)); }
  }

  /** Converting gives a double, at most half of the last place away, and changes exactly what is not one. */
  lemma DoubleRounds(x: nat)
    ensures Representable(Double(x))
    ensures Double(x) == x <==> Representable(x)
    ensures BitLength(x) > 53 ==>
      var p := Pow2(BitLength(x) - 53); 2 * (Double(x) - x) <= p && 2 * (x - Double(x)) <= p
    ensures Double(x) <= Pow2(BitLength(x))
  {
    hide Pow2, BitLength, Representable, ToEven;
    RepresentableIf(x);
    if BitLength(x) > 53 {
      var k := BitLength(x) - 53;
      var p := Pow2(k);
      var q, r := x / p, x % p;
      DivMul(x, p);
      LeadingBits(x, k);
      ToEvenRounds(q, r, p);
      var q' :| (q' == q || q' == q + 1) && ToEven(q, r, p) == q' * p;
      ShiftedIsRepresentable(q', k);
      Pow2Add(53, k);
      ProductAtMost(q', Pow2(53), p);
    }
  }

  lemma ToEvenRounds(q: nat, r: nat, p: nat)
    requires r < p
    ensures ToEven(q, r, p) == q * p || ToEven(q, r, p) == (q + 1) * p
    ensures ToEven(q, r, p) == q * p + r <==> r == 0
    ensures 2 * (ToEven(q, r, p) - (q * p + r)) <= p && 2 * ((q * p + r) - ToEven(q, r, p)) <= p
  {
    assert (q + 1) * p == q * p + p;
  }

  /** 2 to any power. */
  function Scale(e: int): real {
    if e >= 0 then Pow2(e) as real else 1.0 / Pow2(-e) as real
  }

  const TWO_32R: real := TWO_32 as real

  /** math.frexp of a positive integer gives this fraction and BitLength(x). */
  function Fraction(x: nat): (r: real)
    requires x > 0
    ensures 0.0 < r < 1.0
  {
    FractionIsProper(x, Pow2(BitLength(x)));
    x as real / Pow2(BitLength(x)) as real
  }

  lemma FractionIsProper(x: nat, p: nat)
    requires 0 < x < p
    ensures 0.0 < x as real / p as real < 1.0
  {
    var r := x as real / p as real;
    assert r * p as real == x as real;
    if r >= 1.0 {
      TimesAtLeast(r, 1.0, p as real);
      assert false;
    }
    if r <= 0.0 {
      TimesAtLeast(0.0, r, p as real);
      assert false;
    }
  }

  lemma TimesAtLeast(a: real, b: real, p: real)
    requires a >= b && p > 0.0
    ensures a * p >= b * p
  {
  }

  predicate Fits64(x: int) { x < Pow2(64) && -x < Pow2(64) }

  /** The three fields: sign and exponent, and two halves of the mantissa.  math.frexp takes a double. */
  function ExtendedFields(x: int): (nat, nat, nat)
    requires Fits64(x)
  {
    if x == 0 then (0, 0, 0) else
    var n := Double(if x < 0 then -x else x);
    DoubleIsPositive(if x < 0 then -x else x);
    var (himant, lomant) := Mantissa(Fraction(n));
    (BitLength(n) + 16382 + (if x < 0 then 0x8000 else 0), himant, lomant)
  }

  lemma DoubleIsPositive(x: nat)
    requires x > 0
    ensures Double(x) > 0
  {
    hide Pow2, BitLength, Double;
    DoubleRounds(x);
    if BitLength(x) > 53 {
      Pow2Grows(BitLength(x) - 53, BitLength(x) - 1);
    } else {
      ShortIsDouble(x);
    }
  }

  lemma ShortIsDouble(x: nat)
    ensures BitLength(x) <= 53 ==> Double(x) == x
    ensures BitLength(x) == 54 ==> Double(x) == ToEven(x / 2, x % 2, 2)
  {
    assert Pow2(1) == 2;
  }

  /** ldexp and floor, twice */
  function Mantissa(fmant: real): (r: (nat, nat))
    requires 0.0 < fmant < 1.0
    ensures r.0 < TWO_32 && r.1 < TWO_32
  {
    HalfIsProper(fmant);
    var a := fmant * TWO_32R;
    (a.Floor, ((a - a.Floor as real) * TWO_32R).Floor)
  }

  lemma HalfIsProper(fmant: real)
    requires 0.0 < fmant < 1.0
    ensures var a := fmant * TWO_32R; 0 <= a.Floor < TWO_32 && 0 <= ((a - a.Floor as real) * TWO_32R).Floor < TWO_32
  {
  }

  /** What read_ieee_extended makes of the fields: the mantissa, an integer of 64 bits, is converted to a double to be
      multiplied.  An exponent of 0x7FFF is HUGE_VAL and not modelled. */
  function ExtendedValue(expon0: nat, himant: nat, lomant: nat): real {
    var sign := if expon0 >= 0x8000 then -1.0 else 1.0;
    var expon := if expon0 >= 0x8000 then expon0 - 0x8000 else expon0;
    if expon == 0 && himant == 0 && lomant == 0 then sign * 0.0
    else sign * (Double(himant * TWO_32 + lomant) as real * Scale(expon - 16383 - 63))
  }

  /** The two halves make up the mantissa. */
  lemma HalvesJoin(a: real, m: nat)
    requires a * TWO_32R == m as real && a >= 0.0
    ensures var hi := a.Floor; var lo := ((a - hi as real) * TWO_32R).Floor; hi * TWO_32 + lo == m
  {
    var hi := a.Floor;
    assert (a - hi as real) * TWO_32R == a * TWO_32R - (hi * TWO_32) as real;
    assert (a - hi as real) * TWO_32R == (m - hi * TWO_32) as real;
  }

  /** x / 2^n, times 2^64, is the mantissa with its first bit at the left. */
  lemma MantissaIs(x: nat, n: nat)
    requires x > 0 && n <= 64
    ensures x as real / Pow2(n) as real * TWO_32R * TWO_32R == (x * Pow2(64 - n)) as real
  {
    Pow2Of32();
    Pow2Add(n, 64 - n);
    hide Pow2;
    MantissaArith(x, Pow2(n), Pow2(64 - n));
  }

  lemma MantissaArith(x: nat, p: nat, q: nat)
    requires p > 0 && p * q == TWO_32 * TWO_32
    ensures x as real / p as real * TWO_32R * TWO_32R == (x * q) as real
  {
    var r := x as real / p as real;
    assert r * p as real == x as real;
    assert (p * q) as real == p as real * q as real == TWO_32R * TWO_32R;
    Regroup(r, TWO_32R, TWO_32R);
    Regroup(r, p as real, q as real);
    assert (x * q) as real == x as real * q as real;
  }

  lemma Regroup(a: real, b: real, c: real)
    ensures a * b * c == a * (b * c)
  {
  }

  lemma ScaledBack(x: nat, n: nat)
    requires n <= 64
    ensures (x * Pow2(64 - n)) as real * Scale(n - 64) == x as real
  {
    ScaledArith(x, Pow2(64 - n));
  }

  lemma ScaledArith(x: nat, q: nat)
    requires q > 0
    ensures (x * q) as real * (1.0 / q as real) == x as real
  {
    assert (x * q) as real == x as real * q as real;
    Regroup(x as real, q as real, 1.0 / q as real);
    assert q as real * (1.0 / q as real) == 1.0;
  }

  /** The two words hold all bits of a double. */
  lemma MantissaOf(n: nat)
    requires 0 < n < Pow2(64)
    ensures BitLength(n) <= 64
    ensures var (hi, lo) := Mantissa(Fraction(n)); hi * TWO_32 + lo == n * Pow2(64 - BitLength(n))
  {
    hide Pow2, BitLength;
    AtMostBits(n, 64);
    MantissaIs(n, BitLength(n));
    HalvesJoin(Fraction(n) * TWO_32R, n * Pow2(64 - BitLength(n)));
  }

  /** A double stays one when its first bit is moved to the left. */
  lemma ShiftKeepsDouble(n: nat, k: nat)
    requires n > 0 && Representable(n)
    ensures Double(n * Pow2(k)) == n * Pow2(k)
  {
    hide Pow2, BitLength, Double, Representable;
    RepresentableIf(n);
    if BitLength(n) <= 53 {
      Pow2Grows(BitLength(n), 53);
      ShiftedIsRepresentable(n, k);
    } else {
      var j := BitLength(n) - 53;
      LeadingBits(n, j);
      DivMul(n, Pow2(j));
      Pow2Add(j, k);
      Regroups(n / Pow2(j), Pow2(j), Pow2(k));
      ShiftedIsRepresentable(n / Pow2(j), j + k);
    }
    DoubleRounds(n * Pow2(k));
  }

  /** The mantissa that is written for a double is read back unrounded. */
  lemma MantissaValue(n: nat, m: nat, hi: nat, lo: nat, l: nat)
    requires 0 < n <= Pow2(64) && Representable(n) && l == BitLength(n) && (hi, lo) == Mantissa(Fraction(n)) && m == hi * TWO_32 + lo
    ensures l <= 65 && Double(m) as real * Scale(l - 64) == n as real
  {
    hide Pow2, Scale, BitLength, Fraction, Mantissa, Double, Representable;
    if n < Pow2(64) {
      MantissaOf(n);
      ShiftKeepsDouble(n, 64 - l);
      ScaledBack(n, l);
    } else {
      BitsOfPow2(64);
      LargestValue(hi, lo);
    }
  }

  lemma FractionOfPow2(n: nat)
    ensures Fraction(Pow2(n)) == 0.5
  {
    BitsOfPow2(n);
    assert Pow2(n + 1) == 2 * Pow2(n);
    hide Pow2, BitLength;
    HalfOf(Pow2(n));
  }

  lemma HalfOf(p: nat)
    requires p > 0
    ensures p as real / (2 * p) as real == 0.5
  {
  }

  lemma HalfMantissa()
    ensures Mantissa(0.5) == (0x8000_0000, 0)
  {
  }

  lemma Pow2Of63()
    ensures Pow2(63) == 0x8000_0000 * TWO_32 && Pow2(64) == 2 * Pow2(63) && Scale(1) == 2.0
  {
    assert Pow2(32) == 2 * Pow2(31);
    assert Pow2(1) == 2;
    Pow2Add(31, 32);
    Pow2Of32();
  }

  lemma LargestValue(hi: nat, lo: nat)
    requires (hi, lo) == Mantissa(Fraction(Pow2(64)))
    ensures Double(hi * TWO_32 + lo) as real * Scale(1) == Pow2(64) as real
  {
    hide Pow2, BitLength, Double, Scale, Fraction, Mantissa;
    FractionOfPow2(64);
    HalfMantissa();
    Pow2Of63();
    OneIsDouble();
    ShiftKeepsDouble(1, 63);
    assert Double(Pow2(63)) == Pow2(63);
  }

  lemma OneIsDouble()
    ensures Representable(1)
  {
    assert BitLength(1) == 1;
  }

  /** The extended format keeps an integer of up to 64 bits as the double that it is converted to. */
  lemma ExtendedRounds(x: int)
    requires Fits64(x)
    ensures var (e, hi, lo) := ExtendedFields(x); e < 0x1_0000 && hi < TWO_32 && lo < TWO_32
    ensures var (e, hi, lo) := ExtendedFields(x);
      ExtendedValue(e, hi, lo) == if x < 0 then -(Double(-x) as real) else Double(x) as real
  {
    hide Pow2, Scale, BitLength, Fraction, Mantissa, ExtendedValue, Double, Representable;
    if x != 0 {
      var n0: nat := if x < 0 then -x else x;
      var n := Double(n0);
      DoubleIsPositive(n0);
      DoubleRounds(n0);
      AtMostBits(n0, 64);
      Pow2Grows(BitLength(n0), 64);
      var (e, hi, lo) := ExtendedFields(x);
      MantissaValue(n, hi * TWO_32 + lo, hi, lo, BitLength(n));
      SignedValue(x < 0, e, hi, lo, n, BitLength(n));
    } else {
      ZeroValue();
    }
  }

  /** It is exact on an integer of up to 64 bits exactly if the bits behind the first 53 are zeros. */
  lemma ExtendedIsExact(x: int)
    requires Fits64(x)
    ensures var (e, hi, lo) := ExtendedFields(x); var n := if x < 0 then -x else x;
      ExtendedValue(e, hi, lo) == x as real <==> BitLength(n) <= 53 || n % Pow2(BitLength(n) - 53) == 0
  {
    var n: nat := if x < 0 then -x else x;
    hide Pow2, BitLength, ExtendedValue, Double, ExtendedFields, Representable;
    ExtendedRounds(x);
    DoubleRounds(n);
    RepresentableIf(n);
  }

  /** The extended format of a number from 2^k on, below 2^(k + 1): the exponent is k, with a bias of 16383, and the mantissa
      is the number with its first bit moved to the left. */
  lemma FieldsAre(x: nat, k: nat)
    requires k < 53 && Pow2(k) <= x < Pow2(k + 1) && Fits64(x)
    ensures var (e, hi, lo) := ExtendedFields(x); e == 16383 + k && hi * TWO_32 + lo == x * Pow2(63 - k)
  {
    hide Pow2, BitLength, Fraction, Mantissa, Double;
    BitsBetween(x, k + 1);
    ShortIsDouble(x);
    MantissaOf(x);
  }

  lemma LeastRounded(x: nat)
    requires x == 9007199254740993 && BitLength(x) == 54 && Fits64(x)
    ensures var (e, hi, lo) := ExtendedFields(x); ExtendedValue(e, hi, lo) == 9007199254740992.0
  {
    hide Pow2, BitLength, ExtendedFields, ExtendedValue, Double, Fits64;
    ShortIsDouble(x);
    ExtendedRounds(x);
  }

  lemma Pow2Of53()
    ensures Pow2(53) == 9007199254740992 && Pow2(54) == 2 * Pow2(53)
  {
    assert Pow2(4) == 16;
    Pow2Add(4, 4);
    Pow2Add(8, 8);
    assert Pow2(5) == 32;
    Pow2Add(5, 16);
    Pow2Add(21, 32);
    Pow2Of32();
    hide Pow2;
    assert Pow2(21) == 2097152;
  }

  lemma BitsBetween(x: nat, n: nat)
    requires n > 0 && Pow2(n - 1) <= x < Pow2(n)
    ensures BitLength(x) == n
  {
    hide Pow2, BitLength;
    AtMostBits(x, n);
    if BitLength(x) < n { Pow2Grows(BitLength(x), n - 1); }
  }

  /** 2^53 + 1 is not kept. */
  lemma FirstInexact()
    ensures Fits64(9007199254740993)
    ensures var (e, hi, lo) := ExtendedFields(9007199254740993); ExtendedValue(e, hi, lo) == 9007199254740992.0
  {
    hide Pow2, BitLength, ExtendedFields, ExtendedValue;
    Pow2Of53();
    Pow2Of32();
    BitsBetween(9007199254740993, 54);
    LeastRounded(9007199254740993);
  }

  /** All rates are kept. */
  lemma RatesAreExact(rate: nat)
    requires rate in RATES
    ensures Fits64(rate)
    ensures var (e, hi, lo) := ExtendedFields(rate); ExtendedValue(e, hi, lo) == rate as real
  {
    RateFits(rate);
    assert Pow2(4) == 16;
    Pow2Add(4, 4);
    Pow2Add(8, 8);
    hide Pow2, BitLength, ExtendedFields, ExtendedValue, Fits64;
    AtMostBits(rate, 16);
    ExtendedIsExact(rate);
  }

  lemma ZeroValue()
    ensures ExtendedValue(0, 0, 0) == 0.0 && Double(0) == 0
  {
  }

  lemma SignedValue(negative: bool, e: nat, hi: nat, lo: nat, n: nat, l: nat)
    requires 0 < l <= 65 && n > 0
    requires e == l + 16382 + (if negative then 0x8000 else 0)
    requires Double(hi * TWO_32 + lo) as real * Scale(l - 64) == n as real
    ensures ExtendedValue(e, hi, lo) == if negative then -(n as real) else n as real
  {
    hide Scale, Double;
    var expon := if e >= 0x8000 then e - 0x8000 else e;
    assert expon == l + 16382 && expon - 16383 - 63 == l - 64;
  }

  // ---- audio parameters ----

  datatype Failure =
    | EndOfFile | ShortId | NotForm | BadFormSize | NotAiff | BadChunk | NegativeSkip
    | BadChannels | BadRate | BadWidth
    | NotIntegral | TooMany | NotEnough | ShortData

  datatype Outcome<T> = Fail(error: Failure) | Done(value: T)

  /** Audio parameters in AL terms: channels, bytes of a sample, and rate, whose AL names denote themselves. */
  datatype Params = Params(nchannels: int, sampwidth: int, samprate: int)

  const RATES: seq<nat> := [48000, 44100, 32000, 22050, 16000, 11025, 8000]

  const MONO := 1
  const STEREO := 2
  const SAMPLE_8 := 1
  const SAMPLE_16 := 2
  const SAMPLE_24 := 4

  predicate Supported(p: Params) {
    && (p.nchannels == MONO || p.nchannels == STEREO)
    && p.samprate in RATES
    && (p.sampwidth == SAMPLE_8 || p.sampwidth == SAMPLE_16 || p.sampwidth == SAMPLE_24)
  }

  /** The number of bits of a sample, as it stands in the file. */
  function Bits(sampwidth: int): nat { if sampwidth == SAMPLE_8 then 8 else if sampwidth == SAMPLE_16 then 16 else 24 }

  /** al2comm */
  function Al2Comm(p: Params): Outcome<(nat, nat, nat)> {
    if p.nchannels != MONO && p.nchannels != STEREO then Fail(BadChannels)
    else if p.samprate !in RATES then Fail(BadRate)
    else if p.sampwidth != SAMPLE_8 && p.sampwidth != SAMPLE_16 && p.sampwidth != SAMPLE_24 then Fail(BadWidth)
    else Done((p.nchannels, Bits(p.sampwidth), p.samprate))
  }

  /** The known rate that a number in the file is. */
  function RateIn(rates: seq<nat>, rate: real): Option<nat>
    decreases |rates|
  {
    if rates == [] then None else if rate == rates[0] as real then Some(rates[0]) else RateIn(rates[1..], rate)
  }

  /** comm2al */
  function Comm2Al(nchannels: int, sampwidth: int, samprate: real): Outcome<Params> {
    if nchannels != 1 && nchannels != 2 then Fail(BadChannels)
    else if RateIn(RATES, samprate).None? then Fail(BadRate)
    else if sampwidth != 8 && sampwidth != 16 && sampwidth != 24 then Fail(BadWidth)
    else Done(Params(nchannels, if sampwidth == 8 then SAMPLE_8 else if sampwidth == 16 then SAMPLE_16 else SAMPLE_24,
                     RateIn(RATES, samprate).value))
  }

  lemma {:induction false} RateIsFound(rates: seq<nat>, rate: nat)
    requires rate in rates
    ensures RateIn(rates, rate as real) == Some(rate)
    decreases |rates|
  {
    if rate != rates[0] { RateIsFound(rates[1..], rate); }
  }

  /** Supported parameters survive the way into the file and back. */
  lemma ParamsRoundTrip(p: Params)
    ensures Al2Comm(p).Done? <==> Supported(p)
    ensures Supported(p) ==>
      var (ch, bits, rate) := Al2Comm(p).value; Comm2Al(ch, bits, rate as real) == Done(p)
  {
    if Supported(p) { RateIsFound(RATES, p.samprate); }
  }

  /** Bytes of a frame. */
  function FrameSize(p: Params): int { p.nchannels * p.sampwidth }

  lemma FrameSizeIsPositive(p: Params)
    requires Supported(p)
    ensures FrameSize(p) > 0
  {
  }

  /** Bytes of `n` frames. */
  function SizeOf(n: int, p: Params): int { n * FrameSize(p) }

  predicate Whole(p: Params, n: nat)
    requires Supported(p)
  {
    FrameSizeIsPositive(p);
    n % FrameSize(p) == 0
  }

  function Frames(p: Params, n: nat): nat
    requires Supported(p)
  {
    FrameSizeIsPositive(p);
    n / FrameSize(p)
  }

  // ---- the header ----

  const FORM: Bytes := [70, 79, 82, 77]
  const AIFF: Bytes := [65, 73, 70, 70]
  const COMM: Bytes := [67, 79, 77, 77]
  const SSND: Bytes := [83, 83, 78, 68]

  function ExtendedBytes(x: nat): (b: Bytes)
    requires Fits64(x)
    ensures |b| == 10
  {
    var (e, hi, lo) := ExtendedFields(x);
    Low(e, 2) + LongBytes(hi) + LongBytes(lo)
  }

  lemma RateFits(x: nat)
    requires x in RATES
    ensures Fits64(x)
  {
    Pow2Of32();
    hide Pow2;
  }

  /** The ten bytes that the rates are written as. */
  lemma RateBytes(rate: nat)
    requires rate in [48000, 44100, 32000, 22050, 16000, 11025, 8000] && Fits64(rate)
    ensures ExtendedBytes(rate) ==
      if rate == 48000 then [0x40, 0x0E, 0xBB, 0x80, 0, 0, 0, 0, 0, 0]
      else if rate == 44100 then [0x40, 0x0E, 0xAC, 0x44, 0, 0, 0, 0, 0, 0]
      else if rate == 32000 then [0x40, 0x0D, 0xFA, 0x00, 0, 0, 0, 0, 0, 0]
      else if rate == 22050 then [0x40, 0x0D, 0xAC, 0x44, 0, 0, 0, 0, 0, 0]
      else if rate == 16000 then [0x40, 0x0C, 0xFA, 0x00, 0, 0, 0, 0, 0, 0]
      else if rate == 11025 then [0x40, 0x0C, 0xAC, 0x44, 0, 0, 0, 0, 0, 0]
      else [0x40, 0x0B, 0xFA, 0x00, 0, 0, 0, 0, 0, 0]
  {
    hide ExtendedBytes, Fits64, Pow2;
    SmallPowers();
    if rate == 48000 { OneRate(rate, 15, 0x8000, 0x0E, 0xBB, 0x80); }
    else if rate == 44100 { OneRate(rate, 15, 0x8000, 0x0E, 0xAC, 0x44); }
    else if rate == 32000 { OneRate(rate, 14, 0x4000, 0x0D, 0xFA, 0x00); }
    else if rate == 22050 { OneRate(rate, 14, 0x4000, 0x0D, 0xAC, 0x44); }
    else if rate == 16000 { OneRate(rate, 13, 0x2000, 0x0C, 0xFA, 0x00); }
    else if rate == 11025 { OneRate(rate, 13, 0x2000, 0x0C, 0xAC, 0x44); }
    else { OneRate(rate, 12, 0x1000, 0x0B, 0xFA, 0x00); }
  }

  lemma SmallPowers()
    ensures Pow2(12) == 0x1000 && Pow2(13) == 0x2000 && Pow2(14) == 0x4000 && Pow2(15) == 0x8000 && Pow2(16) == 0x1_0000
  {
    assert Pow2(4) == 16;
    Pow2Add(4, 4);
    Pow2Add(8, 4);
  }

  lemma OneRate(x: nat, k: nat, p: nat, e: Byte, a: Byte, b: Byte)
    requires x in RATES && k < 16 && Pow2(k) == p <= x < 2 * p && 0x4000 + e == 16383 + k
    requires (0x100 * a as int + b) * p == x * 0x8000
    ensures Fits64(x) && ExtendedBytes(x) == [0x40, e, a, b, 0, 0, 0, 0, 0, 0]
  {
    hide Pow2, ExtendedFields, Fits64, LongBytes, Low, Big;
    RateFits(x);
    RateFields(x, k, p, 0x100 * a as int + b);
    HighestOfTwo(0x40, e);
    HighestFirst(a, b, 0, 0);
    HighestFirst(0, 0, 0, 0);
    RatePieces(Low(16383 + k, 2), LongBytes((0x100 * a as int + b) * 0x1_0000), LongBytes(0), 0x40, e, a, b);
  }

  lemma RatePieces(x: Bytes, y: Bytes, z: Bytes, e: Byte, f: Byte, a: Byte, b: Byte)
    requires x == [e, f] && y == [a, b, 0, 0] && z == [0, 0, 0, 0]
    ensures x + y + z == [e, f, a, b, 0, 0, 0, 0, 0, 0]
  {
  }

  lemma RateFields(x: nat, k: nat, p: nat, m: nat)
    requires Fits64(x) && k < 16 && Pow2(k) == p <= x < 2 * p && m * p == x * 0x8000
    ensures ExtendedFields(x) == (16383 + k, m * 0x1_0000, 0)
  {
    hide ExtendedFields, Fits64;
    Doubles(k);
    FieldsAre(x, k);
    Pow2Add(k, 63 - k);
    Pow2Of63();
    ExtendedRounds(x);
    hide Pow2;
    var (f, hi, lo) := ExtendedFields(x);
    Leading(x, p, Pow2(63 - k), m, hi, lo);
  }

  lemma Doubles(k: nat)
    ensures Pow2(k + 1) == 2 * Pow2(k)
  {
  }

  lemma Leading(x: nat, p: nat, q: nat, m: nat, hi: nat, lo: nat)
    requires p > 0 && p * q == 0x8000_0000 * TWO_32 && m * p == x * 0x8000 && hi * TWO_32 + lo == x * q && lo < TWO_32
    ensures hi == m * 0x1_0000 && lo == 0
  {
    Reorder(m, p, q);
    assert x * q * 0x8000 == m * (0x8000_0000 * TWO_32);
  }

  lemma Reorder(m: nat, p: nat, q: nat)
    ensures m * p * q == m * (p * q)
  {
  }

  /** Between the FORM size and the frame count, and between that and the SSND size. */
  function BeforeFrames(p: Params): (b: Bytes)
    requires Supported(p)
    ensures |b| == 14
  {
    AIFF + COMM + LongBytes(18) + Low(p.nchannels, 2)
  }

  function AfterFrames(p: Params): (b: Bytes)
    requires Supported(p)
    ensures |b| == 16
  {
    RateFits(p.samprate);
    Low(Bits(p.sampwidth), 2) + ExtendedBytes(p.samprate) + SSND
  }

  /** write_form, write_comm and write_ssnd for a file with `frames` frames and `datasize` bytes of samples. */
  function Header(p: Params, frames: nat, datasize: nat): (b: Bytes)
    requires Supported(p)
    ensures |b| == 54
  {
    FORM + LongBytes(46 + datasize) + BeforeFrames(p) + LongBytes(frames) + AfterFrames(p) + LongBytes(8 + datasize) + Zeros(8)
  }

  /** The size fields stand at 4, 22 and 42, and the other bytes do not depend on them. */
  lemma HeaderFields(p: Params, frames: nat, datasize: nat)
    requires Supported(p)
    ensures var h := Header(p, frames, datasize);
      && h[..4] == FORM && h[4..8] == LongBytes(46 + datasize) && h[8..22] == BeforeFrames(p)
      && h[22..26] == LongBytes(frames) && h[26..42] == AfterFrames(p) && h[42..46] == LongBytes(8 + datasize)
      && h[46..54] == Zeros(8)
  {
    hide BeforeFrames, AfterFrames, LongBytes;
    SevenPieces(FORM, LongBytes(46 + datasize), BeforeFrames(p), LongBytes(frames), AfterFrames(p), LongBytes(8 + datasize), Zeros(8));
  }

  lemma SevenPieces(a: Bytes, b: Bytes, c: Bytes, d: Bytes, e: Bytes, f: Bytes, g: Bytes)
    requires |a| == 4 && |b| == 4 && |c| == 14 && |d| == 4 && |e| == 16 && |f| == 4 && |g| == 8
    ensures var h := a + b + c + d + e + f + g;
      h[..4] == a && h[4..8] == b && h[8..22] == c && h[22..26] == d && h[26..42] == e && h[42..46] == f && h[46..54] == g
  {
    var p4 := a + b + c + d;
    FourPieces(a, b, c, d);
    FourPieces(p4, e, f, g);
    var h := p4 + e + f + g;
    assert forall i :: 0 <= i < 26 ==> h[i] == p4[i];
  }

  lemma FourPieces(a: Bytes, b: Bytes, c: Bytes, d: Bytes)
    ensures var h := a + b + c + d; var i := |a|; var j := i + |b|; var k := j + |c|;
      h[..i] == a && h[i..j] == b && h[j..k] == c && h[k..] == d
  {
  }

  lemma FromFields(p: Params, frames: nat, datasize: nat, h: Bytes)
    requires Supported(p) && |h| == 54
    requires h[..4] == FORM && h[4..8] == LongBytes(46 + datasize) && h[8..22] == BeforeFrames(p)
    requires h[22..26] == LongBytes(frames) && h[26..42] == AfterFrames(p) && h[42..46] == LongBytes(8 + datasize)
    requires h[46..54] == Zeros(8)
    ensures h == Header(p, frames, datasize)
  {
    hide BeforeFrames, AfterFrames, LongBytes;
    assert h == h[..4] + h[4..8] + h[8..22] + h[22..26] + h[26..42] + h[42..46] + h[46..54];
  }

  /** Four bytes put into a file that is long enough. */
  lemma PutFour(data: Bytes, at: nat, b: Bytes)
    requires |b| == 4 && at + 4 <= |data|
    ensures var r := Put(data, at, b);
      |r| == |data| && r[at..at + 4] == b && forall i :: 0 <= i < at || at + 4 <= i < |data| ==> r[i] == data[i]
  {
  }

  function Patched(data: Bytes, frames: nat, datasize: nat): Bytes {
    Put(Put(Put(data, 4, LongBytes(datasize + 46)), 22, LongBytes(frames)), 42, LongBytes(datasize + 8))
  }

  /** Patching the three fields makes it the header of a file of that size. */
  lemma PatchedIsHeader(p: Params, frames0: nat, size0: nat, rest: Bytes, frames: nat, datasize: nat)
    requires Supported(p)
    ensures Patched(Header(p, frames0, size0) + rest, frames, datasize) == Header(p, frames, datasize) + rest
  {
    hide BeforeFrames, AfterFrames, LongBytes, Header, Put;
    var d0 := Header(p, frames0, size0) + rest;
    HeaderFields(p, frames0, size0);
    PutFour(d0, 4, LongBytes(datasize + 46));
    var d1 := Put(d0, 4, LongBytes(datasize + 46));
    PutFour(d1, 22, LongBytes(frames));
    var d2 := Put(d1, 22, LongBytes(frames));
    PutFour(d2, 42, LongBytes(datasize + 8));
    var d3 := Put(d2, 42, LongBytes(datasize + 8));
    var h := d3[..54];
    assert datasize + 46 == 46 + datasize && datasize + 8 == 8 + datasize;
    FieldsAfterPatch(d0, d1, d2, d3, Header(p, frames0, size0), rest);
    FromFields(p, frames, datasize, h);
    assert d3 == d3[..54] + d3[54..];
  }

  lemma FieldsAfterPatch(d0: Bytes, d1: Bytes, d2: Bytes, d3: Bytes, h0: Bytes, rest: Bytes)
    requires |h0| == 54 && d0 == h0 + rest && |d1| == |d2| == |d3| == |d0|
    requires forall i :: 0 <= i < 4 || 8 <= i < |d0| ==> d1[i] == d0[i]
    requires forall i :: 0 <= i < 22 || 26 <= i < |d0| ==> d2[i] == d1[i]
    requires forall i :: 0 <= i < 42 || 46 <= i < |d0| ==> d3[i] == d2[i]
    ensures d3[..4] == h0[..4] && d3[4..8] == d1[4..8] && d3[8..22] == h0[8..22] && d3[22..26] == d2[22..26]
      && d3[26..42] == h0[26..42] && d3[46..54] == h0[46..54] && d3[54..] == rest
  {
  }

  // ---- writing ----

  function Pad(n: nat): Bytes { if n % 2 == 1 then [0] else [] }

  /** The file after `data` has been written and the file closed: the pad byte is not counted in any size. */
  function Image(p: Params, data: Bytes): Bytes
    requires Supported(p)
  {
    Header(p, Frames(p, |data|), |data|) + data + Pad(|data|)
  }

  /** The header, the samples, and a zero byte if it takes one to make the size even. */
  lemma ImageBytes(p: Params, data: Bytes)
    requires Supported(p)
    ensures var f := Image(p, data);
      && |f| == 54 + |data| + |data| % 2 && |f| % 2 == 0 && f[54..54 + |data|] == data
      && f[..54] == Header(p, Frames(p, |data|), |data|)
      && (|data| % 2 == 1 ==> f[|f| - 1] == 0)
  {
    hide Header, Frames, Supported;
    var h, pad := Header(p, Frames(p, |data|), |data|), Pad(|data|);
    ThreePieces(h, data, pad);
    assert (h + data + pad)[54 + |data|..] == pad;
  }

  method WriteExtended(f: File, x: nat)
    requires Fits64(x)
    modifies f
    ensures f.data == Put(old(f.data), old(f.pos), ExtendedBytes(x)) && f.pos == old(f.pos) + 10
  {
    hide Put, Low, LongBytes, ExtendedFields;
    ExtendedRounds(x);
    var (expon, himant, lomant) := ExtendedFields(x);
    ghost var d0, p0 := f.data, f.pos;
    WriteShort(f, expon);
    WriteLong(f, himant);
    WriteLong(f, lomant);
    PutTwice(d0, p0, Low(expon, 2), LongBytes(himant));
    PutTwice(d0, p0, Low(expon, 2) + LongBytes(himant), LongBytes(lomant));
  }

  method WriteForm(f: File, datasize: nat)
    modifies f
    ensures f.data == Put(old(f.data), old(f.pos), FORM + LongBytes(datasize) + AIFF) && f.pos == old(f.pos) + 12
  {
    hide Put, LongBytes;
    ghost var d0, p0 := f.data, f.pos;
    f.Write(FORM);
    WriteLong(f, datasize);
    f.Write(AIFF);
    PutTwice(d0, p0, FORM, LongBytes(datasize));
    PutTwice(d0, p0, FORM + LongBytes(datasize), AIFF);
  }

  method WriteComm(f: File, nchannels: nat, nsampframes: nat, sampwidth: nat, samprate: nat)
    requires nchannels < 0x1_0000 && sampwidth < 0x1_0000 && Fits64(samprate)
    modifies f
    ensures f.data == Put(old(f.data), old(f.pos),
      COMM + LongBytes(18) + Low(nchannels, 2) + LongBytes(nsampframes) + Low(sampwidth, 2) + ExtendedBytes(samprate))
    ensures f.pos == old(f.pos) + 26
  {
    hide Put, LongBytes, Low, ExtendedBytes;
    ghost var d0, p0 := f.data, f.pos;
    f.Write(COMM);
    WriteLong(f, 18);
    PutTwice(d0, p0, COMM, LongBytes(18));
    WriteShort(f, nchannels);
    PutTwice(d0, p0, COMM + LongBytes(18), Low(nchannels, 2));
    WriteLong(f, nsampframes);
    PutTwice(d0, p0, COMM + LongBytes(18) + Low(nchannels, 2), LongBytes(nsampframes));
    WriteShort(f, sampwidth);
    PutTwice(d0, p0, COMM + LongBytes(18) + Low(nchannels, 2) + LongBytes(nsampframes), Low(sampwidth, 2));
    WriteExtended(f, samprate);
    PutTwice(d0, p0, COMM + LongBytes(18) + Low(nchannels, 2) + LongBytes(nsampframes) + Low(sampwidth, 2), ExtendedBytes(samprate));
  }

  method WriteSsnd(f: File, datasize: nat)
    modifies f
    ensures f.data == Put(old(f.data), old(f.pos), SSND + LongBytes(datasize) + Zeros(8)) && f.pos == old(f.pos) + 16
  {
    hide Put, LongBytes;
    ghost var d0, p0 := f.data, f.pos;
    f.Write(SSND);
    WriteLong(f, datasize);
    PutTwice(d0, p0, SSND, LongBytes(datasize));
    WriteLong(f, 0);
    PutTwice(d0, p0, SSND + LongBytes(datasize), LongBytes(0));
    WriteLong(f, 0);
    PutTwice(d0, p0, SSND + LongBytes(datasize) + LongBytes(0), LongBytes(0));
    ZeroBytes();
    assert SSND + LongBytes(datasize) + LongBytes(0) + LongBytes(0) == SSND + LongBytes(datasize) + Zeros(8);
  }

  lemma ZeroBytes()
    ensures LongBytes(0) == Zeros(4)
  {
    assert Low(0, 4) == Low(0, 3) + [0] && Low(0, 3) == Low(0, 2) + [0] && Low(0, 2) == Low(0, 1) + [0];
  }

  /** The three chunk headers make up the header. */
  lemma HeaderIs(p: Params, frames: nat, datasize: nat)
    requires Supported(p)
    ensures Fits64(p.samprate)
    ensures (FORM + LongBytes(46 + datasize) + AIFF)
      + (COMM + LongBytes(18) + Low(p.nchannels, 2) + LongBytes(frames) + Low(Bits(p.sampwidth), 2) + ExtendedBytes(p.samprate))
      + (SSND + LongBytes(8 + datasize) + Zeros(8))
      == Header(p, frames, datasize)
  {
    hide LongBytes, Low, ExtendedBytes, Fits64;
    RateFits(p.samprate);
  }

  /** patchsize; the position is where it was. */
  method PatchSize(f: File, nsampframes: nat, datasize: nat)
    modifies f
    ensures f.data == Patched(old(f.data), nsampframes, datasize) && f.pos == old(f.pos)
  {
    hide Put, LongBytes;
    var curpos := f.pos;
    f.Seek(4);
    WriteLong(f, datasize + 46);
    f.Seek(22);
    WriteLong(f, nsampframes);
    f.Seek(42);
    WriteLong(f, datasize + 8);
    f.Seek(curpos);
  }

  method WriteHeader(f: File, ghost p: Params, nchannels: nat, frames: nat, sampwidth: nat, samprate: nat, datasize: nat)
    requires Supported(p) && Al2Comm(p) == Done((nchannels, sampwidth, samprate)) && f.data == [] && f.pos == 0
    modifies f
    ensures f.data == Header(p, frames, datasize) && f.pos == 54
  {
    hide Put, Header, LongBytes, Low, ExtendedBytes, Fits64;
    HeaderIs(p, frames, datasize);
    WriteForm(f, 46 + datasize);
    WriteComm(f, nchannels, frames, sampwidth, samprate);
    WriteSsnd(f, 8 + datasize);
    ghost var a := FORM + LongBytes(46 + datasize) + AIFF;
    ghost var b := COMM + LongBytes(18) + Low(nchannels, 2) + LongBytes(frames) + Low(sampwidth, 2) + ExtendedBytes(samprate);
    PutTwice([], 0, a, b);
    PutTwice([], 0, a + b, SSND + LongBytes(8 + datasize) + Zeros(8));
    PutInEmpty(Header(p, frames, datasize));
  }

  /** An Aiff object in mode 'w'. */
  class Writer {
    const file: File
    const params: Params
    var initialized: bool
    var totSet: bool
    var tot: nat
    var nsampframes: nat
    ghost var samples: Bytes
    ghost var headFrames: nat

    ghost predicate Valid()
      reads this, file
    {
      && file.pos == |file.data|
      && (!initialized ==> file.data == [] && samples == [] && nsampframes == 0)
      && (initialized ==>
            && Supported(params)
            && |samples| == nsampframes * FrameSize(params)
            && file.data == Header(params, headFrames, headFrames * FrameSize(params)) + samples)
    }

    constructor (file: File, params: Params)
      requires file.data == [] && file.pos == 0
      ensures Valid() && this.file == file && this.params == params && samples == [] && !initialized && !totSet
    {
      this.file, this.params := file, params;
      initialized, totSet, tot, nsampframes, samples, headFrames := false, false, 0, 0, [], 0;
    }

    /** Set the number of frames.  A header that has been written stays as it is. */
    method SetNSamps(n: nat)
      requires Valid()
      modifies this`totSet, this`tot
      ensures Valid() && totSet && tot == n
    {
      hide Header, Supported, FrameSize;
      totSet, tot := true, n;
    }

    /** The part of writesampsraw that is done once. */
    method Initialize() returns (r: Outcome<()>)
      requires Valid() && !initialized
      modifies this, file
      ensures Valid() && totSet == old(totSet) && tot == old(tot) && samples == []
      ensures r.Done? <==> Supported(params)
      ensures initialized == r.Done? && nsampframes == 0 && (r.Done? ==> headFrames == if totSet then tot else 0)
    {
      hide Put, Header, LongBytes, Low, ExtendedBytes;
      if !totSet { file.Seek(0); }
      ParamsRoundTrip(params);
      match Al2Comm(params) {
        case Fail(e) => return Fail(e);
        case Done((nchannels, sampwidth, samprate)) =>
          FrameSizeIsPositive(params);
          var frames := if totSet then tot else 0;
          var datasize := frames * FrameSize(params);
          WriteHeader(file, params, nchannels, frames, sampwidth, samprate, datasize);
          PutInEmpty(Header(params, frames, datasize));
          headFrames := frames;
          initialized := true;
          return Done(());
      }
    }

    /** writesampsraw: the data is appended, unless it is no whole number of frames or too much. */
    method WriteSampsRaw(data: Bytes) returns (r: Outcome<()>)
      requires Valid()
      modifies this, file
      ensures Valid() && totSet == old(totSet) && tot == old(tot)
      ensures samples == if r.Done? then old(samples) + data else old(samples)
      ensures initialized <==> Supported(params)
      ensures r.Done? <==>
        && Supported(params) && Whole(params, |data|)
        && (totSet ==> old(nsampframes) + Frames(params, |data|) <= tot)
      ensures nsampframes == old(nsampframes) + if r.Done? then Frames(params, |data|) else 0
      ensures initialized ==> headFrames == if old(initialized) then old(headFrames) else if totSet then tot else 0
    {
      hide Header;
      if !initialized {
        var i := Initialize();
        if i.Fail? { return i; }
      }
      FrameSizeIsPositive(params);
      var nsamps, remain := |data| / FrameSize(params), |data| % FrameSize(params);
      if remain != 0 { return Fail(NotIntegral); }
      if totSet && nsampframes + nsamps > tot { return Fail(TooMany); }
      Append(data, nsamps);
      return Done(());
    }

    method Append(data: Bytes, nsamps: nat)
      requires Valid() && initialized && FrameSize(params) > 0 && |data| % FrameSize(params) == 0
      requires nsamps == |data| / FrameSize(params)
      modifies this`samples, this`nsampframes, file
      ensures Valid() && samples == old(samples) + data && nsampframes == old(nsampframes) + nsamps
    {
      hide Header, Put, Supported;
      WholeFrames(|data|, FrameSize(params), nsampframes);
      ghost var h := Header(params, headFrames, headFrames * FrameSize(params));
      PutAtEnd(file.data, data);
      if |data| > 0 {
        file.Write(data);
      }
      assert h + (samples + data) == h + samples + data;
      samples := samples + data;
      nsampframes := nsampframes + nsamps;
    }

    /** writesamps: the header is brought up to date when the number of frames was not set. */
    method WriteSamps(data: Bytes) returns (r: Outcome<()>)
      requires Valid()
      modifies this, file
      ensures Valid() && totSet == old(totSet) && tot == old(tot)
      ensures samples == if r.Done? then old(samples) + data else old(samples)
      ensures initialized <==> Supported(params)
      ensures r.Done? <==>
        && Supported(params) && Whole(params, |data|)
        && (totSet ==> old(nsampframes) + Frames(params, |data|) <= tot)
      ensures nsampframes == old(nsampframes) + if r.Done? then Frames(params, |data|) else 0
      ensures r.Done? && !totSet ==> headFrames == nsampframes
      ensures initialized && totSet ==> headFrames == if old(initialized) then old(headFrames) else tot
    {
      hide Header, Patched;
      r := WriteSampsRaw(data);
      if r.Fail? { return; }
      if !totSet { Update(); }
    }

    method Update()
      requires Valid() && initialized && !totSet
      modifies this`headFrames, file
      ensures Valid() && headFrames == nsampframes
    {
      hide Header, Patched;
      ghost var h := Header(params, headFrames, headFrames * FrameSize(params));
      PatchedIsHeader(params, headFrames, headFrames * FrameSize(params), samples, nsampframes, nsampframes * FrameSize(params));
      PatchSize(file, nsampframes, nsampframes * FrameSize(params));
      headFrames := nsampframes;
    }

    /** destroy: pad to even size, and patch the header if the number of frames was not set.  The file is the image of the
        samples if the header counts their frames; that is so unless the number was set after the header was written. */
    method Destroy() returns (r: Outcome<()>)
      requires Valid()
      modifies this`headFrames, file
      ensures r.Done? <==> (totSet ==> nsampframes == tot)
      ensures r.Done? && old(initialized) ==>
        var n := if totSet then old(headFrames) else nsampframes;
        && Supported(params) && Whole(params, |old(samples)|) && n * FrameSize(params) >= 0
        && file.data == Header(params, n, n * FrameSize(params)) + old(samples) + Pad(|old(samples)|)
        && (n == nsampframes ==> file.data == Image(params, old(samples)))
      ensures r.Done? && !old(initialized) ==> file.data == if totSet then [] else Patched([], 0, 0)
    {
      hide Header, Patched;
      if totSet && nsampframes != tot { return Fail(NotEnough); }
      if !initialized {
        NoFrames(params);
        if !totSet { PatchSize(file, 0, 0); }
        return Done(());
      }
      FrameSizeIsPositive(params);
      var datasize := nsampframes * FrameSize(params);
      WholeFile(nsampframes, FrameSize(params));
      ghost var h := Header(params, headFrames, headFrames * FrameSize(params));
      ghost var pad: Bytes := Pad(datasize);
      if datasize % 2 == 1 {
        PutAtEnd(file.data, [0]);
        file.Write([0]);
      }
      assert file.data == h + samples + pad;
      assert h + samples + pad == h + (samples + pad);
      if !totSet {
        PatchedIsHeader(params, headFrames, headFrames * FrameSize(params), samples + pad, nsampframes, datasize);
        PatchSize(file, nsampframes, datasize);
        assert file.data == Header(params, nsampframes, datasize) + (samples + pad);
      }
      ghost var h1 := Header(params, nsampframes, datasize);
      assert h1 + (samples + pad) == h1 + samples + pad;
      return Done(());
    }
  }

  /** Nothing written is no bytes to pad, whatever the parameters are. */
  lemma NoFrames(p: Params)
    ensures 0 * FrameSize(p) % 2 != 1
  {
  }

  lemma PutInEmpty(b: Bytes)
    ensures Put([], 0, b) == b && b + [] == b
  {
  }

  lemma PutAtEnd(data: Bytes, b: Bytes)
    ensures Put(data, |data|, b) == data + b
  {
  }

  lemma WholeFrames(n: nat, size: nat, frames: nat)
    requires size > 0 && n % size == 0
    ensures frames * size + n == (frames + n / size) * size
  {
    assert n == (n / size) * size;
    Distributes(frames, n / size, size);
  }

  lemma Distributes(a: int, b: int, c: int)
    ensures (a + b) * c == a * c + b * c
  {
  }

  lemma WholeFile(frames: nat, size: nat)
    requires size > 0
    ensures (frames * size) % size == 0 && (frames * size) / size == frames
  {
    DivMod(frames, size, frames * size);
  }

  lemma DivMod(q: nat, size: nat, n: nat)
    requires size > 0 && n == q * size
    ensures n % size == 0 && n / size == q
  {
    var d: int, r: int := n / size, n % size;
    assert n == d * size + r;
    Distributes(q - d, d, size);
    if q > d { Grows(q - d, size); }
    if q < d { Grows(d - q, size); }
    Distributes(d - q, q, size);
  }

  lemma Grows(k: int, size: nat)
    requires k >= 1
    ensures k * size >= size
  {
  }

  // ---- reading ----

  /** read_chunk_header */
  function ChunkHeader(data: Bytes, p: nat): Outcome<(Bytes, int)> {
    var id := Got(data, p, 4);
    if id == [] then Fail(EndOfFile)
    else if |id| < 4 then Fail(ShortId)
    else
      var size := BigAt(data, p + 4, 4);
      if size.None? then Fail(EndOfFile) else Done((id, Signed(size.value, 0x8000_0000)))
  }

  const SKIPPED: seq<string> := ["MARK", "INST", "APPL", "MIDI", "AESD", "COMT", "NAME", "AUTH", "(c) ", "ANNO"]

  /** A chunk type that is skipped. */
  predicate IsSkipped(id: Bytes) {
    exists k :: 0 <= k < |SKIPPED| && Spells(id, SKIPPED[k])
  }

  predicate Spells(id: Bytes, name: string) {
    |id| == |name| && forall k :: 0 <= k < |id| ==> id[k] == name[k] as int
  }

  /** read_comm_chunk and comm2al: 18 bytes from `p` on. */
  function CommAt(data: Bytes, p: nat): Outcome<(Params, int)> {
    if p + 18 > |data| then Fail(EndOfFile)
    else
      var ch := Signed(Big(Got(data, p, 2)), 0x8000);
      var frames := Signed(Big(Got(data, p + 2, 4)), 0x8000_0000);
      var width := Signed(Big(Got(data, p + 6, 2)), 0x8000);
      var rate := ExtendedValue(Big(Got(data, p + 8, 2)), Big(Got(data, p + 10, 4)), Big(Got(data, p + 14, 4)));
      var q := Comm2Al(ch, width, rate);
      if q.Fail? then Fail(q.error) else Done((q.value, frames))
  }

  /** The loop of init_read from position `p` on: the parameters found, and where the samples start.  A chunk that is
      skipped backwards is left out of the model. */
  function Chunks(data: Bytes, p: nat, comm: Option<(Params, int)>): Outcome<(Option<(Params, int)>, nat)>
    decreases |data| - p
  {
    var h := ChunkHeader(data, p);
    if h.Fail? then Fail(h.error)
    else
      var (id, size) := h.value;
      if id == COMM then
        var c := CommAt(data, p + 8);
        if c.Fail? then Fail(c.error) else Chunks(data, p + 26, Some(c.value))
      else if id == SSND then (if p + 16 > |data| then Fail(EndOfFile) else Done((comm, p + 16)))
      else if IsSkipped(id) then (if size < 0 then Fail(NegativeSkip) else Chunks(data, p + 8 + size, comm))
      else Fail(BadChunk)
  }

  /** init_read */
  function Open(data: Bytes): Outcome<(Option<(Params, int)>, nat)> {
    var h := ChunkHeader(data, 0);
    if h.Fail? then Fail(h.error)
    else if h.value.0 != FORM then Fail(NotForm)
    else if h.value.1 <= 0 then Fail(BadFormSize)
    else if Got(data, 8, 4) != AIFF then Fail(NotAiff)
    else Chunks(data, 12, None)
  }

  lemma PiecesOfFile(h: Bytes, rest: Bytes, i: nat, j: nat)
    requires i <= j <= |h|
    ensures Got(h + rest, i, j - i) == h[i..j]
  {
  }

  /** The header of a finished file is understood, exactly if its sizes fit: the frame count and the size of the FORM
      chunk are read as signed numbers of 32 bits. */
  lemma HeaderIsRead(p: Params, frames: nat, datasize: nat, rest: Bytes)
    requires Supported(p)
    ensures Open(Header(p, frames, datasize) + rest) == Done((Some((p, frames)), 54))
      <==> frames < 0x8000_0000 && 0 < (46 + datasize) % TWO_32 < 0x8000_0000
  {
    hide Header, ChunkHeader, CommAt, LongBytes, IsSkipped, Got;
    var data := Header(p, frames, datasize) + rest;
    FormIsRead(data, p, frames, datasize, rest);
    CommIsRead(data, p, frames, datasize, rest);
    SsndIsRead(data, p, frames, datasize, rest);
    var comm := Some((p, Signed(frames % TWO_32, 0x8000_0000)));
    ChunksAtComm(data, 12, (p, Signed(frames % TWO_32, 0x8000_0000)));
    ChunksAtSsnd(data, 38, comm);
    hide Chunks;
    SignedIs(frames);
  }

  lemma SignedIs(x: nat)
    ensures Signed(x % TWO_32, 0x8000_0000) == x <==> x < 0x8000_0000
  {
  }

  lemma ChunksAtComm(data: Bytes, p: nat, c: (Params, int))
    requires ChunkHeader(data, p).Done? && ChunkHeader(data, p).value.0 == COMM && CommAt(data, p + 8) == Done(c)
    ensures Chunks(data, p, None) == Chunks(data, p + 26, Some(c))
  {
    hide ChunkHeader, CommAt, IsSkipped;
  }

  lemma ChunksAtSsnd(data: Bytes, p: nat, comm: Option<(Params, int)>)
    requires ChunkHeader(data, p).Done? && ChunkHeader(data, p).value.0 == SSND && p + 16 <= |data|
    ensures Chunks(data, p, comm) == Done((comm, p + 16))
  {
    hide ChunkHeader, CommAt, IsSkipped;
    assert COMM[0] != SSND[0];
  }

  lemma FormIsRead(data: Bytes, p: Params, frames: nat, datasize: nat, rest: Bytes)
    requires Supported(p) && data == Header(p, frames, datasize) + rest
    ensures ChunkHeader(data, 0) == Done((FORM, Signed((46 + datasize) % TWO_32, 0x8000_0000)))
    ensures Got(data, 8, 4) == AIFF
  {
    hide Header, LongBytes, Big, BeforeFrames, AfterFrames, Supported, Got;
    var h := Header(p, frames, datasize);
    HeaderFields(p, frames, datasize);
    PiecesOfFile(h, rest, 0, 4);
    PiecesOfFile(h, rest, 4, 8);
    PiecesOfFile(h, rest, 8, 12);
    LongIsRead(46 + datasize);
    BeforeFramesIs(p);
    SliceOfSlice(h, 8, 22, 0, 4);
  }

  lemma LongIsRead(x: nat)
    ensures Big(LongBytes(x)) == x % TWO_32
  {
    BigLow4(x);
  }

  lemma BeforeFramesIs(p: Params)
    requires Supported(p)
    ensures var b := BeforeFrames(p);
      b[..4] == AIFF && b[4..8] == COMM && b[8..12] == LongBytes(18) && b[12..14] == Low(p.nchannels, 2)
  {
  }

  lemma SupportedFits(p: Params)
    requires Supported(p)
    ensures Fits64(p.samprate)
  {
    RateFits(p.samprate);
  }

  lemma AfterFramesPieces(p: Params)
    requires Supported(p) && Fits64(p.samprate)
    ensures var (e, hi, lo) := ExtendedFields(p.samprate);
      AfterFrames(p) == Low(Bits(p.sampwidth), 2) + (Low(e, 2) + LongBytes(hi) + LongBytes(lo)) + SSND
  {
    hide ExtendedFields, LongBytes, Low, Bits;
  }

  lemma AfterFramesIs(p: Params)
    requires Supported(p)
    ensures Fits64(p.samprate)
    ensures var b := AfterFrames(p); var (e, hi, lo) := ExtendedFields(p.samprate);
      && b[..2] == Low(Bits(p.sampwidth), 2) && b[2..4] == Low(e, 2) && b[4..8] == LongBytes(hi) && b[8..12] == LongBytes(lo)
      && b[12..16] == SSND
  {
    hide ExtendedFields, LongBytes, Low, Bits, Fits64, Supported, AfterFrames, ExtendedBytes;
    SupportedFits(p);
    var (e, hi, lo) := ExtendedFields(p.samprate);
    var x, y, z, w := Low(Bits(p.sampwidth), 2), Low(e, 2), LongBytes(hi), LongBytes(lo);
    AfterFramesPieces(p);
    ThreePieces(x, y + z + w, SSND);
    ThreePieces(y, z, w);
    SliceOfSlice(AfterFrames(p), 2, 12, 0, 2);
    SliceOfSlice(AfterFrames(p), 2, 12, 2, 6);
    SliceOfSlice(AfterFrames(p), 2, 12, 6, 10);
  }

  lemma ThreePieces(a: Bytes, b: Bytes, c: Bytes)
    ensures var h := a + b + c; var i := |a|; var j := i + |b|;
      h[..i] == a && h[i..j] == b && h[j..j + |c|] == c
  {
  }

  lemma CommIsRead(data: Bytes, p: Params, frames: nat, datasize: nat, rest: Bytes)
    requires Supported(p) && data == Header(p, frames, datasize) + rest
    ensures ChunkHeader(data, 12) == Done((COMM, 18))
    ensures CommAt(data, 20) == Done((p, Signed(frames % TWO_32, 0x8000_0000)))
  {
    hide Header, LongBytes, Big, BeforeFrames, AfterFrames, Low, ExtendedFields, ExtendedValue, Fits64, Comm2Al, Double;
    var h := Header(p, frames, datasize);
    HeaderFields(p, frames, datasize);
    BeforeFramesIs(p);
    AfterFramesIs(p);
    var (e, hi, lo) := ExtendedFields(p.samprate);
    SliceOfSlice(h, 8, 22, 4, 8);
    SliceOfSlice(h, 8, 22, 8, 12);
    SliceOfSlice(h, 8, 22, 12, 14);
    SliceOfSlice(h, 26, 42, 0, 2);
    SliceOfSlice(h, 26, 42, 2, 4);
    SliceOfSlice(h, 26, 42, 4, 8);
    SliceOfSlice(h, 26, 42, 8, 12);
    PiecesOfFile(h, rest, 12, 16);
    PiecesOfFile(h, rest, 16, 20);
    PiecesOfFile(h, rest, 20, 22);
    PiecesOfFile(h, rest, 22, 26);
    PiecesOfFile(h, rest, 26, 28);
    PiecesOfFile(h, rest, 28, 30);
    PiecesOfFile(h, rest, 30, 34);
    PiecesOfFile(h, rest, 34, 38);
    LongIsRead(18);
    LongIsRead(frames);
    LongIsRead(hi);
    LongIsRead(lo);
    BigLow2(p.nchannels);
    BigLow2(Bits(p.sampwidth));
    ExtendedRounds(p.samprate);
    RatesAreExact(p.samprate);
    BigLow2(e);
    ParamsRoundTrip(p);
  }

  lemma SliceOfSlice(h: Bytes, i: nat, j: nat, a: nat, b: nat)
    requires i <= j <= |h| && a <= b <= j - i
    ensures h[i..j][a..b] == h[i + a..i + b]
  {
    forall k | 0 <= k < b - a ensures h[i..j][a..b][k] == h[i + a..i + b][k] {
      assert h[i..j][a + k] == h[i + a + k];
    }
  }

  lemma SsndIsRead(data: Bytes, p: Params, frames: nat, datasize: nat, rest: Bytes)
    requires Supported(p) && data == Header(p, frames, datasize) + rest
    ensures ChunkHeader(data, 38).Done? && ChunkHeader(data, 38).value.0 == SSND && |data| >= 54
  {
    hide Header, LongBytes, Big, BeforeFrames, AfterFrames;
    var h := Header(p, frames, datasize);
    HeaderFields(p, frames, datasize);
    AfterFramesIs(p);
    SliceOfSlice(h, 26, 42, 12, 16);
    PiecesOfFile(h, rest, 38, 42);
    PiecesOfFile(h, rest, 42, 46);
  }

  /** A file that was closed before anything was written cannot be opened. */
  lemma NothingWrittenIsUnreadable()
    ensures Open([]) == Fail(EndOfFile)
    ensures Open(Patched([], 0, 0)) == Fail(NotForm)
  {
    var d1 := Put([], 4, LongBytes(46));
    var d2 := Put(d1, 22, LongBytes(0));
    var d3 := Put(d2, 42, LongBytes(8));
    assert d1[0] == 0 && d2[0] == 0 && d3[0] == 0 && |d3| == 46;
    assert Got(d3, 0, 4)[0] == 0;
  }

  /** The four bytes from `i` on denote `x`, the highest first. */
  predicate Number(h: Bytes, i: nat, x: int) {
    i + 4 <= |h| && x == 0x100_0000 * h[i] as int + 0x1_0000 * h[i + 1] as int + 0x100 * h[i + 2] as int + h[i + 3] as int
  }

  lemma NumberAt(h: Bytes, i: nat, x: nat)
    requires i + 4 <= |h| && h[i..i + 4] == LongBytes(x) && x < TWO_32
    ensures Number(h, i, x)
  {
    hide Big, LongBytes;
    HighestFirst(h[i], h[i + 1], h[i + 2], h[i + 3]);
    FourApart(h, i);
    LongIsRead(x);
  }

  /** The header of a file, byte by byte. */
  lemma HeaderBytes(p: Params, frames: nat, datasize: nat, h: Bytes)
    requires Supported(p) && frames < TWO_32 && 46 + datasize < TWO_32 && h == Header(p, frames, datasize)
    ensures Spells(h[..4], "FORM") && Number(h, 4, 46 + datasize) && Spells(h[8..12], "AIFF")
    ensures Spells(h[12..16], "COMM") && Number(h, 16, 18)
    ensures h[20] == 0 && h[21] == p.nchannels && Number(h, 22, frames)
    ensures h[26] == 0 && h[27] == if p.sampwidth == 1 then 8 else if p.sampwidth == 2 then 16 else 24
    ensures Fits64(p.samprate) && h[28..38] == ExtendedBytes(p.samprate)
    ensures Spells(h[38..42], "SSND") && Number(h, 42, 8 + datasize) && forall k :: 46 <= k < 54 ==> h[k] == 0
  {
    hide Header, LongBytes, Big, BeforeFrames, AfterFrames, Low, ExtendedBytes, Fits64, Spells, Number;
    HeaderPieces(p, frames, datasize, h);
    NamesAreSpelled();
    SmallNumber(h, 20, p.nchannels);
    SmallNumber(h, 26, Bits(p.sampwidth));
    NumberAt(h, 4, 46 + datasize);
    NumberAt(h, 16, 18);
    NumberAt(h, 22, frames);
    NumberAt(h, 42, 8 + datasize);
    RateAt(p, h);
    LastZeros(h);
  }

  lemma FourApart(h: Bytes, i: nat)
    requires i + 4 <= |h|
    ensures h[i..i + 4] == [h[i], h[i + 1], h[i + 2], h[i + 3]]
  {
  }

  lemma NamesAreSpelled()
    ensures Spells(FORM, "FORM") && Spells(AIFF, "AIFF") && Spells(COMM, "COMM") && Spells(SSND, "SSND")
  {
  }

  lemma SmallNumber(h: Bytes, i: nat, x: Byte)
    requires i + 2 <= |h| && h[i..i + 2] == Low(x, 2)
    ensures h[i] == 0 && h[i + 1] == x
  {
    HighestOfTwo(0, x);
    assert h[i] == h[i..i + 2][0] && h[i + 1] == h[i..i + 2][1];
  }

  lemma LastZeros(h: Bytes)
    requires |h| == 54 && h[46..] == Zeros(8)
    ensures forall k :: 46 <= k < 54 ==> h[k] == 0
  {
    assert forall k :: 46 <= k < 54 ==> h[k] == h[46..][k - 46];
  }

  lemma HeaderPieces(p: Params, frames: nat, datasize: nat, h: Bytes)
    requires Supported(p) && h == Header(p, frames, datasize)
    ensures h[..4] == FORM && h[4..8] == LongBytes(46 + datasize) && h[8..12] == AIFF && h[12..16] == COMM
    ensures h[16..20] == LongBytes(18) && h[20..22] == Low(p.nchannels, 2) && h[22..26] == LongBytes(frames)
    ensures h[26..28] == Low(Bits(p.sampwidth), 2) && h[26..42] == AfterFrames(p) && h[38..42] == SSND
    ensures h[42..46] == LongBytes(8 + datasize) && h[46..] == Zeros(8)
  {
    hide Header, LongBytes, Low, BeforeFrames, AfterFrames;
    HeaderFields(p, frames, datasize);
    FrontPieces(p, h);
    BackPieces(p, h);
  }

  lemma FrontPieces(p: Params, h: Bytes)
    requires Supported(p) && |h| == 54 && h[8..22] == BeforeFrames(p)
    ensures h[8..12] == AIFF && h[12..16] == COMM && h[16..20] == LongBytes(18) && h[20..22] == Low(p.nchannels, 2)
  {
    hide LongBytes, Low, BeforeFrames;
    BeforeFramesIs(p);
    SliceOfSlice(h, 8, 22, 0, 4);
    SliceOfSlice(h, 8, 22, 4, 8);
    SliceOfSlice(h, 8, 22, 8, 12);
    SliceOfSlice(h, 8, 22, 12, 14);
  }

  lemma BackPieces(p: Params, h: Bytes)
    requires Supported(p) && |h| == 54 && h[26..42] == AfterFrames(p)
    ensures h[26..28] == Low(Bits(p.sampwidth), 2) && h[38..42] == SSND
  {
    hide LongBytes, Low, AfterFrames;
    AfterFramesIs(p);
    SliceOfSlice(h, 26, 42, 0, 2);
    SliceOfSlice(h, 26, 42, 12, 16);
  }

  lemma RateAt(p: Params, h: Bytes)
    requires Supported(p) && |h| == 54 && h[26..42] == AfterFrames(p)
    ensures Fits64(p.samprate) && h[28..38] == ExtendedBytes(p.samprate)
  {
    hide ExtendedBytes, Low, Fits64;
    RateFits(p.samprate);
    SliceOfSlice(h, 26, 42, 2, 12);
    ThreePieces(Low(Bits(p.sampwidth), 2), ExtendedBytes(p.samprate), SSND);
  }

  // ---- chunks that are skipped ----

  /** The position of the samples moves by `d`. */
  function Moved(r: Outcome<(Option<(Params, int)>, nat)>, d: nat): Outcome<(Option<(Params, int)>, nat)> {
    if r.Fail? then r else Done((r.value.0, r.value.1 + d))
  }

  lemma SameFrom(a: Bytes, b: Bytes, d: nat, p: nat, n: nat)
    requires |b| == |a| + d && p <= |a| && b[p + d..] == a[p..]
    ensures forall q: nat :: q >= p ==> Got(b, q + d, n) == Got(a, q, n)
  {
    forall q: nat | q >= p ensures Got(b, q + d, n) == Got(a, q, n) {
      var i, j := Min(q, |a|), Min(q + n, |a|);
      assert a[p..|a|] == a[p..] && b[p + d..|b|] == b[p + d..];
      SliceOfSlice(a, p, |a|, i - p, j - p);
      SliceOfSlice(b, p + d, |b|, i - p, j - p);
    }
  }

  /** What is read from `p` on does not depend on what is in front. */
  lemma {:induction false} ChunksMove(a: Bytes, b: Bytes, d: nat, p: nat, q: nat, comm: Option<(Params, int)>)
    requires |b| == |a| + d && p <= |a| && b[p + d..] == a[p..] && q >= p
    ensures Chunks(b, q + d, comm) == Moved(Chunks(a, q, comm), d)
    decreases |a| - q
  {
    hide IsSkipped, Got, Big, Comm2Al, ExtendedValue, Signed;
    HeaderMoves(a, b, d, p, q);
    CommMoves(a, b, d, p, q + 8);
    var h := ChunkHeader(a, q);
    if h.Done? {
      hide ChunkHeader, CommAt;
      var (id, size) := h.value;
      if id == COMM {
        var c := CommAt(a, q + 8);
        if c.Done? { ChunksMove(a, b, d, p, q + 26, Some(c.value)); }
      } else if id != SSND && IsSkipped(id) && size >= 0 {
        ChunksMove(a, b, d, p, q + 8 + size, comm);
      }
    }
  }

  lemma HeaderMoves(a: Bytes, b: Bytes, d: nat, p: nat, q: nat)
    requires |b| == |a| + d && p <= |a| && b[p + d..] == a[p..] && q >= p
    ensures ChunkHeader(b, q + d) == ChunkHeader(a, q)
    ensures ChunkHeader(a, q).Done? ==> q + 8 <= |a|
  {
    hide Big;
    SameFrom(a, b, d, p, 4);
  }

  lemma CommMoves(a: Bytes, b: Bytes, d: nat, p: nat, q: nat)
    requires |b| == |a| + d && p <= |a| && b[p + d..] == a[p..] && q >= p
    ensures CommAt(b, q + d) == CommAt(a, q)
    ensures CommAt(a, q).Done? ==> q + 18 <= |a|
  {
    hide Big, Comm2Al, ExtendedValue, Signed, Got;
    SameFrom(a, b, d, p, 2);
    SameFrom(a, b, d, p, 4);
    forall n: nat, i: nat | i >= q && (n == 2 || n == 4) ensures Got(b, i + d, n) == Got(a, i, n) {}
    assert q + 2 + d == q + d + 2 && q + 6 + d == q + d + 6 && q + 8 + d == q + d + 8 && q + 10 + d == q + d + 10 && q + 14 + d == q + d + 14;
  }

  /** A chunk of one of the ten kinds, wherever it stands among the others, makes no difference but that the samples are
      behind it. */
  lemma SkippedIsInvisible(before: Bytes, id: Bytes, name: string, body: Bytes, rest: Bytes, comm: Option<(Params, int)>)
    requires name in ["MARK", "INST", "APPL", "MIDI", "AESD", "COMT", "NAME", "AUTH", "(c) ", "ANNO"]
    requires Spells(id, name) && |body| < 0x8000_0000
    ensures Chunks(before + (id + LongBytes(|body|) + body) + rest, |before|, comm) ==
      Moved(Chunks(before + rest, |before|, comm), 8 + |body|)
  {
    hide IsSkipped, Spells, ChunkHeader, CommAt, LongBytes, Big, Chunks, Moved;
    NamedIsSkipped(id, name);
    SkippedHeader(before, id, body, rest);
    var chunk := id + LongBytes(|body|) + body;
    ChunkIsSkipped(before + chunk + rest, |before|, id, |body|, comm);
    ChunkBetween(before, chunk, rest);
    ChunksMove(before + rest, before + chunk + rest, |chunk|, |before|, |before|, comm);
  }

  lemma ChunkIsSkipped(data: Bytes, p: nat, id: Bytes, size: nat, comm: Option<(Params, int)>)
    requires ChunkHeader(data, p) == Done((id, size)) && IsSkipped(id) && id != COMM && id != SSND
    ensures Chunks(data, p, comm) == Chunks(data, p + 8 + size, comm)
  {
    hide ChunkHeader, CommAt, IsSkipped;
  }

  lemma ChunkBetween(before: Bytes, chunk: Bytes, rest: Bytes)
    ensures (before + chunk + rest)[|before| + |chunk|..] == rest == (before + rest)[|before|..]
  {
  }

  lemma NamedIsSkipped(id: Bytes, name: string)
    requires name in ["MARK", "INST", "APPL", "MIDI", "AESD", "COMT", "NAME", "AUTH", "(c) ", "ANNO"]
    requires Spells(id, name)
    ensures |id| == 4 && IsSkipped(id) && id != COMM && id != SSND
  {
    assert name in SKIPPED;
    assert |name| == 4 && name[0] != 'S' && (name[0] != 'C' || name[3] != 'M');
    assert id[0] == name[0] as int && id[3] == name[3] as int;
    assert COMM[0] == 'C' as int && COMM[3] == 'M' as int && SSND[0] == 'S' as int;
  }

  lemma SkippedHeader(before: Bytes, id: Bytes, body: Bytes, rest: Bytes)
    requires |id| == 4 && |body| < 0x8000_0000
    ensures ChunkHeader(before + (id + LongBytes(|body|) + body) + rest, |before|) == Done((id, |body|))
  {
    hide LongBytes, Big;
    var b := before + (id + LongBytes(|body|) + body) + rest;
    assert Got(b, |before|, 4) == id;
    assert Got(b, |before| + 4, 4) == LongBytes(|body|);
    LongIsRead(|body|);
  }

  /** So a file to which such chunks have been added in front opens as it did without them. */
  lemma OpensWithChunk(form: Bytes, id: Bytes, name: string, body: Bytes, rest: Bytes)
    requires name in ["MARK", "INST", "APPL", "MIDI", "AESD", "COMT", "NAME", "AUTH", "(c) ", "ANNO"]
    requires |form| == 12 && Spells(id, name) && |body| < 0x8000_0000
    ensures Open(form + (id + LongBytes(|body|) + body) + rest) == Moved(Open(form + rest), 8 + |body|)
  {
    hide Chunks, IsSkipped, Spells, LongBytes, Big;
    var chunk := id + LongBytes(|body|) + body;
    var a, b := form + rest, form + chunk + rest;
    assert Got(b, 0, 4) == form[..4] == Got(a, 0, 4);
    assert Got(b, 4, 4) == form[4..8] == Got(a, 4, 4);
    assert Got(b, 8, 4) == form[8..12] == Got(a, 8, 4);
    SkippedIsInvisible(form, id, name, body, rest, None);
  }

  datatype Block = Samples(data: Bytes) | AtEnd | Short

  /** An Aiff object in mode 'r', whose header has been read. */
  class Reader {
    const file: File
    var params: Params
    var nsampframes: int

    ghost predicate Valid(data: Bytes)
      reads this, file
    {
      && FrameSize(params) > 0 && 0 <= nsampframes
      && 0 <= SizeOf(nsampframes, params) && file.pos + SizeOf(nsampframes, params) <= |file.data|
      && data == file.data[file.pos..file.pos + SizeOf(nsampframes, params)]
    }

    constructor (file: File)
      ensures this.file == file
    {
      this.file := file;
      params, nsampframes := Params(0, 0, 0), 0;
    }

    method ReadChunkHeader() returns (r: Outcome<(Bytes, int)>)
      modifies file`pos
      ensures r == ChunkHeader(file.data, old(file.pos))
      ensures r.Done? ==> file.pos == old(file.pos) + 8
    {
      hide Big;
      var id := file.Read(4);
      if id == [] { return Fail(EndOfFile); }
      if |id| < 4 { return Fail(ShortId); }
      var size := ReadBig(file, 4);
      if size.None? { return Fail(EndOfFile); }
      return Done((id, Signed(size.value, 0x8000_0000)));
    }

    method ReadCommChunk() returns (r: Outcome<(Params, int)>)
      modifies file`pos
      ensures r == CommAt(file.data, old(file.pos))
      ensures r.Done? ==> file.pos == old(file.pos) + 18
    {
      hide Big, Comm2Al, ExtendedValue, Got;
      ghost var p := file.pos;
      var ch := ReadBig(file, 2);
      if ch.None? { return Fail(EndOfFile); }
      var frames := ReadBig(file, 4);
      if frames.None? { return Fail(EndOfFile); }
      var width := ReadBig(file, 2);
      if width.None? { return Fail(EndOfFile); }
      var expon := ReadBig(file, 2);
      if expon.None? { return Fail(EndOfFile); }
      var himant := ReadBig(file, 4);
      if himant.None? { return Fail(EndOfFile); }
      var lomant := ReadBig(file, 4);
      if lomant.None? { return Fail(EndOfFile); }
      assert file.pos == p + 18;
      var q := Comm2Al(Signed(ch.value, 0x8000), Signed(width.value, 0x8000), ExtendedValue(expon.value, himant.value, lomant.value));
      match q
      case Fail(e) => return Fail(e);
      case Done(params) => return Done((params, Signed(frames.value, 0x8000_0000)));
    }

    /** The loop of init_read. */
    method ReadChunks() returns (r: Outcome<Option<(Params, int)>>)
      modifies file`pos
      ensures match Chunks(file.data, old(file.pos), None)
        case Fail(e) => r == Fail(e)
        case Done((comm, start)) => r == Done(comm) && file.pos == start
    {
      hide ChunkHeader, CommAt, IsSkipped;
      var comm: Option<(Params, int)> := None;
      while true
        invariant Chunks(file.data, file.pos, comm) == Chunks(file.data, old(file.pos), None)
        decreases |file.data| - file.pos
      {
        ghost var p := file.pos;
        HeaderInFile(file.data, file.pos);
        var h := ReadChunkHeader();
        if h.Fail? { return Fail(h.error); }
        var (id, size) := h.value;
        if id == COMM {
          var c := ReadCommChunk();
          if c.Fail? { return Fail(c.error); }
          comm := Some(c.value);
        } else if id == SSND {
          var offset := ReadBig(file, 4);
          if offset.None? { return Fail(EndOfFile); }
          var blocksize := ReadBig(file, 4);
          if blocksize.None? { return Fail(EndOfFile); }
          return Done(comm);
        } else if IsSkipped(id) {
          if size < 0 { return Fail(NegativeSkip); }
          file.Seek(file.pos + size);
        } else {
          return Fail(BadChunk);
        }
      }
    }

    /** init_read; there must have been a COMM chunk for the object to be usable. */
    method InitRead() returns (r: Outcome<bool>)
      requires file.pos == 0
      modifies this, file`pos
      ensures match Open(file.data)
        case Fail(e) => r == Fail(e)
        case Done((None, start)) => r == Done(false)
        case Done((Some((p, frames)), start)) => r == Done(true) && params == p && nsampframes == frames && file.pos == start
    {
      hide ChunkHeader, Chunks;
      var h := ReadChunkHeader();
      if h.Fail? { return Fail(h.error); }
      if h.value.0 != FORM { return Fail(NotForm); }
      if h.value.1 <= 0 { return Fail(BadFormSize); }
      var id := file.Read(4);
      if id != AIFF { return Fail(NotAiff); }
      var c := ReadChunks();
      match c
      case Fail(e) => return Fail(e);
      case Done(None) => return Done(false);
      case Done(Some((p, frames))) =>
        params, nsampframes := p, frames;
        return Done(true);
    }

    /** readsamps: at most `nsamps` of the frames that are left. */
    method ReadSamps(nsamps: nat, ghost data: Bytes) returns (r: Block)
      requires Valid(data)
      modifies this`nsampframes, file`pos
      ensures 0 <= SizeOf(Min(nsamps, old(nsampframes)), params) <= |data|
      ensures r == if old(nsampframes) == 0 then AtEnd else Samples(data[..SizeOf(Min(nsamps, old(nsampframes)), params)])
      ensures nsampframes == old(nsampframes) - Min(nsamps, old(nsampframes))
      ensures Valid(data[SizeOf(Min(nsamps, old(nsampframes)), params)..])
    {
      hide FrameSize, SizeOf;
      var n := nsamps;
      SizeSplits(Min(n, nsampframes), nsampframes, params);
      if nsampframes == 0 { return AtEnd; }
      if nsampframes < n { n := nsampframes; }
      var size := SizeOf(n, params);
      ghost var p := file.pos;
      var block := file.Read(size);
      SliceOfSlice(file.data, p, p + |data|, 0, size);
      assert block == data[..size];
      if |block| < size { return Short; }
      nsampframes := nsampframes - n;
      return Samples(block);
    }
  }

  lemma SizeSplits(n: nat, left: nat, p: Params)
    requires n <= left && FrameSize(p) > 0
    ensures 0 <= SizeOf(n, p) <= SizeOf(left, p) && SizeOf(left, p) == SizeOf(n, p) + SizeOf(left - n, p)
    ensures left == 0 ==> SizeOf(left, p) == 0
  {
    hide FrameSize;
    NoMore(n, left, FrameSize(p));
    Distributes(n, left - n, FrameSize(p));
  }

  lemma NoMore(n: nat, left: nat, size: nat)
    requires n <= left
    ensures 0 <= n * size <= left * size
  {
    Distributes(n, left - n, size);
  }

  lemma HeaderInFile(data: Bytes, p: nat)
    ensures ChunkHeader(data, p).Done? ==> p + 8 <= |data|
  {
  }

  // ---- there and back ----

  function Joined(blocks: seq<Bytes>): Bytes
    decreases |blocks|
  {
    if blocks == [] then [] else Joined(blocks[..|blocks| - 1]) + blocks[|blocks| - 1]
  }

  function Sum(sizes: seq<nat>): nat
    decreases |sizes|
  {
    if sizes == [] then 0 else Sum(sizes[..|sizes| - 1]) + sizes[|sizes| - 1]
  }

  lemma NoBlocks(blocks: seq<Bytes>, p: Params)
    requires Supported(p)
    ensures Joined(blocks[..0]) == [] && Frames(p, 0) == 0
  {
    FrameSizeIsPositive(p);
    assert blocks[..0] == [];
  }

  lemma OneBlockMore(blocks: seq<Bytes>, k: nat, p: Params)
    requires Supported(p) && k < |blocks| && forall j :: 0 <= j < |blocks| ==> Whole(p, |blocks[j]|)
    ensures Joined(blocks[..k + 1]) == Joined(blocks[..k]) + blocks[k]
    ensures Frames(p, |Joined(blocks[..k + 1])|) == Frames(p, |Joined(blocks[..k])|) + Frames(p, |blocks[k]|)
    ensures Frames(p, |Joined(blocks[..k + 1])|) <= Frames(p, |Joined(blocks)|)
  {
    hide Supported, FrameSize;
    FrameSizeIsPositive(p);
    assert blocks[..k + 1][..k] == blocks[..k];
    WholeBlocks(blocks[..k], FrameSize(p));
    AddsUp(|Joined(blocks[..k])|, |blocks[k]|, FrameSize(p));
    PartOfAll(blocks, k + 1);
    DivMono(|Joined(blocks[..k + 1])|, |Joined(blocks)|, FrameSize(p));
  }

  /** The blocks one after the other, on a new file. */
  method WriteBlocks(w: Writer, blocks: seq<Bytes>)
    requires w.Valid() && !w.initialized && Supported(w.params) && blocks != []
    requires forall k :: 0 <= k < |blocks| ==> Whole(w.params, |blocks[k]|)
    requires w.totSet ==> w.tot == Frames(w.params, |Joined(blocks)|)
    modifies w, w.file
    ensures w.Valid() && w.initialized && w.samples == Joined(blocks) && w.nsampframes == Frames(w.params, |Joined(blocks)|)
    ensures w.totSet == old(w.totSet) && w.tot == old(w.tot) && (w.totSet ==> w.headFrames == w.tot)
  {
    hide Header, Patched, Image, Supported, Whole, Frames, FrameSize, Pad;
    NoBlocks(blocks, w.params);
    for k := 0 to |blocks|
      invariant w.Valid() && w.totSet == old(w.totSet) && w.tot == old(w.tot)
      invariant w.samples == Joined(blocks[..k]) && (k > 0 ==> w.initialized)
      invariant w.nsampframes == Frames(w.params, |Joined(blocks[..k])|)
      invariant w.initialized && w.totSet ==> w.headFrames == w.tot
    {
      OneBlockMore(blocks, k, w.params);
      var o := w.WriteSamps(blocks[k]);
      assert o.Done?;
    }
    assert blocks[..|blocks|] == blocks;
  }

  /** Write blocks of samples, with the number of frames set beforehand or not, and close the file. */
  method WriteFile(p: Params, preset: bool, blocks: seq<Bytes>) returns (f: File, r: Outcome<()>)
    requires Supported(p) && blocks != [] && forall k :: 0 <= k < |blocks| ==> Whole(p, |blocks[k]|)
    ensures fresh(f)
    ensures r.Done? && Whole(p, |Joined(blocks)|) && f.data == Image(p, Joined(blocks))
  {
    hide Header, Patched, Image, Supported, Whole, Frames, FrameSize, Pad;
    f := new File();
    var w := new Writer(f, p);
    NoBlocks(blocks, p);
    if preset {
      var n := CountFrames(blocks, p);
      w.SetNSamps(n);
    }
    WriteBlocks(w, blocks);
    r := w.Destroy();
  }

  method CountFrames(blocks: seq<Bytes>, p: Params) returns (n: nat)
    requires Supported(p) && forall k :: 0 <= k < |blocks| ==> Whole(p, |blocks[k]|)
    ensures n == Frames(p, |Joined(blocks)|)
  {
    hide FrameSize, Supported;
    FrameSizeIsPositive(p);
    n := 0;
    NoBlocks(blocks, p);
    for k := 0 to |blocks|
      invariant n == Frames(p, |Joined(blocks[..k])|)
    {
      OneBlockMore(blocks, k, p);
      n := n + |blocks[k]| / FrameSize(p);
    }
    assert blocks[..|blocks|] == blocks;
  }

  lemma {:induction false} WholeBlocks(blocks: seq<Bytes>, size: nat)
    requires size > 0 && forall k :: 0 <= k < |blocks| ==> |blocks[k]| % size == 0
    ensures |Joined(blocks)| % size == 0
    decreases |blocks|
  {
    if blocks != [] {
      var front := blocks[..|blocks| - 1];
      WholeBlocks(front, size);
      AddsUp(|Joined(front)|, |blocks[|blocks| - 1]|, size);
    } else {
      WholeFile(0, size);
    }
  }

  lemma {:induction false} PartOfAll(blocks: seq<Bytes>, k: nat)
    requires k <= |blocks|
    ensures |Joined(blocks[..k])| <= |Joined(blocks)|
    decreases |blocks|
  {
    if k < |blocks| {
      var front := blocks[..|blocks| - 1];
      assert front[..k] == blocks[..k];
      PartOfAll(front, k);
    } else {
      assert blocks[..k] == blocks;
    }
  }

  lemma AddsUp(a: nat, b: nat, size: nat)
    requires size > 0 && a % size == 0 && b % size == 0
    ensures (a + b) % size == 0 && (a + b) / size == a / size + b / size
  {
    var x, y := a / size, b / size;
    assert a == x * size && b == y * size;
    Distributes(x, y, size);
    DivMod(x + y, size, a + b);
  }

  lemma DivMono(a: nat, b: nat, size: nat)
    requires size > 0 && a <= b
    ensures a / size <= b / size
  {
    var x, y := a / size, b / size;
    assert a == x * size + a % size && b == y * size + b % size;
    Distributes(x - y, y, size);
    if x > y { Grows(x - y, size); }
  }

  /** Read a file in blocks of the given sizes, up to its end. */
  method ReadFile(f: File, sizes: seq<nat>, ghost p: Params, ghost data: Bytes)
    returns (r: Outcome<bool>, params: Params, nframes: int, blocks: seq<Bytes>)
    requires Supported(p) && Whole(p, |data|) && f.data == Image(p, data) && f.pos == 0
    requires Frames(p, |data|) < 0x8000_0000 && 0 < (46 + |data|) % TWO_32 < 0x8000_0000
    modifies f`pos
    ensures r == Done(true) && params == p && nframes == Frames(p, |data|)
    ensures Joined(blocks) <= data && |Joined(blocks)| == Min(Sum(sizes), Frames(p, |data|)) * FrameSize(p)
  {
    hide Header, Open, FrameSize, Supported, Image;
    ImageIsRead(p, data);
    var reader := new Reader(f);
    r := reader.InitRead();
    params, nframes := reader.params, reader.nsampframes;
    blocks := ReadBlocks(reader, sizes, data);
  }

  /** What opening a finished file finds. */
  lemma ImageIsRead(p: Params, data: Bytes)
    requires Supported(p) && Whole(p, |data|)
    requires Frames(p, |data|) < 0x8000_0000 && 0 < (46 + |data|) % TWO_32 < 0x8000_0000
    ensures FrameSize(p) > 0
    ensures var n := Frames(p, |data|); var f := Image(p, data);
      && Open(f) == Done((Some((p, n)), 54))
      && n * FrameSize(p) == |data| && 54 + |data| <= |f| && f[54..54 + |data|] == data
  {
    hide Header, Open, FrameSize, Frames, Whole, Supported;
    FrameSizeIsPositive(p);
    FramesFill(p, |data|);
    var n := Frames(p, |data|);
    var pad: Bytes := if |data| % 2 == 1 then [0] else [];
    var h := Header(p, n, |data|);
    assert Image(p, data) == h + data + pad == h + (data + pad);
    HeaderIsRead(p, n, |data|, data + pad);
    ThreePieces(h, data, pad);
  }

  lemma FramesFill(p: Params, n: nat)
    requires Supported(p) && Whole(p, n)
    ensures Frames(p, n) * FrameSize(p) == n
  {
    hide Supported, FrameSize;
    FrameSizeIsPositive(p);
    Quotient(n, FrameSize(p));
  }

  lemma Quotient(n: nat, size: nat)
    requires size > 0 && n % size == 0
    ensures (n / size) * size == n
  {
  }

  /** Reading on until the sizes or the samples run out. */
  method ReadBlocks(reader: Reader, sizes: seq<nat>, ghost data: Bytes) returns (blocks: seq<Bytes>)
    requires reader.Valid(data)
    modifies reader`nsampframes, reader.file`pos
    ensures Joined(blocks) <= data
    ensures |Joined(blocks)| == Min(Sum(sizes), old(reader.nsampframes)) * FrameSize(reader.params)
  {
    hide FrameSize, Reader.Valid;
    LeftOver(reader, data);
    blocks := [];
    ghost var left := data;
    ghost var n := reader.nsampframes;
    assert sizes[..0] == [] && [] + data == data;
    for k := 0 to |sizes|
      invariant reader.params == old(reader.params) && reader.Valid(left)
      invariant reader.nsampframes == n - Min(Sum(sizes[..k]), n)
      invariant Joined(blocks) + left == data
    {
      assert sizes[..k + 1][..k] == sizes[..k];
      LeftOver(reader, left);
      ghost var x := SizeOf(Min(sizes[k], reader.nsampframes), reader.params);
      var b := reader.ReadSamps(sizes[k], left);
      if b.Samples? {
        OneMoreBlock(blocks, left, x);
        blocks := blocks + [b.data];
        left := left[x..];
      }
    }
    assert sizes[..|sizes|] == sizes;
    LeftOver(reader, left);
    Distributes(Min(Sum(sizes), n), n - Min(Sum(sizes), n), FrameSize(reader.params));
  }

  lemma LeftOver(reader: Reader, data: Bytes)
    requires reader.Valid(data)
    ensures reader.nsampframes >= 0 && |data| == reader.nsampframes * FrameSize(reader.params)
  {
  }

  lemma OneMoreBlock(blocks: seq<Bytes>, left: Bytes, x: nat)
    requires x <= |left|
    ensures Joined(blocks + [left[..x]]) + left[x..] == Joined(blocks) + left
  {
    assert (blocks + [left[..x]])[..|blocks|] == blocks;
    assert left == left[..x] + left[x..];
  }

  /** Whatever blocks were written, in whatever blocks the file is read, the parameters, the number of frames and the
      samples come back. */
  method ThereAndBack(p: Params, preset: bool, written: seq<Bytes>, sizes: seq<nat>)
    returns (params: Params, nframes: int, read: seq<Bytes>)
    requires Supported(p) && written != [] && forall k :: 0 <= k < |written| ==> Whole(p, |written[k]|)
    requires Frames(p, |Joined(written)|) < 0x8000_0000 && 0 < (46 + |Joined(written)|) % TWO_32 < 0x8000_0000
    ensures params == p && nframes == Frames(p, |Joined(written)|)
    ensures Joined(read) <= Joined(written) && |Joined(read)| == Min(Sum(sizes), nframes) * FrameSize(p)
    ensures Sum(sizes) >= nframes ==> Joined(read) == Joined(written)
  {
    hide Supported, FrameSize, Whole, Frames, Image;
    var f, _ := WriteFile(p, preset, written);
    f.Seek(0);
    var r;
    r, params, nframes, read := ReadFile(f, sizes, p, Joined(written));
    FramesFill(p, |Joined(written)|);
  }
}
