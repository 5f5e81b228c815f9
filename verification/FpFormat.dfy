/** python/lib/fpformat.py: numbers formatted by working on their decimal digits. */
module FpFormat {

  // ---- digits and what they denote ----

  predicate Digit(c: char) { '0' <= c <= '9' }

  predicate Digits(s: string) { forall k :: 0 <= k < |s| ==> Digit(s[k]) }

  function DigitValue(c: char): (d: nat)
    requires Digit(c)
    ensures d < 10
  {
    c as int - '0' as int
  }

  function Pow(n: nat): (p: nat)
    ensures p > 0
  {
    if n == 0 then 1 else 10 * Pow(n - 1)
  }

  /** The number that a string of digits denotes. */
  function Number(s: string): nat
    requires Digits(s)
    decreases |s|
  {
    if s == "" then 0 else 10 * Number(s[..|s| - 1]) + DigitValue(s[|s| - 1])
  }

  /** 10 to any power. */
  function Power(e: int): real {
    if e >= 0 then Pow(e) as real else 1.0 / (Pow(-e) as real)
  }

  /** intpart . fraction e expo */
  function Value(intpart: string, fraction: string, expo: int): real
    requires Digits(intpart) && Digits(fraction)
  {
    Number(intpart + fraction) as real * Power(expo - |fraction|)
  }

  function Zeros(n: nat): (z: string)
    ensures |z| == n && Digits(z)
  {
    seq(n, _ => '0')
  }

  lemma {:induction false} PowAdd(a: nat, b: nat)
    ensures Pow(a + b) == Pow(a) * Pow(b)
    decreases a
  {
    if a > 0 {
      PowAdd(a - 1, b);
      assert Pow(a + b) == 10 * Pow(a + b - 1);
      assert 10 * (Pow(a - 1) * Pow(b)) == (10 * Pow(a - 1)) * Pow(b);
    }
  }

  /** Products are only compared and multiplied out here. */
  lemma MulMono(x: int, y: int, p: nat)
    requires x <= y
    ensures x * p <= y * p
  {
  }

  lemma MulTen(x: int, p: int)
    ensures 10 * (x * p) == x * (10 * p) == (10 * x) * p
  {
  }

  lemma Distribute(x: int, y: int, p: int)
    ensures (x + y) * p == x * p + y * p
  {
  }

  lemma {:induction false} NumberAppend(a: string, b: string)
    requires Digits(a) && Digits(b)
    ensures Digits(a + b) && Number(a + b) == Number(a) * Pow(|b|) + Number(b)
    decreases |b|
  {
    hide Number, Pow;
    if b == "" {
      assert a + b == a;
      NoDigits();
    } else {
      var c := b[..|b| - 1];
      NumberAppend(a, c);
      assert (a + b)[..|a + b| - 1] == a + c && (a + b)[|a + b| - 1] == b[|b| - 1];
      NumberLast(a + b);
      NumberLast(b);
      MulTen(Number(a), Pow(|c|));
    }
  }

  lemma NoDigits()
    ensures Number("") == 0 && Pow(0) == 1
  {
  }

  lemma NumberLast(s: string)
    requires Digits(s) && s != ""
    ensures var n := |s| - 1;
      Number(s) == 10 * Number(s[..n]) + DigitValue(s[n]) && Pow(|s|) == 10 * Pow(n)
  {
  }

  lemma {:induction false} NumberOfZeros(n: nat)
    ensures Number(Zeros(n)) == 0
    decreases n
  {
    if n > 0 {
      assert Zeros(n)[..n - 1] == Zeros(n - 1);
      NumberOfZeros(n - 1);
    }
  }

  lemma {:induction false} NumberBound(s: string)
    requires Digits(s)
    ensures Number(s) < Pow(|s|)
    decreases |s|
  {
    if s != "" { NumberBound(s[..|s| - 1]); }
  }

  lemma NumberOfOne(c: char)
    requires Digit(c)
    ensures Number([c]) == DigitValue(c)
  {
    assert [c][..0] == "";
  }

  lemma PowerUp(e: int)
    ensures Power(e + 1) == 10.0 * Power(e)
  {
    if e < 0 {
      var p := Pow(-e - 1) as real;
      assert Pow(-e) == 10 * Pow(-e - 1);
      assert 10.0 * (1.0 / (10.0 * p)) == 1.0 / p;
    }
  }

  lemma PowReal(k: nat)
    ensures Pow(0) as real == 1.0 && Pow(k + 1) as real == 10.0 * (Pow(k) as real)
  {
  }

  lemma {:induction false} PowerShift(e: int, k: nat)
    ensures Pow(k) as real * Power(e) == Power(e + k)
    decreases k
  {
    hide Pow, Power;
    if k == 0 {
      PowReal(0);
    } else {
      PowerShift(e, k - 1);
      PowerUp(e + k - 1);
      PowReal(k - 1);
      assert e + k - 1 + 1 == e + k && e + (k - 1) == e + k - 1;
      TenTimes(Pow(k - 1) as real, Power(e));
    }
  }

  lemma TenTimes(p: real, q: real)
    ensures (10.0 * p) * q == 10.0 * (p * q)
  {
  }

  lemma ThreeFactors(p: real, q: real, r: real)
    ensures (p * q) * r == p * (q * r)
  {
  }

  // ---- slices ----

  /** s[:k] */
  function Upto(s: string, k: int): (r: string) {
    if k >= 0 then (if k <= |s| then s[..k] else s) else if -k <= |s| then s[..|s| + k] else ""
  }

  /** s[k:] */
  function From(s: string, k: int): (r: string) {
    if k >= 0 then (if k <= |s| then s[k..] else "") else if -k <= |s| then s[|s| + k..] else s
  }

  /** '0'*n */
  function Times0(n: int): (z: string)
    ensures Digits(z) && |z| == if n > 0 then n else 0
  {
    Zeros(if n > 0 then n else 0)
  }

  // ---- unexpo ----

  /** The digits with the point moved to where the exponent says; zeros are supplied on either side. */
  function Unexpo(intpart: string, fraction: string, expo: int): (string, string) {
    if expo > 0 then
      var f := |fraction|;
      (intpart + Upto(fraction, expo) + (if expo > f then Times0(expo - f) else ""), From(fraction, expo))
    else if expo < 0 then
      var i := |intpart|;
      (Upto(intpart, expo), (if expo < -i then Times0(-expo - i) else "") + (From(intpart, expo) + fraction))
    else (intpart, fraction)
  }

  lemma ZerosBehind(s: string, n: nat)
    requires Digits(s)
    ensures Digits(s + Zeros(n)) && Number(s + Zeros(n)) as real * Power(0) == Number(s) as real * Power(n)
  {
    hide Number, Pow, Power, Zeros;
    assert Number(s + Zeros(n)) == Number(s) * Pow(n) by {
      NumberAppend(s, Zeros(n));
      NumberOfZeros(n);
    }
    PowerShift(0, n);
    assert 0 + n == n;
    Rescale(Number(s), Pow(n), Power(0), Power(n));
  }

  lemma Rescale(a: nat, p: nat, q: real, r: real)
    requires p as real * q == r
    ensures (a * p) as real * q == a as real * r
  {
    AsReal(a, p);
    ThreeFactors(a as real, p as real, q);
  }

  lemma AsReal(a: nat, p: nat)
    ensures (a * p) as real == a as real * p as real
  {
  }

  lemma ZerosInFront(s: string, n: nat)
    requires Digits(s)
    ensures Digits(Zeros(n) + s) && Number(Zeros(n) + s) == Number(s)
  {
    NumberAppend(Zeros(n), s);
    NumberOfZeros(n);
  }

  /** unexpo preserves the denoted value. */
  lemma UnexpoKeepsValue(intpart: string, fraction: string, expo: int)
    requires Digits(intpart) && Digits(fraction)
    ensures var (i, f) := Unexpo(intpart, fraction, expo);
      Digits(i) && Digits(f) && Value(i, f, 0) == Value(intpart, fraction, expo)
  {
    hide Number, Power;
    var (i, f) := Unexpo(intpart, fraction, expo);
    var all := intpart + fraction;
    if expo > |fraction| {
      var z := Zeros(expo - |fraction|);
      assert i + f == all + z && f == "";
      ZerosBehind(all, |z|);
    } else if expo >= -|intpart| {
      assert i + f == all && |f| == |fraction| - expo;
    } else {
      var z := Zeros(-expo - |intpart|);
      assert i + f == z + all && |f| == |fraction| - expo;
      ZerosInFront(all, |z|);
    }
  }

  // ---- rounding ----

  /** `r` is n / 10^k rounded to the nearest integer, a half being rounded up. */
  predicate HalfUp(n: nat, k: int, r: nat) {
    if k <= 0 then r == n * Pow(-k)
    else 2 * r * Pow(k) <= 2 * n + Pow(k) < 2 * (r + 1) * Pow(k)
  }

  lemma HalfUpIsUnique(n: nat, k: int, r: nat, q: nat)
    requires HalfUp(n, k, r) && HalfUp(n, k, q)
    ensures r == q
  {
    if k > 0 {
      var p := Pow(k);
      hide Pow;
      if r < q {
        MulMono(2 * (r + 1), 2 * q, p);
        assert false;
      }
      if q < r {
        MulMono(2 * (q + 1), 2 * r, p);
        assert false;
      }
    }
  }

  /** Rounding at a digit depends on that digit only. */
  lemma NextDigitDecides(a: string, b: string)
    requires Digits(a) && Digits(b) && b != ""
    ensures Digits(a + b) && HalfUp(Number(a + b), |b|, Number(a) + if b[0] >= '5' then 1 else 0)
  {
    NumberAppend(a, b);
    var rest := b[1..];
    assert b == [b[0]] + rest;
    NumberAppend([b[0]], rest);
    NumberOfOne(b[0]);
    NumberBound(rest);
    assert Pow(|b|) == 10 * Pow(|rest|);
    hide Pow, Number;
    HalfUpAtDigit(Number(a), DigitValue(b[0]), Number(rest), Pow(|rest|));
  }

  lemma HalfUpAtDigit(x: nat, d: nat, y: nat, p: nat)
    requires d < 10 && y < p
    ensures var r := x + if d >= 5 then 1 else 0; var n := x * (10 * p) + (d * p + y);
      2 * r * (10 * p) <= 2 * n + 10 * p < 2 * (r + 1) * (10 * p)
  {
    MulMono(if d >= 5 then 5 else 0, d, p);
    MulMono(d, if d >= 5 then 9 else 4, p);
    MulTen(2 * x, p);
    Distribute(2 * x, 2, 10 * p);
    Distribute(2 * x, 4, 10 * p);
    Distribute(x, x, 10 * p);
  }

  /** The last digit that is not a nine goes up, the nines after it become zeros. */
  lemma {:induction false} CarryIsPlusOne(x: string, d: char, m: nat)
    requires Digits(x) && Digit(d) && d != '9'
    ensures var up := (d as int + 1) as char;
      && Digit(up) && Digits(x + [d] + Nines(m)) && Digits(x + [up] + Zeros(m))
      && Number(x + [up] + Zeros(m)) == Number(x + [d] + Nines(m)) + 1
  {
    var up := (d as int + 1) as char;
    NumberAppend(x, [d]);
    NumberAppend(x, [up]);
    NumberOfOne(d);
    NumberOfOne(up);
    NumberAppend(x + [d], Nines(m));
    NumberAppend(x + [up], Zeros(m));
    NumberOfNines(m);
    NumberOfZeros(m);
    hide Number, Pow;
    Distribute(Number(x + [d]), 1, Pow(m));
  }

  function Nines(n: nat): (z: string)
    ensures |z| == n && Digits(z)
  {
    seq(n, _ => '9')
  }

  lemma {:induction false} NumberOfNines(n: nat)
    ensures Number(Nines(n)) + 1 == Pow(n)
    decreases n
  {
    if n > 0 {
      assert Nines(n)[..n - 1] == Nines(n - 1);
      NumberOfNines(n - 1);
    }
  }

  /** The digits that are kept when a number is cut off `digs` places after the point. */
  function Kept(intpart: string, fraction: string, digs: int): string
    requires 0 <= |intpart| + digs <= |intpart| + |fraction|
  {
    (intpart + fraction)[..|intpart| + digs]
  }

  /** What rounding `intpart0`.`fraction0` at `digs` places should give. */
  predicate Rounded(intpart0: string, fraction0: string, digs: int, intpart: string, fraction: string)
    requires Digits(intpart0) && Digits(fraction0)
  {
    && Digits(intpart) && Digits(fraction)
    && |fraction| == (if digs > 0 then digs else 0) && 0 <= |intpart| + digs
    && HalfUp(Number(intpart0 + fraction0), |fraction0| - digs, Number(Kept(intpart, fraction, digs)))
    && (digs < 0 ==> intpart[|intpart| + digs..] == Zeros(-digs))
    && (digs >= 0 ==>
        || |intpart| == |intpart0|
        || (|intpart| == |intpart0| + 1 && intpart + fraction == "1" + Zeros(|intpart0| + digs)))
  }

  /** The digits rounded at `digs` places behind the point, or filled up with zeros to there; for a negative number of
      places digits in front of the point become zeros. */
  method RoundFrac(intpart0: string, fraction0: string, digs: int) returns (intpart: string, fraction: string)
    requires Digits(intpart0) && Digits(fraction0)
    ensures Rounded(intpart0, fraction0, digs, intpart, fraction)
  {
    hide Number, HalfUp;
    var f := |fraction0|;
    if f <= digs {
      ExtendingRounds(intpart0, fraction0, digs);
      return intpart0, fraction0 + Times0(digs - f);
    }
    var i := |intpart0|;
    if i + digs < 0 {
      SmallIsZero(intpart0 + fraction0, f - digs);
      assert Kept(Times0(-digs), "", digs) == "" && Number("") == 0 by { NumberOfNothing(); }
      return Times0(-digs), "";
    }
    var total := intpart0 + fraction0;
    var c := i + digs;
    NextDigitDecides(total[..c], total[c..]);
    assert total == total[..c] + total[c..];
    var nextDigit := total[i + digs];
    if nextDigit >= '5' {
      total, i := Increment(total, i, c);
      intpart, fraction := total[..i], total[i..];
      assert intpart + fraction == total;
    } else {
      intpart, fraction := intpart0, fraction0;
    }
    CutIsRounded(intpart0, fraction0, digs, intpart, fraction);
    if digs >= 0 {
      fraction := Upto(fraction, digs);
    } else {
      intpart, fraction := Upto(intpart, digs) + Times0(-digs), "";
    }
  }

  /** The hard case: increment the last digit in front of `c`; there may be a carry through any run of nines. */
  method Increment(total0: string, i0: nat, c: nat) returns (total: string, i: nat)
    requires Digits(total0) && i0 <= |total0| && c <= |total0|
    ensures Digits(total) && i0 <= i <= i0 + 1 && |total| == |total0| + (i - i0)
    ensures Number(total[..c + (i - i0)]) == Number(total0[..c]) + 1
    ensures i > i0 ==> total[..c + 1] == "1" + Zeros(c)
  {
    hide Number;
    total, i := total0, i0;
    var n: int := c - 1;
    while n >= 0 && total[n] == '9'
      invariant -1 <= n < c && forall k :: n < k < c ==> total[k] == '9'
    {
      n := n - 1;
    }
    if n < 0 {
      total := "0" + total;
      assert total[..c + 1] == "0" + total0[..c];
      LeadingZero(total0[..c]);
      i := i + 1;
      n := 0;
    }
    ghost var before := total;
    total := total[..n] + [(total[n] as int + 1) as char] + Times0(|total| - n - 1);
    Incremented(before, total, n, c + (i - i0));
    assert i > i0 ==> total[..c + 1] == "1" + Zeros(c);
  }

  lemma LeadingZero(s: string)
    requires Digits(s)
    ensures Digits("0" + s) && Number("0" + s) == Number(s)
  {
    NumberAppend("0", s);
    NumberOfOne('0');
  }

  lemma NumberOfNothing()
    ensures Number("") == 0
  {
  }

  lemma ExtendingRounds(intpart: string, fraction: string, digs: int)
    requires Digits(intpart) && Digits(fraction) && |fraction| <= digs
    ensures Rounded(intpart, fraction, digs, intpart, fraction + Times0(digs - |fraction|))
  {
    var z := Zeros(digs - |fraction|);
    assert intpart + (fraction + z) == intpart + fraction + z;
    NumberAppend(intpart + fraction, z);
    NumberOfZeros(|z|);
    assert Kept(intpart, fraction + z, digs) == intpart + fraction + z;
    hide Number, Pow;
  }

  /** The digits in front of the cut are the rounded number, whether the cut is behind or in front of the point. */
  lemma CutIsRounded(intpart0: string, fraction0: string, digs: int, intpart: string, fraction: string)
    requires Digits(intpart0) && Digits(fraction0) && 0 <= |intpart0| + digs < |intpart0| + |fraction0|
    requires Digits(intpart) && Digits(fraction) && |intpart0| <= |intpart| <= |intpart0| + 1 && |fraction| == |fraction0|
    requires HalfUp(Number(intpart0 + fraction0), |fraction0| - digs, Number(Kept(intpart, fraction, digs)))
    requires |intpart| > |intpart0| ==> Kept(intpart, fraction, digs) == "1" + Zeros(|intpart0| + digs)
    ensures digs >= 0 ==> Rounded(intpart0, fraction0, digs, intpart, Upto(fraction, digs))
    ensures digs < 0 ==> Rounded(intpart0, fraction0, digs, Upto(intpart, digs) + Times0(-digs), "")
  {
    hide Number, HalfUp;
    var kept := Kept(intpart, fraction, digs);
    if digs >= 0 {
      assert intpart + Upto(fraction, digs) == kept;
      assert Kept(intpart, Upto(fraction, digs), digs) == kept;
    } else {
      assert Upto(intpart, digs) == kept;
      assert Kept(kept + Times0(-digs), "", digs) == kept;
    }
  }

  /** A number with fewer digits than are cut off rounds to nothing. */
  lemma SmallIsZero(s: string, k: int)
    requires Digits(s) && |s| < k
    ensures HalfUp(Number(s), k, 0)
  {
    NumberBound(s);
    PowMono(|s|, k - 1);
    assert Pow(k) == 10 * Pow(k - 1);
    hide Pow, Number;
    FarBelow(Number(s), k);
  }

  lemma {:induction false} PowMono(a: nat, b: nat)
    requires a <= b
    ensures Pow(a) <= Pow(b)
    decreases b
  {
    if a < b { PowMono(a, b - 1); }
  }

  lemma FarBelow(n: nat, k: nat)
    requires k > 0 && 10 * n < Pow(k)
    ensures HalfUp(n, k, 0)
  {
    hide Pow;
  }

  /** The loop has found the last digit before `c` that is not a nine; the result, up to `c`, is one more. */
  lemma Incremented(before: string, after: string, n: nat, c: nat)
    requires Digits(before) && n < c <= |before| && before[n] != '9' && forall k :: n < k < c ==> before[k] == '9'
    requires after == before[..n] + [(before[n] as int + 1) as char] + Zeros(|before| - n - 1)
    ensures Digits(after) && |after| == |before| && Number(after[..c]) == Number(before[..c]) + 1
  {
    var x, d, m := before[..n], before[n], c - n - 1;
    CarryIsPlusOne(x, d, m);
    assert before[..c] == x + [d] + Nines(m);
    assert after[..c] == x + [(d as int + 1) as char] + Zeros(m);
  }

  // ---- what rounding means ----

  /** `r` units of 10^-digs are nearest to `v`, and a half is rounded up. */
  predicate Nearest(v: real, digs: int, r: nat) {
    var u := Power(-digs);
    (r as real - 0.5) * u <= v < (r as real + 0.5) * u
  }

  lemma PowerIsPositive(e: int)
    ensures Power(e) > 0.0
  {
  }

  lemma HalfUpIsNearest(n: nat, f: int, digs: int, r: nat, v: real)
    requires HalfUp(n, f - digs, r) && v == n as real * Power(-f)
    ensures Nearest(v, digs, r)
  {
    hide Pow, Power;
    var k := f - digs;
    PowerIsPositive(-f);
    PowerIsPositive(-digs);
    if k <= 0 {
      PowerShift(-digs, -k);
      assert -digs + -k == -f;
      ExactUnits(n, Pow(-k), r, Power(-digs), Power(-f));
    } else {
      PowerShift(-f, k);
      assert -f + k == -digs;
      Scale(n, Pow(k), r, Power(-f), Power(-digs));
    }
  }

  lemma ExactUnits(n: nat, p: nat, r: nat, u: real, q: real)
    requires r == n * p && p as real * u == q && u > 0.0
    ensures (r as real - 0.5) * u <= n as real * q < (r as real + 0.5) * u
  {
    Rescale(n, p, u, q);
    HalfUnits(r as real, u);
  }

  lemma HalfUnits(r: real, u: real)
    requires u > 0.0
    ensures (r - 0.5) * u <= r * u < (r + 0.5) * u
  {
  }

  lemma Scale(n: nat, p: nat, r: nat, q: real, u: real)
    requires 2 * r * p <= 2 * n + p < 2 * (r + 1) * p && q > 0.0 && p as real * q == u
    ensures (r as real - 0.5) * u <= n as real * q < (r as real + 0.5) * u
  {
    Rescale(r, p, q, u);
    var rp := r * p;
    assert 2 * r * p == 2 * rp && 2 * (r + 1) * p == 2 * rp + 2 * p;
    var x, y, z := rp as real, p as real, n as real;
    assert 2.0 * x <= 2.0 * z + y < 2.0 * x + 2.0 * y;
    RealMono(x - 0.5 * y, z, q);
    assert z < x + 0.5 * y;
    RealMonoStrict(z, x + 0.5 * y, q);
    assert (x - 0.5 * y) * q == r as real * u - 0.5 * u;
    assert (x + 0.5 * y) * q == r as real * u + 0.5 * u;
  }

  lemma RealMono(x: real, y: real, q: real)
    requires x <= y && q > 0.0
    ensures x * q <= y * q
  {
  }

  lemma RealMonoStrict(x: real, y: real, q: real)
    requires x < y && q > 0.0
    ensures x * q < y * q
  {
  }

  // ---- extract ----

  /** The digits at the beginning of a string, and the rest. */
  function SplitDigits(s: string): (r: (string, string))
    ensures Digits(r.0) && s == r.0 + r.1 && (r.1 != "" ==> !Digit(r.1[0]))
    decreases |s|
  {
    if s == "" || !Digit(s[0]) then ("", s)
    else var r := SplitDigits(s[1..]); ([s[0]] + r.0, r.1)
  }

  function WithoutZeros(s: string): (r: string)
    ensures |r| <= |s| && (r != "" ==> r[0] != '0')
    decreases |s|
  {
    if s != "" && s[0] == '0' then WithoutZeros(s[1..]) else s
  }

  datatype Option<T> = None | Some(value: T)

  predicate OctalDigits(s: string) { forall k :: 0 <= k < |s| ==> '0' <= s[k] <= '7' }

  function Octal(s: string): nat
    requires OctalDigits(s)
    decreases |s|
  {
    if s == "" then 0 else 8 * Octal(s[..|s| - 1]) + (s[|s| - 1] as int - '0' as int)
  }

  /** eval of a string of digits: with a leading zero it is octal, or not a number at all. */
  function Eval(s: string): Option<nat>
    requires Digits(s) && s != ""
  {
    if s[0] == '0' && |s| > 1 then (if OctalDigits(s) then Some(Octal(s)) else None) else Some(Number(s))
  }

  datatype Extracted =
    | NotANumber
    | BadExponent
    | Parts(sign: string, intpart: string, fraction: string, expo: int)

  predicate IsSign(c: char) { c == '+' || c == '-' }

  function Signed(negative: bool, n: nat): int { var i: int := n; if negative then -i else i }

  /** The part of a number behind the fraction: empty, or e and a number with or without a sign. */
  function ExtractExponent(t: string): Option<Option<int>> {
    if t == "" then Some(Some(0))
    else if t[0] != 'e' && t[0] != 'E' then None
    else
      var signed := |t| > 1 && IsSign(t[1]);
      var (ds, rest) := SplitDigits(if signed then t[2..] else t[1..]);
      if ds == "" || rest != "" then None
      else
        var e := Eval(ds);
        Some(if e.None? then None else Some(Signed(signed && t[1] == '-', e.value)))
  }

  /** What comes after the sign. */
  function ExtractBody(sign: string, s: string): (r: Extracted)
    ensures r.Parts? ==> Digits(r.intpart) && Digits(r.fraction) && (r.intpart != "" ==> r.intpart[0] != '0')
  {
    var (intpart, t) := SplitDigits(WithoutZeros(s));
    var (fraction, u) := if t != "" && t[0] == '.' then SplitDigits(t[1..]) else ("", t);
    Assembled(sign, intpart, fraction, ExtractExponent(u))
  }

  /** The parts of a number: its sign, its digits in front of the point and behind it, and its exponent. */
  function Extract(s: string): (r: Extracted)
    ensures r.Parts? ==> Digits(r.intpart) && Digits(r.fraction) && (r.intpart != "" ==> r.intpart[0] != '0')
  {
    if s != "" && IsSign(s[0]) then ExtractBody(if s[0] == '-' then "-" else "", s[1..]) else ExtractBody("", s)
  }

  function Assembled(sign: string, intpart: string, fraction: string, e: Option<Option<int>>): Extracted {
    if e.None? then NotANumber
    else if e.value.None? then BadExponent
    else Parts(sign, intpart, fraction, e.value.value)
  }

  lemma {:induction false} OctalIsSmaller(s: string)
    requires OctalDigits(s)
    ensures Digits(s) && Octal(s) <= Number(s) && (Octal(s) == Number(s) <==> Number(s) < 8)
    decreases |s|
  {
    if s != "" { OctalIsSmaller(s[..|s| - 1]); }
  }

  lemma {:induction false} SmallIsOctal(s: string)
    requires Digits(s) && Number(s) < 8
    ensures OctalDigits(s)
    decreases |s|
  {
    if s != "" {
      SmallIsOctal(s[..|s| - 1]);
      assert s == s[..|s| - 1] + [s[|s| - 1]];
    }
  }

  /** An exponent is understood as it is meant exactly if it has no leading zero, or denotes less than eight. */
  lemma ExponentIsMeant(s: string)
    requires Digits(s) && s != ""
    ensures Eval(s) == Some(Number(s)) <==> s[0] != '0' || |s| == 1 || Number(s) < 8
  {
    if OctalDigits(s) { OctalIsSmaller(s); }
    if Number(s) < 8 { SmallIsOctal(s); }
  }

  // ---- fix ----

  datatype Result = Raised | Text(text: string)

  function Largest(a: int, b: int): int { if a > b then a else b }

  /** [-]ddd.ddd */
  function FixText(sign: string, intpart: string, fraction: string, digs: int): string {
    if digs > 0 then sign + intpart + "." + fraction else sign + intpart
  }

  /** intpart.fraction is `v` rounded at `digs` places; there is one digit at least, and no needless zero in front. */
  ghost predicate Fixed(v: real, digs: int, intpart: string, fraction: string) {
    && Digits(intpart) && Digits(fraction) && intpart != "" && (intpart[0] == '0' ==> intpart == "0")
    && |fraction| == Largest(digs, 0)
    && (digs >= 0 ==> Nearest(v, digs, Number(intpart + fraction)))
    && (digs < 0 ==> exists units: nat :: Nearest(v, digs, units) && Number(intpart) == units * Pow(-digs))
  }

  lemma RoundedIsNearest(i: string, f: string, digs: int, intpart: string, fraction: string)
    requires Digits(i) && Digits(f) && Rounded(i, f, digs, intpart, fraction)
    ensures digs >= 0 ==> Nearest(Value(i, f, 0), digs, Number(intpart + fraction))
    ensures digs < 0 ==> exists units: nat :: Nearest(Value(i, f, 0), digs, units) && Number(intpart) == units * Pow(-digs)
  {
    hide HalfUp, Nearest, Number, Pow, Power;
    var kept := Kept(intpart, fraction, digs);
    HalfUpIsNearest(Number(i + f), |f|, digs, Number(kept), Value(i, f, 0));
    if digs >= 0 {
      assert kept == intpart + fraction;
    } else {
      assert intpart == kept + Zeros(-digs);
      NumberAppend(kept, Zeros(-digs));
      NumberOfZeros(-digs);
    }
  }

  lemma DropZero(s: string, rest: string)
    requires Digits(s) && s != "" && s[0] == '0' && Digits(rest)
    ensures Digits(s[1..]) && Number(s[1..]) == Number(s) && Number(s[1..] + rest) == Number(s + rest)
  {
    assert s == "0" + s[1..];
    LeadingZero(s[1..]);
    NumberAppend(s, rest);
    NumberAppend(s[1..], rest);
  }

  /** A number in plain notation with `digs` digits behind the point; what is not a number is returned as it is. */
  method Fix(x: string, digs: int) returns (r: Result)
    ensures match Extract(x)
      case NotANumber => r == Text(x)
      case BadExponent => r == Raised
      case Parts(sign, i, f, e) => r.Text? && exists intpart: string, fraction: string ::
        Fixed(Value(i, f, e), digs, intpart, fraction) && r.text == FixText(sign, intpart, fraction, digs)
  {
    hide Number, Pow, Power, Nearest, Value, Rounded;
    match Extract(x)
    case NotANumber => return Text(x);
    case BadExponent => return Raised;
    case Parts(sign, i, f, e) =>
      var (intpart, fraction) := Unexpo(i, f, e);
      UnexpoKeepsValue(i, f, e);
      ghost var i1, f1 := intpart, fraction;
      intpart, fraction := RoundFrac(intpart, fraction, digs);
      RoundedIsNearest(i1, f1, digs, intpart, fraction);
      RoundedParts(i1, f1, digs, intpart, fraction);
      ghost var i2 := intpart;
      while intpart != "" && intpart[0] == '0'
        invariant Digits(intpart) && Number(intpart) == Number(i2) && Number(intpart + fraction) == Number(i2 + fraction)
        decreases |intpart|
      {
        DropZero(intpart, fraction);
        intpart := intpart[1..];
      }
      if intpart == "" {
        LeadingZero("");
        LeadingZero(fraction);
        assert "" + fraction == fraction && "0" + "" == "0";
        intpart := "0";
      }
      assert Fixed(Value(i, f, e), digs, intpart, fraction);
      r := Text(FixText(sign, intpart, fraction, digs));
  }

  lemma RoundedParts(i: string, f: string, digs: int, intpart: string, fraction: string)
    requires Digits(i) && Digits(f) && Rounded(i, f, digs, intpart, fraction)
    ensures Digits(intpart) && Digits(fraction) && |fraction| == Largest(digs, 0)
  {
  }

  // ---- sci ----

  /** The decimal digits of a number. */
  function Decimal(n: nat): (s: string)
    ensures Digits(s) && s != "" && Number(s) == n && (s[0] == '0' ==> s == "0")
    decreases n
  {
    var d := ('0' as int + n % 10) as char;
    assert [d][..0] == "";
    if n < 10 then [d]
    else
      var s := Decimal(n / 10) + [d];
      assert s[..|s| - 1] == Decimal(n / 10);
      s
  }

  /** [+-]ddd */
  function ExpoText(expo: int): string {
    var e := Decimal(if expo < 0 then -expo else expo);
    (if expo < 0 then "-" else "+") + (Times0(3 - |e|) + e)
  }

  /** [-]d.dddE[+-]ddd */
  function SciText(sign: string, intpart: string, fraction: string, digs: int, expo: int): string {
    FixText(sign, intpart, fraction, digs) + ("e" + ExpoText(expo))
  }

  /** One digit in front of the point, which is not a zero unless the number is: what sci works on. */
  predicate Normal(intpart: string, fraction: string) {
    Digits(intpart) && Digits(fraction) && |intpart| == 1 && (intpart == "0" ==> fraction == "")
  }

  /** d.ddd e `expo` is `v` rounded at `digs` places after the first digit of `v`, which is at 10^`first`; when the
      rounding carries through all digits, the result is 1.000 with the next exponent. */
  ghost predicate Scientific(v: real, digs: nat, intpart: string, fraction: string, expo: int, first: int) {
    && Digits(intpart) && Digits(fraction) && |intpart| == 1 && |fraction| == digs
    && (v > 0.0 ==> intpart != "0" && Power(first) <= v < Power(first + 1))
    && (v == 0.0 ==> intpart + fraction == Zeros(1 + digs))
    && (expo == first || (expo == first + 1 && intpart + fraction == "1" + Zeros(digs)))
    && Nearest(v, digs - first, Number(intpart + fraction) * Pow(expo - first))
  }

  /** Moving the point and the exponent together changes nothing. */
  lemma SameDigits(a: string, b: string, e: int, c: string, d: string, e1: int)
    requires Digits(a) && Digits(b) && Digits(c) && Digits(d) && a + b == c + d && e - |b| == e1 - |d|
    ensures Value(a, b, e) == Value(c, d, e1)
  {
  }

  lemma ZeroFraction(f: string, e: int)
    requires Digits(f) && f != "" && f[0] == '0'
    ensures Digits(f[1..]) && Value("", f, e) == Value("", f[1..], e - 1)
  {
    hide Number, Power;
    DropZero(f, "");
    assert "" + f == f && "" + f[1..] == f[1..] && f + "" == f;
    assert e - |f| == e - 1 - |f[1..]|;
  }

  /** The first part of sci: one digit before the point. */
  method Normalize(intpart0: string, fraction0: string, expo0: int) returns (intpart: string, fraction: string, expo: int)
    requires Digits(intpart0) && Digits(fraction0) && (intpart0 != "" ==> intpart0[0] != '0')
    ensures Normal(intpart, fraction) && Value(intpart, fraction, expo) == Value(intpart0, fraction0, expo0)
  {
    hide Value, Number, Power, Pow;
    intpart, fraction, expo := intpart0, fraction0, expo0;
    if intpart == "" {
      while fraction != "" && fraction[0] == '0'
        invariant Digits(fraction) && Value("", fraction, expo) == Value(intpart0, fraction0, expo0)
        decreases |fraction|
      {
        ZeroFraction(fraction, expo);
        fraction := fraction[1..];
        expo := expo - 1;
      }
      if fraction != "" {
        SameDigits("", fraction, expo, fraction[..1], fraction[1..], expo - 1);
        intpart, fraction := fraction[..1], fraction[1..];
        expo := expo - 1;
      } else {
        ZeroIsZero(expo);
        intpart := "0";
      }
    } else {
      SameDigits(intpart, fraction, expo, intpart[..1], intpart[1..] + fraction, expo + |intpart| - 1);
      expo := expo + |intpart| - 1;
      intpart, fraction := intpart[..1], intpart[1..] + fraction;
    }
  }

  lemma ZeroIsZero(e: int)
    ensures Value("0", "", e) == 0.0 == Value("", "", e)
  {
    assert "0" + "" == "0" && "" + "" == "";
    LeadingZero("");
    assert "0" + "" == "0";
  }

  lemma LeadingDigit(s: string)
    requires Digits(s) && s != ""
    ensures s[0] != '0' ==> Pow(|s| - 1) <= Number(s)
    ensures s[0] == '0' ==> Number(s) < Pow(|s| - 1)
  {
    var rest := s[1..];
    assert s == [s[0]] + rest;
    NumberAppend([s[0]], rest);
    NumberOfOne(s[0]);
    NumberBound(rest);
    hide Pow, Number;
    if s[0] != '0' { MulMono(1, DigitValue(s[0]), Pow(|rest|)); }
  }

  lemma {:induction false} ZeroNumber(s: string)
    requires Digits(s) && Number(s) == 0
    ensures s == Zeros(|s|)
    decreases |s|
  {
    if s != "" {
      ZeroNumber(s[..|s| - 1]);
      assert s == s[..|s| - 1] + [s[|s| - 1]];
    }
  }

  lemma BoundsAt(n: nat, f: nat, x: int)
    requires Pow(f) <= n < Pow(f + 1)
    ensures Power(x + f) <= n as real * Power(x) < Power(x + f + 1) && n as real * Power(x) > 0.0
  {
    hide Pow, Power;
    PowerIsPositive(x);
    PowerIsPositive(x + f);
    PowerShift(x, f);
    PowerShift(x, f + 1);
    assert x + (f + 1) == x + f + 1;
    Between(Pow(f), n, Pow(f + 1), Power(x), Power(x + f), Power(x + f + 1));
  }

  /** Where the first digit of a number is. */
  lemma NormalBounds(i: string, f: string, e: int)
    requires Normal(i, f)
    ensures if i == "0" then Value(i, f, e) == 0.0 else Power(e) <= Value(i, f, e) < Power(e + 1) && Value(i, f, e) > 0.0
  {
    hide Pow, Number, Power;
    if i == "0" {
      ZeroIsZero(e);
    } else {
      assert |i + f| - 1 == |f| && (i + f)[0] == i[0] != '0';
      LeadingDigit(i + f);
      NumberBound(i + f);
      BoundsAt(Number(i + f), |f|, e - |f|);
    }
  }

  lemma Between(p: nat, n: nat, p1: nat, q: real, u: real, w: real)
    requires p <= n < p1 && q > 0.0 && p as real * q == u && p1 as real * q == w && u > 0.0
    ensures u <= n as real * q < w && n as real * q > 0.0
  {
    RealMono(p as real, n as real, q);
    RealMonoStrict(n as real, p1 as real, q);
  }

  /** Rounding does not lose the first digit. */
  lemma FirstDigitStays(n: nat, f: nat, digs: nat, r: nat)
    requires Pow(f) <= n && HalfUp(n, f - digs, r)
    ensures Pow(digs) <= r
  {
    hide Pow;
    if f <= digs {
      PowAdd(f, digs - f);
      MulMono(Pow(f), n, Pow(digs - f));
    } else {
      PowAdd(digs, f - digs);
      if r < Pow(digs) {
        MulMono(2 * (r + 1), 2 * Pow(digs), Pow(f - digs));
        Doubled(Pow(digs), Pow(f - digs));
        assert false;
      }
    }
  }

  lemma Doubled(x: nat, p: nat)
    ensures 2 * x * p == 2 * (x * p)
  {
  }

  /** "1" and zeros: what a carry through all digits leaves. */
  lemma OneAndZeros(n: nat)
    ensures Digits("1" + Zeros(n)) && Number("1" + Zeros(n)) == Pow(n)
  {
    NumberAppend("1", Zeros(n));
    NumberOfOne('1');
    NumberOfZeros(n);
  }

  /** The rounded digits without a carry. */
  lemma NoCarry(i: string, f: string, e: int, digs: nat, intpart: string, fraction: string)
    requires Normal(i, f) && Rounded(i, f, digs, intpart, fraction) && |intpart| == 1
    ensures Scientific(Value(i, f, e), digs, intpart, fraction, e, e)
  {
    hide Value, Number, Power, HalfUp;
    var v, r := Value(i, f, e), Number(intpart + fraction);
    assert Kept(intpart, fraction, digs) == intpart + fraction;
    NormalBounds(i, f, e);
    SciNearest(i, f, e, digs, r);
    if i == "0" {
      ZeroRounds(f, digs, r);
      ZeroNumber(intpart + fraction);
    } else {
      LeadingDigit(i + f);
      FirstDigitStays(Number(i + f), |f|, digs, r);
      LeadingDigit(intpart + fraction);
    }
    assert r * Pow(e - e) == r;
  }

  lemma ZeroRounds(f: string, digs: nat, r: nat)
    requires f == "" && HalfUp(Number("0" + f), |f| - digs, r)
    ensures r == 0
  {
    assert "0" + f == "0";
    NumberOfOne('0');
  }

  lemma SciNearest(i: string, f: string, e: int, digs: nat, r: nat)
    requires Digits(i) && Digits(f) && HalfUp(Number(i + f), |f| - digs, r)
    ensures Nearest(Value(i, f, e), digs - e, r)
  {
    hide Number, Power, HalfUp, Nearest;
    assert (|f| - e) - (digs - e) == |f| - digs && -(|f| - e) == e - |f|;
    HalfUpIsNearest(Number(i + f), |f| - e, digs - e, r, Value(i, f, e));
  }

  /** The rounded digits after a carry through all of them: one digit is moved behind the point. */
  lemma Carried(i: string, f: string, e: int, digs: nat, intpart: string, fraction: string)
    requires Normal(i, f) && Rounded(i, f, digs, intpart, fraction) && |intpart| == 2
    ensures intpart == "10" && fraction == Zeros(digs)
    ensures Scientific(Value(i, f, e), digs, "1", Zeros(digs), e + 1, e)
  {
    hide Value, Number, Power, HalfUp;
    var all := intpart + fraction;
    assert all == "1" + Zeros(1 + digs);
    assert intpart[0] == all[0] && intpart[1] == all[1];
    assert fraction == all[2..];
    OneAndZeros(digs + 1);
    OneAndZeros(digs);
    var r := Number(all);
    assert Kept(intpart, fraction, digs) == all;
    NormalBounds(i, f, e);
    SciNearest(i, f, e, digs, r);
    if i == "0" { ZeroRounds(f, digs, r); }
    assert e + 1 - e == 1 && Pow(1) == 10 && r == Pow(digs) * 10;
  }

  /** A number in scientific notation: one digit in front of the point, and `digs` behind it. */
  method Sci(x: string, digs0: int) returns (r: Result)
    ensures match Extract(x)
      case Parts(sign, i, f, e) => r.Text? &&
        exists intpart: string, fraction: string, expo: int, first: int ::
          Scientific(Value(i, f, e), Largest(digs0, 0), intpart, fraction, expo, first)
          && r.text == SciText(sign, intpart, fraction, digs0, expo)
      case _ => r == Raised
  {
    hide Value, Number, Pow, Power, Scientific, Rounded, Normal;
    match Extract(x)
    case NotANumber => return Raised;
    case BadExponent => return Raised;
    case Parts(sign, i, f, e) =>
      var intpart, fraction, expo := Normalize(i, f, e);
      var digs := Largest(0, digs0);
      ghost var i1, f1, e1 := intpart, fraction, expo;
      NormalDigits(i1, f1);
      intpart, fraction := RoundFrac(intpart, fraction, digs);
      RoundedLength(i1, f1, digs, intpart, fraction);
      if |intpart| > 1 {
        Carried(i1, f1, e1, digs, intpart, fraction);
        assert intpart[..1] == "1";
        intpart, fraction, expo := intpart[..1], intpart[1..] + Upto(fraction, -1), expo + |intpart| - 1;
        assert digs > 0 ==> fraction == Zeros(digs);
        assert Scientific(Value(i, f, e), digs, intpart, if digs > 0 then fraction else "", expo, e1) by {
          assert Zeros(0) == "";
        }
      } else {
        NoCarry(i1, f1, e1, digs, intpart, fraction);
        assert digs == 0 ==> fraction == "";
        assert Scientific(Value(i, f, e), digs, intpart, if digs > 0 then fraction else "", expo, e1);
      }
      var text := SciTextOf(sign, intpart, fraction, digs0, expo);
      assert SciText(sign, intpart, fraction, digs0, expo) == SciText(sign, intpart, if digs > 0 then fraction else "", digs0, expo);
      assert digs == Largest(digs0, 0);
      r := Text(text);
  }

  method SciTextOf(sign: string, intpart: string, fraction: string, digs: int, expo: int) returns (r: string)
    ensures r == SciText(sign, intpart, fraction, digs, expo)
  {
    hide ExpoText;
    var s := sign + intpart;
    if digs > 0 { s := s + "." + fraction; }
    var exp := ExpoDigits(expo);
    r := s + "e" + exp;
    assert r == s + ("e" + exp);
  }

  lemma NormalDigits(i: string, f: string)
    requires Normal(i, f)
    ensures Digits(i) && Digits(f) && |i| == 1
  {
  }

  lemma RoundedLength(i: string, f: string, digs: nat, intpart: string, fraction: string)
    requires Digits(i) && Digits(f) && Rounded(i, f, digs, intpart, fraction)
    ensures |fraction| == digs && |i| <= |intpart| <= |i| + 1
  {
  }

  /** The exponent with its sign and at least three digits. */
  method ExpoDigits(expo: int) returns (e: string)
    ensures e == ExpoText(expo)
  {
    e := Decimal(if expo < 0 then -expo else expo);
    e := Times0(3 - |e|) + e;
    if expo < 0 { e := "-" + e; } else { e := "+" + e; }
  }

  // ---- which strings are numbers ----

  datatype Exponent = NoExponent | Exponent(mark: char, sign: string, digits: string)

  /** The pieces of a number as it is written. */
  datatype Numeral = Numeral(sign: string, zeros: nat, intpart: string, point: bool, fraction: string, exponent: Exponent)

  predicate WellFormedExponent(x: Exponent) {
    x.Exponent? ==>
      && (x.mark == 'e' || x.mark == 'E') && (x.sign == "" || x.sign == "+" || x.sign == "-")
      && Digits(x.digits) && x.digits != ""
  }

  /** A sign or none, zeros, digits that do not begin with one, a point with digits or none, an exponent or none. */
  predicate WellFormed(n: Numeral) {
    && (n.sign == "" || n.sign == "+" || n.sign == "-")
    && Digits(n.intpart) && (n.intpart != "" ==> n.intpart[0] != '0')
    && Digits(n.fraction) && (!n.point ==> n.fraction == "")
    && WellFormedExponent(n.exponent)
  }

  function ExponentText(x: Exponent): string {
    if x.NoExponent? then "" else [x.mark] + (x.sign + x.digits)
  }

  function BodyText(n: Numeral): string {
    Zeros(n.zeros) + (n.intpart + ((if n.point then "." + n.fraction else "") + ExponentText(n.exponent)))
  }

  function NumeralText(n: Numeral): string { n.sign + BodyText(n) }

  lemma ExponentExtracted(x: Exponent)
    requires WellFormedExponent(x)
    ensures x.NoExponent? ==> ExtractExponent(ExponentText(x)) == Some(Some(0))
    ensures x.Exponent? ==>
      var e := Eval(x.digits);
      ExtractExponent(ExponentText(x)) == Some(if e.None? then None else Some(e.value * if x.sign == "-" then -1 else 1))
  {
    hide SplitDigits, Eval, ExponentText;
    ExponentTextParts(x);
    if x.Exponent? {
      SplitDigitsOf(x.digits, "");
      assert x.digits + "" == x.digits;
    }
  }

  lemma ExponentTextParts(x: Exponent)
    requires WellFormedExponent(x)
    ensures x.NoExponent? ==> ExponentText(x) == ""
    ensures x.Exponent? ==>
      var t := ExponentText(x);
      && |t| > 1 && t[0] == x.mark && !IsSign(x.digits[0])
      && if x.sign == "" then t[1..] == x.digits && t[1] == x.digits[0] else t[2..] == x.digits && t[1] == x.sign[0]
  {
    if x.Exponent? { assert Digit(x.digits[0]); }
  }

  lemma {:induction false} ZerosStripped(z: nat, rest: string)
    requires rest != "" ==> rest[0] != '0'
    ensures WithoutZeros(Zeros(z) + rest) == rest
    decreases z
  {
    if z == 0 {
      assert Zeros(0) + rest == rest;
    } else {
      assert (Zeros(z) + rest)[0] == '0' && (Zeros(z) + rest)[1..] == Zeros(z - 1) + rest;
      ZerosStripped(z - 1, rest);
    }
  }

  lemma ExponentStarts(x: Exponent)
    requires WellFormedExponent(x)
    ensures ExponentText(x) != "" ==> !Digit(ExponentText(x)[0]) && ExponentText(x)[0] != '.'
  {
  }

  lemma BodyExtracted(sign: string, n: Numeral)
    requires WellFormed(n)
    ensures ExtractBody(sign, BodyText(n)) == Assembled(sign, n.intpart, n.fraction, ExtractExponent(ExponentText(n.exponent)))
  {
    hide SplitDigits, WithoutZeros, ExtractExponent, Assembled, ExponentText, WellFormedExponent;
    var u := ExponentText(n.exponent);
    var tail := (if n.point then "." + n.fraction else "") + u;
    ExponentStarts(n.exponent);
    TailStarts(n.point, n.fraction, u);
    ZerosStripped(n.zeros, n.intpart + tail);
    SplitDigitsOf(n.intpart, tail);
    if n.point {
      assert tail[1..] == n.fraction + u;
      SplitDigitsOf(n.fraction, u);
    } else {
      assert tail == u;
    }
  }

  lemma TailStarts(point: bool, fraction: string, u: string)
    requires u != "" ==> !Digit(u[0]) && u[0] != '.'
    ensures var tail := (if point then "." + fraction else "") + u;
      && (tail != "" ==> !Digit(tail[0])) && (tail != "" && tail[0] == '.' <==> point)
  {
  }

  lemma BodyStarts(n: Numeral)
    requires WellFormed(n)
    ensures BodyText(n) != "" ==> !IsSign(BodyText(n)[0])
  {
    var u := ExponentText(n.exponent);
    var tail := (if n.point then "." + n.fraction else "") + u;
    assert tail != "" ==> !IsSign(tail[0]);
    assert n.intpart != "" ==> Digit(n.intpart[0]);
    assert n.intpart + tail != "" ==> !IsSign((n.intpart + tail)[0]);
    assert n.zeros > 0 ==> Zeros(n.zeros)[0] == '0';
  }

  /** Every such string is taken apart into its pieces: the sign only if it is a minus, the zeros not at all, and the
      exponent as it is evaluated, 0 if there is none. */
  lemma NumeralIsExtracted(n: Numeral)
    requires WellFormed(n)
    ensures var sign := if n.sign == "-" then "-" else "";
      n.exponent.NoExponent? ==> Extract(NumeralText(n)) == Parts(sign, n.intpart, n.fraction, 0)
    ensures n.exponent.Exponent? && Eval(n.exponent.digits).None? ==> Extract(NumeralText(n)) == BadExponent
    ensures var sign := if n.sign == "-" then "-" else "";
      n.exponent.Exponent? && Eval(n.exponent.digits).Some? ==>
      var e := Eval(n.exponent.digits).value;
      Extract(NumeralText(n)) == Parts(sign, n.intpart, n.fraction, e * if n.exponent.sign == "-" then -1 else 1)
  {
    hide ExtractBody, ExtractExponent, BodyText, Eval, WellFormedExponent;
    var sign := if n.sign == "-" then "-" else "";
    SignIsRead(n.sign, BodyText(n), n);
    BodyExtracted(sign, n);
    ExponentExtracted(n.exponent);
  }

  lemma SignIsRead(sign: string, body: string, n: Numeral)
    requires WellFormed(n) && sign == n.sign && body == BodyText(n)
    ensures Extract(sign + body) == ExtractBody(if sign == "-" then "-" else "", body)
  {
    hide ExtractBody, BodyText;
    BodyStarts(n);
    if sign == "" { assert sign + body == body; } else { assert (sign + body)[1..] == body; }
  }

  /** And nothing else is a number. */
  lemma OnlyNumerals(s: string) returns (n: Numeral)
    requires !Extract(s).NotANumber?
    ensures WellFormed(n) && NumeralText(n) == s
  {
    hide ExtractBody;
    if s != "" && IsSign(s[0]) {
      var body := OnlyBodies(if s[0] == '-' then "-" else "", s[1..]);
      n := body.(sign := s[..1]);
      assert s == s[..1] + s[1..];
    } else {
      n := OnlyBodies("", s);
      assert "" + s == s;
    }
  }

  lemma OnlyBodies(sign: string, s: string) returns (n: Numeral)
    requires !ExtractBody(sign, s).NotANumber?
    ensures WellFormed(n) && n.sign == "" && BodyText(n) == s
  {
    hide SplitDigits, WithoutZeros, ExtractExponent, WellFormedExponent, ExponentText;
    var rest := WithoutZeros(s);
    ZerosGone(s);
    var (intpart, t) := SplitDigits(rest);
    var point := t != "" && t[0] == '.';
    var (fraction, u) := if point then SplitDigits(t[1..]) else ("", t);
    var x := OnlyExponents(u);
    n := Numeral("", |s| - |rest|, intpart, point, fraction, x);
    assert t == (if point then "." + fraction else "") + u by {
      if point { assert t == "." + t[1..]; } else { assert "" + u == u; }
    }
  }

  lemma {:induction false} ZerosGone(s: string)
    ensures s == Zeros(|s| - |WithoutZeros(s)|) + WithoutZeros(s)
    decreases |s|
  {
    if s != "" && s[0] == '0' {
      ZerosGone(s[1..]);
      var z := |s| - 1 - |WithoutZeros(s[1..])|;
      assert s == ['0'] + s[1..] && ['0'] + Zeros(z) == Zeros(z + 1);
    }
  }

  lemma OnlyExponents(t: string) returns (x: Exponent)
    requires ExtractExponent(t).Some?
    ensures WellFormedExponent(x) && ExponentText(x) == t
  {
    hide SplitDigits, Eval, Signed;
    if t == "" {
      x := NoExponent;
    } else {
      var signed := |t| > 1 && IsSign(t[1]);
      var (ds, rest) := SplitDigits(if signed then t[2..] else t[1..]);
      var sign := if signed then [t[1]] else "";
      x := Exponent(t[0], sign, ds);
      assert ds + "" == ds;
      ThreeParts(t, sign, ds);
    }
  }

  lemma ThreeParts(t: string, sign: string, ds: string)
    requires |sign| <= 1 && |sign| < |t| && t[1 + |sign|..] == ds && (sign != "" ==> sign[0] == t[1])
    ensures t == [t[0]] + (sign + ds)
  {
  }

  // ---- what a leading zero means ----

  function OctalText(n: nat): (s: string)
    ensures OctalDigits(s)
  {
    if n == 0 then "" else OctalText(n / 8) + [('0' as int + n % 8) as char]
  }

  lemma {:induction false} OctalTextDenotes(n: nat)
    ensures Octal(OctalText(n)) == n
  {
    if n > 0 {
      OctalTextDenotes(n / 8);
      assert OctalText(n)[..|OctalText(n)| - 1] == OctalText(n / 8);
    }
  }

  lemma {:induction false} OctalLeadingZero(s: string)
    requires OctalDigits(s)
    ensures OctalDigits("0" + s) && Octal("0" + s) == Octal(s)
    decreases |s|
  {
    if s == "" {
      assert "0" + s == "0" && "0"[..0] == "";
    } else {
      OctalLeadingZero(s[..|s| - 1]);
      assert ("0" + s)[..|s|] == "0" + s[..|s| - 1];
    }
  }

  /** Digits behind a zero are octal: those of a number denote it, and an 8 or a 9 among them is an error. */
  lemma LeadingZeroIsOctal(n: nat, s: string)
    ensures n > 0 ==> Digits("0" + OctalText(n)) && Eval("0" + OctalText(n)) == Some(n)
    ensures Digits(s) && s != "" ==> Digits("0" + s) && (Eval("0" + s).None? <==> '8' in s || '9' in s)
  {
    OctalTextDenotes(n);
    OctalLeadingZero(OctalText(n));
    hide Octal, OctalText;
    var t := "0" + s;
    assert forall k :: 0 <= k < |s| ==> t[k + 1] == s[k];
    if Digits(s) { HasLargeDigit(s); }
  }

  lemma HasLargeDigit(s: string)
    requires Digits(s)
    ensures OctalDigits("0" + s) <==> '8' !in s && '9' !in s
  {
    var t := "0" + s;
    if '8' !in s && '9' !in s {
      forall k | 0 <= k < |t| ensures '0' <= t[k] <= '7' {
        if k > 0 { assert t[k] == s[k - 1] && s[k - 1] in s && Digit(s[k - 1]); }
      }
    } else {
      var k :| 0 <= k < |s| && (s[k] == '8' || s[k] == '9');
      assert t[k + 1] == s[k];
    }
  }

  /** What fix has written is read back as the same number without an exponent. */
  lemma FixReadsBack(sign: string, intpart: string, fraction: string, digs: int)
    requires (sign == "" || sign == "-") && Digits(intpart) && intpart != "" && (intpart[0] == '0' ==> intpart == "0")
    requires Digits(fraction) && |fraction| == Largest(digs, 0)
    ensures Extract(FixText(sign, intpart, fraction, digs)) == Parts(sign, if intpart == "0" then "" else intpart, fraction, 0)
  {
    hide Extract, FixText, NumeralText;
    var zero := intpart == "0";
    var n := Numeral(sign, if zero then 1 else 0, if zero then "" else intpart, digs > 0, fraction, NoExponent);
    NumeralIsExtracted(n);
    FixTextIsNumeral(sign, intpart, fraction, digs);
  }

  lemma FixTextIsNumeral(sign: string, intpart: string, fraction: string, digs: int)
    ensures var zero := intpart == "0";
      FixText(sign, intpart, fraction, digs) ==
        NumeralText(Numeral(sign, if zero then 1 else 0, if zero then "" else intpart, digs > 0, fraction, NoExponent))
  {
    var tail := if digs > 0 then "." + fraction else "";
    assert tail + "" == tail && "" + tail == tail;
    assert Zeros(0) + (intpart + tail) == intpart + tail && Zeros(1) + tail == "0" + tail;
    assert sign + (intpart + tail) == sign + intpart + tail;
    assert digs > 0 ==> sign + intpart + tail == sign + intpart + "." + fraction;
    assert digs <= 0 ==> sign + intpart + tail == sign + intpart;
  }

  // ---- reading back what sci wrote ----

  lemma {:induction false} SplitDigitsOf(d: string, rest: string)
    requires Digits(d) && (rest != "" ==> !Digit(rest[0]))
    ensures SplitDigits(d + rest) == (d, rest)
    decreases |d|
  {
    if d == "" {
      assert d + rest == rest;
    } else {
      assert (d + rest)[1..] == d[1..] + rest && (d + rest)[0] == d[0];
      assert [d[0]] + d[1..] == d;
      SplitDigitsOf(d[1..], rest);
    }
  }

  lemma ExpoTextReads(expo: int)
    ensures var ds := ExpoText(expo)[1..];
      && Digits(ds) && ds != "" && Number(ds) == (if expo < 0 then -expo else expo)
      && (ds[0] == '0' && |ds| > 1 <==> -100 < expo < 100)
  {
    var n := if expo < 0 then -expo else expo;
    var e := Decimal(n);
    var z := Zeros(if 3 - |e| > 0 then 3 - |e| else 0);
    assert ExpoText(expo)[1..] == z + e;
    NumberAppend(z, e);
    NumberOfZeros(|z|);
    LeadingDigit(e);
    NumberBound(e);
    assert Pow(1) == 10 && Pow(2) == 100;
    if |e| > 3 { PowAdd(2, |e| - 3); MulMono(1, Pow(|e| - 3), 100); }
  }

  lemma SignedExponent(negative: bool, ds: string)
    requires Digits(ds) && ds != ""
    ensures ExtractExponent("e" + ((if negative then "-" else "+") + ds)) ==
      Some(if Eval(ds).None? then None else Some(Signed(negative, Eval(ds).value)))
  {
    hide SplitDigits, Eval;
    var t := "e" + ((if negative then "-" else "+") + ds);
    assert t[2..] == ds && t[1] == (if negative then '-' else '+');
    SplitDigitsOf(ds, "");
    assert ds + "" == ds;
  }

  lemma ExponentReads(expo: int)
    ensures ExtractExponent("e" + ExpoText(expo)).Some?
    ensures ExtractExponent("e" + ExpoText(expo)) == Some(Some(expo)) <==> -8 < expo < 8 || expo <= -100 || 100 <= expo
  {
    ExpoTextReads(expo);
    ExpoTextSplits(expo);
    hide *;
    PaddedExponentReads(expo, ExpoText(expo)[1..]);
  }

  lemma ExpoTextSplits(expo: int)
    ensures ExpoText(expo) == (if expo < 0 then "-" else "+") + ExpoText(expo)[1..]
  {
  }

  lemma PaddedExponentReads(expo: int, ds: string)
    requires Digits(ds) && ds != "" && Number(ds) == (if expo < 0 then -expo else expo)
    requires ds[0] == '0' && |ds| > 1 <==> -100 < expo < 100
    ensures var r := ExtractExponent("e" + ((if expo < 0 then "-" else "+") + ds));
      r.Some? && (r == Some(Some(expo)) <==> -8 < expo < 8 || expo <= -100 || 100 <= expo)
  {
    hide Number, Eval, ExtractExponent;
    SignedExponent(expo < 0, ds);
    ExponentIsMeant(ds);
  }

  /** What sci writes is read back as the same number exactly if the exponent has one digit below eight, or three or
      more: two digits get a zero in front and are then read as octal. */
  lemma SciReadsBack(sign: string, intpart: string, fraction: string, digs: int, expo: int)
    requires (sign == "" || sign == "-") && Digits(intpart) && |intpart| == 1 && Digits(fraction) && |fraction| == Largest(digs, 0)
    ensures Extract(SciText(sign, intpart, fraction, digs, expo))
        == Parts(sign, if intpart == "0" then "" else intpart, fraction, expo)
      <==> -8 < expo < 8 || expo <= -100 || 100 <= expo
  {
    hide ExpoText, Number, Extract, SciText, Eval, NumeralText, ExtractExponent;
    assert intpart == [intpart[0]];
    SciTextIsNumeral(sign, intpart, fraction, digs, expo);
    var ds := ExpoText(expo)[1..];
    var zero := intpart == "0";
    var x := Exponent('e', if expo < 0 then "-" else "+", ds);
    ExpoTextReads(expo);
    ExponentIsMeant(ds);
    NumeralIsExtracted(Numeral(sign, if zero then 1 else 0, if zero then "" else intpart, digs > 0, fraction, x));
  }

  lemma SciTextIsNumeral(sign: string, intpart: string, fraction: string, digs: int, expo: int)
    requires |fraction| == Largest(digs, 0)
    ensures ExpoText(expo) != ""
    ensures var zero := intpart == "0";
      SciText(sign, intpart, fraction, digs, expo) == NumeralText(
        Numeral(sign, if zero then 1 else 0, if zero then "" else intpart, digs > 0, fraction,
                Exponent('e', if expo < 0 then "-" else "+", ExpoText(expo)[1..])))
  {
    hide ExpoText, FixText, NumeralText;
    ExpoTextSplits(expo);
    FixTextIsNumeral(sign, intpart, fraction, digs);
    var zero := intpart == "0";
    var n := Numeral(sign, if zero then 1 else 0, if zero then "" else intpart, digs > 0, fraction, NoExponent);
    WithExponent(n, Exponent('e', if expo < 0 then "-" else "+", ExpoText(expo)[1..]));
  }

  lemma WithExponent(n: Numeral, x: Exponent)
    requires n.exponent.NoExponent?
    ensures NumeralText(n.(exponent := x)) == NumeralText(n) + ExponentText(x)
  {
    hide ExponentText;
    var tail := if n.point then "." + n.fraction else "";
    assert ExponentText(NoExponent) == "" by { NoExponentText(); }
    assert tail + "" == tail;
    Regrouped(n.sign, Zeros(n.zeros), n.intpart, tail, ExponentText(x));
  }

  lemma NoExponentText()
    ensures ExponentText(NoExponent) == ""
  {
  }

  lemma Regrouped(a: string, b: string, c: string, d: string, e: string)
    ensures a + (b + (c + (d + e))) == a + (b + (c + d)) + e
  {
  }
}
