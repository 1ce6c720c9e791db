/** Numbers written in a base: byte strings (base 256), limbs (base 2^n) and decimal text are all
    instances, so their round trips are proved once here. */
module Positional {

  type Byte = b: int | 0 <= b < 256

  function Pow(b: nat, n: nat): (p: nat)
    ensures b >= 1 ==> p >= 1
  {
    if n == 0 then 1 else b * Pow(b, n - 1)
  }

  /** The number whose digits are `ds`, least significant first. */
  function Value(b: nat, ds: seq<nat>): (v: nat) {
    if ds == [] then 0 else ds[0] + b * Value(b, ds[1..])
  }

  /** The number whose digits are `ds`, most significant first (Horner's rule from the left). */
  function BigValue(b: nat, ds: seq<nat>): (v: nat) {
    if ds == [] then 0 else BigValue(b, ds[..|ds| - 1]) * b + ds[|ds| - 1]
  }

  /** The `n` lowest digits of `v`, least significant first. */
  function Digits(b: nat, v: nat, n: nat): (ds: seq<nat>)
    requires b >= 1
    ensures |ds| == n
  {
    if n == 0 then [] else [v % b] + Digits(b, v / b, n - 1)
  }

  ghost predicate AreDigits(b: nat, ds: seq<nat>) {
    forall i :: 0 <= i < |ds| ==> ds[i] < b
  }

  function Reverse<T>(s: seq<T>): (r: seq<T>)
    ensures |r| == |s|
    ensures forall i :: 0 <= i < |s| ==> r[i] == s[|s| - 1 - i]
  {
    seq(|s|, i requires 0 <= i < |s| => s[|s| - 1 - i])
  }

  // Small facts of non-linear arithmetic, kept apart so that no larger proof has to find them.

  lemma MulMono(x: nat, y: nat, c: nat)
    requires x <= y
    ensures x * c <= y * c && c * x <= c * y
  {
    assert (y - x) * c >= 0;
  }

  lemma Distribute(x: int, y: int, c: int)
    ensures c * (x + y) == c * x + c * y && (x + y) * c == x * c + y * c
  {
  }

  lemma Associate(x: int, y: int, z: int)
    ensures x * (y * z) == (x * y) * z
  {
  }

  lemma DivModUnique(v: nat, b: nat, q: nat, r: nat)
    requires r < b && v == q * b + r
    ensures v / b == q && v % b == r
  {
    if v / b > q {
      MulMono(q + 1, v / b, b);
      Distribute(q, 1, b);
    }
    if v / b < q {
      MulMono(v / b + 1, q, b);
      Distribute(v / b, 1, b);
    }
  }

  /** Quotient and remainder as plain numbers. */
  lemma DivMod(x: nat, p: nat) returns (q: nat, r: nat)
    requires p > 0
    ensures q == x / p && r == x % p && r < p && x == r + q * p
  {
    q, r := x / p, x % p;
  }

  lemma ModAddMultiple(v: nat, k: nat, p: nat)
    requires p > 0
    ensures v + k * p >= 0 && (v + k * p) % p == v % p
  {
    var q, r := DivMod(v, p);
    MulMono(0, k, p);
    Distribute(q, k, p);
    DivModUnique(v + k * p, p, q + k, r);
  }

  // Reducing an operand first changes no sum and no product.

  lemma ModAddAbsorb(x: nat, y: nat, p: nat)
    requires p > 0
    ensures (x % p + y) % p == (x + y) % p
  {
    var q, r := DivMod(x, p);
    ModAddMultiple(r + y, q, p);
  }

  function ModMul(x: nat, y: nat, p: nat): nat
    requires p > 0
  {
    MulMono(0, x, y);
    x * y % p
  }

  lemma ModMulAbsorb(x: nat, y: nat, p: nat)
    requires p > 0
    ensures ModMul(x % p, y, p) == ModMul(x, y, p)
  {
    var q, r := DivMod(x, p);
    MulMono(0, r, y);
    MulMono(0, q, y);
    Distribute(q * p, r, y);
    MulSwap(q, p, y);
    ModAddMultiple(r * y, q * y, p);
  }

  lemma ModMulCommutes(x: nat, y: nat, p: nat)
    requires p > 0
    ensures ModMul(x, y, p) == ModMul(y, x, p)
  {
    assert x * y == y * x;
  }

  lemma ModMulIs(x: nat, y: nat, p: nat)
    requires p > 0
    ensures x * y >= 0 && ModMul(x, y, p) == x * y % p
  {
    MulMono(0, x, y);
  }

  lemma MulSwap(x: int, y: int, z: int)
    ensures (x * y) * z == (x * z) * y
  {
    Associate(x, y, z);
    Associate(x, z, y);
    assert y * z == z * y;
  }

  lemma Regroup(b: nat, q: nat, hi: nat, mid: nat, lo: nat)
    requires mid < q && lo < b
    ensures b * q >= 1 && 0 <= b * mid + lo < b * q && 0 <= hi * q + mid
    ensures b * (hi * q + mid) + lo == hi * (b * q) + (b * mid + lo)
  {
    MulMono(mid + 1, q, b);
    MulMono(0, mid, b);
    MulMono(0, hi, q);
    Distribute(mid, 1, b);
    Distribute(hi * q, mid, b);
    Associate(b, hi, q);
    Associate(hi, b, q);
    Commute(b, hi);
  }

  lemma Commute(x: int, y: int)
    ensures x * y == y * x
  {
  }

  lemma DivModOfProduct(v: nat, b: nat, q: nat)
    requires b >= 1 && q >= 1
    ensures b * q >= 1
    ensures v / (b * q) == v / b / q
    ensures v % (b * q) == v % b + b * ((v / b) % q)
  {
    var up, lo := DivMod(v, b);
    var hi, mid := DivMod(up, q);
    Commute(up, b);
    Regroup(b, q, hi, mid, lo);
    DivModUnique(v, b * q, hi, b * mid + lo);
  }

  /** Writing the low `n` digits of a number loses exactly its part above base^n. */
  lemma {:induction false} DigitsValue(b: nat, v: nat, n: nat)
    requires b >= 1
    ensures Value(b, Digits(b, v, n)) == v % Pow(b, n)
    ensures AreDigits(b, Digits(b, v, n))
  {
    hide Digits, Value, Pow;
    if n > 0 {
      var rest := Digits(b, v / b, n - 1);
      DigitsValue(b, v / b, n - 1);
      DigitsStep(b, v, n);
      ValueStep(b, v % b, rest);
      PowStep(b, n);
      DivModOfProduct(v, b, Pow(b, n - 1));
    } else {
      NoDigits(b, v);
    }
  }

  lemma NoDigits(b: nat, v: nat)
    requires b >= 1
    ensures Digits(b, v, 0) == [] && Value(b, []) == 0 && v % Pow(b, 0) == 0
  {
  }

  lemma DigitsStep(b: nat, v: nat, n: nat)
    requires b >= 1 && n > 0
    ensures 0 <= v / b && 0 <= v % b < b && Digits(b, v, n) == [v % b] + Digits(b, v / b, n - 1)
  {
  }

  lemma ValueStep(b: nat, d: nat, ds: seq<nat>)
    ensures Value(b, [d] + ds) == d + b * Value(b, ds)
  {
    assert ([d] + ds)[1..] == ds;
  }

  lemma {:induction false} ValueBound(b: nat, ds: seq<nat>)
    requires AreDigits(b, ds)
    ensures Value(b, ds) < Pow(b, |ds|)
  {
    if ds != [] {
      ValueBound(b, ds[1..]);
      MulMono(Value(b, ds[1..]) + 1, Pow(b, |ds| - 1), b);
      Distribute(Value(b, ds[1..]), 1, b);
    }
  }

  /** Reading digits and writing them again gives the same digits: the representation of a
      given length is unique. */
  lemma {:induction false} ValueDigits(b: nat, ds: seq<nat>)
    requires b >= 1 && AreDigits(b, ds)
    ensures Digits(b, Value(b, ds), |ds|) == ds
  {
    if ds != [] {
      ValueDigits(b, ds[1..]);
      DivModUnique(Value(b, ds), b, Value(b, ds[1..]), ds[0]);
    }
  }

  lemma {:induction false} ValueAppend(b: nat, ds: seq<nat>, es: seq<nat>)
    ensures Value(b, ds + es) == Value(b, ds) + Pow(b, |ds|) * Value(b, es)
  {
    if ds == [] {
      assert ds + es == es;
    } else {
      ValueAppend(b, ds[1..], es);
      assert (ds + es)[1..] == ds[1..] + es;
      var p, v := Pow(b, |ds| - 1), Value(b, es);
      Distribute(Value(b, ds[1..]), p * v, b);
      Associate(b, p, v);
    }
  }

  /** Reading from the most significant end is reading the reversed digits from the least
      significant end. */
  lemma {:induction false} BigIsReversed(b: nat, ds: seq<nat>)
    ensures BigValue(b, ds) == Value(b, Reverse(ds))
    ensures BigValue(b, Reverse(ds)) == Value(b, ds)
    decreases |ds|, 1
  {
    BigIsReversedOneWay(b, ds);
    BigIsReversedOneWay(b, Reverse(ds));
    assert Reverse(Reverse(ds)) == ds;
  }

  lemma {:induction false} BigIsReversedOneWay(b: nat, ds: seq<nat>)
    ensures BigValue(b, ds) == Value(b, Reverse(ds))
  {
    if ds != [] {
      BigIsReversedOneWay(b, ds[..|ds| - 1]);
      assert Reverse(ds)[1..] == Reverse(ds[..|ds| - 1]);
    }
  }

  lemma HornerAppend(d: nat, p: nat, e: nat, b: nat)
    ensures (d * p + e) * b == d * (b * p) + e * b
  {
    Distribute(d * p, e, b);
    Associate(d, p, b);
    Commute(p, b);
  }

  lemma {:induction false} BigValueAppend(b: nat, ds: seq<nat>, es: seq<nat>)
    ensures BigValue(b, ds + es) == BigValue(b, ds) * Pow(b, |es|) + BigValue(b, es)
  {
    if es == [] {
      assert ds + es == ds;
    } else {
      hide Pow;
      var k := |es| - 1;
      BigValueAppend(b, ds, es[..k]);
      assert (ds + es)[..|ds + es| - 1] == ds + es[..k];
      PowStep(b, |es|);
      HornerAppend(BigValue(b, ds), Pow(b, k), BigValue(b, es[..k]), b);
    }
  }

  lemma PowStep(b: nat, i: nat)
    requires i > 0
    ensures Pow(b, i) == b * Pow(b, i - 1)
  {
  }

  lemma {:induction false} PowAdd(b: nat, m: nat, n: nat)
    ensures Pow(b, m + n) == Pow(b, m) * Pow(b, n)
  {
    if m > 0 {
      PowAdd(b, m - 1, n);
      Associate(b, Pow(b, m - 1), Pow(b, n));
    }
  }

  lemma {:induction false} PowMono(b: nat, m: nat, n: nat)
    requires b >= 1 && m <= n
    ensures Pow(b, m) <= Pow(b, n)
  {
    if m < n {
      PowMono(b, m, n - 1);
      MulMono(1, b, Pow(b, n - 1));
    }
  }

  lemma {:induction false} DigitAt(b: nat, num: nat, k: nat, i: nat)
    requires b >= 1 && i < k
    ensures Digits(b, num, k)[i] == num / Pow(b, i) % b
  {
    hide Digits, Pow;
    if i == 0 {
      FirstDigit(b, num, k);
    } else {
      DigitAt(b, num / b, k - 1, i - 1);
      NextDigit(b, num, k, i);
      PowStep(b, i);
      DivModOfProduct(num, b, Pow(b, i - 1));
    }
  }

  lemma FirstDigit(b: nat, num: nat, k: nat)
    requires b >= 1 && k > 0
    ensures Digits(b, num, k)[0] == num / Pow(b, 0) % b
  {
    assert Pow(b, 0) == 1;
  }

  lemma NextDigit(b: nat, num: nat, k: nat, i: nat)
    requires b >= 1 && 0 < i < k
    ensures Digits(b, num, k)[i] == Digits(b, num / b, k - 1)[i - 1]
  {
  }

  lemma {:induction false} PowPow(b: nat, m: nat, n: nat)
    ensures Pow(Pow(b, m), n) == Pow(b, m * n)
  {
    if n > 0 {
      PowPow(b, m, n - 1);
      PowAdd(b, m, m * (n - 1));
      assert m + m * (n - 1) == m * n;
    }
  }

  lemma PowValues()
    ensures Pow(256, 1) == 0x100 && Pow(256, 4) == 0x1_0000_0000
    ensures Pow(256, 8) == 0x1_0000_0000_0000_0000
  {
    assert Pow(256, 2) == 0x1_0000;
    assert Pow(256, 3) == 0x100_0000;
    assert Pow(256, 5) == 0x100_0000_0000;
    assert Pow(256, 6) == 0x1_0000_0000_0000;
    assert Pow(256, 7) == 0x100_0000_0000_0000;
  }

  /** Digits are determined by their number and the value they spell. */
  lemma BigEndianUnique(x: seq<nat>, y: seq<nat>)
    requires |x| == |y| && AreDigits(256, x) && AreDigits(256, y)
    requires BigValue(256, x) == BigValue(256, y)
    ensures x == y
  {
    BigIsReversed(256, x);
    BigIsReversed(256, y);
    ValueDigits(256, Reverse(x));
    ValueDigits(256, Reverse(y));
    assert Reverse(Reverse(x)) == x && Reverse(Reverse(y)) == y;
  }
}
