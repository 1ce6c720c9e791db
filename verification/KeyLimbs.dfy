/** RSA moduli as lists of decimal limbs, the form circuits take them in
    (modules/oauth_provider/google/main.py, modules/oauth_provider/x509_google/main.py). */
module KeyLimbs {
  import opened Positional
  import opened DecimalText

  function DecimalAll(ds: seq<nat>): (ss: seq<string>)
    ensures |ss| == |ds| && forall i :: 0 <= i < |ds| ==> ss[i] == Decimal(ds[i])
  {
    seq(|ds|, i requires 0 <= i < |ds| => Decimal(ds[i]))
  }

  /** The `k` limbs of `n` bits each, lowest first, as decimal strings. */
  function Limbs(num: nat, n: nat, k: nat): seq<string> {
    DecimalAll(Digits(Pow(2, n), num, k))
  }

  /** The limb loop: shifting right by i*n bits and masking n bits. */
  method ToCircomBigintBytes(num: nat, n: nat, k: nat) returns (res: seq<string>)
    ensures res == Limbs(num, n, k)
    ensures |res| == k && forall i :: 0 <= i < k ==> res[i] == Decimal(num / Pow(2, i * n) % Pow(2, n))
  {
    var mask := Pow(2, n) - 1;
    res := [];
    var i := 0;
    while i < k
      invariant 0 <= i <= k && |res| == i
      invariant forall j :: 0 <= j < i ==> res[j] == Limbs(num, n, k)[j]
      invariant forall j :: 0 <= j < i ==> res[j] == Decimal(num / Pow(2, j * n) % Pow(2, n))
    {
      PowPow(2, n, i);
      assert n * i == i * n;
      DigitAt(Pow(2, n), num, k, i);
      var shifted := num / Pow(2, i * n);
      var chunk := shifted % (mask + 1);
      res := res + [Decimal(chunk)];
      i := i + 1;
    }
  }

  /** The limbs recompose to the number modulo 2^(n*k), each limb fits n bits, and two numbers have the
      same limb list exactly when they agree modulo 2^(n*k). */
  lemma LimbsIdentify(a: nat, b: nat, n: nat, k: nat)
    ensures Value(Pow(2, n), Digits(Pow(2, n), a, k)) == a % Pow(2, n * k)
    ensures AreDigits(Pow(2, n), Digits(Pow(2, n), a, k))
    ensures Limbs(a, n, k) == Limbs(b, n, k) <==> a % Pow(2, n * k) == b % Pow(2, n * k)
  {
    var base := Pow(2, n);
    var x, y := Digits(base, a, k), Digits(base, b, k);
    PowPow(2, n, k);
    DigitsValue(base, a, k);
    DigitsValue(base, b, k);
    ValueDigits(base, x);
    ValueDigits(base, y);
    if DecimalAll(x) == DecimalAll(y) {
      forall i | 0 <= i < k
        ensures x[i] == y[i]
      {
        assert DecimalAll(x)[i] == DecimalAll(y)[i];
        DecimalInjective(x[i], y[i]);
      }
      assert x == y;
    }
  }
}
