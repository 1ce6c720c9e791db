/** Numbers as decimal text. */
module DecimalText {
  import opened Positional

  predicate IsDigit(c: char) {
    '0' <= c <= '9'
  }

  predicate AllDigits(s: string) {
    forall i :: 0 <= i < |s| ==> IsDigit(s[i])
  }

  function DigitsOf(s: string): (ds: seq<nat>)
    requires AllDigits(s)
    ensures |ds| == |s| && forall i :: 0 <= i < |s| ==> ds[i] == s[i] as int - '0' as int
  {
    seq(|s|, i requires 0 <= i < |s| => s[i] as int - '0' as int)
  }

  /** The number a text of digits spells in base ten, first digit highest. */
  function Spelled(s: string): nat
    requires AllDigits(s)
  {
    BigValue(10, DigitsOf(s))
  }

  lemma SpelledMore(s: string, c: char)
    requires AllDigits(s) && IsDigit(c)
    ensures Spelled(s + [c]) == Spelled(s) * 10 + (c as int - '0' as int)
  {
    assert DigitsOf(s + [c])[..|s|] == DigitsOf(s);
  }

  /** str(n). */
  function Decimal(n: nat): (s: string)
    ensures s != "" && (|s| == 1 <==> n < 10)
    ensures forall i :: 0 <= i < |s| ==> '0' <= s[i] <= '9'
  {
    if n < 10 then [('0' as int + n) as char]
    else Decimal(n / 10) + [('0' as int + n % 10) as char]
  }

  /** The text spells the number, without a leading zero. */
  lemma {:induction false} DecimalSpells(n: nat)
    ensures AllDigits(Decimal(n)) && Spelled(Decimal(n)) == n
    ensures Decimal(n)[0] == '0' ==> Decimal(n) == "0"
  {
    if n < 10 {
      var ds := DigitsOf(Decimal(n));
      assert ds[..0] == [] && BigValue(10, ds) == BigValue(10, []) * 10 + ds[0] == n;
    } else {
      DecimalSpells(n / 10);
      SpelledMore(Decimal(n / 10), ('0' as int + n % 10) as char);
    }
  }

  lemma DecimalInjective(m: nat, n: nat)
    requires Decimal(m) == Decimal(n)
    ensures m == n
  {
    DecimalSpells(m);
    DecimalSpells(n);
  }
}
