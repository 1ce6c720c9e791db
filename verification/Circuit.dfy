/** The circuit rebuilt from a constraint file (SumConstraint and Define in
    src/utils/readCircomR1CS.go): on a split witness its assertions hold exactly when the constraints
    its packed terms stand for are satisfied by the unsplit vector. */
module Circuit {
  import opened Positional
  import opened R1csFormat
  import opened R1csReader
  import Term

  // ---- the original meaning ----

  function Times(x: nat, y: nat): nat {
    MulMono(0, x, y);
    x * y
  }

  /** <c, w> over the integers. */
  function Dot(c: Combination, w: seq<nat>): (d: nat)
    requires forall f :: f in c ==> f.wire < |w|
  {
    if c == [] then 0 else Dot(c[..|c| - 1], w) + Times(c[|c| - 1].coeff, w[c[|c| - 1].wire])
  }

  predicate WiresBelow(c: Constraint, n: nat) {
    && (forall f :: f in c.a ==> f.wire < n)
    && (forall f :: f in c.b ==> f.wire < n)
    && (forall f :: f in c.c ==> f.wire < n)
  }

  /** <a,w> * <b,w> = <c,w> in the field. */
  predicate Satisfies(c: Constraint, w: seq<nat>)
    requires WiresBelow(c, |w|)
  {
    (Dot(c.a, w) * Dot(c.b, w)) % BN254_PRIME == Dot(c.c, w) % BN254_PRIME
  }

  /** A constraint holds exactly when the prime divides the difference of its two sides. */
  lemma SatisfiesMeans(c: Constraint, w: seq<nat>)
    requires WiresBelow(c, |w|)
    ensures Satisfies(c, w) <==> exists k: int :: Dot(c.a, w) * Dot(c.b, w) - Dot(c.c, w) == k * BN254_PRIME
  {
    hide Dot;
    SameResidueIff(Dot(c.a, w) * Dot(c.b, w), Dot(c.c, w));
  }

  lemma SameResidueIff(x: int, y: int)
    ensures x % BN254_PRIME == y % BN254_PRIME <==> exists k: int :: x - y == k * BN254_PRIME
  {
    if x % BN254_PRIME == y % BN254_PRIME {
      assert x - y == (x / BN254_PRIME - y / BN254_PRIME) * BN254_PRIME;
    }
  }

  ghost predicate SatisfiesAll(cs: seq<Constraint>, w: seq<nat>)
    requires forall c :: c in cs ==> WiresBelow(c, |w|)
  {
    forall i :: 0 <= i < |cs| ==> Satisfies(cs[i], w)
  }

  // ---- the field operations of the circuit builder ----

  function FieldMul(x: nat, y: nat): nat {
    ModMul(x, y, BN254_PRIME)
  }

  function FieldAdd(x: nat, y: nat): nat {
    (x + y) % BN254_PRIME
  }

  /** api.Add of two values and any number more. */
  function AddMany(x: nat, y: nat, rest: seq<nat>): nat {
    if rest == [] then FieldAdd(x, y)
    else FieldAdd(AddMany(x, y, rest[..|rest| - 1]), rest[|rest| - 1])
  }

  // ---- the split witness ----

  /** Wire 0, then the public wires, then the rest: the vector that a split witness came from. */
  function Join(wit: seq<nat>, pub: seq<nat>): (w: seq<nat>)
    requires wit != []
    ensures |w| == |wit| + |pub|
  {
    wit[..1] + pub + wit[1..]
  }

  function Select(wit: seq<nat>, pub: seq<nat>, wire: nat): nat
    requires wit != [] && wire < |wit| + |pub|
  {
    if wire >= 1 && wire < 1 + |pub| then pub[wire - 1]
    else if wire < 1 then wit[wire]
    else wit[wire - |pub|]
  }

  /** Remapping a wire index reads back the unsplit vector. */
  lemma SelectReadsJoin(wit: seq<nat>, pub: seq<nat>, wire: nat)
    requires wit != [] && wire < |wit| + |pub|
    ensures Select(wit, pub, wire) == Join(wit, pub)[wire]
  {
  }

  // ---- the rebuilt constraint ----

  /** The terms of a combination, multiplied out in the field. */
  function Products(c: Combination, w: seq<nat>): (ps: seq<nat>)
    requires forall f :: f in c ==> f.wire < |w|
    ensures |ps| == |c|
    ensures forall i :: 0 <= i < |c| ==> ps[i] == FieldMul(w[c[i].wire], c[i].coeff)
  {
    seq(|c|, i requires 0 <= i < |c| => FieldMul(w[c[i].wire], c[i].coeff))
  }

  function Sum(xs: seq<nat>): nat {
    if xs == [] then 0 else Sum(xs[..|xs| - 1]) + xs[|xs| - 1]
  }

  lemma {:induction false} ProductsSum(c: Combination, w: seq<nat>)
    requires forall f :: f in c ==> f.wire < |w|
    ensures Sum(Products(c, w)) % BN254_PRIME == Dot(c, w) % BN254_PRIME
  {
    hide FieldMul, Dot, Sum, Products;
    if c != [] {
      var k := |c| - 1;
      ProductsSum(c[..k], w);
      LastProduct(c, w);
      TermResidue(c[k].coeff, w[c[k].wire]);
      AddResidues(Sum(Products(c[..k], w)), Dot(c[..k], w), FieldMul(w[c[k].wire], c[k].coeff),
                  Times(c[k].coeff, w[c[k].wire]), BN254_PRIME);
    } else {
      NoProducts(c, w);
    }
  }

  lemma NoProducts(c: Combination, w: seq<nat>)
    requires c == []
    ensures Sum(Products(c, w)) == 0 && Dot(c, w) == 0
  {
  }

  lemma LastProduct(c: Combination, w: seq<nat>)
    requires c != [] && forall f :: f in c ==> f.wire < |w|
    ensures var k := |c| - 1;
            && Sum(Products(c, w)) == Sum(Products(c[..k], w)) + FieldMul(w[c[k].wire], c[k].coeff)
            && Dot(c, w) == Dot(c[..k], w) + Times(c[k].coeff, w[c[k].wire])
  {
    hide FieldMul, Times;
    assert Products(c, w)[..|c| - 1] == Products(c[..|c| - 1], w);
  }

  lemma TermResidue(coeff: nat, value: nat)
    ensures FieldMul(value, coeff) == Times(coeff, value) % BN254_PRIME
  {
    ModMulIs(coeff, value, BN254_PRIME);
    ModMulCommutes(coeff, value, BN254_PRIME);
  }

  lemma AddResidues(s: nat, d: nat, x: nat, m: nat, p: nat)
    requires p > 0 && s % p == d % p && x == m % p
    ensures (s + x) % p == (d + m) % p
  {
    ModAddAbsorb(m, s, p);
    ModAddAbsorb(s, m, p);
    ModAddAbsorb(d, m, p);
  }

  lemma {:induction false} AddManySum(x: nat, y: nat, rest: seq<nat>)
    ensures AddMany(x, y, rest) == (x + y + Sum(rest)) % BN254_PRIME
  {
    if rest != [] {
      AddManySum(x, y, rest[..|rest| - 1]);
      ModAddAbsorb(x + y + Sum(rest[..|rest| - 1]), rest[|rest| - 1], BN254_PRIME);
    }
  }

  lemma {:induction false} SumSplit(xs: seq<nat>)
    requires |xs| >= 2
    ensures Sum(xs) == xs[0] + xs[1] + Sum(xs[2..])
  {
    if |xs| > 2 {
      SumSplit(xs[..|xs| - 1]);
      assert xs[2..][..|xs| - 3] == xs[..|xs| - 1][2..];
    } else {
      assert xs[..1][..0] == [];
      assert Sum(xs[..1]) == xs[0];
    }
  }

  /** One side of a rebuilt constraint: its value is <c, w> mod p on the unsplit vector, whatever the
      number of terms. */
  method SumConstraint(
    coeffs: seq<nat>, lc: seq<Term.Word>, wit: seq<nat>, pub: seq<nat>, ghost c: Combination)
    returns (sum: nat)
    requires wit != [] && StandsFor(lc, coeffs, c)
    requires forall f :: f in c ==> f.wire < |wit| + |pub|
    ensures sum == Dot(c, Join(wit, pub)) % BN254_PRIME
  {
    hide Term.WireID, Term.CoeffID, Dot;
    ghost var w := Join(wit, pub);
    var needed: seq<nat> := [];
    var i := 0;
    while i < |lc|
      invariant 0 <= i <= |lc| && |needed| == i
      invariant needed == Products(c, w)[..i]
    {
      var term := lc[i];
      assert TermStandsFor(term, coeffs, c[i]) && c[i] in c;
      SelectReadsJoin(wit, pub, c[i].wire);
      var v := Select(wit, pub, Term.WireID(term));
      needed := needed + [FieldMul(v, coeffs[Term.CoeffID(term)])];
      i := i + 1;
    }
    assert needed == Products(c, w);
    ProductsSum(c, w);
    sum := AddUp(needed, c, w);
  }

  /** The four ways the source adds up its products, by their number. */
  method AddUp(needed: seq<nat>, ghost c: Combination, ghost w: seq<nat>) returns (sum: nat)
    requires forall f :: f in c ==> f.wire < |w|
    requires needed == Products(c, w)
    ensures sum == Sum(needed) % BN254_PRIME
  {
    hide Sum, ModMul;
    FewSummed(needed);
    if |needed| == 1 {
      SingleProduct(c, w);
      return needed[0];
    }
    if |needed| == 2 {
      return FieldAdd(needed[0], needed[1]);
    }
    if |needed| == 3 {
      ModAddAbsorb(needed[1] + needed[2], needed[0], BN254_PRIME);
      return FieldAdd(needed[0], FieldAdd(needed[1], needed[2]));
    }
    if |needed| == 0 {
      return 0;
    }
    SumSplit(needed);
    AddManySum(needed[0], needed[1], needed[2..]);
    return AddMany(needed[0], needed[1], needed[2..]);
  }

  lemma FewSummed(xs: seq<nat>)
    ensures |xs| == 0 ==> Sum(xs) == 0
    ensures |xs| == 1 ==> Sum(xs) == xs[0]
    ensures |xs| == 2 ==> Sum(xs) == xs[0] + xs[1]
    ensures |xs| == 3 ==> Sum(xs) == xs[0] + xs[1] + xs[2]
  {
    if |xs| == 2 || |xs| == 3 {
      SumSplit(xs);
      assert Sum([]) == 0;
      assert |xs| == 3 ==> xs[2..] == [] + [xs[2]] && xs[2..][..0] == [];
    } else if |xs| == 1 {
      assert xs[..0] == [];
    }
  }

  /** A product is already reduced. */
  lemma SingleProduct(c: Combination, w: seq<nat>)
    requires |c| == 1 && forall f :: f in c ==> f.wire < |w|
    ensures Products(c, w)[0] % BN254_PRIME == Products(c, w)[0]
  {
    hide ModMul;
    ReducedTwice(w[c[0].wire], c[0].coeff);
  }

  lemma ReducedTwice(x: nat, y: nat)
    ensures FieldMul(x, y) % BN254_PRIME == FieldMul(x, y)
  {
  }

  /** All assertions of Define hold on a split witness exactly when the constraints the packed terms
      stand for are satisfied by the unsplit vector. */
  method Define(
    circuit: Circuit, coeffs: seq<nat>, wit: seq<nat>, pub: seq<nat>, ghost cs: seq<Constraint>)
    returns (holds: bool)
    requires wit != [] && AllStandFor(circuit.constraints, coeffs, cs)
    requires forall c :: c in cs ==> WiresBelow(c, |wit| + |pub|)
    ensures holds <==> SatisfiesAll(cs, Join(wit, pub))
  {
    hide Dot, StandsFor, Join;
    ghost var w := Join(wit, pub);
    holds := true;
    var i := 0;
    while i < |circuit.constraints|
      invariant 0 <= i <= |circuit.constraints|
      invariant holds <==> forall j :: 0 <= j < i ==> cs[j] in cs && Satisfies(cs[j], w)
    {
      var r := circuit.constraints[i];
      ghost var c := cs[i];
      assert c in cs && R1CStandsFor(r, coeffs, c);
      var a := SumConstraint(coeffs, r.l, wit, pub, c.a);
      var b := SumConstraint(coeffs, r.r, wit, pub, c.b);
      var o := SumConstraint(coeffs, r.o, wit, pub, c.c);
      ProductOfResidues(Dot(c.a, w), Dot(c.b, w), BN254_PRIME);
      holds := holds && FieldMul(a, b) == o;
      i := i + 1;
    }
  }

  lemma ProductOfResidues(x: nat, y: nat, p: nat)
    requires p > 0
    ensures ModMul(x % p, y % p, p) == ModMul(x, y, p)
  {
    ModMulAbsorb(x, y % p, p);
    ModMulAbsorb(y, x, p);
    assert x * (y % p) == y % p * x && x * y == y * x;
  }
}
