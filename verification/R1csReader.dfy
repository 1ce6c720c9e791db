/** The `.r1cs` reader (src/utils/readCircomR1CS.go): it walks the file buffer with a cursor, reverses
    the bytes of every big integer where they lie, and keeps the coefficients in one growing table
    that the packed terms point into. */
module R1csReader {
  import opened Positional
  import opened R1csFormat
  import Term

  /** A constraint of packed terms (compiled.R1C). */
  datatype PackedR1C = PackedR1C(l: seq<Term.Word>, r: seq<Term.Word>, o: seq<Term.Word>)

  /** The circuit handed to the compiler. */
  datatype Circuit = Circuit(constraints: seq<PackedR1C>, nWitness: nat, nPublic: nat)

  // ---- what packed terms stand for ----

  ghost predicate TermStandsFor(t: Term.Word, coeffs: seq<nat>, f: Factor) {
    Term.WireID(t) == f.wire && Term.CoeffID(t) < |coeffs| && coeffs[Term.CoeffID(t)] == f.coeff
  }

  ghost predicate StandsFor(ts: seq<Term.Word>, coeffs: seq<nat>, c: Combination) {
    |ts| == |c| && forall i :: 0 <= i < |ts| ==> TermStandsFor(ts[i], coeffs, c[i])
  }

  ghost predicate R1CStandsFor(p: PackedR1C, coeffs: seq<nat>, c: Constraint) {
    StandsFor(p.l, coeffs, c.a) && StandsFor(p.r, coeffs, c.b) && StandsFor(p.o, coeffs, c.c)
  }

  ghost predicate AllStandFor(ps: seq<PackedR1C>, coeffs: seq<nat>, cs: seq<Constraint>) {
    |ps| == |cs| && forall i :: 0 <= i < |ps| ==> R1CStandsFor(ps[i], coeffs, cs[i])
  }

  /** Appending to the table never invalidates a term already built. */
  lemma TableGrows(ts: seq<Term.Word>, coeffs: seq<nat>, more: seq<nat>, c: Combination)
    requires StandsFor(ts, coeffs, c)
    ensures StandsFor(ts, coeffs + more, c)
  {
    hide Term.WireID, Term.CoeffID;
    forall i | 0 <= i < |ts|
      ensures TermStandsFor(ts[i], coeffs + more, c[i])
    {
      assert TermStandsFor(ts[i], coeffs, c[i]);
    }
  }

  // ---- cursor reads ----

  function FourBytes(b0: nat, b1: nat, b2: nat, b3: nat): nat {
    b0 + b1 * 0x100 + b2 * 0x1_0000 + b3 * 0x100_0000
  }

  function ReadUint32(data: array<Byte>, offset: int): (r: Read<nat>)
    reads data
    ensures r == ReadNum(data[..], offset, 4)
  {
    if 0 <= offset && offset + 4 <= data.Length then
      FourBytesValue(data[..], offset);
      Ok(FourBytes(data[offset], data[offset + 1], data[offset + 2], data[offset + 3]), offset + 4)
    else Bad
  }

  function ReadUint64(data: array<Byte>, offset: int): (r: Read<nat>)
    reads data
    ensures r == ReadNum(data[..], offset, 8)
  {
    if 0 <= offset && offset + 8 <= data.Length then
      EightBytesValue(data[..], offset);
      Ok(FourBytes(data[offset], data[offset + 1], data[offset + 2], data[offset + 3])
         + 0x1_0000_0000
           * FourBytes(data[offset + 4], data[offset + 5], data[offset + 6], data[offset + 7]),
         offset + 8)
    else Bad
  }

  lemma FourBytesValue(s: seq<Byte>, o: nat)
    requires o + 4 <= |s|
    ensures Value(256, s[o..o + 4]) == FourBytes(s[o], s[o + 1], s[o + 2], s[o + 3])
  {
    var d: seq<nat> := s[o..o + 4];
    assert d[1..][1..] == d[2..] && d[2..][1..] == d[3..] && d[3..][1..] == [];
    assert Value(256, d[3..]) == d[3];
    assert Value(256, d[2..]) == d[2] + 256 * Value(256, d[3..]);
    assert Value(256, d[1..]) == d[1] + 256 * Value(256, d[2..]);
  }

  lemma EightBytesValue(s: seq<Byte>, o: nat)
    requires o + 8 <= |s|
    ensures Value(256, s[o..o + 8])
            == FourBytes(s[o], s[o + 1], s[o + 2], s[o + 3])
               + 0x1_0000_0000 * FourBytes(s[o + 4], s[o + 5], s[o + 6], s[o + 7])
  {
    hide Value;
    FourBytesValue(s, o);
    FourBytesValue(s, o + 4);
    ValueAppend(256, s[o..o + 4], s[o + 4..o + 8]);
    assert s[o..o + 4] + s[o + 4..o + 8] == s[o..o + 8];
    PowValues();
  }

  /** The buffers differ at most between `lo` and `hi`. */
  ghost predicate OnlyBetween(was: seq<Byte>, now: seq<Byte>, lo: int, hi: int) {
    && |now| == |was| && 0 <= lo <= hi <= |was|
    && now[..lo] == was[..lo] && now[hi..] == was[hi..]
  }

  method ReverseRange(data: array<Byte>, lo: nat, size: nat)
    requires lo + size <= data.Length
    modifies data
    ensures OnlyBetween(old(data[..]), data[..], lo, lo + size)
    ensures data[lo..lo + size] == Reverse(old(data[lo..lo + size]))
  {
    hide Mirrored, OnlyBetween;
    ghost var was := data[..];
    ghost var hi := lo + size;
    var i := 0;
    NothingMirrored(was, lo, hi);
    while i < size / 2
      invariant 0 <= i <= size / 2
      invariant Mirrored(was, data[..], lo, hi, i)
    {
      ghost var before := data[..];
      var front, back := lo + i, lo + size - 1 - i;
      data[front], data[back] := data[back], data[front];
      assert data[..] == before[front := before[back]][back := before[front]];
      MirrorStep(was, before, data[..], lo, hi, i);
      i := i + 1;
    }
    assert i == (hi - lo) / 2;
    ReversedRange(was, data[..], lo, hi);
  }

  /** The outermost `i` bytes at each end of the range have changed places. */
  ghost predicate Mirrored(was: seq<Byte>, now: seq<Byte>, lo: nat, hi: nat, i: nat)
    requires lo <= hi <= |was|
  {
    && |now| == |was| && lo + i <= hi - i
    && (forall k :: 0 <= k < |was| && !(lo <= k < hi) ==> now[k] == was[k])
    && (forall k :: lo <= k < lo + i ==> now[k] == was[lo + hi - 1 - k])
    && (forall k :: hi - i <= k < hi ==> now[k] == was[lo + hi - 1 - k])
    && (forall k :: lo + i <= k < hi - i ==> now[k] == was[k])
  }

  lemma NothingMirrored(was: seq<Byte>, lo: nat, hi: nat)
    requires lo <= hi <= |was|
    ensures Mirrored(was, was, lo, hi, 0)
  {
  }

  lemma MirrorStep(was: seq<Byte>, before: seq<Byte>, now: seq<Byte>, lo: nat, hi: nat, i: nat)
    requires lo <= hi <= |was| && i < (hi - lo) / 2 && Mirrored(was, before, lo, hi, i)
    requires now == before[lo + i := before[hi - 1 - i]][hi - 1 - i := before[lo + i]]
    ensures Mirrored(was, now, lo, hi, i + 1)
  {
  }

  lemma ReversedRange(was: seq<Byte>, now: seq<Byte>, lo: nat, hi: nat)
    requires lo <= hi <= |was| && Mirrored(was, now, lo, hi, (hi - lo) / 2)
    ensures OnlyBetween(was, now, lo, hi) && now[lo..hi] == Reverse(was[lo..hi])
  {
  }

  /** Reads a little-endian number by reversing its bytes in the buffer and reading them from the
      front; only the bytes of the number are rearranged. */
  method ReadBigInt(data: array<Byte>, size: nat, offset: int) returns (r: Read<nat>)
    modifies data
    ensures r == ReadNum(old(data[..]), offset, size)
    ensures r.Ok? ==> OnlyBetween(old(data[..]), data[..], offset, r.next)
    ensures r.Ok? ==> data[offset..r.next] == Reverse(old(data[offset..r.next]))
    ensures r.Bad? ==> data[..] == old(data[..])
  {
    if offset < 0 || offset + size > data.Length {
      return Bad;
    }
    ReverseRange(data, offset, size);
    ghost var le: seq<nat> := old(data[..])[offset..offset + size];
    assert old(data[offset..offset + size]) == le;
    var be: seq<nat> := data[offset..offset + size];
    assert be == Reverse(le);
    BigIsReversed(256, le);
    return Ok(BigValue(256, be), offset + size);
  }

  lemma ReadAgree(was: seq<Byte>, now: seq<Byte>, lo: int, hi: int, ptr: int, n: nat)
    requires OnlyBetween(was, now, lo, hi) && hi <= ptr
    ensures ReadNum(now, ptr, n) == ReadNum(was, ptr, n)
  {
    if ptr + n <= |was| {
      assert now[ptr..ptr + n] == now[hi..][ptr - hi..][..n];
      assert was[ptr..ptr + n] == was[hi..][ptr - hi..][..n];
    }
  }

  lemma OnlyBetweenSymmetric(was: seq<Byte>, now: seq<Byte>, lo: int, hi: int)
    requires OnlyBetween(was, now, lo, hi)
    ensures OnlyBetween(now, was, lo, hi)
  {
  }

  lemma OnlyBetweenWidenLeft(was: seq<Byte>, now: seq<Byte>, lo: int, mid: int, hi: int)
    requires OnlyBetween(was, now, mid, hi) && 0 <= lo <= mid
    ensures OnlyBetween(was, now, lo, hi)
  {
    assert now[..lo] == now[..mid][..lo] && was[..lo] == was[..mid][..lo];
  }

  /** Bytes not yet reached still decode as they did before anything was rearranged. */
  lemma FactorAgree(was: seq<Byte>, now: seq<Byte>, n8: nat, lo: int, hi: int, ptr: int, count: nat)
    requires OnlyBetween(was, now, lo, hi) && hi <= ptr
    ensures DecodeFactor(now, n8, ptr, count) == DecodeFactor(was, n8, ptr, count)
  {
    hide ReadNum;
    ReadAgree(was, now, lo, hi, ptr, 4);
    ReadAgree(was, now, lo, hi, ptr + 4, n8);
  }

  lemma {:induction false} FactorsAgree(
    was: seq<Byte>, now: seq<Byte>, n8: nat, lo: int, hi: int, ptr: int, k: nat, count: nat)
    requires OnlyBetween(was, now, lo, hi) && hi <= ptr
    ensures DecodeFactors(now, n8, ptr, k, count) == DecodeFactors(was, n8, ptr, k, count)
    ensures var r := DecodeFactors(was, n8, ptr, k, count); r.Ok? ==> ptr <= r.next
    decreases k
  {
    hide DecodeFactor, OnlyBetween;
    if k > 0 {
      FactorAgree(was, now, n8, lo, hi, ptr, count);
      var f := DecodeFactor(was, n8, ptr, count);
      if f.Ok? {
        FactorEnds(was, n8, ptr, count);
        FactorsAgree(was, now, n8, lo, hi, f.next, k - 1, count + 1);
      }
    }
  }

  lemma FactorEnds(buf: seq<Byte>, n8: nat, ptr: int, count: nat)
    ensures var r := DecodeFactor(buf, n8, ptr, count); r.Ok? ==> ptr <= r.next <= |buf|
  {
  }

  lemma CombinationAgree(
    was: seq<Byte>, now: seq<Byte>, n8: nat, lo: int, hi: int, ptr: int, count: nat)
    requires OnlyBetween(was, now, lo, hi) && hi <= ptr
    ensures DecodeCombination(now, n8, ptr, count) == DecodeCombination(was, n8, ptr, count)
    ensures var r := DecodeCombination(was, n8, ptr, count); r.Ok? ==> ptr <= r.next
  {
    hide ReadNum, DecodeFactors, OnlyBetween;
    ReadAgree(was, now, lo, hi, ptr, 4);
    var k := ReadNum(was, ptr, 4);
    if k.Ok? {
      FactorsAgree(was, now, n8, lo, hi, k.next, k.value, count);
    }
  }

  lemma ConstraintAgree(
    was: seq<Byte>, now: seq<Byte>, n8: nat, lo: int, hi: int, ptr: int, count: nat)
    requires OnlyBetween(was, now, lo, hi) && hi <= ptr
    ensures DecodeConstraint(now, n8, ptr, count) == DecodeConstraint(was, n8, ptr, count)
  {
    hide DecodeCombination, OnlyBetween;
    CombinationAgree(was, now, n8, lo, hi, ptr, count);
    var a := DecodeCombination(was, n8, ptr, count);
    if a.Ok? {
      CombinationAgree(was, now, n8, lo, hi, a.next, count + |a.value|);
      var b := DecodeCombination(was, n8, a.next, count + |a.value|);
      if b.Ok? {
        CombinationAgree(was, now, n8, lo, hi, b.next, count + |a.value| + |b.value|);
      }
    }
  }

  lemma OnlyBetweenExtend(b0: seq<Byte>, b1: seq<Byte>, b2: seq<Byte>, lo: int, mid: int, hi: int)
    requires OnlyBetween(b0, b1, lo, mid) && OnlyBetween(b1, b2, mid, hi)
    ensures OnlyBetween(b0, b2, lo, hi)
  {
    assert b2[..lo] == b2[..mid][..lo] && b1[..lo] == b1[..mid][..lo];
    assert b1[hi..] == b1[mid..][hi - mid..] && b0[hi..] == b0[mid..][hi - mid..];
  }

  function Coefficients(c: Combination): (s: seq<nat>)
    ensures |s| == |c|
    ensures forall i :: 0 <= i < |c| ==> s[i] == c[i].coeff
  {
    seq(|c|, i requires 0 <= i < |c| => c[i].coeff)
  }

  /** A list read in a loop: the items read so far, then what the rest decodes to. */
  function Prepend<T>(xs: seq<T>, r: Read<seq<T>>): Read<seq<T>> {
    match r
    case Bad => Bad
    case Ok(v, next) => Ok(xs + v, next)
  }

  lemma PrependEnds(buf: seq<Byte>, n8: nat, ptr: int, k: nat, count: nat, fs: seq<Factor>)
    ensures Prepend([], DecodeFactors(buf, n8, ptr, k, count)) == DecodeFactors(buf, n8, ptr, k, count)
    ensures Prepend(fs, DecodeFactors(buf, n8, ptr, 0, count)) == Ok(fs, ptr)
  {
    var r := DecodeFactors(buf, n8, ptr, k, count);
    if r.Ok? {
      assert [] + r.value == r.value;
    }
    assert fs + [] == fs;
  }

  /** The factor just read moves from what is left to decode to what was decoded. */
  lemma PrependStep(buf: seq<Byte>, n8: nat, ptr: int, k: nat, count: nat, fs: seq<Factor>)
    requires k > 0
    ensures Prepend(fs, DecodeFactors(buf, n8, ptr, k, count))
            == match DecodeFactor(buf, n8, ptr, count)
               case Bad => Bad
               case Ok(f, p) => Prepend(fs + [f], DecodeFactors(buf, n8, p, k - 1, count + 1))
  {
    hide DecodeFactor;
    var first := DecodeFactor(buf, n8, ptr, count);
    if first.Ok? {
      var rest := DecodeFactors(buf, n8, first.next, k - 1, count + 1);
      if rest.Ok? {
        assert fs + ([first.value] + rest.value) == fs + [first.value] + rest.value;
      }
    }
  }

  /** One more term, whose coefficient was appended to the table. */
  lemma OneMoreTerm(
    ts: seq<Term.Word>, t: Term.Word, coeffs: seq<nat>, fs: seq<Factor>, f: Factor)
    requires StandsFor(ts, coeffs, fs) && TermStandsFor(t, coeffs + [f.coeff], f)
    ensures StandsFor(ts + [t], coeffs + [f.coeff], fs + [f])
    ensures Coefficients(fs + [f]) == Coefficients(fs) + [f.coeff]
  {
    TableGrows(ts, coeffs, [f.coeff], fs);
  }

  lemma NothingRead(was: seq<Byte>, lo: int, ptr: int)
    requires 0 <= lo <= ptr <= |was|
    ensures OnlyBetween(was, was, lo, ptr)
    ensures StandsFor([], [], []) && forall table: seq<nat> :: StandsFor([], table, [])
  {
  }

  /** What reading one combination does: the same outcome as decoding the bytes found at the call,
      and on success only the bytes read are rearranged, the table grows by the combination's
      coefficients in order, and the packed terms stand for the factors. */
  ghost predicate CombinationReadAs(
    was: seq<Byte>, now: seq<Byte>, n8: nat, offset: int, table: seq<nat>, table': seq<nat>,
    r: Read<seq<Term.Word>>)
  {
    match DecodeCombination(was, n8, offset, |table|)
    case Bad => r.Bad?
    case Ok(c, next) =>
      && r.Ok? && r.next == next
      && OnlyBetween(was, now, offset, next)
      && table' == table + Coefficients(c)
      && StandsFor(r.value, table', c)
  }

  ghost predicate ConstraintReadAs(
    was: seq<Byte>, now: seq<Byte>, n8: nat, offset: int, table: seq<nat>, table': seq<nat>,
    r: Read<PackedR1C>)
  {
    match DecodeConstraint(was, n8, offset, |table|)
    case Bad => r.Bad?
    case Ok(c, next) =>
      && r.Ok? && r.next == next
      && OnlyBetween(was, now, offset, next)
      && table' == table + Coefficients(c.a) + Coefficients(c.b) + Coefficients(c.c)
      && R1CStandsFor(r.value, table', c)
  }

  ghost predicate ConstraintsReadAs(
    was: seq<Byte>, now: seq<Byte>, n8: nat, offset: int, n: nat, count: nat, table': seq<nat>,
    r: Read<seq<PackedR1C>>)
  {
    match DecodeConstraints(was, n8, offset, n, count)
    case Bad => r.Bad?
    case Ok(cs, next) =>
      && r.Ok? && r.next == next
      && OnlyBetween(was, now, offset, next)
      && AllStandFor(r.value, table', cs)
  }

  lemma OneMoreConstraint(
    ps: seq<PackedR1C>, p: PackedR1C, table: seq<nat>, table': seq<nat>, cs: seq<Constraint>,
    c: Constraint)
    requires AllStandFor(ps, table, cs) && R1CStandsFor(p, table', c)
    requires table <= table'
    ensures AllStandFor(ps + [p], table', cs + [c])
  {
    hide StandsFor;
    var more := table'[|table|..];
    assert table + more == table';
    forall i | 0 <= i < |ps|
      ensures R1CStandsFor(ps[i], table', cs[i])
    {
      assert R1CStandsFor(ps[i], table, cs[i]);
      TableGrows(ps[i].l, table, more, cs[i].a);
      TableGrows(ps[i].r, table, more, cs[i].b);
      TableGrows(ps[i].o, table, more, cs[i].c);
    }
  }

  lemma ConstraintsEnds(
    buf: seq<Byte>, n8: nat, ptr: int, k: nat, count: nat, cs: seq<Constraint>)
    ensures Prepend([], DecodeConstraints(buf, n8, ptr, k, count))
            == DecodeConstraints(buf, n8, ptr, k, count)
    ensures Prepend(cs, DecodeConstraints(buf, n8, ptr, 0, count)) == Ok(cs, ptr)
  {
    hide DecodeConstraint;
    var r := DecodeConstraints(buf, n8, ptr, k, count);
    if r.Ok? {
      assert [] + r.value == r.value;
    }
    assert cs + [] == cs;
  }

  lemma ConstraintsStep(
    buf: seq<Byte>, n8: nat, ptr: int, k: nat, count: nat, cs: seq<Constraint>)
    requires k > 0
    ensures Prepend(cs, DecodeConstraints(buf, n8, ptr, k, count))
            == match DecodeConstraint(buf, n8, ptr, count)
               case Bad => Bad
               case Ok(c, p) =>
                 Prepend(cs + [c], DecodeConstraints(buf, n8, p, k - 1, count + Size(c)))
  {
    hide DecodeConstraint;
    var first := DecodeConstraint(buf, n8, ptr, count);
    if first.Ok? {
      var rest := DecodeConstraints(buf, n8, first.next, k - 1, count + Size(first.value));
      if rest.Ok? {
        assert cs + ([first.value] + rest.value) == cs + [first.value] + rest.value;
      }
    }
  }

  lemma LabelsEnds(buf: seq<Byte>, ptr: int, k: nat, ls: seq<nat>)
    ensures Prepend([], DecodeLabels(buf, ptr, k)) == DecodeLabels(buf, ptr, k)
    ensures Prepend(ls, DecodeLabels(buf, ptr, 0)) == Ok(ls, ptr)
  {
    hide ReadNum;
    var r := DecodeLabels(buf, ptr, k);
    if r.Ok? {
      assert [] + r.value == r.value;
    }
    assert ls + [] == ls;
  }

  lemma LabelsStep(buf: seq<Byte>, ptr: int, k: nat, ls: seq<nat>)
    requires k > 0
    ensures Prepend(ls, DecodeLabels(buf, ptr, k))
            == match ReadNum(buf, ptr, 8)
               case Bad => Bad
               case Ok(l, p) => Prepend(ls + [l], DecodeLabels(buf, p, k - 1))
  {
    hide ReadNum;
    var first := ReadNum(buf, ptr, 8);
    if first.Ok? {
      var rest := DecodeLabels(buf, first.next, k - 1);
      if rest.Ok? {
        assert ls + ([first.value] + rest.value) == ls + [first.value] + rest.value;
      }
    }
  }

  lemma CountsAgree(was: seq<Byte>, now: seq<Byte>, lo: int, hi: int, fieldSize: nat, prime: nat)
    requires OnlyBetween(was, now, lo, hi)
    ensures DecodeCounts(now, hi, fieldSize, prime) == DecodeCounts(was, hi, fieldSize, prime)
  {
    hide ReadNum, OnlyBetween;
    ReadAgree(was, now, lo, hi, hi, 4);
    ReadAgree(was, now, lo, hi, hi + 4, 4);
    ReadAgree(was, now, lo, hi, hi + 8, 4);
    ReadAgree(was, now, lo, hi, hi + 12, 4);
    ReadAgree(was, now, lo, hi, hi + 16, 8);
    ReadAgree(was, now, lo, hi, hi + 24, 4);
  }

  lemma CountsEnd(buf: seq<Byte>, ptr: int, fieldSize: nat, prime: nat)
    ensures var r := DecodeCounts(buf, ptr, fieldSize, prime); r.Ok? ==> ptr <= r.next <= |buf|
  {
    hide ReadNum;
  }

  lemma OnlyBetweenWidenRight(was: seq<Byte>, now: seq<Byte>, lo: int, mid: int, hi: int)
    requires OnlyBetween(was, now, lo, mid) && mid <= hi <= |was|
    ensures OnlyBetween(was, now, lo, hi)
  {
    assert now[hi..] == now[mid..][hi - mid..] && was[hi..] == was[mid..][hi - mid..];
  }

  /** The two setter calls on a term of the combination. */
  function SetIDs(t: Term.Word, coeffID: nat, wireID: nat): (r: Term.Maybe<Term.Word>)
    requires coeffID < Term.TWO_63 && wireID < Term.TWO_63
    ensures r.Panic? <==> coeffID >= Term.MAX_COEFFS || wireID >= Term.MAX_WIRES
    ensures r.Value? ==> Term.CoeffID(r.value) == coeffID && Term.WireID(r.value) == wireID
  {
    match Term.WithCoeffID(t, coeffID)
    case Panic => Term.Maybe.Panic
    case Value(t') => Term.WithWireID(t', wireID)
  }

  class R1csReader {
    var n8: nat
    var coeffs: seq<nat>
    var coefCount: nat
    var labels: seq<nat>
    var numOutput: nat
    var numInPublic: nat

    constructor ()
    {
      n8, coeffs, coefCount, labels, numOutput, numInPublic := 0, [], 0, [], 0, 0;
    }

    ghost predicate Valid()
      reads this
    {
      coefCount == |coeffs| <= Term.MAX_COEFFS
    }

    /** The loop body of readLC: one wire index and one coefficient, packed into term `t`. */
    method ReadTerm(data: array<Byte>, offset: int, t: Term.Word) returns (r: Read<Term.Word>)
      requires Valid()
      modifies this`coeffs, this`coefCount, data
      ensures match DecodeFactor(old(data[..]), n8, offset, old(|coeffs|))
              case Bad => r.Bad?
              case Ok(f, next) =>
                && r.Ok? && r.next == next && Valid()
                && OnlyBetween(old(data[..]), data[..], offset, next)
                && coeffs == old(coeffs) + [f.coeff]
                && TermStandsFor(r.value, coeffs, f)
    {
      hide Term.WireID, Term.CoeffID, SetIDs, ReadNum, OnlyBetween;
      ghost var was := data[..];
      var index := ReadUint32(data, offset);
      if index.Bad? {
        return Bad;
      }
      var coeff := ReadBigInt(data, n8, index.next);
      if coeff.Bad? {
        return Bad;
      }
      OnlyBetweenWidenLeft(was, data[..], offset, index.next, coeff.next);
      coeffs := coeffs + [coeff.value];
      var t' := SetIDs(t, coefCount, index.value);
      if t'.Panic? {
        return Bad;
      }
      coefCount := coefCount + 1;
      return Ok(t'.value, coeff.next);
    }

    method ReadLC(data: array<Byte>, offset: int) returns (r: Read<seq<Term.Word>>)
      requires Valid()
      modifies this`coeffs, this`coefCount, data
      ensures CombinationReadAs(old(data[..]), data[..], n8, offset, old(coeffs), coeffs, r)
      ensures r.Ok? ==> Valid()
    {
      hide TermStandsFor, StandsFor, DecodeFactor, DecodeFactors, ReadNum, OnlyBetween;
      ghost var was := data[..];
      var head := ReadUint32(data, offset);
      if head.Bad? {
        return Bad;
      }
      var nTerms, ptr := head.value, head.next;
      var lc: seq<Term.Word> := seq(nTerms, _ => 0);
      ghost var fs: seq<Factor> := [];
      PrependEnds(was, n8, ptr, nTerms, |coeffs|, fs);
      NothingRead(was, offset, ptr);
      var i := 0;
      while i < nTerms
        invariant 0 <= i <= nTerms && |lc| == nTerms && |fs| == i
        invariant OnlyBetween(was, data[..], offset, ptr)
        invariant Valid() && coeffs == old(coeffs) + Coefficients(fs)
        invariant StandsFor(lc[..i], coeffs, fs)
        invariant DecodeCombination(was, n8, offset, old(|coeffs|))
               == Prepend(fs, DecodeFactors(was, n8, ptr, nTerms - i, |coeffs|))
      {
        ghost var before, table := data[..], coeffs;
        PrependStep(was, n8, ptr, nTerms - i, |table|, fs);
        FactorAgree(was, before, n8, offset, ptr, ptr, |table|);
        var t := ReadTerm(data, ptr, lc[i]);
        if t.Bad? {
          return Bad;
        }
        lc := lc[i := t.value];
        ghost var f := DecodeFactor(was, n8, ptr, |table|).value;
        OnlyBetweenExtend(was, before, data[..], offset, ptr, t.next);
        OneMoreTerm(lc[..i], t.value, table, fs, f);
        assert lc[..i + 1] == lc[..i] + [t.value];
        fs := fs + [f];
        ptr := t.next;
        i := i + 1;
      }
      PrependEnds(was, n8, ptr, 0, |coeffs|, fs);
      assert lc[..i] == lc;
      return Ok(lc, ptr);
    }

    method ReadR1C(data: array<Byte>, offset: int) returns (r: Read<PackedR1C>)
      requires Valid()
      modifies this`coeffs, this`coefCount, data
      ensures ConstraintReadAs(old(data[..]), data[..], n8, offset, old(coeffs), coeffs, r)
      ensures r.Ok? ==> Valid()
    {
      hide DecodeCombination, OnlyBetween, StandsFor;
      ghost var b0, t0 := data[..], coeffs;
      var l := ReadLC(data, offset);
      if l.Bad? {
        return Bad;
      }
      ghost var b1, t1 := data[..], coeffs;
      CombinationAgree(b0, b1, n8, offset, l.next, l.next, |t1|);
      var r' := ReadLC(data, l.next);
      if r'.Bad? {
        return Bad;
      }
      ghost var b2, t2 := data[..], coeffs;
      OnlyBetweenExtend(b0, b1, b2, offset, l.next, r'.next);
      CombinationAgree(b0, b2, n8, offset, r'.next, r'.next, |t2|);
      var o := ReadLC(data, r'.next);
      if o.Bad? {
        return Bad;
      }
      OnlyBetweenExtend(b0, b2, data[..], offset, r'.next, o.next);
      ghost var c := DecodeConstraint(b0, n8, offset, |t0|).value;
      TableGrows(l.value, t1, Coefficients(c.b), c.a);
      TableGrows(l.value, t2, Coefficients(c.c), c.a);
      TableGrows(r'.value, t2, Coefficients(c.c), c.b);
      return Ok(PackedR1C(l.value, r'.value, o.value), o.next);
    }

    /** The section loop; the buffer is only read. */
    method ReadSections(file: array<Byte>, offset: int, nSections: nat) returns (r: Read<Table>)
      ensures r == DecodeTable(file[..], offset, nSections, map[])
    {
      hide ReadNum;
      var sections: Table := map[];
      var ptr, i := offset, 0;
      while i < nSections
        invariant 0 <= i <= nSections
        invariant DecodeTable(file[..], offset, nSections, map[])
               == DecodeTable(file[..], ptr, nSections - i, sections)
      {
        var kind := ReadUint32(file, ptr);
        if kind.Bad? {
          return Bad;
        }
        var len := ReadUint64(file, kind.next);
        if len.Bad? {
          return Bad;
        }
        sections := sections[kind.value := Section(len.next, ToInt64(len.value))];
        ptr := len.next + ToInt64(len.value);
        i := i + 1;
      }
      return Ok(sections, ptr);
    }

    /** The header section: field size, prime (reversed in place), counts, and the check that the
        cursor ends where the section does. */
    method ReadHeader(file: array<Byte>, s: Section) returns (r: Result<Header>)
      modifies this`n8, file
      ensures r == DecodeHeader(old(file[..]), s)
      ensures r.Success? ==> n8 == r.value.fieldSize
                             && OnlyBetween(old(file[..]), file[..], s.offset, End(s))
    {
      hide ReadNum, OnlyBetween;
      ghost var was := file[..];
      var size := ReadUint32(file, s.offset);
      if size.Bad? {
        return Fail(OutOfRange);
      }
      n8 := size.value;
      var prime := ReadBigInt(file, n8, size.next);
      if prime.Bad? {
        return Fail(OutOfRange);
      }
      if prime.value != BN254_PRIME {
        return Fail(BadPrime);
      }
      OnlyBetweenWidenLeft(was, file[..], s.offset, size.next, prime.next);
      CountsAgree(was, file[..], s.offset, prime.next, n8, prime.value);
      var counts := ReadCounts(file, prime.next, n8, prime.value);
      if counts.Bad? {
        return Fail(OutOfRange);
      }
      if End(s) != counts.next {
        return Fail(BadSectionSize);
      }
      CountsEnd(was, prime.next, n8, prime.value);
      OnlyBetweenWidenRight(was, file[..], s.offset, prime.next, End(s));
      return Success(counts.value);
    }

    static method ReadCounts(file: array<Byte>, ptr: int, fieldSize: nat, prime: nat)
      returns (r: Read<Header>)
      ensures r == DecodeCounts(file[..], ptr, fieldSize, prime)
    {
      hide ReadNum;
      var nVars := ReadUint32(file, ptr);
      if nVars.Bad? { return Bad; }
      var nOutputs := ReadUint32(file, nVars.next);
      if nOutputs.Bad? { return Bad; }
      var nPubInputs := ReadUint32(file, nOutputs.next);
      if nPubInputs.Bad? { return Bad; }
      var nPrvInputs := ReadUint32(file, nPubInputs.next);
      if nPrvInputs.Bad? { return Bad; }
      var nLabels := ReadUint64(file, nPrvInputs.next);
      if nLabels.Bad? { return Bad; }
      var nConstraints := ReadUint32(file, nLabels.next);
      if nConstraints.Bad? { return Bad; }
      return Ok(Header(fieldSize, prime, nVars.value, nOutputs.value, nPubInputs.value,
                       nPrvInputs.value, nLabels.value, nConstraints.value), nConstraints.next);
    }

    /** The constraint loop. */
    method ReadConstraints(file: array<Byte>, offset: int, n: nat) returns (r: Read<seq<PackedR1C>>)
      requires Valid() && 0 <= offset <= file.Length
      modifies this`coeffs, this`coefCount, file
      ensures ConstraintsReadAs(old(file[..]), file[..], n8, offset, n, old(|coeffs|), coeffs, r)
      ensures r.Ok? ==> Valid()
    {
      hide DecodeConstraint, DecodeConstraints, OnlyBetween, R1CStandsFor;
      ghost var was := file[..];
      var cs: seq<PackedR1C> := [];
      ghost var done: seq<Constraint> := [];
      var ptr, i := offset, 0;
      NothingRead(was, offset, ptr);
      ConstraintsEnds(was, n8, ptr, n, |coeffs|, done);
      while i < n
        invariant 0 <= i <= n && |cs| == i
        invariant OnlyBetween(was, file[..], offset, ptr)
        invariant Valid() && AllStandFor(cs, coeffs, done)
        invariant DecodeConstraints(was, n8, offset, n, old(|coeffs|))
               == Prepend(done, DecodeConstraints(was, n8, ptr, n - i, |coeffs|))
      {
        ghost var before, table := file[..], coeffs;
        ConstraintsStep(was, n8, ptr, n - i, |table|, done);
        ConstraintAgree(was, before, n8, offset, ptr, ptr, |table|);
        var c := ReadR1C(file, ptr);
        if c.Bad? {
          return Bad;
        }
        OnlyBetweenExtend(was, before, file[..], offset, ptr, c.next);
        ghost var d := DecodeConstraint(was, n8, ptr, |table|).value;
        OneMoreConstraint(cs, c.value, table, coeffs, done, d);
        cs, done := cs + [c.value], done + [d];
        ptr, i := c.next, i + 1;
      }
      ConstraintsEnds(was, n8, ptr, 0, |coeffs|, done);
      return Ok(cs, ptr);
    }

    /** The wire-to-label loop. */
    method ReadLabels(file: array<Byte>, offset: int, n: nat) returns (r: Read<seq<nat>>)
      ensures r == DecodeLabels(file[..], offset, n)
    {
      hide ReadNum;
      var ls: seq<nat> := [];
      var ptr, i := offset, 0;
      LabelsEnds(file[..], ptr, n, ls);
      while i < n
        invariant 0 <= i <= n && |ls| == i
        invariant DecodeLabels(file[..], offset, n) == Prepend(ls, DecodeLabels(file[..], ptr, n - i))
      {
        LabelsStep(file[..], ptr, n - i, ls);
        var l := ReadUint64(file, ptr);
        if l.Bad? {
          return Bad;
        }
        ls := ls + [l.value];
        ptr, i := l.next, i + 1;
      }
      LabelsEnds(file[..], ptr, 0, ls);
      return Ok(ls, ptr);
    }

    /** Reads a whole file. Up to the end of the header section the outcome, errors included, is that
        of decoding the original bytes. Beyond it, for files whose section sizes Go reads as
        non-negative, reading succeeds exactly when decoding the original bytes does, and then builds
        a circuit for exactly the decoded constraint system: the reversals made on the way are never
        seen by a later read. */
    method ReadR1CS(file: array<Byte>) returns (r: Result<Circuit>)
      modifies this, file
      ensures r.Success? ==> |old(file[..])| >= 4 && old(file[..])[..4] == [0x72, 0x31, 0x63, 0x73]
      ensures file.Length < 4 ==> r == Fail(OutOfRange)
      ensures file.Length >= 4 && old(file[..])[..4] != [0x72, 0x31, 0x63, 0x73] ==> r == Fail(BadMagic)
      ensures HeaderOf(old(file[..])).Fail? ==> r == Fail(HeaderOf(old(file[..])).failure)
      ensures ForwardFile(old(file[..])) ==> (r.Success? <==> Decode(old(file[..])).Success?)
      ensures ForwardFile(old(file[..])) && r.Success? ==>
                Represents(r.value, coeffs, labels, numOutput, numInPublic, Decode(old(file[..])).value)
      ensures r.Success? ==> Valid()
    {
      hide DecodeTable, DecodeHeader, DecodeBody, OnlyBetween, ReadNum, Represents, ForwardFile,
           ThreeApart;
      n8, coeffs, coefCount, labels := 0, [], 0, [];
      ghost var b0 := file[..];
      if file.Length < 4 {
        return Fail(OutOfRange);
      }
      if file[..4] != MAGIC {
        return Fail(BadMagic);
      }
      var version := ReadUint32(file, 4);
      if version.Bad? {
        return Fail(OutOfRange);
      }
      var nSections := ReadUint32(file, version.next);
      if nSections.Bad? {
        return Fail(OutOfRange);
      }
      var sections := ReadSections(file, nSections.next, nSections.value);
      if sections.Bad? {
        return Fail(OutOfRange);
      }
      ghost var table := sections.value;
      SectionTableInFile(b0, table);
      var s1, s2, s3 :=
        SectionOf(sections.value, 1), SectionOf(sections.value, 2), SectionOf(sections.value, 3);
      var header := ReadHeader(file, s1);
      if header.Fail? {
        return Fail(header.failure);
      }
      numOutput, numInPublic := header.value.nOutputs, header.value.nPubInputs;
      if ForwardFile(b0) {
        SectionsApart(b0, table);
      }
      r := ReadBody(file, s1, s2, s3, header.value, b0);
    }

    /** Sections 2 and 3, read after the header section's prime was reversed. */
    method ReadBody(
      file: array<Byte>, ghost s1: Section, s2: Section, s3: Section, h: Header, ghost b0: seq<Byte>)
      returns (r: Result<Circuit>)
      requires file.Length == |b0| && n8 == h.fieldSize && coeffs == [] && coefCount == 0
      requires numOutput == h.nOutputs && numInPublic == h.nPubInputs
      requires OnlyBetween(b0, file[..], s1.offset, End(s1)) && 0 <= s2.offset <= |b0|
      modifies this`coeffs, this`coefCount, this`labels, file
      ensures ThreeApart(|b0|, s1, s2, s3) ==>
                var d := DecodeBody(b0, s2, s3, h);
                && (r.Success? <==> d.Success?)
                && (r.Success? ==> Represents(r.value, coeffs, labels, numOutput, numInPublic, d.value))
      ensures r.Success? ==> Valid()
    {
      hide DecodeConstraints, DecodeLabels, OnlyBetween, AllStandFor;
      ghost var b1 := file[..];
      var constraints := ReadConstraints(file, s2.offset, h.nConstraints);
      if ThreeApart(|b0|, s1, s2, s3) {
        OnlyBetweenSymmetric(b0, b1, s1.offset, End(s1));
        ConstraintsMove(b0, b1, s1, s2, h);
        ConstraintsMove(b1, b0, s1, s2, h);
      }
      if constraints.Bad? {
        return Fail(OutOfRange);
      }
      if End(s2) != constraints.next {
        return Fail(BadSectionSize);
      }
      ghost var b2 := file[..];
      var ls := ReadLabels(file, s3.offset, h.nVars);
      if ThreeApart(|b0|, s1, s2, s3) {
        OnlyBetweenSymmetric(b1, b2, s2.offset, End(s2));
        LabelsMove(b0, b1, s1, s3, h);
        LabelsMove(b1, b2, s2, s3, h);
        LabelsMove(b2, b1, s2, s3, h);
        LabelsMove(b1, b0, s1, s3, h);
      }
      if ls.Bad? {
        return Fail(OutOfRange);
      }
      labels := ls.value;
      if End(s3) != ls.next {
        return Fail(BadSectionSize);
      }
      return Success(Circuit(constraints.value, (h.nVars - h.nPubInputs - h.nOutputs) % 0x1_0000_0000,
                             (h.nPubInputs + h.nOutputs) % 0x1_0000_0000));
    }
  }

  function HeaderOf(buf: seq<Byte>): Result<Header> {
    match DecodeSectionTable(buf)
    case Fail(f) => Fail(f)
    case Success(table) => DecodeHeader(buf, SectionOf(table, 1))
  }

  /** The circuit built has the constraints, labels and (32-bit) wire counts of `r`. */
  ghost predicate Represents(
    c: Circuit, coeffs: seq<nat>, labels: seq<nat>, nOutputs: nat, nPubInputs: nat, r: R1cs)
  {
    && AllStandFor(c.constraints, coeffs, r.constraints)
    && labels == r.labels
    && nOutputs == r.header.nOutputs && nPubInputs == r.header.nPubInputs
    && c.nPublic == (nPubInputs + nOutputs) % 0x1_0000_0000
    && c.nWitness == (r.header.nVars - nPubInputs - nOutputs) % 0x1_0000_0000
  }

  /** A range that shares nothing with the bytes that moved holds what it held. */
  lemma AtUnaffected(was: seq<Byte>, now: seq<Byte>, lo: int, hi: int, ptr: int, xs: seq<nat>, next: int)
    requires OnlyBetween(was, now, lo, hi) && (hi <= ptr || next <= lo)
    ensures At(was, ptr, xs, next) <==> At(now, ptr, xs, next)
  {
    if 0 <= ptr <= next <= |was| {
      SliceUnaffected(was, now, lo, hi, ptr, next);
    }
  }

  lemma SliceUnaffected(was: seq<Byte>, now: seq<Byte>, lo: int, hi: int, ptr: int, next: int)
    requires OnlyBetween(was, now, lo, hi) && (hi <= ptr || next <= lo) && 0 <= ptr <= next <= |was|
    ensures was[ptr..next] == now[ptr..next]
  {
    forall k | ptr <= k < next
      ensures was[k] == now[k]
    {
      if hi <= ptr {
        assert was[k] == was[hi..][k - hi] && now[k] == now[hi..][k - hi];
      } else {
        assert was[k] == was[..lo][k] && now[k] == now[..lo][k];
      }
    }
  }

  /** The three sections lie in a file of this size and share no byte. */
  ghost predicate ThreeApart(size: nat, s1: Section, s2: Section, s3: Section) {
    && 0 <= s1.offset <= size && 0 <= s2.offset <= size && 0 <= s3.offset <= size
    && (End(s1) <= s2.offset || End(s2) <= s1.offset)
    && (End(s1) <= s3.offset || End(s3) <= s1.offset)
    && (End(s2) <= s3.offset || End(s3) <= s2.offset)
  }

  /** A missing section is the empty range at 0. */
  lemma SectionsApart(buf: seq<Byte>, table: Table)
    requires DecodeSectionTable(buf) == Success(table) && ForwardFile(buf)
    ensures ThreeApart(|buf|, SectionOf(table, 1), SectionOf(table, 2), SectionOf(table, 3))
  {
    hide DecodeSectionTable, ForwardFile, Separated, SectionOf;
    SectionTableInFile(buf, table);
    var limit :| Separated(table, limit);
    PairApart(table, limit, 1, 2);
    PairApart(table, limit, 1, 3);
    PairApart(table, limit, 2, 3);
  }

  lemma PairApart(table: Table, limit: int, i: nat, j: nat)
    requires Separated(table, limit) && i != j
    ensures var a, b := SectionOf(table, i), SectionOf(table, j);
            End(a) <= b.offset || End(b) <= a.offset
  {
    if i in table && j in table {
      var a, b := table[i], table[j];
      assert End(a) <= b.offset || End(b) <= a.offset;
    } else if i in table {
      assert 0 <= table[i].offset;
    } else if j in table {
      assert 0 <= table[j].offset;
    }
  }

  // A section that shares nothing with the bytes that moved decodes as before.

  lemma ConstraintsMove(was: seq<Byte>, now: seq<Byte>, moved: Section, s: Section, h: Header)
    requires OnlyBetween(was, now, moved.offset, End(moved)) && 0 <= s.offset <= |was|
    requires End(moved) <= s.offset || End(s) <= moved.offset
    ensures var r := DecodeConstraints(was, h.fieldSize, s.offset, h.nConstraints, 0);
            r.Ok? && r.next == End(s)
            ==> DecodeConstraints(now, h.fieldSize, s.offset, h.nConstraints, 0) == r
  {
    hide DecodeConstraints, At, OnlyBetween;
    var r := DecodeConstraints(was, h.fieldSize, s.offset, h.nConstraints, 0);
    if r.Ok? && r.next == End(s) {
      ConstraintsRead(was, h.fieldSize, s.offset, 0, r.value, r.next);
      AtUnaffected(was, now, moved.offset, End(moved), s.offset,
                   EncodeConstraints(h.fieldSize, r.value), r.next);
      ConstraintsWritten(now, h.fieldSize, s.offset, 0, r.value, r.next);
    }
  }

  lemma LabelsMove(was: seq<Byte>, now: seq<Byte>, moved: Section, s: Section, h: Header)
    requires OnlyBetween(was, now, moved.offset, End(moved)) && 0 <= s.offset <= |was|
    requires End(moved) <= s.offset || End(s) <= moved.offset
    ensures var r := DecodeLabels(was, s.offset, h.nVars);
            r.Ok? && r.next == End(s) ==> DecodeLabels(now, s.offset, h.nVars) == r
  {
    hide DecodeLabels, At, OnlyBetween;
    var r := DecodeLabels(was, s.offset, h.nVars);
    if r.Ok? && r.next == End(s) {
      LabelsRead(was, s.offset, r.value, r.next);
      AtUnaffected(was, now, moved.offset, End(moved), s.offset, EncodeLabels(r.value), r.next);
      LabelsWritten(now, s.offset, r.value, r.next);
    }
  }
}
