/** The iden3 `.r1cs` binary format: the constraint system a file stands for, the writer that lays it
    out, and the decoder on immutable bytes that the in-place reader is compared with. */
module R1csFormat {
  import opened Positional
  import Term

  // ---- what a file stands for ----

  datatype Factor = Factor(wire: nat, coeff: nat)

  type Combination = seq<Factor>

  datatype Constraint = Constraint(a: Combination, b: Combination, c: Combination)

  datatype Header = Header(
    fieldSize: nat, prime: nat, nVars: nat, nOutputs: nat, nPubInputs: nat, nPrvInputs: nat,
    nLabels: nat, nConstraints: nat)

  datatype R1cs = R1cs(header: Header, constraints: seq<Constraint>, labels: seq<nat>)

  const BN254_PRIME: nat :=
    21888242871839275222246405745257275088548364400416034343698204186575808495617

  /** The order of BN254's scalar field, as the curve's family gives it. */
  lemma PrimeIsBn254()
    ensures var u := 4965661367192848881;
            BN254_PRIME == 36 * u * u * u * u + 36 * u * u * u + 18 * u * u + 6 * u + 1
  {
  }

  const MAGIC: seq<nat> := [0x72, 0x31, 0x63, 0x73] // "r1cs"

  // ---- the writer ----

  function EncodeFactor(n8: nat, f: Factor): seq<nat> {
    Digits(256, f.wire, 4) + Digits(256, f.coeff, n8)
  }

  function EncodeFactors(n8: nat, fs: seq<Factor>): seq<nat> {
    if fs == [] then []
    else EncodeFactor(n8, fs[0]) + EncodeFactors(n8, fs[1..])
  }

  function EncodeCombination(n8: nat, c: Combination): seq<nat> {
    Digits(256, |c|, 4) + EncodeFactors(n8, c)
  }

  function EncodeConstraint(n8: nat, c: Constraint): seq<nat> {
    EncodeCombination(n8, c.a) + (EncodeCombination(n8, c.b) + EncodeCombination(n8, c.c))
  }

  function EncodeConstraints(n8: nat, cs: seq<Constraint>): seq<nat> {
    if cs == [] then [] else EncodeConstraint(n8, cs[0]) + EncodeConstraints(n8, cs[1..])
  }

  function EncodeLabels(ls: seq<nat>): seq<nat> {
    if ls == [] then [] else Digits(256, ls[0], 8) + EncodeLabels(ls[1..])
  }

  function EncodeCounts(h: Header): seq<nat> {
    Digits(256, h.nVars, 4) + (Digits(256, h.nOutputs, 4) + (Digits(256, h.nPubInputs, 4)
    + (Digits(256, h.nPrvInputs, 4) + (Digits(256, h.nLabels, 8) + Digits(256, h.nConstraints, 4)))))
  }

  function EncodeHeader(h: Header): seq<nat> {
    Digits(256, h.fieldSize, 4) + (Digits(256, h.prime, h.fieldSize) + EncodeCounts(h))
  }

  /** A section of any kind; readers skip the kinds they do not know. */
  datatype RawSection = RawSection(kind: nat, payload: seq<nat>)

  function EncodeSections(secs: seq<RawSection>): seq<nat> {
    if secs == [] then []
    else Digits(256, secs[0].kind, 4)
         + (Digits(256, |secs[0].payload|, 8) + (secs[0].payload + EncodeSections(secs[1..])))
  }

  function EncodeFile(version: nat, secs: seq<RawSection>): seq<nat> {
    MAGIC + (Digits(256, version, 4) + (Digits(256, |secs|, 4) + EncodeSections(secs)))
  }

  // ---- the values the reader can hold ----

  predicate FactorFits(n8: nat, f: Factor) {
    f.wire < Term.MAX_WIRES && f.coeff < Pow(256, n8)
  }

  /** `count` coefficients were stored before this combination. */
  predicate CombinationFits(n8: nat, count: nat, c: Combination) {
    && (forall f :: f in c ==> FactorFits(n8, f))
    && count + |c| <= Term.MAX_COEFFS
  }

  function Size(c: Constraint): nat {
    |c.a| + |c.b| + |c.c|
  }

  predicate ConstraintFits(n8: nat, count: nat, c: Constraint) {
    && CombinationFits(n8, count, c.a)
    && CombinationFits(n8, count + |c.a|, c.b)
    && CombinationFits(n8, count + |c.a| + |c.b|, c.c)
  }

  predicate ConstraintsFit(n8: nat, count: nat, cs: seq<Constraint>)
    decreases cs
  {
    cs == [] || (ConstraintFits(n8, count, cs[0]) && ConstraintsFit(n8, count + Size(cs[0]), cs[1..]))
  }

  predicate HeaderFits(h: Header) {
    && h.fieldSize < Pow(256, 4) && h.prime == BN254_PRIME < Pow(256, h.fieldSize)
    && h.nVars < Pow(256, 4) && h.nOutputs < Pow(256, 4) && h.nPubInputs < Pow(256, 4)
    && h.nPrvInputs < Pow(256, 4) && h.nLabels < Pow(256, 8) && h.nConstraints < Pow(256, 4)
  }

  predicate LabelsFit(ls: seq<nat>) {
    ls == [] || (ls[0] < Pow(256, 8) && LabelsFit(ls[1..]))
  }

  predicate Fits(r: R1cs) {
    && HeaderFits(r.header)
    && |r.constraints| == r.header.nConstraints && |r.labels| == r.header.nVars
    && ConstraintsFit(r.header.fieldSize, 0, r.constraints)
    && LabelsFit(r.labels)
  }

  // ---- the decoder, on bytes that never change ----

  /** The result of a read: a value and the position after it, or an index panic. */
  datatype Read<+T> = Ok(value: T, next: int) | Bad

  function ReadNum(buf: seq<Byte>, ptr: int, n: nat): (r: Read<nat>)
    ensures r.Ok? ==> 0 <= ptr && r.next == ptr + n <= |buf|
  {
    if 0 <= ptr && ptr + n <= |buf| then Ok(Value(256, buf[ptr..ptr + n]), ptr + n) else Bad
  }

  /** `count` coefficients are already in the table; an id that does not fit its term panics. */
  function DecodeFactor(buf: seq<Byte>, n8: nat, ptr: int, count: nat): Read<Factor> {
    match ReadNum(buf, ptr, 4)
    case Bad => Bad
    case Ok(wire, p) =>
      match ReadNum(buf, p, n8)
      case Bad => Bad
      case Ok(coeff, next) =>
        if count >= Term.MAX_COEFFS || wire >= Term.MAX_WIRES then Bad
        else Ok(Factor(wire, coeff), next)
  }

  function DecodeFactors(buf: seq<Byte>, n8: nat, ptr: int, k: nat, count: nat)
    : (r: Read<seq<Factor>>)
    ensures r.Ok? ==> |r.value| == k
    decreases k
  {
    if k == 0 then Ok([], ptr)
    else match DecodeFactor(buf, n8, ptr, count)
         case Bad => Bad
         case Ok(f, p) =>
           match DecodeFactors(buf, n8, p, k - 1, count + 1)
           case Bad => Bad
           case Ok(rest, next) => Ok([f] + rest, next)
  }

  function DecodeCombination(buf: seq<Byte>, n8: nat, ptr: int, count: nat): Read<Combination> {
    match ReadNum(buf, ptr, 4)
    case Bad => Bad
    case Ok(k, p) => DecodeFactors(buf, n8, p, k, count)
  }

  function DecodeConstraint(buf: seq<Byte>, n8: nat, ptr: int, count: nat): Read<Constraint> {
    match DecodeCombination(buf, n8, ptr, count)
    case Bad => Bad
    case Ok(a, p) =>
      match DecodeCombination(buf, n8, p, count + |a|)
      case Bad => Bad
      case Ok(b, q) =>
        match DecodeCombination(buf, n8, q, count + |a| + |b|)
        case Bad => Bad
        case Ok(c, next) => Ok(Constraint(a, b, c), next)
  }

  function DecodeConstraints(buf: seq<Byte>, n8: nat, ptr: int, k: nat, count: nat)
    : (r: Read<seq<Constraint>>)
    ensures r.Ok? ==> |r.value| == k
    decreases k
  {
    if k == 0 then Ok([], ptr)
    else match DecodeConstraint(buf, n8, ptr, count)
         case Bad => Bad
         case Ok(c, p) =>
           match DecodeConstraints(buf, n8, p, k - 1, count + Size(c))
           case Bad => Bad
           case Ok(rest, next) => Ok([c] + rest, next)
  }

  function DecodeLabels(buf: seq<Byte>, ptr: int, k: nat): (r: Read<seq<nat>>)
    ensures r.Ok? ==> |r.value| == k
    decreases k
  {
    if k == 0 then Ok([], ptr)
    else match ReadNum(buf, ptr, 8)
         case Bad => Bad
         case Ok(l, p) =>
           match DecodeLabels(buf, p, k - 1)
           case Bad => Bad
           case Ok(rest, next) => Ok([l] + rest, next)
  }

  function DecodeCounts(buf: seq<Byte>, ptr: int, fieldSize: nat, prime: nat): Read<Header> {
    match ReadNum(buf, ptr, 4)
    case Bad => Bad
    case Ok(nVars, p1) =>
      match ReadNum(buf, p1, 4)
      case Bad => Bad
      case Ok(nOutputs, p2) =>
        match ReadNum(buf, p2, 4)
        case Bad => Bad
        case Ok(nPubInputs, p3) =>
          match ReadNum(buf, p3, 4)
          case Bad => Bad
          case Ok(nPrvInputs, p4) =>
            match ReadNum(buf, p4, 8)
            case Bad => Bad
            case Ok(nLabels, p5) =>
              match ReadNum(buf, p5, 4)
              case Bad => Bad
              case Ok(nConstraints, p6) =>
                Ok(Header(fieldSize, prime, nVars, nOutputs, nPubInputs, nPrvInputs, nLabels,
                          nConstraints), p6)
  }

  datatype Section = Section(offset: int, size: int)

  type Table = map<nat, Section>

  /** Go's int(x) of a uint64. */
  function ToInt64(x: nat): int {
    if x < 0x8000_0000_0000_0000 then x else x - 0x1_0000_0000_0000_0000
  }

  /** The two's complement reading: the same number modulo 2^64, and in range. */
  lemma ToInt64Is(x: nat)
    requires x < Pow(256, 8)
    ensures -0x8000_0000_0000_0000 <= ToInt64(x) < 0x8000_0000_0000_0000
    ensures ToInt64(x) % 0x1_0000_0000_0000_0000 == x
  {
    PowValues();
  }

  /** A later section of the same kind replaces an earlier one. */
  function DecodeTable(buf: seq<Byte>, ptr: int, k: nat, table: Table): Read<Table>
    decreases k
  {
    if k == 0 then Ok(table, ptr)
    else match ReadNum(buf, ptr, 4)
         case Bad => Bad
         case Ok(kind, p) =>
           match ReadNum(buf, p, 8)
           case Bad => Bad
           case Ok(len, q) =>
             DecodeTable(buf, q + ToInt64(len), k - 1, table[kind := Section(q, ToInt64(len))])
  }

  /** A kind that is missing reads as Go's zero Section. */
  function SectionOf(table: Table, kind: nat): Section {
    if kind in table then table[kind] else Section(0, 0)
  }

  function End(s: Section): int {
    s.offset + s.size
  }

  datatype Failure = OutOfRange | BadMagic | BadPrime | BadSectionSize

  datatype Result<+T> = Success(value: T) | Fail(failure: Failure)

  function DecodeSectionTable(buf: seq<Byte>): Result<Table> {
    if |buf| < 4 then Fail(OutOfRange)
    else if buf[..4] != MAGIC then Fail(BadMagic)
    else match ReadNum(buf, 4, 4)
         case Bad => Fail(OutOfRange)
         case Ok(version, _) =>
           match ReadNum(buf, 8, 4)
           case Bad => Fail(OutOfRange)
           case Ok(nSections, _) =>
             match DecodeTable(buf, 12, nSections, map[])
             case Bad => Fail(OutOfRange)
             case Ok(table, _) => Success(table)
  }

  function DecodeHeader(buf: seq<Byte>, s: Section): Result<Header> {
    match ReadNum(buf, s.offset, 4)
    case Bad => Fail(OutOfRange)
    case Ok(fieldSize, p) =>
      match ReadNum(buf, p, fieldSize)
      case Bad => Fail(OutOfRange)
      case Ok(prime, q) =>
        if prime != BN254_PRIME then Fail(BadPrime)
        else match DecodeCounts(buf, q, fieldSize, prime)
             case Bad => Fail(OutOfRange)
             case Ok(h, end) => if End(s) != end then Fail(BadSectionSize) else Success(h)
  }

  function DecodeBody(buf: seq<Byte>, s2: Section, s3: Section, h: Header): Result<R1cs> {
    match DecodeConstraints(buf, h.fieldSize, s2.offset, h.nConstraints, 0)
    case Bad => Fail(OutOfRange)
    case Ok(constraints, p) =>
      if End(s2) != p then Fail(BadSectionSize) else
      match DecodeLabels(buf, s3.offset, h.nVars)
      case Bad => Fail(OutOfRange)
      case Ok(labels, q) =>
        if End(s3) != q then Fail(BadSectionSize) else Success(R1cs(h, constraints, labels))
  }

  function Decode(buf: seq<Byte>): Result<R1cs> {
    match DecodeSectionTable(buf)
    case Fail(f) => Fail(f)
    case Success(table) =>
      match DecodeHeader(buf, SectionOf(table, 1))
      case Fail(f) => Fail(f)
      case Success(h) => DecodeBody(buf, SectionOf(table, 2), SectionOf(table, 3), h)
  }

  // ---- decoding is exactly the inverse of encoding, part by part ----

  /** `bytes` stands in `buf` from `ptr` up to `next`. */
  ghost predicate At(buf: seq<Byte>, ptr: int, bytes: seq<nat>, next: int) {
    0 <= ptr && next == ptr + |bytes| <= |buf| && buf[ptr..next] == bytes
  }

  lemma AtAppend(buf: seq<Byte>, ptr: int, xs: seq<nat>, ys: seq<nat>, next: int)
    ensures At(buf, ptr, xs + ys, next)
            <==> At(buf, ptr, xs, ptr + |xs|) && At(buf, ptr + |xs|, ys, next)
  {
    if At(buf, ptr, xs + ys, next) {
      var part := buf[ptr..next];
      assert buf[ptr..ptr + |xs|] == part[..|xs|] == xs;
      assert buf[ptr + |xs|..next] == part[|xs|..] == ys;
    }
    if At(buf, ptr, xs, ptr + |xs|) && At(buf, ptr + |xs|, ys, next) {
      assert buf[ptr..next] == buf[ptr..ptr + |xs|] + buf[ptr + |xs|..next];
    }
  }

  lemma AtJoin(buf: seq<Byte>, ptr: int, xs: seq<nat>, mid: int, ys: seq<nat>, next: int)
    requires At(buf, ptr, xs, mid) && At(buf, mid, ys, next)
    ensures At(buf, ptr, xs + ys, next)
  {
    AtAppend(buf, ptr, xs, ys, next);
  }

  lemma AtBounds(buf: seq<Byte>, ptr: int, xs: seq<nat>, next: int)
    requires At(buf, ptr, xs, next)
    ensures 0 <= ptr <= next == ptr + |xs| <= |buf|
  {
  }

  lemma AtEmpty(buf: seq<Byte>, ptr: int)
    ensures 0 <= ptr <= |buf| <==> At(buf, ptr, [], ptr)
    ensures forall next :: At(buf, ptr, [], next) ==> next == ptr
  {
  }

  lemma NumRead(buf: seq<Byte>, ptr: int, n: nat)
    requires 0 <= ptr && ptr + n <= |buf|
    ensures var v := ReadNum(buf, ptr, n).value;
            v < Pow(256, n) && Digits(256, v, n) == buf[ptr..ptr + n]
  {
    var ds: seq<nat> := buf[ptr..ptr + n];
    ValueBound(256, ds);
    ValueDigits(256, ds);
  }

  lemma NumWritten(v: nat, n: nat)
    requires v < Pow(256, n)
    ensures Value(256, Digits(256, v, n)) == v
  {
    DigitsValue(256, v, n);
    DivModUnique(v, Pow(256, n), 0, v);
  }

  lemma NumIff(buf: seq<Byte>, ptr: int, n: nat, v: nat, next: int)
    ensures ReadNum(buf, ptr, n) == Ok(v, next)
            <==> v < Pow(256, n) && At(buf, ptr, Digits(256, v, n), next)
  {
    if ReadNum(buf, ptr, n) == Ok(v, next) {
      NumRead(buf, ptr, n);
    }
    if v < Pow(256, n) && At(buf, ptr, Digits(256, v, n), next) {
      NumWritten(v, n);
    }
  }

  lemma FactorIff(buf: seq<Byte>, n8: nat, ptr: int, count: nat, f: Factor, next: int)
    ensures DecodeFactor(buf, n8, ptr, count) == Ok(f, next)
            <==> FactorFits(n8, f) && count < Term.MAX_COEFFS && At(buf, ptr, EncodeFactor(n8, f), next)
  {
    hide At, ReadNum;
    PowValues();
    AtAppend(buf, ptr, Digits(256, f.wire, 4), Digits(256, f.coeff, n8), next);
    NumIff(buf, ptr, 4, f.wire, ptr + 4);
    NumIff(buf, ptr + 4, n8, f.coeff, next);
  }

  lemma {:induction false} FactorsRead(
    buf: seq<Byte>, n8: nat, ptr: int, count: nat, fs: seq<Factor>, next: int)
    requires 0 <= ptr <= |buf| && count <= Term.MAX_COEFFS
    requires DecodeFactors(buf, n8, ptr, |fs|, count) == Ok(fs, next)
    ensures CombinationFits(n8, count, fs) && At(buf, ptr, EncodeFactors(n8, fs), next)
    decreases |fs|
  {
    hide At, DecodeFactor, EncodeFactor, CombinationFits;
    AtEmpty(buf, ptr);
    FitsEmpty(n8, count);
    if fs != [] {
      var first := DecodeFactor(buf, n8, ptr, count);
      var f, p := first.value, first.next;
      FactorIff(buf, n8, ptr, count, f, p);
      AtBounds(buf, ptr, EncodeFactor(n8, f), p);
      var tail := DecodeFactors(buf, n8, p, |fs| - 1, count + 1);
      assert fs == [f] + tail.value;
      assert fs[1..] == tail.value;
      FactorsRead(buf, n8, p, count + 1, tail.value, next);
      FitsStep(n8, count, fs);
      AtJoin(buf, ptr, EncodeFactor(n8, f), p, EncodeFactors(n8, tail.value), next);
    }
  }

  lemma {:induction false} FactorsWritten(
    buf: seq<Byte>, n8: nat, ptr: int, count: nat, fs: seq<Factor>, next: int)
    requires CombinationFits(n8, count, fs) && At(buf, ptr, EncodeFactors(n8, fs), next)
    ensures DecodeFactors(buf, n8, ptr, |fs|, count) == Ok(fs, next)
    decreases |fs|
  {
    hide At, DecodeFactor, EncodeFactor;
    AtEmpty(buf, ptr);
    if fs != [] {
      FitsStep(n8, count, fs);
      var p := ptr + |EncodeFactor(n8, fs[0])|;
      AtAppend(buf, ptr, EncodeFactor(n8, fs[0]), EncodeFactors(n8, fs[1..]), next);
      FactorIff(buf, n8, ptr, count, fs[0], p);
      FactorsWritten(buf, n8, p, count + 1, fs[1..], next);
      assert [fs[0]] + fs[1..] == fs;
    }
  }

  lemma FitsEmpty(n8: nat, count: nat)
    ensures CombinationFits(n8, count, []) <==> count <= Term.MAX_COEFFS
  {
  }

  lemma FitsStep(n8: nat, count: nat, fs: seq<Factor>)
    requires fs != []
    ensures CombinationFits(n8, count, fs)
            <==> FactorFits(n8, fs[0]) && CombinationFits(n8, count + 1, fs[1..])
  {
    assert fs == [fs[0]] + fs[1..];
  }

  lemma CombinationIff(buf: seq<Byte>, n8: nat, ptr: int, count: nat, c: Combination, next: int)
    requires count <= Term.MAX_COEFFS
    ensures DecodeCombination(buf, n8, ptr, count) == Ok(c, next)
            <==> CombinationFits(n8, count, c) && At(buf, ptr, EncodeCombination(n8, c), next)
  {
    hide At, ReadNum, DecodeFactors, EncodeFactors;
    var p := ptr + 4;
    PowValues();
    AtAppend(buf, ptr, Digits(256, |c|, 4), EncodeFactors(n8, c), next);
    NumIff(buf, ptr, 4, |c|, p);
    if DecodeCombination(buf, n8, ptr, count) == Ok(c, next) {
      FactorsRead(buf, n8, p, count, c, next);
    }
    if CombinationFits(n8, count, c) && At(buf, p, EncodeFactors(n8, c), next) {
      FactorsWritten(buf, n8, p, count, c, next);
    }
  }

  lemma ConstraintRead(buf: seq<Byte>, n8: nat, ptr: int, count: nat, c: Constraint, next: int)
    requires count <= Term.MAX_COEFFS
    requires DecodeConstraint(buf, n8, ptr, count) == Ok(c, next)
    ensures ConstraintFits(n8, count, c) && At(buf, ptr, EncodeConstraint(n8, c), next)
    ensures count + Size(c) <= Term.MAX_COEFFS
  {
    hide At, EncodeCombination, DecodeCombination;
    var p := DecodeCombination(buf, n8, ptr, count).next;
    CombinationIff(buf, n8, ptr, count, c.a, p);
    var q := DecodeCombination(buf, n8, p, count + |c.a|).next;
    CombinationIff(buf, n8, p, count + |c.a|, c.b, q);
    CombinationIff(buf, n8, q, count + |c.a| + |c.b|, c.c, next);
    var ea, eb, ec :=
      EncodeCombination(n8, c.a), EncodeCombination(n8, c.b), EncodeCombination(n8, c.c);
    AtJoin(buf, p, eb, q, ec, next);
    AtJoin(buf, ptr, ea, p, eb + ec, next);
  }

  lemma ConstraintWritten(buf: seq<Byte>, n8: nat, ptr: int, count: nat, c: Constraint, next: int)
    requires ConstraintFits(n8, count, c) && At(buf, ptr, EncodeConstraint(n8, c), next)
    ensures DecodeConstraint(buf, n8, ptr, count) == Ok(c, next)
  {
    hide At, EncodeCombination, DecodeCombination;
    var ea, eb, ec :=
      EncodeCombination(n8, c.a), EncodeCombination(n8, c.b), EncodeCombination(n8, c.c);
    AtAppend(buf, ptr, ea, eb + ec, next);
    AtAppend(buf, ptr + |ea|, eb, ec, next);
    CombinationIff(buf, n8, ptr, count, c.a, ptr + |ea|);
    CombinationIff(buf, n8, ptr + |ea|, count + |c.a|, c.b, ptr + |ea| + |eb|);
    CombinationIff(buf, n8, ptr + |ea| + |eb|, count + |c.a| + |c.b|, c.c, next);
  }

  lemma {:induction false} ConstraintsRead(
    buf: seq<Byte>, n8: nat, ptr: int, count: nat, cs: seq<Constraint>, next: int)
    requires 0 <= ptr <= |buf| && count <= Term.MAX_COEFFS
    requires DecodeConstraints(buf, n8, ptr, |cs|, count) == Ok(cs, next)
    ensures ConstraintsFit(n8, count, cs) && At(buf, ptr, EncodeConstraints(n8, cs), next)
    decreases |cs|
  {
    hide At, EncodeConstraint, DecodeConstraint, ConstraintFits;
    AtEmpty(buf, ptr);
    if cs != [] {
      var first := DecodeConstraint(buf, n8, ptr, count);
      var c, p := first.value, first.next;
      ConstraintRead(buf, n8, ptr, count, c, p);
      AtBounds(buf, ptr, EncodeConstraint(n8, c), p);
      var tail := DecodeConstraints(buf, n8, p, |cs| - 1, count + Size(c));
      assert cs == [c] + tail.value;
      assert cs[1..] == tail.value;
      ConstraintsRead(buf, n8, p, count + Size(c), tail.value, next);
      AtJoin(buf, ptr, EncodeConstraint(n8, c), p, EncodeConstraints(n8, tail.value), next);
    }
  }

  lemma {:induction false} ConstraintsWritten(
    buf: seq<Byte>, n8: nat, ptr: int, count: nat, cs: seq<Constraint>, next: int)
    requires ConstraintsFit(n8, count, cs) && At(buf, ptr, EncodeConstraints(n8, cs), next)
    ensures DecodeConstraints(buf, n8, ptr, |cs|, count) == Ok(cs, next)
    decreases |cs|
  {
    hide At, EncodeConstraint, DecodeConstraint, ConstraintFits;
    AtEmpty(buf, ptr);
    if cs != [] {
      var p := ptr + |EncodeConstraint(n8, cs[0])|;
      AtAppend(buf, ptr, EncodeConstraint(n8, cs[0]), EncodeConstraints(n8, cs[1..]), next);
      ConstraintWritten(buf, n8, ptr, count, cs[0], p);
      ConstraintsWritten(buf, n8, p, count + Size(cs[0]), cs[1..], next);
      assert [cs[0]] + cs[1..] == cs;
    }
  }

  lemma {:induction false} LabelsRead(buf: seq<Byte>, ptr: int, ls: seq<nat>, next: int)
    requires 0 <= ptr <= |buf| && DecodeLabels(buf, ptr, |ls|) == Ok(ls, next)
    ensures LabelsFit(ls) && At(buf, ptr, EncodeLabels(ls), next)
    decreases |ls|
  {
    hide At, ReadNum;
    AtEmpty(buf, ptr);
    if ls != [] {
      var l := ReadNum(buf, ptr, 8);
      NumIff(buf, ptr, 8, l.value, l.next);
      AtBounds(buf, ptr, Digits(256, l.value, 8), l.next);
      var tail := DecodeLabels(buf, l.next, |ls| - 1);
      assert ls == [l.value] + tail.value;
      assert ls[1..] == tail.value;
      LabelsRead(buf, l.next, tail.value, next);
      AtJoin(buf, ptr, Digits(256, l.value, 8), l.next, EncodeLabels(tail.value), next);
    }
  }

  lemma {:induction false} LabelsWritten(buf: seq<Byte>, ptr: int, ls: seq<nat>, next: int)
    requires LabelsFit(ls) && At(buf, ptr, EncodeLabels(ls), next)
    ensures DecodeLabels(buf, ptr, |ls|) == Ok(ls, next)
    decreases |ls|
  {
    hide At, ReadNum;
    AtEmpty(buf, ptr);
    if ls != [] {
      AtAppend(buf, ptr, Digits(256, ls[0], 8), EncodeLabels(ls[1..]), next);
      NumIff(buf, ptr, 8, ls[0], ptr + 8);
      LabelsWritten(buf, ptr + 8, ls[1..], next);
      assert ls == [ls[0]] + ls[1..];
    }
  }

  lemma CountsIff(buf: seq<Byte>, ptr: int, h: Header, next: int)
    ensures DecodeCounts(buf, ptr, h.fieldSize, h.prime) == Ok(h, next)
            <==> (&& h.nVars < Pow(256, 4) && h.nOutputs < Pow(256, 4)
                  && h.nPubInputs < Pow(256, 4) && h.nPrvInputs < Pow(256, 4)
                  && h.nLabels < Pow(256, 8) && h.nConstraints < Pow(256, 4)
                  && At(buf, ptr, EncodeCounts(h), next))
  {
    var d1, d2, d3 := Digits(256, h.nVars, 4), Digits(256, h.nOutputs, 4), Digits(256, h.nPubInputs, 4);
    var d4, d5, d6 :=
      Digits(256, h.nPrvInputs, 4), Digits(256, h.nLabels, 8), Digits(256, h.nConstraints, 4);
    AtAppend(buf, ptr, d1, d2 + (d3 + (d4 + (d5 + d6))), next);
    AtAppend(buf, ptr + 4, d2, d3 + (d4 + (d5 + d6)), next);
    AtAppend(buf, ptr + 8, d3, d4 + (d5 + d6), next);
    AtAppend(buf, ptr + 12, d4, d5 + d6, next);
    AtAppend(buf, ptr + 16, d5, d6, next);
    NumIff(buf, ptr, 4, h.nVars, ptr + 4);
    NumIff(buf, ptr + 4, 4, h.nOutputs, ptr + 8);
    NumIff(buf, ptr + 8, 4, h.nPubInputs, ptr + 12);
    NumIff(buf, ptr + 12, 4, h.nPrvInputs, ptr + 16);
    NumIff(buf, ptr + 16, 8, h.nLabels, ptr + 24);
    NumIff(buf, ptr + 24, 4, h.nConstraints, next);
  }

  /** A header section is accepted exactly when it holds the encoding of the header returned and
      ends where the section ends. */
  lemma HeaderIff(buf: seq<Byte>, s: Section, h: Header)
    ensures DecodeHeader(buf, s) == Success(h)
            <==> HeaderFits(h) && At(buf, s.offset, EncodeHeader(h), End(s))
  {
    var p := s.offset + 4;
    var q := p + h.fieldSize;
    var prime := Digits(256, h.prime, h.fieldSize);
    AtAppend(buf, s.offset, Digits(256, h.fieldSize, 4), prime + EncodeCounts(h), End(s));
    AtAppend(buf, p, prime, EncodeCounts(h), End(s));
    NumIff(buf, s.offset, 4, h.fieldSize, p);
    NumIff(buf, p, h.fieldSize, h.prime, q);
    CountsIff(buf, q, h, End(s));
  }

  // ---- whole files ----

  ghost predicate SectionHolds(buf: seq<Byte>, s: Section, bytes: seq<nat>) {
    At(buf, s.offset, bytes, End(s))
  }

  /** One step of the section loop. */
  lemma TableStep(buf: seq<Byte>, ptr: int, k: nat, table: Table)
    requires k > 0 && DecodeTable(buf, ptr, k, table).Ok?
    ensures ReadNum(buf, ptr, 4).Ok? && ReadNum(buf, ptr + 4, 8).Ok? && 0 <= ptr && ptr + 12 <= |buf|
    ensures var kind, len := ReadNum(buf, ptr, 4).value, ToInt64(ReadNum(buf, ptr + 4, 8).value);
            DecodeTable(buf, ptr, k, table)
            == DecodeTable(buf, ptr + 12 + len, k - 1, table[kind := Section(ptr + 12, len)])
  {
  }

  lemma {:induction false} TableInFile(buf: seq<Byte>, ptr: int, k: nat, table: Table)
    requires forall j :: j in table ==> 0 <= table[j].offset <= |buf|
    requires DecodeTable(buf, ptr, k, table).Ok?
    ensures var r := DecodeTable(buf, ptr, k, table);
            forall j :: j in r.value ==> 0 <= r.value[j].offset <= |buf|
    decreases k
  {
    if k > 0 {
      TableStep(buf, ptr, k, table);
      var kind, len := ReadNum(buf, ptr, 4).value, ToInt64(ReadNum(buf, ptr + 4, 8).value);
      TableInFile(buf, ptr + 12 + len, k - 1, table[kind := Section(ptr + 12, len)]);
    }
  }

  /** No section of the table claims 2^63 bytes or more, which Go would read as a negative size. */
  ghost predicate SizesForward(buf: seq<Byte>, ptr: int, k: nat)
    decreases k
  {
    k == 0 || !ReadNum(buf, ptr, 4).Ok? || !ReadNum(buf, ptr + 4, 8).Ok? ||
    (var len := ToInt64(ReadNum(buf, ptr + 4, 8).value);
     0 <= len && SizesForward(buf, ptr + 12 + len, k - 1))
  }

  ghost predicate ForwardFile(buf: seq<Byte>) {
    ReadNum(buf, 8, 4).Ok? ==> SizesForward(buf, 12, ReadNum(buf, 8, 4).value)
  }

  /** Sections of different kinds share no byte, and all lie below `limit`. */
  ghost predicate Separated(table: Table, limit: int) {
    && (forall j :: j in table ==> 0 <= table[j].offset <= End(table[j]) <= limit)
    && forall i, j :: i in table && j in table && i != j
         ==> End(table[i]) <= table[j].offset || End(table[j]) <= table[i].offset
  }

  lemma {:induction false} TableSeparates(buf: seq<Byte>, ptr: int, k: nat, table: Table)
    requires DecodeTable(buf, ptr, k, table).Ok? && SizesForward(buf, ptr, k)
    requires Separated(table, ptr)
    ensures Separated(DecodeTable(buf, ptr, k, table).value, DecodeTable(buf, ptr, k, table).next)
    decreases k
  {
    if k > 0 {
      TableStep(buf, ptr, k, table);
      var kind, len := ReadNum(buf, ptr, 4).value, ToInt64(ReadNum(buf, ptr + 4, 8).value);
      TableSeparates(buf, ptr + 12 + len, k - 1, table[kind := Section(ptr + 12, len)]);
    }
  }

  lemma SectionTableInFile(buf: seq<Byte>, table: Table)
    requires DecodeSectionTable(buf) == Success(table)
    ensures forall k :: 0 <= SectionOf(table, k).offset <= |buf|
    ensures ForwardFile(buf) ==> exists limit :: Separated(table, limit)
  {
    var n := ReadNum(buf, 8, 4).value;
    TableInFile(buf, 12, n, map[]);
    if ForwardFile(buf) {
      TableSeparates(buf, 12, n, map[]);
    }
  }

  /** A file decodes to `r` exactly when `r` fits the reader and the three known sections hold,
      from their first byte to their last, the encodings of its three parts. */
  lemma DecodeIff(buf: seq<Byte>, table: Table, r: R1cs)
    requires DecodeSectionTable(buf) == Success(table)
    ensures Decode(buf) == Success(r)
            <==> (&& Fits(r)
                  && SectionHolds(buf, SectionOf(table, 1), EncodeHeader(r.header))
                  && SectionHolds(buf, SectionOf(table, 2),
                                  EncodeConstraints(r.header.fieldSize, r.constraints))
                  && SectionHolds(buf, SectionOf(table, 3), EncodeLabels(r.labels)))
  {
    hide At, ReadNum, DecodeHeader, DecodeConstraints, DecodeLabels, EncodeHeader,
         EncodeConstraints, EncodeLabels, HeaderFits, ConstraintsFit, LabelsFit,
         DecodeSectionTable, DecodeTable, ForwardFile, Separated, SectionOf;
    var s1, s2, s3 := SectionOf(table, 1), SectionOf(table, 2), SectionOf(table, 3);
    SectionTableInFile(buf, table);
    HeaderIff(buf, s1, r.header);
    if Decode(buf) == Success(r) {
      ConstraintsRead(buf, r.header.fieldSize, s2.offset, 0, r.constraints, End(s2));
      LabelsRead(buf, s3.offset, r.labels, End(s3));
    } else if Fits(r) && SectionHolds(buf, s1, EncodeHeader(r.header))
              && SectionHolds(buf, s2, EncodeConstraints(r.header.fieldSize, r.constraints))
              && SectionHolds(buf, s3, EncodeLabels(r.labels)) {
      ConstraintsWritten(buf, r.header.fieldSize, s2.offset, 0, r.constraints, End(s2));
      LabelsWritten(buf, s3.offset, r.labels, End(s3));
    }
  }

  // ---- the reader inverts the writer ----

  function LastPayload(secs: seq<RawSection>, kind: nat): seq<nat> {
    if secs == [] then []
    else if secs[|secs| - 1].kind == kind then secs[|secs| - 1].payload
    else LastPayload(secs[..|secs| - 1], kind)
  }

  predicate HasKind(secs: seq<RawSection>, kind: nat) {
    exists s :: s in secs && s.kind == kind
  }

  predicate SectionFits(s: RawSection) {
    s.kind < Pow(256, 4) && |s.payload| < 0x8000_0000_0000_0000
  }

  ghost predicate TableMatches(buf: seq<Byte>, secs: seq<RawSection>, table: Table) {
    forall kind :: if HasKind(secs, kind)
                   then kind in table && SectionHolds(buf, table[kind], LastPayload(secs, kind))
                   else kind !in table
  }

  lemma {:induction false} TableOfSections(
    buf: seq<Byte>, ptr: int, done: seq<RawSection>, secs: seq<RawSection>, table: Table)
    requires At(buf, ptr, EncodeSections(secs), |buf|)
    requires forall s :: s in secs ==> SectionFits(s)
    requires TableMatches(buf, done, table)
    ensures DecodeTable(buf, ptr, |secs|, table).Ok?
    ensures TableMatches(buf, done + secs, DecodeTable(buf, ptr, |secs|, table).value)
    ensures SizesForward(buf, ptr, |secs|)
    decreases |secs|
  {
    hide At, ReadNum, TableMatches, SectionFits, EncodeSections;
    if secs == [] {
      assert done + secs == done;
    } else {
      var s := secs[0];
      var next := TableOneSection(buf, ptr, secs);
      assert forall t :: t in secs[1..] ==> t in secs;
      var table' := table[s.kind := Section(ptr + 12, |s.payload|)];
      assert SectionHolds(buf, Section(ptr + 12, |s.payload|), s.payload);
      TableMatchesStep(buf, done, s, table, Section(ptr + 12, |s.payload|));
      TableOfSections(buf, next, done + [s], secs[1..], table');
      assert done + [s] + secs[1..] == done + secs;
    }
  }

  lemma TableOneSection(buf: seq<Byte>, ptr: int, secs: seq<RawSection>) returns (next: int)
    requires secs != [] && SectionFits(secs[0])
    requires At(buf, ptr, EncodeSections(secs), |buf|)
    ensures next == ptr + 12 + |secs[0].payload|
    ensures ReadNum(buf, ptr, 4) == Ok(secs[0].kind, ptr + 4)
    ensures ReadNum(buf, ptr + 4, 8) == Ok(|secs[0].payload|, ptr + 12)
    ensures At(buf, ptr + 12, secs[0].payload, next)
    ensures At(buf, next, EncodeSections(secs[1..]), |buf|)
    ensures ToInt64(|secs[0].payload|) == |secs[0].payload|
  {
    hide At, ReadNum;
    var s := secs[0];
    var rest := EncodeSections(secs[1..]);
    next := ptr + 12 + |s.payload|;
    PowValues();
    AtAppend(buf, ptr, Digits(256, s.kind, 4), Digits(256, |s.payload|, 8) + (s.payload + rest), |buf|);
    AtAppend(buf, ptr + 4, Digits(256, |s.payload|, 8), s.payload + rest, |buf|);
    AtAppend(buf, ptr + 12, s.payload, rest, |buf|);
    NumIff(buf, ptr, 4, s.kind, ptr + 4);
    NumIff(buf, ptr + 4, 8, |s.payload|, ptr + 12);
  }

  lemma TableMatchesStep(
    buf: seq<Byte>, done: seq<RawSection>, s: RawSection, table: Table, p: Section)
    requires TableMatches(buf, done, table) && SectionHolds(buf, p, s.payload)
    ensures TableMatches(buf, done + [s], table[s.kind := p])
  {
    hide SectionHolds;
    var more := done + [s];
    assert more[..|more| - 1] == done && more[|more| - 1] == s;
    var table' := table[s.kind := p];
    forall kind
      ensures if HasKind(more, kind)
              then kind in table' && SectionHolds(buf, table'[kind], LastPayload(more, kind))
              else kind !in table'
    {
      if kind == s.kind {
        assert s in more;
      } else if HasKind(done, kind) {
        var t :| t in done && t.kind == kind;
        assert t in more;
      }
    }
  }

  predicate ForwardSections(secs: seq<RawSection>, version: nat) {
    version < Pow(256, 4) && |secs| < Pow(256, 4) && forall s :: s in secs ==> SectionFits(s)
  }

  lemma SectionTableOfFile(buf: seq<Byte>, version: nat, secs: seq<RawSection>)
    requires ForwardSections(secs, version) && buf == EncodeFile(version, secs)
    ensures ForwardFile(buf) && DecodeSectionTable(buf).Success?
    ensures TableMatches(buf, secs, DecodeSectionTable(buf).value)
  {
    hide EncodeSections, EncodeFile, DecodeTable, TableMatches, SectionFits, SizesForward;
    FileParts(buf, version, secs);
    NumIff(buf, 4, 4, version, 8);
    NumIff(buf, 8, 4, |secs|, 12);
    EmptyTableMatches(buf);
    TableOfSections(buf, 12, [], secs, map[]);
    assert [] + secs == secs;
  }

  lemma EmptyTableMatches(buf: seq<Byte>)
    ensures TableMatches(buf, [], map[])
  {
  }

  lemma FileParts(buf: seq<Byte>, version: nat, secs: seq<RawSection>)
    requires buf == EncodeFile(version, secs)
    ensures |buf| >= 4 && buf[..4] == MAGIC
    ensures At(buf, 4, Digits(256, version, 4), 8) && At(buf, 8, Digits(256, |secs|, 4), 12)
    ensures At(buf, 12, EncodeSections(secs), |buf|)
  {
    hide EncodeSections, Digits;
    var v, n, rest := Digits(256, version, 4), Digits(256, |secs|, 4), EncodeSections(secs);
    assert At(buf, 0, MAGIC + (v + (n + rest)), |buf|);
    AtAppend(buf, 0, MAGIC, v + (n + rest), |buf|);
    AtAppend(buf, 4, v, n + rest, |buf|);
    AtAppend(buf, 8, n, rest, |buf|);
  }

  /** Reading any file the format's writer produces gives back the constraint system written: the
      sections may come in any order, between sections of other kinds, and repeated. */
  lemma FileRoundTrip(buf: seq<Byte>, version: nat, secs: seq<RawSection>, r: R1cs)
    requires ForwardSections(secs, version) && buf == EncodeFile(version, secs)
    requires Fits(r)
    requires HasKind(secs, 1) && LastPayload(secs, 1) == EncodeHeader(r.header)
    requires HasKind(secs, 2)
    requires LastPayload(secs, 2) == EncodeConstraints(r.header.fieldSize, r.constraints)
    requires HasKind(secs, 3) && LastPayload(secs, 3) == EncodeLabels(r.labels)
    ensures Decode(buf) == Success(r) && ForwardFile(buf)
  {
    hide At, Decode, DecodeSectionTable, EncodeSections, EncodeFile, EncodeHeader,
         EncodeConstraints, EncodeLabels, Fits, LastPayload, HasKind;
    SectionTableOfFile(buf, version, secs);
    var table := DecodeSectionTable(buf).value;
    DecodeIff(buf, table, r);
  }
}
