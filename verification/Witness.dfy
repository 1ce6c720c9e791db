/** The witness file reader (ParseWtns in src/utils/utils.go) and the end-to-end theorem: a constraint
    file and a witness file, read and recombined, accept exactly what the original system accepts. */
module Witness {
  import opened Positional
  import opened R1csFormat
  import opened R1csReader
  import opened Circuit

  // ---- the iden3 .wtns format ----

  /** Every value in 32 bytes, lowest first. */
  function EncodeValues(w: seq<nat>): (s: seq<nat>)
    ensures |s| == 32 * |w|
  {
    if w == [] then [] else EncodeValues(w[..|w| - 1]) + Digits(256, w[|w| - 1], 32)
  }

  /** Section 1 of a witness file: id and length, field size, prime, and number of values. */
  function EncodeWtnsHeader(prime: nat, count: nat): seq<nat> {
    Digits(256, 1, 4) + (Digits(256, 40, 8) + (Digits(256, 32, 4) + (Digits(256, prime, 32) + Digits(256, count, 4))))
  }

  /** A witness file holding `w`: "wtns", version, two sections, the header section, and the values' section
      with its id and length. */
  function EncodeWtns(version: nat, prime: nat, w: seq<nat>): seq<nat> {
    [0x77, 0x74, 0x6E, 0x73]
    + (Digits(256, version, 4) + (Digits(256, 2, 4) + (EncodeWtnsHeader(prime, |w|)
    + (Digits(256, 2, 4) + (Digits(256, 32 * |w|, 8) + EncodeValues(w))))))
  }

  // ---- the reader ----

  const WTNS_MAGIC: seq<nat> := [0x77, 0x74, 0x6E, 0x73] // "wtns"

  /** Where the source reads the number of values, where it reads the first value, and the size of one. */
  const COUNT_OFFSET := 60
  const DATA_OFFSET := 76
  const VALUE_SIZE := 32

  datatype WtnsFailure = Panicked | InvalidFormat

  /** A public slot that no value was stored in stays empty. */
  datatype Slot = Empty | Filled(value: nat)

  datatype ParsedWitness =
    | Failed(failure: WtnsFailure)
    | Parsed(wit: seq<nat>, pub: seq<Slot>)

  ghost predicate Readable(buf: seq<Byte>) {
    |buf| >= COUNT_OFFSET + 4 && HasValues(buf, CountOf(buf))
  }

  /** `n` whole values follow the headers. */
  predicate HasValues(buf: seq<Byte>, n: nat) {
    n == 0 || DATA_OFFSET + VALUE_SIZE * n <= |buf|
  }

  function CountOf(buf: seq<Byte>): nat
    requires COUNT_OFFSET + 4 <= |buf|
  {
    Value(256, buf[COUNT_OFFSET..COUNT_OFFSET + 4])
  }

  /** The first `n` values of a witness file, in file order. */
  function ValuesOf(buf: seq<Byte>, n: nat): (w: seq<nat>)
    requires HasValues(buf, n)
    ensures |w| == n
  {
    if n == 0 then []
    else ValuesOf(buf, n - 1)
         + [Value(256, buf[DATA_OFFSET + VALUE_SIZE * (n - 1)..DATA_OFFSET + VALUE_SIZE * n])]
  }

  /** Value 0 and the values after the public ones, in order. */
  function Private(w: seq<nat>, nPublic: nat): seq<nat> {
    if w == [] then []
    else Private(w[..|w| - 1], nPublic)
         + if 1 <= |w| - 1 < 1 + nPublic then [] else [w[|w| - 1]]
  }

  function PublicSlots(w: seq<nat>, nPublic: nat): (p: seq<Slot>)
    ensures |p| == nPublic
    ensures forall j :: 0 <= j < nPublic ==> p[j] == if j + 1 < |w| then Filled(w[j + 1]) else Empty
  {
    seq(nPublic, j requires 0 <= j < nPublic => if j + 1 < |w| then Filled(w[j + 1]) else Empty)
  }

  const TWO_32 := 0x1_0000_0000

  /** The number of public wires, as Go adds two 32-bit counts. */
  function PublicCount(numOutput: nat, numInPublic: nat): nat {
    (numInPublic + numOutput) % TWO_32
  }

  /** How many slots values are stored in: one more than the largest count wraps around to none. */
  function Stored(count: nat): nat {
    if count + 1 == TWO_32 then 0 else count
  }

  /** The public slots when only the first `stored` of them take values. */
  function AllSlots(w: seq<nat>, count: nat): seq<Slot>
    requires Stored(count) <= count
  {
    PublicSlots(w, Stored(count)) + PublicSlots([], count - Stored(count))
  }

  /** Splits the values of the file into public slots and the rest. Every value is reversed where it
      lies and read once, so the split is that of the values first in the file. The array is what slices
      of the file reach: its bytes and the spare capacity behind them. */
  method ParseWtns(file: array<Byte>, numOutput: nat, numInPublic: nat) returns (r: ParsedWitness)
    requires numOutput < 0x1_0000_0000 && numInPublic < 0x1_0000_0000
    modifies file
    ensures var b := old(file[..]);
            if |b| < 4 then r == Failed(Panicked)
            else if b[..4] != WTNS_MAGIC then r == Failed(InvalidFormat)
            else if !Readable(b) then r == Failed(Panicked)
            else var w, count := ValuesOf(b, CountOf(b)), PublicCount(numOutput, numInPublic);
                 r == Parsed(Private(w, Stored(count)), AllSlots(w, count))
  {
    hide ReadNum, Value, ValuesOf, CountOf, Moved, SplitOf, PublicCount;
    ghost var b := file[..];
    if file.Length < 4 {
      return Failed(Panicked);
    }
    if file[..4] != WTNS_MAGIC {
      return Failed(InvalidFormat);
    }
    var count := ReadUint32(file, COUNT_OFFSET);
    CountRead(b);
    if count.Bad? {
      return Failed(Panicked);
    }
    var limit := (numOutput + 1 + numInPublic) % TWO_32;
    ghost var n := PublicCount(numOutput, numInPublic);
    var wit: seq<nat> := [];
    var pub: seq<Slot> := seq((numInPublic + numOutput) % TWO_32, _ => Empty);
    var i := 0;
    LimitIs(numOutput, numInPublic);
    NothingSplit(b, pub, numOutput, numInPublic);
    while i < count.value
      invariant 0 <= i <= count.value && HasValues(b, i)
      invariant Moved(b, file[..], i) && SplitOf(b, i, wit, pub, n)
    {
      ghost var before := file[..];
      var value := ReadBigInt(file, VALUE_SIZE, DATA_OFFSET + i * VALUE_SIZE);
      ValueMoved(b, before, file[..], i, value);
      if value.Bad? {
        return Failed(Panicked);
      }
      SplitStep(b, i, value.value, wit, pub, n);
      if i >= 1 && i < limit {
        pub := pub[i - 1 := Filled(value.value)];
      } else {
        wit := wit + [value.value];
      }
      i := i + 1;
    }
    SplitDone(b, wit, pub, n);
    return Parsed(wit, pub);
  }

  /** The first `i` values, and no other byte, were reversed. */
  ghost predicate Moved(b: seq<Byte>, now: seq<Byte>, i: nat) {
    if i == 0 then now == b else OnlyBetween(b, now, DATA_OFFSET, DATA_OFFSET + VALUE_SIZE * i)
  }

  /** The split of the first `i` values. */
  ghost predicate SplitOf(b: seq<Byte>, i: nat, wit: seq<nat>, pub: seq<Slot>, count: nat)
    requires HasValues(b, i)
  {
    wit == Private(ValuesOf(b, i), Stored(count)) && pub == AllSlots(ValuesOf(b, i), count)
  }

  lemma NothingSplit(b: seq<Byte>, pub: seq<Slot>, numOutput: nat, numInPublic: nat)
    requires |pub| == (numInPublic + numOutput) % TWO_32 && forall j :: 0 <= j < |pub| ==> pub[j] == Empty
    ensures Moved(b, b, 0) && SplitOf(b, 0, [], pub, PublicCount(numOutput, numInPublic))
  {
    assert pub == AllSlots([], |pub|);
  }

  lemma SplitDone(b: seq<Byte>, wit: seq<nat>, pub: seq<Slot>, count: nat)
    requires Readable(b) && SplitOf(b, CountOf(b), wit, pub, count)
    ensures wit == Private(ValuesOf(b, CountOf(b)), Stored(count))
    ensures pub == AllSlots(ValuesOf(b, CountOf(b)), count)
  {
  }

  lemma SplitStep(b: seq<Byte>, i: nat, value: nat, wit: seq<nat>, pub: seq<Slot>, count: nat)
    requires HasValues(b, i) && HasValues(b, i + 1) && SplitOf(b, i, wit, pub, count)
    requires ValuesOf(b, i + 1) == ValuesOf(b, i) + [value]
    ensures 1 <= i < 1 + Stored(count)
            ==> i <= |pub| && SplitOf(b, i + 1, wit, pub[i - 1 := Filled(value)], count)
    ensures !(1 <= i < 1 + Stored(count)) ==> SplitOf(b, i + 1, wit + [value], pub, count)
  {
    hide ValuesOf, PublicSlots, Private;
    PutValue(ValuesOf(b, i), value, Stored(count));
    PutSlot(ValuesOf(b, i), value, count);
    assert wit + [] == wit;
  }

  lemma CountRead(b: seq<Byte>)
    ensures ReadNum(b, COUNT_OFFSET, 4)
            == if |b| >= COUNT_OFFSET + 4 then Ok(CountOf(b), COUNT_OFFSET + 4) else Bad
  {
  }

  lemma PutValue(w: seq<nat>, v: nat, nPublic: nat)
    ensures Private(w + [v], nPublic)
            == Private(w, nPublic) + if 1 <= |w| < 1 + nPublic then [] else [v]
    ensures PublicSlots(w + [v], nPublic)
            == if 1 <= |w| < 1 + nPublic then PublicSlots(w, nPublic)[|w| - 1 := Filled(v)]
               else PublicSlots(w, nPublic)
  {
    assert (w + [v])[..|w|] == w;
  }

  lemma LimitIs(numOutput: nat, numInPublic: nat)
    requires numOutput < TWO_32 && numInPublic < TWO_32
    ensures var count := PublicCount(numOutput, numInPublic);
            (numOutput + 1 + numInPublic) % TWO_32 == (if count + 1 == TWO_32 then 0 else 1 + Stored(count))
  {
  }

  lemma PutSlot(w: seq<nat>, v: nat, count: nat)
    ensures AllSlots(w + [v], count)
            == if 1 <= |w| < 1 + Stored(count) then AllSlots(w, count)[|w| - 1 := Filled(v)] else AllSlots(w, count)
  {
    PutValue(w, v, Stored(count));
  }

  /** Value `i`, read after the earlier values were reversed, is value `i` of the original file. */
  lemma ValueMoved(b: seq<Byte>, before: seq<Byte>, after: seq<Byte>, i: nat, value: Read<nat>)
    requires HasValues(b, i) && Moved(b, before, i)
    requires value == ReadNum(before, DATA_OFFSET + VALUE_SIZE * i, VALUE_SIZE)
    requires value.Ok? ==> OnlyBetween(before, after, DATA_OFFSET + VALUE_SIZE * i, value.next)
    ensures value.Ok? <==> HasValues(b, i + 1)
    ensures value.Ok? ==>
              && ValuesOf(b, i + 1) == ValuesOf(b, i) + [value.value]
              && Moved(b, after, i + 1)
  {
    hide Value;
    var start := DATA_OFFSET + VALUE_SIZE * i;
    if i > 0 {
      ReadAgree(b, before, DATA_OFFSET, start, start, VALUE_SIZE);
      if value.Ok? {
        OnlyBetweenExtend(b, before, after, DATA_OFFSET, start, value.next);
      }
    }
  }

  // ---- the split undoes nothing ----

  lemma {:induction false} PrivateOf(w: seq<nat>, nPublic: nat)
    ensures |w| >= 1 + nPublic ==> Private(w, nPublic) == w[..1] + w[1 + nPublic..]
    ensures 1 <= |w| <= 1 + nPublic ==> Private(w, nPublic) == w[..1]
  {
    if |w| > 1 {
      PrivateOf(w[..|w| - 1], nPublic);
      if |w| > 1 + nPublic {
        assert w[1 + nPublic..] == w[..|w| - 1][1 + nPublic..] + [w[|w| - 1]];
      }
    } else if |w| == 1 {
      assert w[..0] == [] && w[..1] == w;
    }
  }

  lemma SlotsAre(w: seq<nat>, count: nat)
    ensures |AllSlots(w, count)| == count
    ensures forall j :: 0 <= j < count ==>
              AllSlots(w, count)[j] == if j + 1 < |w| && j < Stored(count) then Filled(w[j + 1]) else Empty
  {
  }

  lemma PrivateWhere(w: seq<nat>, stored: nat)
    ensures Private(w, stored)
            == if w == [] then [] else if |w| <= 1 + stored then w[..1] else w[..1] + w[1 + stored..]
  {
    PrivateOf(w, stored);
  }

  /** Where each value goes, for any two 32-bit counts: their sum gives the slots, and the bound below
      which values are public is one more, each wrapping on its own. */
  lemma SplitWhere(w: seq<nat>, numOutput: nat, numInPublic: nat)
    requires numOutput < 0x1_0000_0000 && numInPublic < 0x1_0000_0000
    ensures var count, limit := PublicCount(numOutput, numInPublic), (numOutput + 1 + numInPublic) % 0x1_0000_0000;
            && |AllSlots(w, count)| == (numInPublic + numOutput) % 0x1_0000_0000
            && (forall j :: 0 <= j < |AllSlots(w, count)| ==>
                  AllSlots(w, count)[j] == if j + 1 < |w| && j + 1 < limit then Filled(w[j + 1]) else Empty)
            && Private(w, Stored(count))
               == if w == [] then [] else if limit <= 1 then w else if |w| <= limit then w[..1] else w[..1] + w[limit..]
  {
    hide AllSlots, Private;
    var count := PublicCount(numOutput, numInPublic);
    LimitIs(numOutput, numInPublic);
    SlotsAre(w, count);
    PrivateWhere(w, Stored(count));
    assert w != [] ==> w[..1] + w[1..] == w;
  }

  function Filling(p: seq<Slot>): seq<nat>
    requires forall j :: 0 <= j < |p| ==> p[j].Filled?
  {
    seq(|p|, j requires 0 <= j < |p| => p[j].value)
  }

  lemma SlotsFill(w: seq<nat>, nPublic: nat)
    requires |w| > nPublic
    ensures forall j :: 0 <= j < nPublic ==> PublicSlots(w, nPublic)[j].Filled?
    ensures Filling(PublicSlots(w, nPublic)) == w[1..1 + nPublic]
  {
  }

  lemma PartsJoin(w: seq<nat>, n: nat)
    requires 1 <= n <= |w|
    ensures Join(w[..1] + w[n..], w[1..n]) == w
  {
    assert (w[..1] + w[n..])[..1] == w[..1] && (w[..1] + w[n..])[1..] == w[n..];
    assert w[..1] + w[1..n] == w[..n];
  }

  /** Every public slot is filled exactly when the file has more values than public wires, and then
      the two parts join to the values of the file, in their original order. */
  lemma SplitJoins(w: seq<nat>, nPublic: nat)
    requires w != []
    ensures (forall j :: 0 <= j < nPublic ==> PublicSlots(w, nPublic)[j].Filled?) <==> |w| > nPublic
    ensures |w| > nPublic ==>
              && Private(w, nPublic) != []
              && Join(Private(w, nPublic), Filling(PublicSlots(w, nPublic))) == w
  {
    hide Join, Private, Filling;
    PrivateOf(w, nPublic);
    if |w| <= nPublic {
      assert PublicSlots(w, nPublic)[nPublic - 1].Empty?;
    } else {
      SlotsFill(w, nPublic);
      PartsJoin(w, 1 + nPublic);
    }
  }

  // ---- the reader inverts the writer of the format ----

  predicate ValuesFit(w: seq<nat>) {
    forall i :: 0 <= i < |w| ==> w[i] < Pow(256, 32)
  }

  /** A witness file of `w`, followed by any spare bytes. */
  ghost predicate IsWtnsFile(b: seq<Byte>, version: nat, prime: nat, w: seq<nat>) {
    |w| < 0x1_0000_0000 && ValuesFit(w) && EncodeWtns(version, prime, w) <= b
  }

  lemma {:induction false} ValuesInFile(b: seq<Byte>, head: seq<nat>, w: seq<nat>)
    requires |head| == DATA_OFFSET && head + EncodeValues(w) <= b
    requires ValuesFit(w)
    ensures HasValues(b, |w|) && ValuesOf(b, |w|) == w
  {
    hide Value, Digits, Pow;
    if w != [] {
      var n, v := |w| - 1, w[|w| - 1];
      var start := DATA_OFFSET + VALUE_SIZE * n;
      var most, last := head + EncodeValues(w[..n]), Digits(256, v, VALUE_SIZE);
      assert head + EncodeValues(w) == most + last;
      PrefixParts(b, most, last);
      ValuesInFile(b, head, w[..n]);
      NumWritten(v, VALUE_SIZE);
    }
  }

  lemma PrefixParts(b: seq<nat>, xs: seq<nat>, ys: seq<nat>)
    requires xs + ys <= b
    ensures xs <= b && b[|xs|..|xs| + |ys|] == ys
  {
    assert b[..|xs + ys|] == xs + ys;
    assert b[..|xs|] == b[..|xs + ys|][..|xs|];
    assert b[|xs|..|xs| + |ys|] == b[..|xs + ys|][|xs|..];
  }

  /** The bytes before the number of values, and those between it and the first value. */
  lemma WtnsParts(version: nat, prime: nat, w: seq<nat>) returns (before: seq<nat>, between: seq<nat>)
    ensures |before| == 56 && |between| == 12
    ensures EncodeWtns(version, prime, w)
            == [0x77, 0x74, 0x6E, 0x73] + before + Digits(256, |w|, 4) + between + EncodeValues(w)
  {
    hide Digits, EncodeValues;
    before := Digits(256, version, 4) + Digits(256, 2, 4) + Digits(256, 1, 4) + Digits(256, 40, 8)
              + Digits(256, 32, 4) + Digits(256, prime, 32);
    between := Digits(256, 2, 4) + Digits(256, 32 * |w|, 8);
  }

  /** A written file has its values where the reader looks for them. */
  lemma WtnsRoundTrip(b: seq<Byte>, version: nat, prime: nat, w: seq<nat>)
    requires IsWtnsFile(b, version, prime, w)
    ensures |b| >= 4 && b[..4] == WTNS_MAGIC && Readable(b)
    ensures CountOf(b) == |w| && ValuesOf(b, |w|) == w
  {
    hide Value, Digits, ValuesOf, EncodeValues, ValuesFit, EncodeWtns;
    var count := Digits(256, |w|, 4);
    var before, between := WtnsParts(version, prime, w);
    var head := WTNS_MAGIC + before + count + between;
    ValuesInFile(b, head, w);
    PrefixParts(b, head, EncodeValues(w));
    PrefixParts(b, WTNS_MAGIC + before + count, between);
    PrefixParts(b, WTNS_MAGIC + before, count);
    PrefixParts(b, WTNS_MAGIC, before);
    PowValues();
    NumWritten(|w|, 4);
  }

  // ---- the main theorem ----

  /** What a compiler of the format guarantees of its output. */
  ghost predicate WellFormed(r: R1cs) {
    && r.header.nOutputs + r.header.nPubInputs < r.header.nVars
    && forall c :: c in r.constraints ==> WiresBelow(c, r.header.nVars)
  }

  /** Reads a constraint file and a witness file and checks every assertion of the rebuilt circuit.
      The circuit declares exactly as many wires of each kind as the witness reader delivers, and it
      accepts exactly the vectors that satisfy the original constraint system. */
  method Accepts(
    r1csFile: array<Byte>, wtnsFile: array<Byte>, ghost r: R1cs, ghost w: seq<nat>,
    ghost version: nat, ghost prime: nat)
    returns (accepted: bool)
    requires r1csFile != wtnsFile
    requires ForwardFile(r1csFile[..]) && Decode(r1csFile[..]) == Success(r)
    requires WellFormed(r) && |w| == r.header.nVars
    requires IsWtnsFile(wtnsFile[..], version, prime, w)
    modifies r1csFile, wtnsFile
    ensures accepted <==> SatisfiesAll(r.constraints, w)
  {
    hide Decode, ForwardFile, IsWtnsFile, Readable, AllStandFor, SatisfiesAll, ValuesOf, PublicSlots,
         Private, Join, HeaderOf, CountOf, WiresBelow;
    ghost var nPublic := r.header.nOutputs + r.header.nPubInputs;
    WtnsRoundTrip(wtnsFile[..], version, prime, w);
    SplitJoins(w, nPublic);
    PrivateLength(w, nPublic);
    DecodedFits(r1csFile[..], r);
    SmallCounts(w, r.header.nOutputs, r.header.nPubInputs);
    var reader := new R1csReader();
    var read := reader.ReadR1CS(r1csFile);
    var circuit := read.value;
    var parsed := ParseWtns(wtnsFile, reader.numOutput, reader.numInPublic);
    var wit, pub := parsed.wit, Filling(parsed.pub);
    if |wit| != circuit.nWitness || |pub| != circuit.nPublic {
      return false;
    }
    accepted := Define(circuit, reader.coeffs, wit, pub, r.constraints);
  }

  lemma SmallCounts(w: seq<nat>, numOutput: nat, numInPublic: nat)
    requires numOutput + numInPublic + 1 < TWO_32
    ensures var count := PublicCount(numOutput, numInPublic);
            && count == Stored(count) == numOutput + numInPublic
            && AllSlots(w, count) == PublicSlots(w, count)
  {
    var count := PublicCount(numOutput, numInPublic);
    assert AllSlots(w, count) == PublicSlots(w, count) + [];
  }

  lemma PrivateLength(w: seq<nat>, nPublic: nat)
    requires |w| > nPublic
    ensures |Private(w, nPublic)| == |w| - nPublic
  {
    PrivateOf(w, nPublic);
  }

  lemma DecodedFits(buf: seq<Byte>, r: R1cs)
    requires Decode(buf) == Success(r)
    ensures r.header.nVars < TWO_32
  {
    hide ReadNum, DecodeTable, DecodeHeader, DecodeBody;
    var table := DecodeSectionTable(buf).value;
    DecodeIff(buf, table, r);
    PowValues();
  }
}
