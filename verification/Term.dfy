/** Bit identities over plain 64-bit words, kept apart from every other definition so that each is a
    small question about bits alone. */
module WordBits {

  lemma WireMaskLaw(t: bv64, w: bv64)
    requires w & 0x1FFF_FFFF == w
    ensures ((t & !0x1FFF_FFFF) | w) & 0x1FFF_FFFF == w
    ensures ((t & !0x1FFF_FFFF) | w) & 0x07FF_FFFF_E000_0000 == t & 0x07FF_FFFF_E000_0000
    ensures ((t & !0x1FFF_FFFF) | w) & 0xE000_0000_0000_0000 == t & 0xE000_0000_0000_0000
  {
  }

  lemma CoeffMaskLaw(t: bv64, w: bv64)
    requires w & 0x3FFF_FFFF == w
    ensures (((t & !0x07FF_FFFF_E000_0000) | (w << 29)) & 0x07FF_FFFF_E000_0000) >> 29 == w
    ensures ((t & !0x07FF_FFFF_E000_0000) | (w << 29)) & 0x1FFF_FFFF == t & 0x1FFF_FFFF
    ensures ((t & !0x07FF_FFFF_E000_0000) | (w << 29)) & 0xE000_0000_0000_0000
            == t & 0xE000_0000_0000_0000
  {
  }

  lemma VisibilityMaskLaw(t: bv64, w: bv64)
    requires w < 8
    ensures (((t & !0xE000_0000_0000_0000) | (w << 61)) & 0xE000_0000_0000_0000) >> 61 == w
    ensures ((t & !0xE000_0000_0000_0000) | (w << 61)) & 0x1FFF_FFFF == t & 0x1FFF_FFFF
    ensures ((t & !0xE000_0000_0000_0000) | (w << 61)) & 0x07FF_FFFF_E000_0000
            == t & 0x07FF_FFFF_E000_0000
  {
  }

  lemma Widen29(v: bv29)
    ensures (v as bv64) as int == v as int < 0x2000_0000
  {
  }

  lemma WireMaskLow(w: bv64)
    requires w & 0x1FFF_FFFF == w
    ensures w as int < 0x2000_0000
  {
    var v := w as bv29;
    assert v as bv64 == w;
    Widen29(v);
  }

  lemma WireMaskHigh(w: bv64)
    requires w & 0x1FFF_FFFF != w
    ensures w as int >= 0x2000_0000
  {
  }

  lemma Widen30(v: bv30)
    ensures (v as bv64) as int == v as int < 0x4000_0000
  {
  }

  lemma CoeffMaskLow(w: bv64)
    requires w & 0x3FFF_FFFF == w
    ensures w as int < 0x4000_0000
  {
    var v := w as bv30;
    assert v as bv64 == w;
    Widen30(v);
  }

  lemma CoeffMaskHigh(w: bv64)
    requires w & 0x3FFF_FFFF != w
    ensures w as int >= 0x4000_0000
  {
  }

  lemma BelowHalf(w: bv64)
    requires w as int < 0x8000_0000_0000_0000
    ensures w < 0x8000_0000_0000_0000
  {
  }

  lemma DoubleAsInt(w: bv64)
    requires w < 0x8000_0000_0000_0000
    ensures (w << 1) as int == 2 * (w as int)
    ensures ((w << 1) | 1) as int == 2 * (w as int) + 1
  {
  }
}

/** The packed linear-expression term: a wire id, a coefficient id and a visibility in one 64-bit
    word (lib/compiled/term.go). */
module Term {
  import opened WordBits

  /** Visibility of a circuit variable (lib/schema/field.go). */
  datatype Visibility = Unset | Internal | Secret | Public | Virtual

  type Word = bv64

  const MAX_WIRES := 0x2000_0000
  const MAX_COEFFS := 0x4000_0000
  const TWO_63 := 0x8000_0000_0000_0000
  const TWO_64 := 0x1_0000_0000_0000_0000

  // ---- the fields of a word ----

  function WireBits(t: Word): Word {
    t & 0x0000_0000_1FFF_FFFF
  }

  function CoeffBits(t: Word): Word {
    (t & 0x07FF_FFFF_E000_0000) >> 29
  }

  function VisibilityBits(t: Word): Word {
    (t & 0xE000_0000_0000_0000) >> 61
  }

  function WireID(t: Word): (id: nat) {
    WireBits(t) as int
  }

  function CoeffID(t: Word): (id: nat) {
    CoeffBits(t) as int
  }

  function DecodeVisibility(bits: Word): Visibility {
    if bits == 3 then Internal
    else if bits == 1 then Public
    else if bits == 2 then Secret
    else if bits == 4 then Virtual
    else Unset
  }

  function VisibilityOf(t: Word): Visibility {
    DecodeVisibility(VisibilityBits(t))
  }

  // ---- the setters on words ----

  function PutWire(t: Word, id: Word): Word {
    (t & !0x0000_0000_1FFF_FFFF) | id
  }

  function PutCoeff(t: Word, id: Word): Word {
    (t & !0x07FF_FFFF_E000_0000) | (id << 29)
  }

  function EncodeVisibility(v: Visibility): Word {
    match v
    case Unset => 0
    case Internal => 3
    case Public => 1
    case Secret => 2
    case Virtual => 4
  }

  function PutVisibilityBits(t: Word, bits: Word): Word {
    (t & !0xE000_0000_0000_0000) | (bits << 61)
  }

  /** Setting `Unset` leaves the word alone. */
  function PutVisibility(t: Word, v: Visibility): Word {
    if v == Unset then t else PutVisibilityBits(t, EncodeVisibility(v))
  }

  lemma PutWireFields(t: Word, id: Word)
    requires id & 0x0000_0000_1FFF_FFFF == id
    ensures WireBits(PutWire(t, id)) == id
    ensures CoeffBits(PutWire(t, id)) == CoeffBits(t)
    ensures VisibilityBits(PutWire(t, id)) == VisibilityBits(t)
  {
    WireMaskLaw(t, id);
  }

  lemma PutCoeffFields(t: Word, id: Word)
    requires id & 0x0000_0000_3FFF_FFFF == id
    ensures CoeffBits(PutCoeff(t, id)) == id
    ensures WireBits(PutCoeff(t, id)) == WireBits(t)
    ensures VisibilityBits(PutCoeff(t, id)) == VisibilityBits(t)
  {
    CoeffMaskLaw(t, id);
  }

  lemma PutVisibilityBitsFields(t: Word, bits: Word)
    requires bits < 8
    ensures VisibilityBits(PutVisibilityBits(t, bits)) == bits
    ensures WireBits(PutVisibilityBits(t, bits)) == WireBits(t)
    ensures CoeffBits(PutVisibilityBits(t, bits)) == CoeffBits(t)
  {
    VisibilityMaskLaw(t, bits);
  }

  lemma PutVisibilityFields(t: Word, v: Visibility)
    ensures WireBits(PutVisibility(t, v)) == WireBits(t)
    ensures CoeffBits(PutVisibility(t, v)) == CoeffBits(t)
    ensures VisibilityOf(PutVisibility(t, v)) == if v == Unset then VisibilityOf(t) else v
  {
    if v != Unset {
      PutVisibilityBitsFields(t, EncodeVisibility(v));
    }
  }

  // ---- Go integers as words ----

  function NatToWord(c: nat): (w: Word)
    requires c < TWO_64
    ensures w as int == c
  {
    if c == 0 then 0 else
    var half := NatToWord(c / 2);
    BelowHalf(half);
    DoubleAsInt(half);
    if c % 2 == 0 then half << 1 else (half << 1) | 1
  }

  /** Go's uint64(c) of a 64-bit int: negative values wrap around. */
  function IntToWord(c: int): (w: Word)
    requires -TWO_63 <= c < TWO_63
    ensures w as int == if c >= 0 then c else c + TWO_64
  {
    if c >= 0 then NatToWord(c) else NatToWord(c + TWO_64)
  }

  lemma WireMaskFits(w: Word)
    ensures (w & 0x0000_0000_1FFF_FFFF == w) <==> w as int < MAX_WIRES
  {
    if w & 0x1FFF_FFFF == w {
      WireMaskLow(w);
    } else {
      WireMaskHigh(w);
    }
  }

  lemma CoeffMaskFits(w: Word)
    ensures (w & 0x0000_0000_3FFF_FFFF == w) <==> w as int < MAX_COEFFS
  {
    if w & 0x3FFF_FFFF == w {
      CoeffMaskLow(w);
    } else {
      CoeffMaskHigh(w);
    }
  }

  // ---- the setters of the source, which panic on ids that do not fit ----

  datatype Maybe<T> = Panic | Value(value: T)

  function WithWireID(t: Word, id: int): (r: Maybe<Word>)
    requires -TWO_63 <= id < TWO_63
    ensures r.Panic? <==> !(0 <= id < MAX_WIRES)
    ensures r.Value? ==> WireID(r.value) == id
                         && CoeffBits(r.value) == CoeffBits(t)
                         && VisibilityBits(r.value) == VisibilityBits(t)
  {
    var w := IntToWord(id);
    WireMaskFits(w);
    if w & 0x0000_0000_1FFF_FFFF != w then Panic
    else
      PutWireFields(t, w);
      Value(PutWire(t, w))
  }

  function WithCoeffID(t: Word, id: int): (r: Maybe<Word>)
    requires -TWO_63 <= id < TWO_63
    ensures r.Panic? <==> !(0 <= id < MAX_COEFFS)
    ensures r.Value? ==> CoeffID(r.value) == id
                         && WireBits(r.value) == WireBits(t)
                         && VisibilityBits(r.value) == VisibilityBits(t)
  {
    var w := IntToWord(id);
    CoeffMaskFits(w);
    if w & 0x0000_0000_3FFF_FFFF != w then Panic
    else
      PutCoeffFields(t, w);
      Value(PutCoeff(t, w))
  }

  /** The three bits that stand for each visibility. */
  lemma VisibilityNumber(t: Word, v: Visibility)
    ensures VisibilityBits(PutVisibility(t, v))
            == match v
               case Unset => VisibilityBits(t)
               case Public => 1
               case Secret => 2
               case Internal => 3
               case Virtual => 4
  {
    if v != Unset {
      PutVisibilityBitsFields(t, EncodeVisibility(v));
    }
  }

  // ---- any run of setter calls ----

  datatype SetCall = SetWire(id: int) | SetCoeff(id: int) | SetVisibility(v: Visibility)

  ghost predicate InRange(c: SetCall) {
    match c
    case SetWire(id) => 0 <= id < MAX_WIRES
    case SetCoeff(id) => 0 <= id < MAX_COEFFS
    case SetVisibility(_) => true
  }

  function Apply(t: Word, c: SetCall): Word
    requires InRange(c)
  {
    match c
    case SetWire(id) => WithWireID(t, id).value
    case SetCoeff(id) => WithCoeffID(t, id).value
    case SetVisibility(v) => PutVisibility(t, v)
  }

  function ApplyAll(t: Word, calls: seq<SetCall>): Word
    requires forall c :: c in calls ==> InRange(c)
  {
    if calls == [] then t else Apply(ApplyAll(t, calls[..|calls| - 1]), calls[|calls| - 1])
  }

  /** What each field should hold after a run of calls: the argument of the last call that names
      it, or what it held before. */
  function LastWire(old_: nat, calls: seq<SetCall>): int {
    if calls == [] then old_
    else var c := calls[|calls| - 1];
         if c.SetWire? then c.id else LastWire(old_, calls[..|calls| - 1])
  }

  function LastCoeff(old_: nat, calls: seq<SetCall>): int {
    if calls == [] then old_
    else var c := calls[|calls| - 1];
         if c.SetCoeff? then c.id else LastCoeff(old_, calls[..|calls| - 1])
  }

  function LastVisibility(old_: Visibility, calls: seq<SetCall>): Visibility {
    if calls == [] then old_
    else var c := calls[|calls| - 1];
         if c.SetVisibility? && c.v != Unset then c.v
         else LastVisibility(old_, calls[..|calls| - 1])
  }

  lemma ApplyChangesOneField(t: Word, c: SetCall)
    requires InRange(c)
    ensures WireID(Apply(t, c)) == if c.SetWire? then c.id else WireID(t)
    ensures CoeffID(Apply(t, c)) == if c.SetCoeff? then c.id else CoeffID(t)
    ensures VisibilityOf(Apply(t, c))
            == if c.SetVisibility? && c.v != Unset then c.v else VisibilityOf(t)
  {
    if c.SetVisibility? {
      PutVisibilityFields(t, c.v);
    }
  }

  /** In any order and number of in-range calls, starting from any 64-bit word, the three fields
      never disturb one another. */
  lemma {:induction false} SettersReadBack(t: Word, calls: seq<SetCall>)
    requires forall c :: c in calls ==> InRange(c)
    ensures WireID(ApplyAll(t, calls)) == LastWire(WireID(t), calls)
    ensures CoeffID(ApplyAll(t, calls)) == LastCoeff(CoeffID(t), calls)
    ensures VisibilityOf(ApplyAll(t, calls)) == LastVisibility(VisibilityOf(t), calls)
  {
    if calls != [] {
      var before, c := calls[..|calls| - 1], calls[|calls| - 1];
      SettersReadBack(t, before);
      ApplyChangesOneField(ApplyAll(t, before), c);
    }
  }

  // ---- Pack and Unpack ----

  /** A term variable, updated through its pointer. */
  class TermCell {
    var word: Word

    constructor ()
      ensures word == 0
    {
      word := 0;
    }

    method SetWireID(id: int) returns (panicked: bool)
      requires -TWO_63 <= id < TWO_63
      modifies this
      ensures panicked <==> !(0 <= id < MAX_WIRES)
      ensures panicked ==> word == old(word)
      ensures !panicked ==> word == Apply(old(word), SetWire(id))
    {
      var r := WithWireID(word, id);
      match r {
        case Panic => panicked := true;
        case Value(w) => word, panicked := w, false;
      }
    }

    method SetCoeffID(id: int) returns (panicked: bool)
      requires -TWO_63 <= id < TWO_63
      modifies this
      ensures panicked <==> !(0 <= id < MAX_COEFFS)
      ensures panicked ==> word == old(word)
      ensures !panicked ==> word == Apply(old(word), SetCoeff(id))
    {
      var r := WithCoeffID(word, id);
      match r {
        case Panic => panicked := true;
        case Value(w) => word, panicked := w, false;
      }
    }

    method SetVisibility(v: Visibility)
      modifies this
      ensures word == Apply(old(word), SetCall.SetVisibility(v))
    {
      word := PutVisibility(word, v);
    }
  }

  /** Packing panics exactly when an id does not fit; otherwise unpacking gives back what was
      packed, for every visibility. */
  method Pack(wire: int, coeff: int, v: Visibility) returns (r: Maybe<Word>)
    requires -TWO_63 <= wire < TWO_63 && -TWO_63 <= coeff < TWO_63
    ensures r.Panic? <==> !(0 <= wire < MAX_WIRES && 0 <= coeff < MAX_COEFFS)
    ensures r.Value? ==> Unpack(r.value) == (coeff, wire, v)
  {
    var t := new TermCell();
    ZeroFields();
    var panicked := t.SetWireID(wire);
    if panicked {
      return Panic;
    }
    ApplyChangesOneField(0, SetWire(wire));
    ghost var w := t.word;
    panicked := t.SetCoeffID(coeff);
    if panicked {
      return Panic;
    }
    ApplyChangesOneField(w, SetCoeff(coeff));
    w := t.word;
    t.SetVisibility(v);
    ApplyChangesOneField(w, SetVisibility(v));
    return Value(t.word);
  }

  lemma ZeroFields()
    ensures WireID(0) == 0 && CoeffID(0) == 0 && VisibilityOf(0) == Unset
  {
    assert WireBits(0) == 0;
  }

  function Unpack(t: Word): (r: (nat, nat, Visibility)) {
    (CoeffID(t), WireID(t), VisibilityOf(t))
  }
}
