/** Recovering a message from its SHA-256 padding (ReconstructJWTFromSegments and MergeJWT in
    src/utils/utils.go). Padding follows section 5.1.1 of FIPS 180-4. */
module JwtPadding {
  import opened Positional
  import opened DecimalText

  // ---- Go's decimal parsers ----

  datatype Number = Syntax | Range | Val(value: nat)

  const MAX_UINT64 := 0xFFFF_FFFF_FFFF_FFFF
  const MAX_INT64 := 0x7FFF_FFFF_FFFF_FFFF

  /** The digit loop of ParseUint; it stops at the first digit that leaves the range. */
  function ScanUint(s: string, n: nat, max: nat): Number {
    if s == "" then Val(n)
    else if !IsDigit(s[0]) then Syntax
    else
      var next := n * 10 + (s[0] as int - '0' as int);
      if next > max then Range else ScanUint(s[1..], next, max)
  }

  function ParseUint8(s: string): Number {
    if s == "" then Syntax else ScanUint(s, 0, 255)
  }

  function Clamp(negative: bool, n: nat): int {
    if negative then if n > MAX_INT64 + 1 then 0 - MAX_INT64 - 1 else 0 - n
    else if n > MAX_INT64 then MAX_INT64 else n
  }

  /** The value Atoi returns beside its error: 0 for bad syntax, the nearest int out of range. */
  function Atoi(s: string): int {
    var signed := s != "" && (s[0] == '-' || s[0] == '+');
    var digits := if signed then s[1..] else s;
    if digits == "" then 0
    else match ScanUint(digits, 0, MAX_UINT64)
         case Syntax => 0
         case Range => Clamp(s[0] == '-', MAX_UINT64)
         case Val(n) => Clamp(s[0] == '-', n)
  }

  function ToByte(i: int): Byte {
    i % 256
  }

  // ---- what the parsers read ----

  /** How many characters, from the first on, are digits. */
  function DigitRun(s: string): (k: nat)
    ensures k <= |s| && AllDigits(s[..k]) && (k < |s| ==> !IsDigit(s[k]))
  {
    if s == "" || !IsDigit(s[0]) then 0 else 1 + DigitRun(s[1..])
  }

  /** The number spelled by digits that follow a number already read. */
  function After(n: nat, s: string): nat
    requires AllDigits(s)
  {
    Joined(n, Pow(10, |s|), Spelled(s))
  }

  function Joined(n: nat, p: nat, low: nat): nat {
    MulMono(0, n, p);
    n * p + low
  }

  lemma AfterOne(n: nat, s: string)
    requires s != "" && AllDigits(s)
    ensures AllDigits(s[1..]) && After(n, s) == After(n * 10 + (s[0] as int - '0' as int), s[1..])
    ensures After(n, s) >= n * 10 + (s[0] as int - '0' as int)
  {
    hide Pow;
    var d, rest := s[0] as int - '0' as int, s[1..];
    assert DigitsOf(s) == [d] + DigitsOf(rest);
    BigValueAppend(10, [d], DigitsOf(rest));
    assert [d][..0] == [];
    assert BigValue(10, [d]) == BigValue(10, []) * 10 + d == d;
    PowStep(10, |s|);
    var p := Pow(10, |rest|);
    Distribute(n * 10, d, p);
    Associate(n, 10, p);
    MulMono(1, p, n * 10 + d);
  }

  lemma AfterNothing(n: nat)
    ensures After(n, "") == n
  {
    assert Pow(10, 0) == 1 && DigitsOf("") == [];
  }

  /** The digit loop reads the leading digits in base ten: beyond the range it says so, then it objects to
      what follows them, and else it yields their number. */
  lemma {:induction false} ScanReads(s: string, n: nat, max: nat)
    requires n <= max
    ensures var k := DigitRun(s);
            ScanUint(s, n, max)
            == if After(n, s[..k]) > max then Range else if k < |s| then Syntax else Val(After(n, s))
  {
    hide After;
    var k := DigitRun(s);
    assert k == |s| ==> s[..k] == s;
    if k == 0 {
      assert s[..k] == "";
      AfterNothing(n);
    } else {
      var next := n * 10 + (s[0] as int - '0' as int);
      AfterOne(n, s[..k]);
      assert s[..k][1..] == s[1..][..k - 1];
      if next <= max {
        ScanReads(s[1..], next, max);
        if k == |s| {
          assert s[1..][..k - 1] == s[1..];
        }
      }
    }
  }

  lemma AfterZero(s: string)
    requires AllDigits(s)
    ensures After(0, s) == Spelled(s)
  {
  }

  /** A text of digits that spells this byte in base ten. */
  predicate SpellsByte(s: string, b: nat) {
    s != "" && AllDigits(s) && Spelled(s) == b < 256
  }

  /** The strict parser accepts exactly the texts of digits that spell a byte. */
  lemma ParseUint8Iff(s: string, b: nat)
    ensures ParseUint8(s) == Val(b) <==> SpellsByte(s, b)
  {
    hide After, ScanUint;
    if s != "" {
      ScanReads(s, 0, 255);
      var k := DigitRun(s);
      AfterZero(s[..k]);
      if k == |s| {
        assert s[..k] == s;
        AfterZero(s);
      }
    }
  }

  function Saturate(x: int): int {
    if x < -0x8000_0000_0000_0000 then -0x8000_0000_0000_0000
    else if x > 0x7FFF_FFFF_FFFF_FFFF then 0x7FFF_FFFF_FFFF_FFFF else x
  }

  /** The number after an optional sign, saturated to 64 bits; 0 when there is no digit, or when something
      other than a digit comes before the digits exceed 64 bits. */
  lemma AtoiReads(s: string)
    ensures var digits := if s != "" && (s[0] == '-' || s[0] == '+') then s[1..] else s;
            var k := DigitRun(digits);
            var v: int := Spelled(digits[..k]);
            Atoi(s) == if digits == "" || (k < |digits| && v < 0x1_0000_0000_0000_0000) then 0
                       else Saturate(if s[0] == '-' then -v else v)
  {
    hide After, ScanUint, DigitRun, Spelled;
    var digits := if s != "" && (s[0] == '-' || s[0] == '+') then s[1..] else s;
    ScanReads(digits, 0, MAX_UINT64);
    var k := DigitRun(digits);
    AfterZero(digits[..k]);
    if k == |digits| {
      assert digits[..k] == digits;
    }
  }

  lemma {:induction false} WiderRangeAgrees(s: string, n: nat, max: nat, wide: nat)
    requires max <= wide && ScanUint(s, n, max).Val? && n <= max
    ensures ScanUint(s, n, wide) == ScanUint(s, n, max) && ScanUint(s, n, max).value <= max
  {
    if s != "" {
      WiderRangeAgrees(s[1..], n * 10 + (s[0] as int - '0' as int), max, wide);
    }
  }

  /** A string one parser accepts as a byte is the same byte to the other. */
  lemma ParsersAgree(s: string)
    requires ParseUint8(s).Val?
    ensures ParseUint8(s).value < 256 && ToByte(Atoi(s)) == ParseUint8(s).value
  {
    WiderRangeAgrees(s, 0, 255, MAX_UINT64);
  }

  // ---- the buffer ----

  datatype Failure = ParseFailed | BufferTooSmall | InvalidLength(length: nat) | NoLengthField

  datatype Result<T> = Ok(value: T) | Err(failure: Failure)

  function Flatten(segments: seq<seq<string>>): seq<string> {
    if segments == [] then [] else Flatten(segments[..|segments| - 1]) + segments[|segments| - 1]
  }

  /** The bytes of the strings, or None at the first one that is not a byte. */
  function ParseAll(ss: seq<string>): Result<seq<Byte>> {
    if ss == [] then Ok([])
    else match ParseAll(ss[..|ss| - 1])
         case Err(f) => Err(f)
         case Ok(bs) =>
           var n := ParseUint8(ss[|ss| - 1]);
           if n.Val? && n.value < 256 then Ok(bs + [n.value]) else Err(ParseFailed)
  }

  function MergeAll(ss: seq<string>): seq<Byte> {
    if ss == [] then [] else MergeAll(ss[..|ss| - 1]) + [ToByte(Atoi(ss[|ss| - 1]))]
  }

  lemma {:induction false} BuffersAgree(ss: seq<string>)
    requires ParseAll(ss).Ok?
    ensures MergeAll(ss) == ParseAll(ss).value
  {
    if ss != [] {
      BuffersAgree(ss[..|ss| - 1]);
      ParsersAgree(ss[|ss| - 1]);
    }
  }

  /** The strict buffer is the bytes that the strings spell, one each. */
  lemma {:induction false} ParseAllIff(ss: seq<string>, bs: seq<Byte>)
    ensures ParseAll(ss) == Ok(bs)
            <==> |ss| == |bs| && forall i :: 0 <= i < |ss| ==> SpellsByte(ss[i], bs[i])
  {
    hide ParseUint8, SpellsByte;
    if ss != [] {
      var k, s := |ss| - 1, ss[|ss| - 1];
      if bs != [] {
        ParseAllIff(ss[..k], bs[..|bs| - 1]);
        ParseUint8Iff(s, bs[|bs| - 1]);
        assert bs == bs[..|bs| - 1] + [bs[|bs| - 1]];
      }
      assert forall i :: 0 <= i < k ==> ss[..k][i] == ss[i];
      ParseAllLength(ss[..k]);
      ParseAllLength(ss);
      if ParseAll(ss) == Ok(bs) {
        assert ParseAll(ss[..k]).Ok? && bs[..|bs| - 1] == ParseAll(ss[..k]).value;
      }
    }
  }

  /** The lenient buffer has one byte for each string, the number read from it modulo 256. */
  lemma {:induction false} MergeAllReads(ss: seq<string>)
    ensures |MergeAll(ss)| == |ss| && forall i :: 0 <= i < |ss| ==> MergeAll(ss)[i] == Atoi(ss[i]) % 256
  {
    hide Atoi;
    if ss != [] {
      MergeAllReads(ss[..|ss| - 1]);
    }
  }

  lemma {:induction false} ParseAllLength(ss: seq<string>)
    ensures ParseAll(ss).Ok? ==> |ParseAll(ss).value| == |ss|
  {
    hide ParseUint8;
    if ss != [] {
      ParseAllLength(ss[..|ss| - 1]);
    }
  }

  // ---- the backward scan ----

  predicate AllZero(b: seq<Byte>) {
    forall i :: 0 <= i < |b| ==> b[i] == 0
  }

  /** The number of bits in the low half of the length field that ends at `i`. */
  function BitsAt(buf: seq<Byte>, i: nat): nat
    requires 4 <= i <= |buf|
  {
    BigValue(256, buf[i - 4..i])
  }

  function MessageAt(buf: seq<Byte>, i: nat): Result<seq<Byte>>
    requires 8 <= i <= |buf|
  {
    var length := BitsAt(buf, i) / 8;
    if length > |buf| then Err(InvalidLength(length)) else Ok(buf[..length])
  }

  function Scan(buf: seq<Byte>, i: nat): Result<seq<Byte>>
    requires i <= |buf|
  {
    if i < 8 then Err(NoLengthField)
    else if AllZero(buf[i - 8..i]) then Scan(buf, i - 8)
    else MessageAt(buf, i)
  }

  function Recover(buf: seq<Byte>): Result<seq<Byte>> {
    if |buf| < 8 then Err(BufferTooSmall) else Scan(buf, |buf|)
  }

  // ---- reading segment by segment ----

  lemma NoSegments(segments: seq<seq<string>>)
    ensures Flatten(segments[..0]) == [] && segments[..|segments|] == segments
    ensures ParseAll([]) == Ok([]) && MergeAll([]) == []
  {
  }

  lemma NextSegment(segments: seq<seq<string>>, n: nat)
    requires n < |segments|
    ensures Flatten(segments[..n + 1]) == Flatten(segments[..n]) + segments[n]
  {
    assert segments[..n + 1][..n] == segments[..n];
  }

  /** The strings read when `k` of a segment's are, after those of the segments before. */
  function ReadSoFar(done: seq<string>, seg: seq<string>, k: nat): seq<string>
    requires k <= |seg|
  {
    done + seg[..k]
  }

  lemma SegmentEnds(done: seq<string>, seg: seq<string>)
    ensures ReadSoFar(done, seg, 0) == done && ReadSoFar(done, seg, |seg|) == done + seg
  {
    assert seg[..|seg|] == seg;
  }

  lemma NextString(done: seq<string>, seg: seq<string>, k: nat)
    requires k < |seg|
    ensures ReadSoFar(done, seg, k + 1) == ReadSoFar(done, seg, k) + [seg[k]]
  {
  }

  method ParseSegments(segments: seq<seq<string>>) returns (r: Result<seq<Byte>>)
    ensures r == ParseAll(Flatten(segments))
  {
    hide ParseAll, Flatten, ParseUint8, ReadSoFar, Atoi;
    var buf: seq<Byte> := [];
    NoSegments(segments);
    var n := 0;
    while n < |segments|
      invariant 0 <= n <= |segments|
      invariant ParseAll(Flatten(segments[..n])) == Ok(buf)
    {
      var seg, k := segments[n], 0;
      ghost var done := Flatten(segments[..n]);
      NextSegment(segments, n);
      SegmentEnds(done, seg);
      while k < |seg|
        invariant 0 <= k <= |seg|
        invariant ParseAll(ReadSoFar(done, seg, k)) == Ok(buf)
      {
        var u := ParseUint8(seg[k]);
        NextString(done, seg, k);
        ParseStep(ReadSoFar(done, seg, k), seg[k]);
        if !u.Val? {
          ParseStops(segments, n, k);
          return Err(ParseFailed);
        }
        ParsersAgree(seg[k]);
        buf := buf + [u.value];
        k := k + 1;
      }
      n := n + 1;
    }
    return Ok(buf);
  }

  method IsZeroBlock(block: seq<Byte>) returns (allZero: bool)
    ensures allZero == AllZero(block)
  {
    allZero := true;
    var j := 0;
    while j < |block|
      invariant 0 <= j <= |block| && allZero
      invariant AllZero(block[..j])
    {
      if block[j] != 0 {
        return false;
      }
      j := j + 1;
    }
    assert block[..j] == block;
  }

  /** Parses the segments and looks backwards for the last non-zero block of eight bytes, whose low four
      bytes count the bits of the message. */
  method ReconstructJWT(segments: seq<seq<string>>) returns (r: Result<seq<Byte>>)
    ensures r == match ParseAll(Flatten(segments))
                 case Err(f) => Err(f)
                 case Ok(buf) => Recover(buf)
  {
    hide ParseAll, Flatten, BigValue, AllZero;
    var parsed := ParseSegments(segments);
    if parsed.Err? {
      return Err(parsed.failure);
    }
    var buf := parsed.value;
    if |buf| < 8 {
      return Err(BufferTooSmall);
    }
    var i := |buf|;
    while i >= 8
      invariant 0 <= i <= |buf|
      invariant Recover(buf) == Scan(buf, i)
    {
      var block := buf[i - 8..i];
      var allZero := IsZeroBlock(block);
      if allZero {
        i := i - 8;
      } else {
        assert block[4..8] == buf[i - 4..i];
        var msgLen := BigValue(256, block[4..8]) / 8;
        assert BigValue(256, block[4..8]) == BitsAt(buf, i);
        if msgLen > |buf| {
          return Err(InvalidLength(msgLen));
        }
        return Ok(buf[..msgLen]);
      }
    }
    return Err(NoLengthField);
  }

  lemma ParseStep(ss: seq<string>, s: string)
    requires ParseAll(ss).Ok?
    ensures ParseAll(ss + [s])
            == var n := ParseUint8(s);
               if n.Val? && n.value < 256 then Ok(ParseAll(ss).value + [n.value]) else Err(ParseFailed)
  {
    assert (ss + [s])[..|ss|] == ss;
  }

  /** A string that fails to parse fails the whole list. */
  lemma {:induction false} FailureSpreads(ss: seq<string>, more: seq<string>)
    requires ParseAll(ss).Err?
    ensures ParseAll(ss + more) == ParseAll(ss)
  {
    if more == [] {
      assert ss + more == ss;
    } else {
      FailureSpreads(ss, more[..|more| - 1]);
      assert (ss + more)[..|ss + more| - 1] == ss + more[..|more| - 1];
    }
  }

  lemma {:induction false} FlattenSplit(segments: seq<seq<string>>, n: nat)
    requires n < |segments|
    ensures exists rest :: Flatten(segments) == Flatten(segments[..n]) + segments[n] + rest
    decreases |segments|
  {
    if n == |segments| - 1 {
      assert Flatten(segments) == Flatten(segments[..n]) + segments[n] + [];
    } else {
      var front := segments[..|segments| - 1];
      FlattenSplit(front, n);
      assert front[..n] == segments[..n];
      var rest :| Flatten(front) == Flatten(segments[..n]) + segments[n] + rest;
      assert Flatten(segments)
          == Flatten(segments[..n]) + segments[n] + (rest + segments[|segments| - 1]);
    }
  }

  lemma ParseStops(segments: seq<seq<string>>, n: nat, k: nat)
    requires n < |segments| && k < |segments[n]|
    requires ParseAll(ReadSoFar(Flatten(segments[..n]), segments[n], k + 1)) == Err(ParseFailed)
    ensures ParseAll(Flatten(segments)) == Err(ParseFailed)
  {
    FlattenSplit(segments, n);
    var rest :| Flatten(segments) == Flatten(segments[..n]) + segments[n] + rest;
    var done := Flatten(segments[..n]) + segments[n][..k + 1];
    assert Flatten(segments) == done + (segments[n][k + 1..] + rest);
    FailureSpreads(done, segments[n][k + 1..] + rest);
  }

  /** The other reader of the same segments, which ignores parse errors. */
  method MergeJWT(segments: seq<seq<string>>) returns (merged: seq<Byte>)
    ensures merged == MergeAll(Flatten(segments))
  {
    hide MergeAll, Flatten, Atoi, ReadSoFar;
    merged := [];
    NoSegments(segments);
    var n := 0;
    while n < |segments|
      invariant 0 <= n <= |segments| && merged == MergeAll(Flatten(segments[..n]))
    {
      var seg, k := segments[n], 0;
      ghost var done := Flatten(segments[..n]);
      NextSegment(segments, n);
      SegmentEnds(done, seg);
      while k < |seg|
        invariant 0 <= k <= |seg| && merged == MergeAll(ReadSoFar(done, seg, k))
      {
        NextString(done, seg, k);
        MergeStep(ReadSoFar(done, seg, k), seg[k]);
        merged := merged + [ToByte(Atoi(seg[k]))];
        k := k + 1;
      }
      n := n + 1;
    }
  }

  lemma MergeStep(ss: seq<string>, s: string)
    ensures MergeAll(ss + [s]) == MergeAll(ss) + [ToByte(Atoi(s))]
  {
    hide Atoi;
    assert (ss + [s])[..|ss|] == ss;
  }

  /** Whenever recovery succeeds, the merged buffer is the parsed one, and the recovered message is its
      prefix of the recovered length. */
  lemma RecoveredIsPrefix(segments: seq<seq<string>>)
    requires ParseAll(Flatten(segments)).Ok? && Recover(ParseAll(Flatten(segments)).value).Ok?
    ensures var merged := MergeAll(Flatten(segments));
            var message := Recover(ParseAll(Flatten(segments)).value).value;
            merged == ParseAll(Flatten(segments)).value && message <= merged
  {
    BuffersAgree(Flatten(segments));
    var buf := ParseAll(Flatten(segments)).value;
    ScanIsPrefix(buf, |buf|);
  }

  lemma {:induction false} ScanIsPrefix(buf: seq<Byte>, i: nat)
    requires i <= |buf|
    ensures Scan(buf, i).Ok? ==> Scan(buf, i).value <= buf && |Scan(buf, i).value| < 0x2000_0000
  {
    if i >= 8 {
      BitsBelow(buf, i);
      ScanIsPrefix(buf, i - 8);
    }
  }

  lemma BitsBelow(buf: seq<Byte>, i: nat)
    requires 4 <= i <= |buf|
    ensures BitsAt(buf, i) < 0x1_0000_0000
  {
    var field: seq<nat> := buf[i - 4..i];
    BigIsReversed(256, field);
    ValueBound(256, Reverse(field));
    PowValues();
  }

  // ---- padding ----

  function Zeros(n: nat): (z: seq<Byte>)
    ensures |z| == n && AllZero(z)
  {
    seq(n, _ => 0)
  }

  function LengthField(bits: nat): (f: seq<Byte>)
    ensures |f| == 8
  {
    DigitsValue(256, bits, 8);
    Reverse(Digits(256, bits, 8))
  }

  /** The fewest zero bytes that make the padded length a multiple of 64. */
  function ZeroCount(length: nat): (z: nat)
    ensures z < 64 && (length + 1 + z + 8) % 64 == 0
  {
    (119 - length % 64) % 64
  }

  function Pad(message: seq<Byte>): (p: seq<Byte>)
    ensures |p| == |message| + 9 + ZeroCount(|message|) && |p| % 64 == 0
  {
    message + [0x80] + Zeros(ZeroCount(|message|)) + LengthField(8 * |message|)
  }

  // ---- the length field, byte by byte ----

  function Word(b0: nat, b1: nat, b2: nat, b3: nat): nat {
    ((b0 * 256 + b1) * 256 + b2) * 256 + b3
  }

  lemma FourBytes(s: seq<Byte>)
    requires |s| == 4
    ensures BigValue(256, s) == Word(s[0], s[1], s[2], s[3])
  {
    var t: seq<nat> := s;
    assert t[..3][..2] == t[..2] && t[..2][..1] == t[..1] && t[..1][..0] == [];
    assert BigValue(256, t[..1]) == t[0];
    assert BigValue(256, t[..2]) == t[0] * 256 + t[1];
    assert BigValue(256, t[..3]) == (t[0] * 256 + t[1]) * 256 + t[2];
  }

  lemma BitsAtWord(buf: seq<Byte>, i: nat)
    requires 4 <= i <= |buf|
    ensures BitsAt(buf, i) == Word(buf[i - 4], buf[i - 3], buf[i - 2], buf[i - 1])
  {
    hide BigValue, Word;
    FourBytes(buf[i - 4..i]);
  }

  /** Below 2^32 bits the high half of the field is zero and the low half spells the bits. */
  lemma LengthFieldBytes(bits: nat)
    requires bits < 0x1_0000_0000
    ensures var f := LengthField(bits);
            && f[0] == f[1] == f[2] == f[3] == 0
            && Word(f[4], f[5], f[6], f[7]) == bits
  {
    DigitsValue(256, bits, 8);
    var ds := Digits(256, bits, 8);
    PowValues();
    HighDigitsZero(bits);
    var f := LengthField(bits);
    DigitsValue(256, bits, 4);
    DivModUnique(bits, 0x1_0000_0000, 0, bits);
    BigIsReversed(256, Digits(256, bits, 4));
    assert f[4..8] == Reverse(Digits(256, bits, 4));
    FourBytes(f[4..8]);
  }

  lemma HighDigitsZero(bits: nat)
    requires bits < 0x1_0000_0000
    ensures Digits(256, bits, 8) == Digits(256, bits, 4) + [0, 0, 0, 0]
  {
    var b1 := bits / 256;
    var b2 := b1 / 256;
    var b3 := b2 / 256;
    assert b3 / 256 == 0;
    assert Digits(256, 0, 4) == [0, 0, 0, 0] by {
      assert Digits(256, 0, 2) == [0, 0];
      assert Digits(256, 0, 3) == [0, 0, 0];
    }
    assert Digits(256, b3, 5) == [b3 % 256] + [0, 0, 0, 0] && Digits(256, b3, 1) == [b3 % 256];
    assert Digits(256, b2, 6) == [b2 % 256] + Digits(256, b3, 5);
    assert Digits(256, b2, 2) == [b2 % 256] + Digits(256, b3, 1);
    assert Digits(256, b1, 7) == [b1 % 256] + Digits(256, b2, 6);
    assert Digits(256, b1, 3) == [b1 % 256] + Digits(256, b2, 2);
  }

  // ---- recovery inverts padding ----

  lemma ZeroBlock(buf: seq<Byte>, start: nat)
    requires 8 <= start <= |buf| && AllZero(buf[start - 8..start])
    ensures forall k :: start - 8 <= k < start ==> buf[k] == 0
  {
    assert forall k :: start - 8 <= k < start ==> buf[k] == buf[start - 8..start][k - (start - 8)];
  }

  /** Where the scan stops: everything from there on is zero, whole blocks were skipped, and either the
      block below is not zero or fewer than eight bytes are left. */
  lemma {:induction false} ScanStops(buf: seq<Byte>, start: nat) returns (i: nat)
    requires start <= |buf|
    ensures i <= start && (start - i) % 8 == 0
    ensures forall k :: i <= k < start ==> buf[k] == 0
    ensures i < 8 ==> Scan(buf, start) == Err(NoLengthField)
    ensures i >= 8 ==> Scan(buf, start) == MessageAt(buf, i) && !AllZero(buf[i - 8..i])
  {
    hide MessageAt;
    if start < 8 || !AllZero(buf[start - 8..start]) {
      i := start;
    } else {
      i := ScanStops(buf, start - 8);
      ZeroBlock(buf, start);
    }
  }

  /** The lowest eight-byte block, counted from the end, that has a byte set and only zeros behind it. */
  ghost predicate EndsAt(buf: seq<Byte>, i: nat) {
    && 8 <= i <= |buf| && (|buf| - i) % 8 == 0
    && (forall k :: i <= k < |buf| ==> buf[k] == 0)
    && exists k :: i - 8 <= k < i && buf[k] != 0
  }

  /** What is recovered from any buffer: the last four bytes of the last block that is not zero are a
      number of bits, and the message is that long. Without such a block there is no length, and one
      beyond the buffer is refused. */
  lemma RecoverReads(buf: seq<Byte>)
    ensures |buf| < 8 ==> Recover(buf) == Err(BufferTooSmall)
    ensures |buf| >= 8 && (forall i: nat :: !EndsAt(buf, i)) ==> Recover(buf) == Err(NoLengthField)
    ensures forall i: nat :: EndsAt(buf, i) ==>
              var length := BigValue(256, buf[i - 4..i]) / 8;
              Recover(buf) == if length <= |buf| then Ok(buf[..length]) else Err(InvalidLength(length))
  {
    hide MessageAt, BigValue, Scan;
    if |buf| >= 8 {
      var i := ScanStops(buf, |buf|);
      if i >= 8 {
        var k :| 0 <= k < 8 && buf[i - 8..i][k] != 0;
        assert buf[i - 8 + k] != 0;
        assert EndsAt(buf, i);
      }
      forall j: nat | EndsAt(buf, j)
        ensures i == j
      {
        OneEnd(buf, i, j);
      }
      if i >= 8 {
        MessageMeans(buf, i);
      }
    }
  }

  lemma OneEnd(buf: seq<Byte>, i: nat, j: nat)
    requires i <= |buf| && (|buf| - i) % 8 == 0 && (forall k :: i <= k < |buf| ==> buf[k] == 0)
    requires (i >= 8 ==> EndsAt(buf, i)) && EndsAt(buf, j)
    ensures i == j
  {
  }

  lemma MessageMeans(buf: seq<Byte>, i: nat)
    requires 8 <= i <= |buf|
    ensures var length := BigValue(256, buf[i - 4..i]) / 8;
            MessageAt(buf, i) == if length <= |buf| then Ok(buf[..length]) else Err(InvalidLength(length))
  {
  }

  /** What the bytes of a padded message with trailing zeros are, seen from the end of the padding. */
  ghost predicate Padded(buf: seq<Byte>, message: seq<Byte>, end: nat, b0: nat, b1: nat, b2: nat, b3: nat) {
    && 64 <= end <= |buf| && end % 64 == 0 && |message| < end
    && message <= buf
    && b0 < 256 && b1 < 256 && b2 < 256 && b3 < 256
    && (forall k :: end - 8 <= k < end - 4 ==> buf[k] == 0)
    && buf[end - 4] == b0 && buf[end - 3] == b1 && buf[end - 2] == b2 && buf[end - 1] == b3
    && (forall k :: end <= k < |buf| ==> buf[k] == 0)
    && Word(b0, b1, b2, b3) == 8 * |message|
  }

  lemma PaddedShape(message: seq<Byte>, filler: nat) returns (b0: nat, b1: nat, b2: nat, b3: nat)
    requires |message| < 0x2000_0000
    ensures Padded(Pad(message) + Zeros(filler), message, |Pad(message)|, b0, b1, b2, b3)
  {
    hide LengthField, ZeroCount, Word;
    var f := LengthField(8 * |message|);
    LengthFieldBytes(8 * |message|);
    b0, b1, b2, b3 := f[4], f[5], f[6], f[7];
    var front := message + [0x80] + Zeros(ZeroCount(|message|));
    assert Pad(message) == front + f;
  }

  // Reading the length field out of step by one to three bytes never gives the length of a non-empty
  // message: late, the low byte read is zero, so the bytes of the length would all be; early, the
  // number read is at least 256 times too small.

  /** Dropping the lowest byte. */
  lemma LowByte(m: nat, q: nat, b: nat)
    requires 256 * m == 256 * q + b && b < 256
    ensures b == 0 && m == q
  {
  }

  lemma EightTimes(x: nat)
    ensures 256 * x / 8 == 32 * x
  {
  }

  lemma ReadLate(b0: nat, b1: nat, b2: nat, b3: nat, late: nat, n: nat)
    requires b0 < 256 && b1 < 256 && b2 < 256 && b3 < 256
    requires Word(b0, b1, b2, b3) == 8 * n && n > 0
    requires late == Word(b1, b2, b3, 0) || late == Word(b2, b3, 0, 0) || late == Word(b3, 0, 0, 0)
    ensures late / 8 != n
  {
    var m := if late == Word(b1, b2, b3, 0) then (b1 * 256 + b2) * 256 + b3
             else if late == Word(b2, b3, 0, 0) then (b2 * 256 + b3) * 256
             else b3 * 256 * 256;
    assert late == 256 * m;
    EightTimes(m);
    if late / 8 == n {
      var q2 := (b0 * 256 + b1) * 256 + b2;
      var q1 := b0 * 256 + b1;
      assert 256 * m == 256 * q2 + b3;
      LowByte(m, q2, b3);
      var m' := if late == Word(b1, b2, b3, 0) then b1 * 256 + b2 else b2 * 256;
      assert m == 256 * m' + 0 && m == 256 * q1 + b2;
      LowByte(m', q1, b2);
      assert b2 == 0 && b3 == 0;
      LowByte(if late == Word(b1, b2, b3, 0) then b1 else 0, b0, b1);
    }
  }

  lemma ReadEarly(b0: nat, b1: nat, b2: nat, b3: nat, early: nat, n: nat)
    requires b0 < 256 && b1 < 256 && b2 < 256 && b3 < 256
    requires Word(b0, b1, b2, b3) == 8 * n && n > 0
    requires early == Word(0, b0, b1, b2) || early == Word(0, 0, b0, b1) || early == Word(0, 0, 0, b0)
    ensures early / 8 != n
  {
    assert early * 256 <= 8 * n;
  }

  /** The scan of a padded non-empty message ends within the last bytes of the length field or less than
      a block behind it. */
  lemma ScanLands(
    buf: seq<Byte>, message: seq<Byte>, end: nat, b0: nat, b1: nat, b2: nat, b3: nat) returns (i: nat)
    requires Padded(buf, message, end, b0, b1, b2, b3) && message != []
    ensures end - 4 < i < end + 8 && i <= |buf| && (|buf| - i) % 8 == 0
    ensures Recover(buf) == MessageAt(buf, i)
  {
    hide MessageAt, Word;
    i := ScanStops(buf, |buf|);
    SomeByteSet(b0, b1, b2, b3, |message|);
    assert i > end - 4;
    var block := buf[i - 8..i];
    var k :| 0 <= k < |block| && block[k] != 0;
    assert buf[i - 8 + k] != 0;
  }

  lemma NonEmptyRecovery(
    buf: seq<Byte>, message: seq<Byte>, end: nat, b0: nat, b1: nat, b2: nat, b3: nat)
    requires Padded(buf, message, end, b0, b1, b2, b3) && message != []
    ensures Recover(buf) == Ok(message) <==> |buf| % 8 == 0
  {
    hide BitsAt, Word, Scan, Recover;
    var i := ScanLands(buf, message, end, b0, b1, b2, b3);
    assert i == end <==> |buf| % 8 == 0;
    if i == end {
      BitsAtWord(buf, i);
      assert buf[..|message|] == message;
    } else {
      StepWord(buf, message, end, b0, b1, b2, b3, i);
    }
  }

  lemma SomeByteSet(b0: nat, b1: nat, b2: nat, b3: nat, n: nat)
    requires Word(b0, b1, b2, b3) == 8 * n && n > 0
    ensures !(b0 == b1 == b2 == b3 == 0)
  {
  }

  lemma ZeroWord()
    ensures Word(0, 0, 0, 0) == 0
  {
  }

  lemma StepWord(
    buf: seq<Byte>, message: seq<Byte>, end: nat, b0: nat, b1: nat, b2: nat, b3: nat, i: nat)
    requires Padded(buf, message, end, b0, b1, b2, b3) && message != []
    requires end - 4 < i < end + 8 && i <= |buf| && i != end
    ensures BitsAt(buf, i) / 8 != |message|
  {
    hide BitsAt, Word;
    BitsAtWord(buf, i);
    var d := BitsAt(buf, i);
    if i > end {
      if i <= end + 3 {
        assert d == (if i == end + 1 then Word(b1, b2, b3, 0)
                     else if i == end + 2 then Word(b2, b3, 0, 0) else Word(b3, 0, 0, 0));
        ReadLate(b0, b1, b2, b3, d, |message|);
      } else {
        assert d == Word(0, 0, 0, 0);
        ZeroWord();
      }
    } else {
      assert d == (if i == end - 1 then Word(0, b0, b1, b2)
                   else if i == end - 2 then Word(0, 0, b0, b1) else Word(0, 0, 0, b0));
      ReadEarly(b0, b1, b2, b3, d, |message|);
    }
  }

  /** The empty message: its length field is zero, and the scan runs on to the 0x80 byte. */
  lemma EmptyRecovery(filler: nat)
    ensures Recover(Pad([]) + Zeros(filler)) == Ok([]) <==> filler % 8 == 0
  {
    hide BitsAt, Word, Pad, LengthField, ZeroCount;
    var buf := Pad([]) + Zeros(filler);
    EmptyPad();
    assert buf[0] == 0x80 && forall k :: 0 < k < |buf| ==> buf[k] == 0;
    var i := ScanStops(buf, |buf|);
    if i >= 8 {
      var k :| 0 <= k < 8 && buf[i - 8..i][k] != 0;
      assert buf[i - 8 + k] != 0;
      assert i == 8;
      BitsAtWord(buf, 8);
      ZeroWord();
      assert buf[..0] == [];
    }
  }

  lemma WordIsZero(b0: nat, b1: nat, b2: nat, b3: nat)
    requires Word(b0, b1, b2, b3) == 0
    ensures b0 == b1 == b2 == b3 == 0
  {
  }

  lemma EmptyPad()
    ensures |Pad([])| == 64 && Pad([])[0] == 0x80
    ensures forall k :: 0 < k < 64 ==> Pad([])[k] == 0
  {
    hide LengthField, Word;
    LengthFieldBytes(0);
    var f := LengthField(0);
    WordIsZero(f[4], f[5], f[6], f[7]);
    assert ZeroCount(0) == 55;
    assert Pad([]) == [0x80] + Zeros(55) + f;
  }

  lemma PadLength(message: seq<Byte>, filler: nat)
    ensures (|Pad(message)| + filler) % 8 == 0 <==> filler % 8 == 0
  {
    hide Pad, ZeroCount, LengthField;
    var q := |Pad(message)| / 64;
    assert |Pad(message)| == 64 * q;
    assert 64 * q + filler == filler + 8 * q * 8;
    ModAddMultiple(filler, 8 * q, 8);
  }

  lemma RecoverIsScan(buf: seq<Byte>)
    requires |buf| >= 8
    ensures Recover(buf) == Scan(buf, |buf|)
  {
  }

  /** Recovery inverts padding, for every message below 2^61 bytes and any number of zero bytes after
      the padding, exactly when the message is shorter than 2^29 bytes and the filler is a whole number
      of eight-byte blocks. */
  lemma RecoveryInvertsPadding(message: seq<Byte>, filler: nat)
    requires |message| < 0x2000_0000_0000_0000
    ensures Recover(Pad(message) + Zeros(filler)) == Ok(message)
            <==> |message| < 0x2000_0000 && filler % 8 == 0
  {
    hide BigValue, Word, Scan, Padded, Recover, Pad, LengthField, ZeroCount;
    var buf := Pad(message) + Zeros(filler);
    RecoverIsScan(buf);
    if |message| >= 0x2000_0000 {
      ScanIsPrefix(buf, |buf|);
    } else if message == [] {
      EmptyRecovery(filler);
    } else {
      var b0, b1, b2, b3 := PaddedShape(message, filler);
      NonEmptyRecovery(buf, message, |Pad(message)|, b0, b1, b2, b3);
      PadLength(message, filler);
    }
  }

  /** From the strings on: segments that spell, byte by byte, a padded message and whole blocks of zeros
      behind it are recovered as the message, and merged as the bytes they spell. */
  lemma SpelledRecovery(segments: seq<seq<string>>, message: seq<Byte>, blocks: nat)
    requires |message| < 0x2000_0000
    requires var ss, buf := Flatten(segments), Pad(message) + Zeros(8 * blocks);
             |ss| == |buf| && forall i :: 0 <= i < |ss| ==> SpellsByte(ss[i], buf[i])
    ensures var ss, buf := Flatten(segments), Pad(message) + Zeros(8 * blocks);
            ParseAll(ss) == Ok(buf) && Recover(buf) == Ok(message) && MergeAll(ss) == buf
  {
    hide SpellsByte, Pad, Recover, Flatten;
    var ss, buf := Flatten(segments), Pad(message) + Zeros(8 * blocks);
    ParseAllIff(ss, buf);
    RecoveryInvertsPadding(message, 8 * blocks);
    BuffersAgree(ss);
  }
}
