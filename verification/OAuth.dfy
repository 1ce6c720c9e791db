/** Key checking against an identity provider (modules/oauth_provider/google/main.py and
    modules/oauth_provider/x509_google/main.py): RSA moduli travel as base64url text and are compared as
    lists of decimal limbs. */

/** base64url as Python writes it and, in its lenient mode, reads it. */
module Base64Url {
  import opened Positional

  datatype Option<T> = None | Some(value: T)

  // ---- the alphabet ----

  function CharOf(v: nat): char
    requires v < 64
  {
    if v < 26 then ('A' as int + v) as char
    else if v < 52 then ('a' as int + (v - 26)) as char
    else if v < 62 then ('0' as int + (v - 52)) as char
    else if v == 62 then '-' else '_'
  }

  /** The six bits a character stands for; the reader first turns the two URL-safe characters into
      '+' and '/'. */
  function SextetOf(c: char): Option<nat> {
    if 'A' <= c <= 'Z' then Some(c as int - 'A' as int)
    else if 'a' <= c <= 'z' then Some(c as int - 'a' as int + 26)
    else if '0' <= c <= '9' then Some(c as int - '0' as int + 52)
    else if c == '-' || c == '+' then Some(62)
    else if c == '_' || c == '/' then Some(63)
    else None
  }

  lemma AlphabetRoundTrip(v: nat)
    requires v < 64
    ensures SextetOf(CharOf(v)) == Some(v) && CharOf(v) != '='
  {
  }

  /** The URL-safe alphabet of section 5 of RFC 4648: runs of letters, letters and digits, and two signs. */
  lemma AlphabetIs(v: nat)
    requires v < 63
    ensures CharOf(0) == 'A' && CharOf(25) == 'Z' && CharOf(26) == 'a' && CharOf(51) == 'z'
    ensures CharOf(52) == '0' && CharOf(61) == '9' && CharOf(62) == '-' && CharOf(63) == '_'
    ensures v !in {25, 51, 61, 62} ==> CharOf(v + 1) as int == CharOf(v) as int + 1
  {
  }

  // ---- writing ----

  /** The characters of one, two and three bytes. */
  function One(x: Byte): string {
    [CharOf(x / 4), CharOf(x % 4 * 16)]
  }

  function Two(x: Byte, y: Byte): string {
    [CharOf(x / 4), CharOf(x % 4 * 16 + y / 16), CharOf(y % 16 * 4)]
  }

  function Three(x: Byte, y: Byte, z: Byte): string {
    [CharOf(x / 4), CharOf(x % 4 * 16 + y / 16), CharOf(y % 16 * 4 + z / 64), CharOf(z % 64)]
  }

  function Encode(bs: seq<Byte>): string {
    if bs == [] then ""
    else if |bs| == 1 then One(bs[0]) + "=="
    else if |bs| == 2 then Two(bs[0], bs[1]) + "="
    else Three(bs[0], bs[1], bs[2]) + Encode(bs[3..])
  }

  /** The characters of a group spell, in base 64, what its bytes spell in base 256, with zero bits where
      the bytes end. */
  lemma GroupsSpell(x: Byte, y: Byte, z: Byte)
    ensures SextetsSpell(One(x)) == x * 16
    ensures SextetsSpell(Two(x, y)) == (x * 256 + y) * 4
    ensures SextetsSpell(Three(x, y, z)) == (x * 256 + y) * 256 + z
  {
    hide CharOf, SextetOf;
    AlphabetRoundTrip(x / 4);
    AlphabetRoundTrip(x % 4 * 16);
    AlphabetRoundTrip(x % 4 * 16 + y / 16);
    AlphabetRoundTrip(y % 16 * 4);
    AlphabetRoundTrip(y % 16 * 4 + z / 64);
    AlphabetRoundTrip(z % 64);
    SpellTwo(x / 4, x % 4 * 16);
    SpellThree(x / 4, x % 4 * 16 + y / 16, y % 16 * 4);
    SpellFour(x / 4, x % 4 * 16 + y / 16, y % 16 * 4 + z / 64, z % 64);
  }

  /** The number a text of the alphabet spells, first character highest. */
  function SextetsSpell(s: string): nat {
    if s == "" then 0
    else
      var low := SextetOf(s[|s| - 1]);
      SextetsSpell(s[..|s| - 1]) * 64 + if low.Some? then low.value else 0
  }

  lemma SpellTwo(a: nat, b: nat)
    requires a < 64 && b < 64
    ensures SextetsSpell([CharOf(a), CharOf(b)]) == a * 64 + b
  {
    hide CharOf, SextetOf;
    AlphabetRoundTrip(a);
    AlphabetRoundTrip(b);
    var s, t := [CharOf(a), CharOf(b)], [CharOf(a)];
    assert s[..1] == t && t[..0] == "" && SextetsSpell("") == 0;
    assert SextetsSpell(t) == a;
  }

  lemma SpellThree(a: nat, b: nat, c: nat)
    requires a < 64 && b < 64 && c < 64
    ensures SextetsSpell([CharOf(a), CharOf(b), CharOf(c)]) == (a * 64 + b) * 64 + c
  {
    hide CharOf, SextetOf;
    SpellTwo(a, b);
    AlphabetRoundTrip(c);
    assert [CharOf(a), CharOf(b), CharOf(c)][..2] == [CharOf(a), CharOf(b)];
  }

  lemma SpellFour(a: nat, b: nat, c: nat, d: nat)
    requires a < 64 && b < 64 && c < 64 && d < 64
    ensures SextetsSpell([CharOf(a), CharOf(b), CharOf(c), CharOf(d)]) == ((a * 64 + b) * 64 + c) * 64 + d
  {
    hide CharOf, SextetOf;
    SpellThree(a, b, c);
    AlphabetRoundTrip(d);
    assert [CharOf(a), CharOf(b), CharOf(c), CharOf(d)][..3] == [CharOf(a), CharOf(b), CharOf(c)];
  }

  /** str.rstrip("="). */
  function StripPadding(s: string): string {
    if s != "" && s[|s| - 1] == '=' then StripPadding(s[..|s| - 1]) else s
  }

  // ---- reading ----

  function Emit(b: nat, rest: Option<seq<nat>>): Option<seq<nat>> {
    match rest
    case None => None
    case Some(bs) => Some([b] + bs)
  }

  /** The lenient reader: `quad` characters of the current group were read, `left` are their bits not
      yet written, `pads` padding characters were seen since. Characters outside the alphabet are
      skipped, and nothing is read past the padding that completes a group. */
  function DecodeFrom(s: string, quad: nat, left: nat, pads: nat): Option<seq<nat>>
    requires quad < 4
  {
    if s == "" then if quad == 0 then Some([]) else None
    else if s[0] == '=' then
      if quad < 2 then DecodeFrom(s[1..], quad, left, pads)
      else if quad + pads + 1 >= 4 then Some([])
      else DecodeFrom(s[1..], quad, left, pads + 1)
    else match SextetOf(s[0])
         case None => DecodeFrom(s[1..], quad, left, pads)
         case Some(v) =>
           if quad == 0 then DecodeFrom(s[1..], 1, v, 0)
           else if quad == 1 then Emit(left * 4 + v / 16, DecodeFrom(s[1..], 2, v % 16, 0))
           else if quad == 2 then Emit(left * 16 + v / 4, DecodeFrom(s[1..], 3, v % 4, 0))
           else Emit(left * 64 + v, DecodeFrom(s[1..], 0, 0, 0))
  }

  function Decode(s: string): Option<seq<nat>> {
    DecodeFrom(s, 0, 0, 0)
  }

  // ---- the round trip ----

  /** Stripping removes the padding and nothing else. */
  lemma StripAppend(s: string, t: string)
    requires t != "" && t[|t| - 1] != '='
    ensures StripPadding(s + t) == s + t
    ensures StripPadding(s + t + "=") == s + t && StripPadding(s + t + "==") == s + t
  {
    assert (s + t + "=")[..|s + t|] == s + t;
    assert (s + t + "==")[..|s + t| + 1] == s + t + "=";
  }

  lemma Char(v: nat, rest: string, quad: nat, left: nat, pads: nat)
    requires v < 64 && quad < 4
    ensures DecodeFrom([CharOf(v)] + rest, quad, left, pads)
            == (if quad == 0 then DecodeFrom(rest, 1, v, 0)
                else if quad == 1 then Emit(left * 4 + v / 16, DecodeFrom(rest, 2, v % 16, 0))
                else if quad == 2 then Emit(left * 16 + v / 4, DecodeFrom(rest, 3, v % 4, 0))
                else Emit(left * 64 + v, DecodeFrom(rest, 0, 0, 0)))
  {
    AlphabetRoundTrip(v);
    assert ([CharOf(v)] + rest)[1..] == rest;
  }

  lemma Padding(left: nat)
    ensures DecodeFrom("==", 0, 0, 0) == Some([])
    ensures DecodeFrom("==", 2, left, 0) == Some([]) && DecodeFrom("==", 3, left, 0) == Some([])
  {
    assert "=="[1..] == "=" && "="[1..] == "";
  }

  /** The text without its padding. */
  function Bare(bs: seq<Byte>): string {
    if bs == [] then ""
    else if |bs| == 1 then One(bs[0])
    else if |bs| == 2 then Two(bs[0], bs[1])
    else Three(bs[0], bs[1], bs[2]) + Bare(bs[3..])
  }

  predicate EndsBare(s: string) {
    s != "" && s[|s| - 1] != '='
  }

  lemma GroupsEndBare(x: Byte, y: Byte, z: Byte)
    ensures EndsBare(One(x)) && EndsBare(Two(x, y)) && EndsBare(Three(x, y, z))
  {
    hide CharOf;
    AlphabetRoundTrip(x % 4 * 16);
    AlphabetRoundTrip(y % 16 * 4);
    AlphabetRoundTrip(z % 64);
  }

  function PaddingOf(n: nat): string {
    if n % 3 == 0 then "" else if n % 3 == 1 then "==" else "="
  }

  lemma {:induction false} EncodeIsBarePadded(bs: seq<Byte>)
    ensures Encode(bs) == Bare(bs) + PaddingOf(|bs|)
  {
    hide One, Two, Three;
    if |bs| >= 3 {
      EncodeIsBarePadded(bs[3..]);
      SamePadding(|bs| - 3);
      Grouped(Three(bs[0], bs[1], bs[2]), Bare(bs[3..]), PaddingOf(|bs|));
    }
  }

  lemma {:induction false} BareEnds(bs: seq<Byte>)
    ensures bs != [] ==> EndsBare(Bare(bs))
  {
    hide One, Two, Three, EndsBare;
    if |bs| >= 1 {
      GroupsEndBare(bs[0], if |bs| > 1 then bs[1] else 0, if |bs| > 2 then bs[2] else 0);
    }
    if |bs| >= 3 {
      BareEnds(bs[3..]);
      EndsAppend(Three(bs[0], bs[1], bs[2]), Bare(bs[3..]));
    }
  }

  lemma EndsAppend(a: string, b: string)
    requires EndsBare(a) && (b == "" || EndsBare(b))
    ensures EndsBare(a + b)
  {
  }

  lemma SamePadding(n: nat)
    ensures PaddingOf(n + 3) == PaddingOf(n)
  {
  }

  lemma Grouped(a: string, b: string, c: string)
    ensures a + (b + c) == a + b + c
  {
  }

  lemma StripIsBare(bs: seq<Byte>)
    ensures StripPadding(Encode(bs)) == Bare(bs)
  {
    hide Encode, Bare, StripPadding;
    EncodeIsBarePadded(bs);
    BareEnds(bs);
    if bs == [] {
      EmptyText();
    } else {
      StripAppend("", Bare(bs));
      assert "" + Bare(bs) == Bare(bs) && Bare(bs) + "" == Bare(bs);
    }
  }

  lemma EmptyText()
    ensures Encode([]) == "" && Bare([]) == "" && StripPadding("") == ""
  {
  }

  lemma OneDecodes(x: Byte)
    ensures DecodeFrom(Bare([x]) + "==", 0, 0, 0) == Some([x])
  {
    hide CharOf, DecodeFrom;
    var a, b := x / 4, x % 4 * 16;
    assert Bare([x]) + "==" == [CharOf(a)] + ([CharOf(b)] + "==");
    Char(a, [CharOf(b)] + "==", 0, 0, 0);
    Char(b, "==", 1, a, 0);
    Padding(b % 16);
    assert a * 4 + b / 16 == x;
    assert [x] + [] == [x];
  }

  lemma TwoDecode(x: Byte, y: Byte)
    ensures DecodeFrom(Bare([x, y]) + "==", 0, 0, 0) == Some([x, y])
  {
    hide CharOf, DecodeFrom;
    var a, b, c := x / 4, x % 4 * 16 + y / 16, y % 16 * 4;
    assert Bare([x, y]) + "==" == [CharOf(a)] + ([CharOf(b)] + ([CharOf(c)] + "=="));
    Char(a, [CharOf(b)] + ([CharOf(c)] + "=="), 0, 0, 0);
    Char(b, [CharOf(c)] + "==", 1, a, 0);
    Char(c, "==", 2, b % 16, 0);
    Padding(c % 4);
    SplitTwo(x, y);
    assert [x] + ([y] + []) == [x, y];
  }

  lemma GroupDecodes(x: Byte, y: Byte, z: Byte, rest: string)
    ensures DecodeFrom(Three(x, y, z) + rest, 0, 0, 0)
            == Emit(x, Emit(y, Emit(z, DecodeFrom(rest, 0, 0, 0))))
  {
    hide CharOf, DecodeFrom, Emit;
    var a, b, c, d := x / 4, x % 4 * 16 + y / 16, y % 16 * 4 + z / 64, z % 64;
    assert Three(x, y, z) + rest
        == [CharOf(a)] + ([CharOf(b)] + ([CharOf(c)] + ([CharOf(d)] + rest)));
    Char(a, [CharOf(b)] + ([CharOf(c)] + ([CharOf(d)] + rest)), 0, 0, 0);
    Char(b, [CharOf(c)] + ([CharOf(d)] + rest), 1, a, 0);
    Char(c, [CharOf(d)] + rest, 2, b % 16, 0);
    Char(d, rest, 3, c % 4, 0);
    SplitTwo(x, y);
    SplitThree(y, z);
  }

  lemma {:induction false} BareDecodes(bs: seq<Byte>)
    ensures DecodeFrom(Bare(bs) + "==", 0, 0, 0) == Some(bs)
  {
    hide One, Two, Three, DecodeFrom;
    if bs == [] {
      Padding(0);
      assert "" + "==" == "==";
    } else if |bs| == 1 {
      OneDecodes(bs[0]);
      assert bs == [bs[0]];
    } else if |bs| == 2 {
      TwoDecode(bs[0], bs[1]);
      assert bs == [bs[0], bs[1]];
    } else {
      var rest := Bare(bs[3..]) + "==";
      GroupDecodes(bs[0], bs[1], bs[2], rest);
      Grouped(Three(bs[0], bs[1], bs[2]), Bare(bs[3..]), "==");
      BareDecodes(bs[3..]);
      FirstThree(bs);
    }
  }

  lemma FirstThree(bs: seq<Byte>)
    requires |bs| >= 3
    ensures [bs[0]] + ([bs[1]] + ([bs[2]] + bs[3..])) == bs
  {
  }

  // The bits of a byte, divided between two characters, come together again.

  lemma SplitTwo(x: Byte, y: Byte)
    ensures x / 4 * 4 + (x % 4 * 16 + y / 16) / 16 == x
    ensures (x % 4 * 16 + y / 16) % 16 == y / 16 && y / 16 * 16 + (y % 16 * 4) / 4 == y
  {
  }

  lemma SplitThree(y: Byte, z: Byte)
    ensures y / 16 * 16 + (y % 16 * 4 + z / 64) / 4 == y
    ensures (y % 16 * 4 + z / 64) % 4 == z / 64 && z / 64 * 64 + z % 64 == z
  {
  }

  /** Text written with its padding stripped reads back, after "==" is appended, as the bytes written,
      whatever their number modulo three. */
  lemma TextRoundTrip(bs: seq<Byte>)
    ensures Decode(StripPadding(Encode(bs)) + "==") == Some(bs)
  {
    StripIsBare(bs);
    BareDecodes(bs);
  }
}

/** Integers as base64url text (Base64urlUInt, RFC 7518 section 2). */
module KeyEncoding {
  import opened Positional
  import opened Base64Url

  // ---- minimal big-endian bytes ----

  /** int.bit_length. */
  function BitLength(n: nat): nat {
    if n == 0 then 0 else 1 + BitLength(n / 2)
  }

  /** n.to_bytes((n.bit_length() + 7) // 8, 'big'). */
  function MinimalBytes(n: nat): (bs: seq<Byte>) {
    DigitsAreBytes(n, (BitLength(n) + 7) / 8);
    Reverse(Digits(256, n, (BitLength(n) + 7) / 8))
  }

  lemma DigitsAreBytes(n: nat, k: nat)
    ensures forall i :: 0 <= i < k ==> Digits(256, n, k)[i] < 256
  {
    DigitsValue(256, n, k);
  }

  lemma {:induction false} BitLengthBounds(n: nat)
    ensures n < Pow(2, BitLength(n))
    ensures n > 0 ==> Pow(2, BitLength(n) - 1) <= n
  {
    if n > 0 {
      BitLengthBounds(n / 2);
    }
  }

  lemma BytesSuffice(n: nat)
    ensures n < Pow(256, (BitLength(n) + 7) / 8)
  {
    hide Pow;
    var k := (BitLength(n) + 7) / 8;
    BitLengthBounds(n);
    PowMono(2, BitLength(n), 8 * k);
    PowPow(2, 8, k);
    TwoToTheEighth();
  }

  lemma TwoToTheEighth()
    ensures Pow(2, 8) == 256
  {
    assert Pow(2, 4) == 16;
  }

  /** The bytes spell the integer. */
  lemma MinimalBytesValue(n: nat)
    ensures BigValue(256, MinimalBytes(n)) == n
  {
    hide Pow, Digits, BigValue, Value;
    var k := (BitLength(n) + 7) / 8;
    BytesSuffice(n);
    BigIsReversed(256, Digits(256, n, k));
    DigitsValue(256, n, k);
    DivModUnique(n, Pow(256, k), 0, n);
  }

  /** No byte string is shorter than the bytes written for the integer it spells, as RFC 7518 requires. */
  lemma MinimalBytesShortest(bs: seq<Byte>)
    ensures |MinimalBytes(BigValue(256, bs))| <= |bs|
  {
    hide Pow, BigValue, BitLength, Digits;
    var n := BigValue(256, bs);
    BytesBound(bs);
    if |bs| < |MinimalBytes(n)| {
      LongNeeded(n, |bs|);
    }
  }

  lemma BytesBound(bs: seq<Byte>)
    ensures BigValue(256, bs) < Pow(256, |bs|)
  {
    hide Pow;
    var ds: seq<nat> := bs;
    BigIsReversed(256, ds);
    ValueBound(256, Reverse(ds));
  }

  lemma LongNeeded(n: nat, k: nat)
    requires k < (BitLength(n) + 7) / 8
    ensures Pow(256, k) <= n
  {
    hide Pow;
    BitLengthBounds(n);
    PowMono(2, 8 * k, BitLength(n) - 1);
    PowPow(2, 8, k);
    TwoToTheEighth();
  }

  // ---- the integer as text ----

  function EncodeUint(n: nat): string {
    StripPadding(Encode(MinimalBytes(n)))
  }

  function DecodeUint(s: string): Option<nat> {
    match Decode(s + "==")
    case None => None
    case Some(bs) => Some(BigValue(256, bs))
  }

  /** An integer written into a key as text is read back from it, for every length of its bytes modulo
      three. */
  lemma UintRoundTrip(n: nat)
    ensures DecodeUint(EncodeUint(n)) == Some(n)
  {
    TextRoundTrip(MinimalBytes(n));
    MinimalBytesValue(n);
  }
}

/** The two providers: a cached key set, and verification that refreshes it at most once. */
module Provider {
  import opened Base64Url
  import opened KeyEncoding
  import opened KeyLimbs

  /** The two numbers of a key, as text. */
  datatype Jwk = Jwk(n: string, e: string)

  /** The submitted document: not parsable, or a value found under 'modulus'. */
  datatype Input = Malformed | Modulus(value: Json)

  datatype Json = Strings(items: seq<string>) | OtherJson

  datatype Verdict = Answer(ok: bool) | Raised

  /** The RSA library's own checks on a pair (e, n) are a parameter. */
  type KeyCheck = (nat, nat) -> bool

  /** The modulus of a key, or an exception: text that does not decode, or numbers the library
      refuses. */
  function KeyModulus(check: KeyCheck, key: Jwk): Option<nat> {
    match (DecodeUint(key.n), DecodeUint(key.e))
    case (Some(n), Some(e)) => if check(e, n) then Some(n) else None
    case _ => None
  }

  /** Scanning the keys in order: the first one that raises or matches decides. */
  function Scan(check: KeyCheck, keys: seq<Jwk>, value: Json, n: nat, k: nat): Verdict {
    if keys == [] then Answer(false)
    else match KeyModulus(check, keys[0])
         case None => Raised
         case Some(m) =>
           if value == Strings(Limbs(m, n, k)) then Answer(true)
           else Scan(check, keys[1..], value, n, k)
  }

  function Check(check: KeyCheck, jwks: Option<seq<Jwk>>, input: Input, n: nat, k: nat): Verdict {
    match input
    case Malformed => Answer(false)
    case Modulus(value) => if jwks.None? then Raised else Scan(check, jwks.value, value, n, k)
  }

  /** What a refresh yields: a key set, or an exception that leaves the cached one alone. */
  datatype Refresh = Fetched(keys: seq<Jwk>) | FetchFailed

  /** The refresh is made, and decides, only when the cached keys answer False. */
  function VerifyVerdict(
    check: KeyCheck, jwks: Option<seq<Jwk>>, input: Input, refresh: Refresh, n: nat, k: nat): Verdict
  {
    var first := Check(check, jwks, input, n, k);
    if first != Answer(false) then first
    else match refresh
         case FetchFailed => Raised
         case Fetched(keys) => Check(check, Some(keys), input, n, k)
  }

  class Provider {
    const check: KeyCheck
    const n: nat
    const k: nat
    var jwks: Option<seq<Jwk>>

    constructor (check: KeyCheck, n: nat, k: nat)
      ensures jwks.None? && this.check == check && this.n == n && this.k == k
    {
      this.check, this.n, this.k := check, n, k;
      jwks := None;
    }

    method CheckOnce(input: Input) returns (r: Verdict)
      ensures r == Check(check, jwks, input, n, k)
    {
      if input.Malformed? {
        return Answer(false);
      }
      if jwks.None? {
        return Raised;
      }
      var keys, i := jwks.value, 0;
      while i < |keys|
        invariant 0 <= i <= |keys|
        invariant Scan(check, keys, input.value, n, k) == Scan(check, keys[i..], input.value, n, k)
      {
        var modulus := KeyModulus(check, keys[i]);
        if modulus.None? {
          return Raised;
        }
        var limbs := ToCircomBigintBytes(modulus.value, n, k);
        if input.value == Strings(limbs) {
          return Answer(true);
        }
        assert keys[i..][1..] == keys[i + 1..];
        i := i + 1;
      }
      return Answer(false);
    }

    /** Checks against the cached keys and, only when they answer False, once more after a refresh. */
    method Verify(input: Input, refresh: Refresh) returns (r: Verdict)
      modifies this`jwks
      ensures r == VerifyVerdict(check, old(jwks), input, refresh, n, k)
      ensures jwks == if Check(check, old(jwks), input, n, k) == Answer(false) && refresh.Fetched?
                      then Some(refresh.keys) else old(jwks)
    {
      r := CheckOnce(input);
      if r != Answer(false) {
        return;
      }
      match refresh {
        case FetchFailed => return Raised;
        case Fetched(keys) => jwks := Some(keys);
      }
      r := CheckOnce(input);
    }
  }

  // ---- what an answer means ----

  ghost predicate AllDecode(check: KeyCheck, keys: seq<Jwk>) {
    forall key :: key in keys ==> KeyModulus(check, key).Some?
  }

  ghost predicate ListedModulus(check: KeyCheck, keys: seq<Jwk>, value: Json, n: nat, k: nat) {
    exists key :: key in keys && Matches(check, key, value, n, k)
  }

  ghost predicate Matches(check: KeyCheck, key: Jwk, value: Json, n: nat, k: nat) {
    KeyModulus(check, key).Some? && value == Strings(Limbs(KeyModulus(check, key).value, n, k))
  }

  /** A key that matches, and none before it that does not decode. */
  ghost predicate FirstMatches(check: KeyCheck, keys: seq<Jwk>, value: Json, n: nat, k: nat) {
    exists i :: 0 <= i < |keys| && MatchesAt(check, keys, i, value, n, k)
  }

  ghost predicate MatchesAt(check: KeyCheck, keys: seq<Jwk>, i: nat, value: Json, n: nat, k: nat)
    requires i < |keys|
  {
    Matches(check, keys[i], value, n, k) && forall j :: 0 <= j < i ==> KeyModulus(check, keys[j]).Some?
  }

  /** What the scan answers for any key set: True exactly when a key matches before any that does not
      decode, False exactly when all decode and none matches. */
  lemma {:induction false} ScanFinds(check: KeyCheck, keys: seq<Jwk>, value: Json, n: nat, k: nat)
    ensures Scan(check, keys, value, n, k) == Answer(true) <==> FirstMatches(check, keys, value, n, k)
    ensures Scan(check, keys, value, n, k) == Answer(false)
            <==> AllDecode(check, keys) && !ListedModulus(check, keys, value, n, k)
    ensures AllDecode(check, keys)
            ==> Scan(check, keys, value, n, k) == Answer(ListedModulus(check, keys, value, n, k))
  {
    hide KeyModulus, Limbs;
    if keys != [] {
      assert keys[0] in keys;
      assert forall key :: key in keys <==> key == keys[0] || key in keys[1..];
      ScanFinds(check, keys[1..], value, n, k);
      FirstOrLater(check, keys, value, n, k);
    }
  }

  lemma FirstOrLater(check: KeyCheck, keys: seq<Jwk>, value: Json, n: nat, k: nat)
    requires keys != []
    ensures FirstMatches(check, keys, value, n, k)
            <==> KeyModulus(check, keys[0]).Some?
                 && (Matches(check, keys[0], value, n, k) || FirstMatches(check, keys[1..], value, n, k))
  {
    hide KeyModulus, Limbs;
    if FirstMatches(check, keys, value, n, k) {
      var i :| 0 <= i < |keys| && MatchesAt(check, keys, i, value, n, k);
      if i > 0 {
        assert MatchesAt(check, keys[1..], i - 1, value, n, k);
      }
    }
    if Matches(check, keys[0], value, n, k) {
      assert MatchesAt(check, keys, 0, value, n, k);
    }
    if KeyModulus(check, keys[0]).Some? && FirstMatches(check, keys[1..], value, n, k) {
      var i :| 0 <= i < |keys[1..]| && MatchesAt(check, keys[1..], i, value, n, k);
      assert forall j :: 0 < j < i + 1 ==> keys[j] == keys[1..][j - 1];
      assert MatchesAt(check, keys, i + 1, value, n, k);
    }
  }

  /** Any submitted list is accepted exactly when a cached key matches it before any that does not
      decode, or when the cached keys all decode without a match and the same holds of the fetched keys;
      refused exactly when all of both decode and none matches; and raises otherwise. A document that
      does not parse is refused, once the refresh is made.
      Where every key decodes, that is whether the list is that of a modulus in either set. */
  lemma VerifyListed(
    check: KeyCheck, jwks: Option<seq<Jwk>>, refresh: Refresh, value: Json, n: nat, k: nat)
    ensures VerifyVerdict(check, jwks, Modulus(value), refresh, n, k) == Answer(true)
            <==> && jwks.Some?
                 && (|| FirstMatches(check, jwks.value, value, n, k)
                     || (&& AllDecode(check, jwks.value) && !ListedModulus(check, jwks.value, value, n, k)
                         && refresh.Fetched? && FirstMatches(check, refresh.keys, value, n, k)))
    ensures VerifyVerdict(check, jwks, Modulus(value), refresh, n, k) == Answer(false)
            <==> && jwks.Some? && AllDecode(check, jwks.value) && !ListedModulus(check, jwks.value, value, n, k)
                 && refresh.Fetched?
                 && AllDecode(check, refresh.keys) && !ListedModulus(check, refresh.keys, value, n, k)
    ensures VerifyVerdict(check, jwks, Malformed, refresh, n, k)
            == if refresh.Fetched? then Answer(false) else Raised
    ensures jwks.Some? && refresh.Fetched? && AllDecode(check, jwks.value) && AllDecode(check, refresh.keys)
            ==> VerifyVerdict(check, jwks, Modulus(value), refresh, n, k)
                == Answer(ListedModulus(check, jwks.value, value, n, k)
                          || ListedModulus(check, refresh.keys, value, n, k))
  {
    hide AllDecode, ListedModulus, FirstMatches, Scan;
    if jwks.Some? {
      ScanFinds(check, jwks.value, value, n, k);
    }
    if refresh.Fetched? {
      ScanFinds(check, refresh.keys, value, n, k);
    }
  }
}
