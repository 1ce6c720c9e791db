/** What any text says to the lenient base64url reader (modules/oauth_provider/x509_google/main.py), strays
    and misplaced padding included. */
module Base64Texts {
  import opened Positional
  import opened Base64Url

  /** A character of either alphabet stands for its place in it: the reader takes both pairs of signs. */
  lemma SextetIs(c: char, v: nat)
    ensures SextetOf(c) == Some(v)
            <==> && v < 64
                 && (c == CharOf(v) || (c == '+' && v == 62) || (c == '/' && v == 63))
  {
  }

  /** The six-bit numbers of a text, its other characters skipped. */
  function Letters(s: string): (vs: seq<nat>)
    ensures AreDigits(64, vs)
  {
    if s == "" then []
    else
      var v, front := SextetOf(s[|s| - 1]), Letters(s[..|s| - 1]);
      if v.Some? then front + [v.value] else front
  }

  /** An earlier padding character, with no letter since. */
  ghost predicate PadSince(s: string, i: nat)
    requires i <= |s|
  {
    exists j :: 0 <= j < i && s[j] == '=' && |Letters(s[..j])| == |Letters(s[..i])|
  }

  /** The padding character at `k` completes a group: the first one after three letters of it, the second
      after two. */
  ghost predicate Completes(s: string, k: nat)
    requires k < |s|
  {
    var n := |Letters(s[..k])| % 4;
    s[k] == '=' && (n == 3 || (n == 2 && PadSince(s, k)))
  }

  /** The bits of a group that are left over, as a factor: none, one letter's, four bits, two bits. */
  function Spare(n: nat): (w: nat)
    ensures w > 0
  {
    if n % 4 == 0 then 1 else if n % 4 == 1 then 64 else if n % 4 == 2 then 16 else 4
  }

  /** The bytes are the letters' bits from the first on, in eights, and `left` are the bits that remain. */
  ghost predicate SpeltBy(vs: seq<nat>, bs: seq<nat>, left: nat) {
    && |bs| == 6 * |vs| / 8 && AreDigits(256, bs)
    && left < Spare(|vs|) && BigValue(64, vs) == BigValue(256, bs) * Spare(|vs|) + left
  }

  /** The bytes that letters spell, incomplete eights dropped. */
  ghost predicate Spells(vs: seq<nat>, bs: seq<nat>) {
    exists left: nat :: SpeltBy(vs, bs, left)
  }

  // ---- one letter more ----

  lemma Appended(b: nat, ds: seq<nat>, d: nat)
    ensures BigValue(b, ds + [d]) == BigValue(b, ds) * b + d
  {
    assert (ds + [d])[..|ds|] == ds;
  }

  // The bits of the letters read, `a`, are the bytes written, `b`, and those left over; one letter more
  // completes a byte in three places of four.

  lemma SecondLetter(a: nat, b: nat, left: nat, v: nat)
    requires a == b * 64 + left && left < 64 && v < 64
    ensures left * 4 + v / 16 < 256 && a * 64 + v == (b * 256 + (left * 4 + v / 16)) * 16 + v % 16
  {
  }

  lemma ThirdLetter(a: nat, b: nat, left: nat, v: nat)
    requires a == b * 16 + left && left < 16 && v < 64
    ensures left * 16 + v / 4 < 256 && a * 64 + v == (b * 256 + (left * 16 + v / 4)) * 4 + v % 4
  {
  }

  lemma FourthLetter(a: nat, b: nat, left: nat, v: nat)
    requires a == b * 4 + left && left < 4 && v < 64
    ensures left * 64 + v < 256 && a * 64 + v == b * 256 + (left * 64 + v)
  {
  }

  lemma ByteWritten(vs: seq<nat>, v: nat, bs: seq<nat>, byte: nat, left: nat)
    requires |bs| + 1 == 6 * (|vs| + 1) / 8 && AreDigits(256, bs) && byte < 256 && left < Spare(|vs| + 1)
    requires BigValue(64, vs) * 64 + v == (BigValue(256, bs) * 256 + byte) * Spare(|vs| + 1) + left
    ensures SpeltBy(vs + [v], bs + [byte], left)
  {
    hide BigValue, Spare;
    Appended(64, vs, v);
    Appended(256, bs, byte);
  }

  lemma WholeBytes(n: nat, k: nat, r: nat)
    requires n == 4 * k + r && r <= 4
    ensures 6 * n / 8 == 3 * k + if r <= 1 then 0 else r - 1
  {
    DivModUnique(6 * n, 8, 3 * k + if r <= 1 then 0 else r - 1, if r == 0 then 0 else 8 - 2 * r);
  }

  lemma LettersInBytes(n: nat)
    ensures 6 * (n + 1) / 8 == 6 * n / 8 + if n % 4 == 0 then 0 else 1
    ensures n % 4 == 0 ==> Spare(n) == 1 && Spare(n + 1) == 64
    ensures n % 4 == 1 ==> Spare(n) == 64 && Spare(n + 1) == 16
    ensures n % 4 == 2 ==> Spare(n) == 16 && Spare(n + 1) == 4
    ensures n % 4 == 3 ==> Spare(n) == 4 && Spare(n + 1) == 1
  {
    WholeBytes(n, n / 4, n % 4);
    WholeBytes(n + 1, n / 4, n % 4 + 1);
  }

  /** What reading one more letter writes, and what it leaves. */
  lemma LetterSpelt(vs: seq<nat>, bs: seq<nat>, left: nat, v: nat)
    requires SpeltBy(vs, bs, left) && v < 64
    ensures |vs| % 4 == 0 ==> left == 0 && SpeltBy(vs + [v], bs, v)
    ensures |vs| % 4 == 1 ==> SpeltBy(vs + [v], bs + [left * 4 + v / 16], v % 16)
    ensures |vs| % 4 == 2 ==> SpeltBy(vs + [v], bs + [left * 16 + v / 4], v % 4)
    ensures |vs| % 4 == 3 ==> SpeltBy(vs + [v], bs + [left * 64 + v], 0)
  {
    hide BigValue, AreDigits, Spare;
    LettersInBytes(|vs|);
    var a, b := BigValue(64, vs), BigValue(256, bs);
    if |vs| % 4 == 0 {
      Appended(64, vs, v);
    } else if |vs| % 4 == 1 {
      SecondLetter(a, b, left, v);
      ByteWritten(vs, v, bs, left * 4 + v / 16, v % 16);
    } else if |vs| % 4 == 2 {
      ThirdLetter(a, b, left, v);
      ByteWritten(vs, v, bs, left * 16 + v / 4, v % 4);
    } else {
      FourthLetter(a, b, left, v);
      ByteWritten(vs, v, bs, left * 64 + v, 0);
    }
  }

  // ---- reading on ----

  lemma NextLetters(s: string, i: nat)
    requires i < |s|
    ensures Letters(s[..i + 1]) == Letters(s[..i]) + if SextetOf(s[i]).Some? then [SextetOf(s[i]).value] else []
  {
    assert s[..i + 1][..i] == s[..i];
  }

  lemma {:induction false} LettersGrow(s: string, j: nat, i: nat)
    requires j <= i <= |s|
    ensures |Letters(s[..j])| <= |Letters(s[..i])|
  {
    hide Letters;
    if j < i {
      LettersGrow(s, j, i - 1);
      NextLetters(s, i - 1);
    }
  }

  /** Whether there was padding since the last letter, one character further. */
  lemma PadStep(s: string, i: nat)
    requires i < |s|
    ensures SextetOf(s[i]).Some? ==> !PadSince(s, i + 1)
    ensures s[i] == '=' ==> PadSince(s, i + 1)
    ensures SextetOf(s[i]).None? && s[i] != '=' ==> (PadSince(s, i + 1) <==> PadSince(s, i))
  {
    hide Letters, SextetOf;
    NextLetters(s, i);
    forall j | 0 <= j <= i
      ensures |Letters(s[..j])| <= |Letters(s[..i])|
    {
      LettersGrow(s, j, i);
    }
    if s[i] == '=' {
      PadIsNoLetter();
      assert s[i] == '=' && |Letters(s[..i])| == |Letters(s[..i + 1])|;
    } else if SextetOf(s[i]).None? && PadSince(s, i) {
      var j :| 0 <= j < i && s[j] == '=' && |Letters(s[..j])| == |Letters(s[..i])|;
      assert s[j] == '=' && |Letters(s[..j])| == |Letters(s[..i + 1])|;
    }
  }

  lemma PadIsNoLetter()
    ensures SextetOf('=') == None
  {
  }

  /** The first padding character from `i` on that completes a group. */
  ghost predicate FirstCompleting(s: string, i: nat, k: nat) {
    i <= k < |s| && Completes(s, k) && forall j :: i <= j < k ==> !Completes(s, j)
  }

  /** The reader's answer on a text none of whose first `i` characters completes a group, `bs` being
      written already. */
  ghost predicate ReadsAs(s: string, i: nat, bs: seq<nat>, answer: Option<seq<nat>>)
    requires i <= |s|
  {
    && ((forall k :: i <= k < |s| ==> !Completes(s, k))
        ==> if |Letters(s)| % 4 != 0 then answer == None else answer.Some? && Spells(Letters(s), bs + answer.value))
    && (forall k: nat :: FirstCompleting(s, i, k) ==> answer.Some? && Spells(Letters(s[..k]), bs + answer.value))
  }

  lemma ReadsLater(s: string, i: nat, bs: seq<nat>, written: seq<nat>, rest: Option<seq<nat>>)
    requires i < |s| && !Completes(s, i) && ReadsAs(s, i + 1, bs + written, rest)
    ensures ReadsAs(s, i, bs, if rest.None? then None else Some(written + rest.value))
  {
    hide Completes, Letters, Spells;
    if rest.Some? {
      assert bs + written + rest.value == bs + (written + rest.value);
    }
    if forall k :: i <= k < |s| ==> !Completes(s, k) {
      assert forall k :: i + 1 <= k < |s| ==> !Completes(s, k);
    }
    forall k: nat | FirstCompleting(s, i, k)
      ensures rest.Some? && Spells(Letters(s[..k]), bs + (written + rest.value))
    {
      assert FirstCompleting(s, i + 1, k);
    }
  }

  lemma {:induction false} ReadOn(s: string, i: nat, bs: seq<nat>, left: nat, pads: nat)
    requires i <= |s| && SpeltBy(Letters(s[..i]), bs, left)
    requires |Letters(s[..i])| % 4 == 2 ==> (pads >= 1 <==> PadSince(s, i))
    ensures ReadsAs(s, i, bs, DecodeFrom(s[i..], |Letters(s[..i])| % 4, left, pads))
    decreases |s| - i
  {
    hide SpeltBy, Letters, PadSince, SextetOf, ReadsAs;
    var vs := Letters(s[..i]);
    if i == |s| {
      assert s[..i] == s;
      AtEnd(s, bs, left);
    } else {
      var c, rest := SextetOf(s[i]), s[i + 1..];
      assert s[i..][0] == s[i] && s[i..][1..] == rest;
      NextLetters(s, i);
      PadStep(s, i);
      PadIsNoLetter();
      if Completes(s, i) {
        Completed(s, i, bs, left);
      } else if c.None? {
        assert bs + [] == bs && vs + [] == vs;
        var pads' := if s[i] == '=' && |vs| % 4 == 2 then pads + 1 else pads;
        ReadOn(s, i + 1, bs, left, pads');
        NothingFirst(DecodeFrom(rest, |vs| % 4, left, pads'));
        ReadsLater(s, i, bs, [], DecodeFrom(rest, |vs| % 4, left, pads'));
      } else {
        var v := c.value;
        SextetIs(s[i], v);
        LetterSpelt(vs, bs, left, v);
        var written := if |vs| % 4 == 0 then []
                       else if |vs| % 4 == 1 then [left * 4 + v / 16]
                       else if |vs| % 4 == 2 then [left * 16 + v / 4] else [left * 64 + v];
        var left' := if |vs| % 4 == 0 then v else if |vs| % 4 == 1 then v % 16 else if |vs| % 4 == 2 then v % 4 else 0;
        assert bs + [] == bs;
        ReadOn(s, i + 1, bs + written, left', 0);
        NothingFirst(DecodeFrom(rest, (|vs| + 1) % 4, left', 0));
        ReadsLater(s, i, bs, written, DecodeFrom(rest, (|vs| + 1) % 4, left', 0));
      }
    }
  }

  lemma NothingFirst(answer: Option<seq<nat>>)
    ensures answer == if answer.None? then None else Some([] + answer.value)
  {
    assert answer.Some? ==> [] + answer.value == answer.value;
  }

  lemma AtEnd(s: string, bs: seq<nat>, left: nat)
    requires SpeltBy(Letters(s), bs, left)
    ensures ReadsAs(s, |s|, bs, if |Letters(s)| % 4 == 0 then Some([]) else None)
  {
    hide SpeltBy, Letters;
    assert bs + [] == bs;
  }

  lemma Completed(s: string, i: nat, bs: seq<nat>, left: nat)
    requires i < |s| && Completes(s, i) && SpeltBy(Letters(s[..i]), bs, left)
    ensures ReadsAs(s, i, bs, Some([]))
  {
    hide SpeltBy, Letters, Completes;
    assert bs + [] == bs;
  }

  /** What the reader makes of any text: the bytes spelled by the letters before the first padding
      character that completes a group, or by all letters when none does and they come in whole groups;
      otherwise it fails. */
  lemma DecodeReads(s: string)
    ensures (forall k :: 0 <= k < |s| ==> !Completes(s, k))
            ==> if |Letters(s)| % 4 != 0 then Decode(s) == None
                else Decode(s).Some? && Spells(Letters(s), Decode(s).value)
    ensures forall k: nat :: FirstCompleting(s, 0, k)
                             ==> Decode(s).Some? && Spells(Letters(s[..k]), Decode(s).value)
  {
    hide Completes, Spells, DecodeFrom;
    assert s[..0] == "" && s[0..] == s && Letters("") == [];
    assert SpeltBy([], [], 0);
    ReadOn(s, 0, [], 0, 0);
    assert Decode(s).Some? ==> [] + Decode(s).value == Decode(s).value;
  }

  /** Bytes are determined by the letters that spell them. */
  lemma SpelledOnce(vs: seq<nat>, bs: seq<nat>, cs: seq<nat>)
    requires Spells(vs, bs) && Spells(vs, cs)
    ensures bs == cs
  {
    hide BigValue;
    var x: nat :| SpeltBy(vs, bs, x);
    var y: nat :| SpeltBy(vs, cs, y);
    DivModUnique(BigValue(64, vs), Spare(|vs|), BigValue(256, bs), x);
    DivModUnique(BigValue(64, vs), Spare(|vs|), BigValue(256, cs), y);
    BigEndianUnique(bs, cs);
  }
}
