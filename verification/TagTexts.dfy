/** What a tag written by hand says, in terms of the text alone. */
module TagTexts {
  import opened Term
  import opened Tags

  /** Unicode's white space, by code point. */
  predicate Blank(c: char) {
    var n := c as int;
    || 9 <= n <= 13 || n == 0x20 || n == 0x85 || n == 0xA0 || n == 0x1680 || 0x2000 <= n <= 0x200A
    || n == 0x2028 || n == 0x2029 || n == 0x202F || n == 0x205F || n == 0x3000
  }

  predicate AllBlank(s: string) {
    forall i :: 0 <= i < |s| ==> Blank(s[i])
  }

  predicate NoCommas(s: string) {
    forall i :: 0 <= i < |s| ==> s[i] != ','
  }

  /** A word with white space on either side. */
  ghost predicate Padded(s: string, word: string) {
    exists a, b :: PaddedBy(s, word, a, b)
  }

  ghost predicate PaddedBy(s: string, word: string, a: string, b: string) {
    s == a + word + b && AllBlank(a) && AllBlank(b)
  }

  /** A name, and options that follow it after commas. */
  function Written(name: string, options: seq<string>): string {
    if options == [] then name else name + "," + Listed(options)
  }

  ghost predicate HasOption(options: seq<string>, word: string) {
    exists i :: 0 <= i < |options| && Padded(options[i], word)
  }

  /** Nothing but white space follows the name. */
  predicate NoOption(options: seq<string>) {
    options == [] || (|options| == 1 && AllBlank(options[0]))
  }

  /** A character of a name: printable ASCII other than quotes, comma, semicolon and backslash, or any
      other letter or digit. */
  predicate NameChar(c: char) {
    || (0x20 <= c as int <= 0x7E && c != '"' && c != '\'' && c != '`' && c != ',' && c != ';' && c != '\\')
    || OtherLetterOrDigit(c)
  }

  /** A name that a variable may go by. */
  predicate ValidName(s: string) {
    s != "" && forall i :: 0 <= i < |s| ==> NameChar(s[i])
  }

  /** The options of a tag in one text, as they follow the first comma. */
  function Listed(options: seq<string>): string
    requires options != []
  {
    if |options| == 1 then options[0] else options[0] + "," + Listed(options[1..])
  }

  // ---- trimming ----

  lemma BlankIsSpace(c: char)
    ensures Blank(c) <==> IsSpace(c)
  {
  }

  lemma {:induction false} TrimLeftBlank(a: string, s: string)
    requires AllBlank(a)
    ensures TrimLeft(a + s) == TrimLeft(s)
  {
    hide Blank, IsSpace;
    if a == "" {
      assert a + s == s;
    } else {
      BlankIsSpace(a[0]);
      TrimLeftBlank(a[1..], s);
      assert (a + s)[1..] == a[1..] + s;
    }
  }

  lemma {:induction false} TrimRightBlank(s: string, b: string)
    requires AllBlank(b)
    ensures TrimRight(s + b) == TrimRight(s)
  {
    hide Blank, IsSpace;
    if b == "" {
      assert s + b == s;
    } else {
      BlankIsSpace(b[|b| - 1]);
      TrimRightBlank(s, b[..|b| - 1]);
      assert (s + b)[..|s + b| - 1] == s + b[..|b| - 1];
    }
  }

  /** What trimming takes away is blank. */
  lemma {:induction false} TrimLeftRest(s: string) returns (a: string)
    ensures AllBlank(a) && s == a + TrimLeft(s)
    ensures TrimLeft(s) != "" ==> !Blank(TrimLeft(s)[0])
  {
    hide Blank, IsSpace;
    a := "";
    if s != "" {
      BlankIsSpace(s[0]);
      if IsSpace(s[0]) {
        var rest := TrimLeftRest(s[1..]);
        a := [s[0]] + rest;
        assert s == [s[0]] + s[1..];
      }
    }
  }

  lemma {:induction false} TrimRightRest(s: string) returns (b: string)
    ensures AllBlank(b) && s == TrimRight(s) + b
  {
    hide Blank, IsSpace;
    b := "";
    if s != "" {
      BlankIsSpace(s[|s| - 1]);
      if IsSpace(s[|s| - 1]) {
        var rest := TrimRightRest(s[..|s| - 1]);
        b := rest + [s[|s| - 1]];
        assert s == s[..|s| - 1] + [s[|s| - 1]];
      }
    }
  }

  /** A text trims to a word with solid ends exactly when it is the word, padded. */
  lemma TrimIff(s: string, word: string)
    requires word != "" && !Blank(word[0]) && !Blank(word[|word| - 1])
    ensures TrimSpace(s) == word <==> Padded(s, word)
  {
    hide Blank, IsSpace, TrimLeft, TrimRight;
    if TrimSpace(s) == word {
      var a := TrimLeftRest(s);
      var b := TrimRightRest(TrimLeft(s));
      assert s == a + (word + b) == a + word + b;
      assert PaddedBy(s, word, a, b);
    }
    if Padded(s, word) {
      var a, b :| PaddedBy(s, word, a, b);
      assert s == a + (word + b);
      TrimLeftBlank(a, word + b);
      SolidEnds(word, b);
      TrimRightBlank(word, b);
    }
  }

  lemma SolidEnds(word: string, b: string)
    requires word != "" && !Blank(word[0]) && !Blank(word[|word| - 1])
    ensures TrimLeft(word + b) == word + b && TrimRight(word) == word
  {
    BlankIsSpace(word[0]);
    BlankIsSpace(word[|word| - 1]);
  }

  lemma TrimEmptyIff(s: string)
    ensures TrimSpace(s) == "" <==> AllBlank(s)
  {
    hide Blank, IsSpace;
    if AllBlank(s) {
      TrimLeftBlank(s, "");
      assert s + "" == s;
    }
    if TrimSpace(s) == "" {
      var a := TrimLeftRest(s);
      var b := TrimRightRest(TrimLeft(s));
    }
  }

  lemma TrimTwice(a: string, s: string, b: string)
    requires AllBlank(a) && AllBlank(b)
    ensures TrimSpace(a + s + b) == TrimSpace(s)
  {
    hide Blank, IsSpace, TrimLeft, TrimRight;
    assert a + s + b == a + (s + b);
    TrimLeftBlank(a, s + b);
    var c := TrimLeftRest(s);
    var t := TrimLeft(s);
    assert s + b == c + (t + b);
    TrimLeftBlank(c, t + b);
    if t == "" {
      assert t + b == b;
      TrimLeftBlank(b, "");
      assert b + "" == b;
      EmptyTrims();
    } else {
      SolidStart(t, b);
      TrimRightBlank(t, b);
    }
  }

  lemma SolidStart(t: string, b: string)
    requires t != "" && !Blank(t[0])
    ensures TrimLeft(t + b) == t + b
  {
    BlankIsSpace(t[0]);
  }

  lemma EmptyTrims()
    ensures TrimLeft("") == "" && TrimRight("") == ""
  {
  }

  // ---- the list of options ----

  lemma {:induction false} CommaOf(first: string, rest: string)
    requires NoCommas(first)
    ensures IndexOfComma(first + "," + rest) == |first|
    ensures (first + "," + rest)[..|first|] == first && (first + "," + rest)[|first| + 1..] == rest
  {
    var s := first + "," + rest;
    assert s[|first|] == ',';
    assert forall j :: 0 <= j < |first| ==> s[j] == first[j] != ',';
  }

  /** An option is found exactly when some item of the list trims to it. */
  lemma {:induction false} ItemIff(options: seq<string>, word: string)
    requires options != [] && forall i :: 0 <= i < |options| ==> NoCommas(options[i])
    ensures ContainsItem(Listed(options), word)
            <==> exists i :: 0 <= i < |options| && TrimSpace(options[i]) == word
    decreases |options|
  {
    hide TrimSpace, NoCommas;
    if |options| == 1 {
      NoCommaAlone(options[0]);
      assert options[0][..|options[0]|] == options[0];
    } else {
      CommaOf(options[0], Listed(options[1..]));
      ItemIff(options[1..], word);
      assert forall i :: 0 < i < |options| ==> options[i] == options[1..][i - 1];
    }
  }

  lemma NoCommaAlone(s: string)
    requires NoCommas(s)
    ensures IndexOfComma(s) == |s|
  {
  }

  lemma BlankNoCommas(a: string)
    requires AllBlank(a)
    ensures NoCommas(a)
  {
  }

  lemma {:induction false} CommaAfterBlanks(a: string, t: string)
    requires NoCommas(a)
    ensures IndexOfComma(a + t) == |a| + IndexOfComma(t)
  {
    var s, i := a + t, IndexOfComma(t);
    assert forall j :: 0 <= j < |a| ==> s[j] == a[j] != ',';
    assert forall j :: |a| <= j < |s| ==> s[j] == t[j - |a|];
    assert i < |t| ==> s[|a| + i] == ',';
  }

  lemma PaddedLeft(a: string, t: string, word: string)
    requires AllBlank(a)
    ensures ContainsItem(a + t, word) <==> ContainsItem(t, word)
  {
    hide Blank, TrimSpace;
    BlankNoCommas(a);
    CommaAfterBlanks(a, t);
    var i := IndexOfComma(t);
    assert (a + t)[..|a| + i] == a + t[..i] + "";
    TrimTwice(a, t[..i], "");
    if i < |t| {
      assert (a + t)[|a| + i + 1..] == t[i + 1..];
    }
  }

  lemma {:induction false} PaddedRight(t: string, b: string, word: string)
    requires AllBlank(b)
    ensures ContainsItem(t + b, word) <==> ContainsItem(t, word)
    decreases |t|
  {
    hide Blank, TrimSpace;
    var i := IndexOfComma(t);
    if i < |t| {
      assert t == t[..i] + "," + t[i + 1..];
      CommaOf(t[..i], t[i + 1..] + b);
      assert t + b == t[..i] + "," + (t[i + 1..] + b);
      PaddedRight(t[i + 1..], b, word);
    } else {
      BlankNoCommas(b);
      NoCommaAlone(t + b);
      assert (t + b)[..|t + b|] == "" + t + b && t[..i] == t;
      TrimTwice("", t, b);
    }
  }

  /** Trimming a list takes nothing from its items but blanks. */
  lemma TrimmedList(s: string, word: string)
    ensures ContainsItem(TrimSpace(s), word) <==> ContainsItem(s, word)
  {
    hide Blank, ContainsItem, TrimLeft, TrimRight;
    var a := TrimLeftRest(s);
    var b := TrimRightRest(TrimLeft(s));
    PaddedLeft(a, TrimLeft(s), word);
    PaddedRight(TrimSpace(s), b, word);
  }

  lemma OptionIff(options: seq<string>, word: string)
    requires options != [] && forall i :: 0 <= i < |options| ==> NoCommas(options[i])
    requires word in {"secret", "public"}
    ensures ContainsItem(Listed(options), word) <==> HasOption(options, word)
  {
    hide Listed, ContainsItem, TrimSpace, Padded, Blank;
    ItemIff(options, word);
    SolidWords();
    forall i | 0 <= i < |options|
      ensures TrimSpace(options[i]) == word <==> Padded(options[i], word)
    {
      TrimIff(options[i], word);
    }
  }

  lemma SolidWords()
    ensures !Blank("secret"[0]) && !Blank("secret"[5]) && !Blank("public"[0]) && !Blank("public"[5])
  {
  }

  lemma {:induction false} BlankListIff(options: seq<string>)
    requires options != []
    ensures AllBlank(Listed(options)) <==> NoOption(options)
  {
    if |options| > 1 {
      var s := Listed(options);
      assert s[|options[0]|] == ',';
    }
  }

  lemma NameCharIff(c: char)
    ensures NameChar(c) <==> IsNameChar(c)
  {
  }

  lemma ValidIff(name: string)
    ensures ValidName(name) <==> IsValidTag(name)
  {
    hide NameChar, IsNameChar;
    forall i | 0 <= i < |name|
      ensures NameChar(name[i]) <==> IsNameChar(name[i])
    {
      NameCharIff(name[i]);
    }
  }

  /** Every tag is a name, and options that follow it after commas. */
  lemma {:induction false} TagSplits(tag: string) returns (name: string, options: seq<string>)
    ensures NoCommas(name) && (forall i :: 0 <= i < |options| ==> NoCommas(options[i]))
    ensures tag == Written(name, options)
    decreases |tag|
  {
    var i := IndexOfComma(tag);
    name, options := tag[..i], [];
    if i < |tag| {
      var first, others := TagSplits(tag[i + 1..]);
      options := [first] + others;
      assert options[1..] == others;
      assert tag == tag[..i] + "," + tag[i + 1..];
    } else {
      assert tag[..i] == tag;
    }
  }

  /** What a tag says. Without one, or with an empty one, nothing; "-" leaves the field out. Any other is
      Secret when nothing but white space follows the name or an option is `secret`, Public when none is
      but one is `public`, and an error otherwise; the name is taken exactly when it is valid. */
  lemma TagReads(name: string, options: seq<string>)
    requires NoCommas(name) && forall i :: 0 <= i < |options| ==> NoCommas(options[i])
    ensures ReadTag(None) == Info("", Unset)
    ensures var tag, taken := Written(name, options), if ValidName(name) then name else "";
            ReadTag(Some(tag))
            == if tag == "" then Info("", Unset)
               else if tag == "-" then Skipped
               else if NoOption(options) || HasOption(options, "secret") then Info(taken, Secret)
               else if HasOption(options, "public") then Info(taken, Public)
               else BadOption
  {
    hide Listed, ContainsItem, TrimSpace, HasOption, ValidName, IsValidTag, AllBlank, NoCommas;
    var tag := Written(name, options);
    ValidIff(name);
    if options == [] {
      NoCommaAlone(tag);
      EmptyRest();
    } else {
      var rest := Listed(options);
      CommaOf(name, rest);
      TrimEmptyIff(rest);
      BlankListIff(options);
      TrimmedList(rest, "secret");
      TrimmedList(rest, "public");
      OptionIff(options, "secret");
      OptionIff(options, "public");
      assert |tag| > |name|;
      assert tag[|name|] == ',';
      assert tag != "-";
    }
  }

  lemma EmptyRest()
    ensures TrimSpace("") == ""
  {
  }

  // ---- the tags of a generated field ----

  /** What the two tags of a generated field say: the gnark tag is missing where there is nothing to say,
      the JSON tag where there is neither a name nor an omission to ask for. */
  lemma PrintedTags(nameTag: string, v: Visibility, omitEmpty: bool)
    ensures var tags := StructTag(nameTag, v, omitEmpty);
            && (tags.gnark.None? <==> nameTag == "" && v == Unset)
            && (tags.json.None? <==> nameTag == "" && (v == Unset || !omitEmpty))
            && (tags.gnark.Some?
                ==> tags.gnark.value == Written(nameTag, if v == Unset then [] else [VisibilityText(v)]))
            && (tags.json.Some? ==> tags.json.value == Written(nameTag, if omitEmpty then ["omitempty"] else []))
  {
    assert ",omitempty" == "," + "omitempty";
    assert nameTag + "," + "omitempty" == nameTag + ",omitempty";
    assert "" + "," == ",";
  }
}
