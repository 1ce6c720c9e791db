/** Struct-field tags of a circuit (lib/schema/tags.go). */
module Tags {
  import opened Term

  datatype Option<T> = None | Some(value: T)

  function IndexOfComma(s: string): (i: nat)
    ensures i <= |s|
    ensures i < |s| ==> s[i] == ','
    ensures forall j :: 0 <= j < i ==> s[j] != ','
  {
    if s == "" || s[0] == ',' then 0 else 1 + IndexOfComma(s[1..])
  }

  /** The name before the first comma, and the options after it. */
  function ParseTag(tag: string): (string, string) {
    var i := IndexOfComma(tag);
    if i < |tag| then (tag[..i], tag[i + 1..]) else (tag, "")
  }

  predicate IsSpace(c: char) {
    c in {' ', '\t', '\n', '\U{000B}', '\U{000C}', '\r', '\U{0085}', '\U{00A0}', '\U{1680}', '\U{2028}',
          '\U{2029}', '\U{202F}', '\U{205F}', '\U{3000}'}
    || '\U{2000}' <= c <= '\U{200A}'
  }

  function TrimLeft(s: string): string {
    if s != "" && IsSpace(s[0]) then TrimLeft(s[1..]) else s
  }

  function TrimRight(s: string): string {
    if s != "" && IsSpace(s[|s| - 1]) then TrimRight(s[..|s| - 1]) else s
  }

  function TrimSpace(s: string): string {
    TrimRight(TrimLeft(s))
  }

  /** Whether a comma-separated list has the option, give or take spaces. */
  predicate Contains(options: string, name: string)
    decreases |options|
  {
    options != "" && ContainsItem(options, name)
  }

  predicate ContainsItem(options: string, name: string)
    decreases |options|
  {
    var i := IndexOfComma(options);
    || TrimSpace(options[..i]) == name
    || (i < |options| && ContainsItem(options[i + 1..], name))
  }

  /** Unicode's letters and digits beyond ASCII; nothing here depends on which they are. */
  const OtherLetterOrDigit: char -> bool

  predicate IsNameChar(c: char) {
    || c in "!#$%&()*+-./:<=>?@[]^_{|}~ "
    || 'a' <= c <= 'z' || 'A' <= c <= 'Z' || '0' <= c <= '9'
    || OtherLetterOrDigit(c)
  }

  predicate IsValidTag(s: string) {
    s != "" && forall i :: 0 <= i < |s| ==> IsNameChar(s[i])
  }

  const OMIT := "-"

  /** What a field's gnark tag says: nothing to parse, a name (possibly empty) and a visibility, or an
      option that is neither public nor secret. */
  datatype TagInfo = Skipped | BadOption | Info(nameTag: string, visibility: Visibility)

  function ReadTag(tag: Option<string>): TagInfo {
    if tag == Some(OMIT) then Skipped
    else if tag.None? || tag.value == "" then Info("", Unset)
    else
      var (name, opts) := ParseTag(tag.value);
      var nameTag := if IsValidTag(name) then name else "";
      var opts := TrimSpace(opts);
      if opts == "" || Contains(opts, "secret") then Info(nameTag, Secret)
      else if Contains(opts, "public") then Info(nameTag, Public)
      else BadOption
  }

  function VisibilityText(v: Visibility): string {
    match v
    case Unset => "unset"
    case Internal => "internal"
    case Secret => "secret"
    case Public => "public"
    case Virtual => "virtual"
  }

  /** The tags of a generated struct field. */
  datatype GoTags = GoTags(gnark: Option<string>, json: Option<string>)

  function StructTag(nameTag: string, v: Visibility, omitEmpty: bool): GoTags {
    var suffix := if omitEmpty then ",omitempty" else "";
    if v == Unset then
      if nameTag != "" then GoTags(Some(nameTag), Some(nameTag + suffix)) else GoTags(None, None)
    else if nameTag == "" then
      GoTags(Some("," + VisibilityText(v)), if omitEmpty then Some(",omitempty") else None)
    else GoTags(Some(nameTag + "," + VisibilityText(v)), Some(nameTag + suffix))
  }

  /** A name that a tag can carry: empty, or valid and without a comma. */
  ghost predicate IsTagName(s: string) {
    s == "" || (IsValidTag(s) && forall i :: 0 <= i < |s| ==> s[i] != ',')
  }

  lemma ReadTagName(tag: Option<string>)
    requires ReadTag(tag).Info?
    ensures IsTagName(ReadTag(tag).nameTag)
    ensures ReadTag(tag).visibility in {Unset, Secret, Public}
    ensures ReadTag(tag).visibility == Unset ==> ReadTag(tag).nameTag == ""
  {
  }

  lemma PlainWord(s: string)
    requires s != "" && !IsSpace(s[0]) && !IsSpace(s[|s| - 1])
    requires forall i :: 0 <= i < |s| ==> s[i] != ','
    ensures TrimSpace(s) == s
    ensures forall name :: Contains(s, name) <==> s == name
  {
    NoComma(s);
    assert s[..|s|] == s;
  }

  lemma VisibilityOptions()
    ensures TrimSpace("secret") == "secret" && Contains("secret", "secret")
    ensures TrimSpace("public") == "public" && Contains("public", "public")
    ensures !Contains("public", "secret")
  {
    hide TrimSpace, Contains;
    PlainWord("secret");
    PlainWord("public");
    assert "public"[0] != "secret"[0];
  }

  lemma {:induction false} NoComma(s: string)
    requires forall i :: 0 <= i < |s| ==> s[i] != ','
    ensures IndexOfComma(s) == |s|
  {
  }

  lemma CommaAfter(name: string, opts: string)
    requires forall i :: 0 <= i < |name| ==> name[i] != ','
    ensures ParseTag(name + "," + opts) == (name, opts)
  {
    var tag := name + "," + opts;
    assert tag[|name|] == ',';
    assert IndexOfComma(tag) == |name|;
    assert tag[..|name|] == name && tag[|name| + 1..] == opts;
  }

  /** A printed tag reads back as the name and visibility it was printed from. */
  lemma TagRoundTrip(nameTag: string, v: Visibility, omitEmpty: bool)
    requires IsTagName(nameTag) && v in {Unset, Secret, Public}
    requires v == Unset ==> nameTag == ""
    ensures ReadTag(StructTag(nameTag, v, omitEmpty).gnark) == Info(nameTag, v)
  {
    hide TrimSpace, Contains, IndexOfComma, ParseTag, IsNameChar;
    VisibilityOptions();
    if v != Unset {
      CommaAfter(nameTag, VisibilityText(v));
      assert "" + "," + VisibilityText(v) == "," + VisibilityText(v);
      var tag := nameTag + "," + VisibilityText(v);
      assert |tag| >= 7;
    }
  }
}

/** Circuit schemas (lib/schema/schema.go): parsing a circuit value into fields, building a value from
    them, and what both say about the circuit's variables. */
module Schema {
  import opened Term
  import opened Tags
  import opened DecimalText

  // ---- circuit values ----

  /** A Go value as the parser sees it: a variable, a struct, a slice or array (`named` when its type is
      a defined type rather than a plain slice or array), or anything else. */
  datatype Value =
    | Variable
    | StructValue(fields: seq<GoField>)
    | ListValue(elems: seq<Value>, named: bool)
    | OtherValue

  datatype GoField = GoField(name: string, tags: GoTags, value: Value)

  // ---- schemas (field.go) ----

  datatype FieldType = Leaf | Array | Struct

  datatype Field = Field(
    name: string, nameTag: string, kind: FieldType, subFields: seq<Field>, visibility: Visibility,
    arraySize: nat)

  /** What the leaf handler is told. */
  datatype LeafSeen = LeafSeen(visibility: Visibility, name: string)

  function FullName(parent: string, name: string, tagName: string): string {
    var n := if tagName != "" then tagName else name;
    if parent == "" then n else parent + "_" + n
  }

  function ElementName(parent: string, j: nat): (s: string)
    ensures s != ""
  {
    FullName(parent, Decimal(j), "")
  }

  // ---- parsing ----

  datatype Failure = InvalidOption | ConflictingVisibility

  /** The fields added to the schema and the leaves handled, in order. */
  datatype Parsed = Failed(failure: Failure) | Parsed(fields: seq<Field>, leaves: seq<LeafSeen>)

  function Then(first: Parsed, second: Parsed): Parsed {
    if first.Failed? then first
    else if second.Failed? then second
    else Parsed(first.fields + second.fields, first.leaves + second.leaves)
  }

  predicate Conflict(parent: Visibility, own: Visibility) {
    (parent == Public && own == Secret) || (parent == Secret && own == Public)
  }

  function Inherit(parent: Visibility, own: Visibility): Visibility {
    if own == Unset then parent else own
  }

  function OrSecret(v: Visibility): Visibility {
    if v == Unset then Secret else v
  }

  /** A list whose type is a plain list of variables. */
  predicate IsVariableList(elems: seq<Value>, named: bool) {
    !named && elems != [] && elems[0].Variable?
  }

  function ParseValue(v: Value, fullName: string, goName: string, tagName: string, vis: Visibility)
    : Parsed
    decreases v, 1
  {
    match v
    case Variable =>
      Parsed([Field(goName, tagName, Leaf, [], OrSecret(vis), 0)], [LeafSeen(OrSecret(vis), fullName)])
    case OtherValue => Parsed([], [])
    case StructValue(fields) =>
      var sub := ParseFields(fields, fullName, vis);
      if sub.Failed? || goName == "" || sub.fields == [] then sub
      else Parsed([Field(goName, tagName, Struct, sub.fields, vis, 0)], sub.leaves)
    case ListValue(elems, named) =>
      var sub := ParseElems(elems, 0, fullName, tagName, vis);
      if sub.Failed? then sub
      else if IsVariableList(elems, named) then
        Parsed([Field(goName, tagName, Array, [], vis, |elems|)], sub.leaves)
      else if sub.fields == [] then sub
      else Parsed([Field(goName, tagName, Array, sub.fields[..1], vis, |elems|)], sub.leaves)
  }

  function ParseFields(fields: seq<GoField>, fullName: string, vis: Visibility): Parsed
    decreases fields, 0
  {
    if fields == [] then Parsed([], [])
    else
      var f := fields[0];
      match ReadTag(f.tags.gnark)
      case Skipped => ParseFields(fields[1..], fullName, vis)
      case BadOption => Failed(InvalidOption)
      case Info(nameTag, own) =>
        if Conflict(vis, own) then Failed(ConflictingVisibility)
        else Then(ParseValue(f.value, FullName(fullName, f.name, nameTag), f.name, nameTag,
                             Inherit(vis, own)),
                  ParseFields(fields[1..], fullName, vis))
  }

  function ParseElems(elems: seq<Value>, j: nat, fullName: string, tagName: string, vis: Visibility)
    : Parsed
    decreases elems, 0
  {
    if elems == [] then Parsed([], [])
    else Then(ParseValue(elems[0], ElementName(fullName, j), ElementName(fullName, j), tagName, vis),
              ParseElems(elems[1..], j + 1, fullName, tagName, vis))
  }

  /** Parsing a whole circuit. */
  function Parse(circuit: Value): Parsed {
    ParseValue(circuit, "", "", "", Unset)
  }

  /** How many of the handled leaves have a visibility. */
  function CountOf(leaves: seq<LeafSeen>, v: Visibility): (n: nat)
    ensures n <= |leaves|
  {
    if leaves == [] then 0
    else (if leaves[0].visibility == v then 1 else 0) + CountOf(leaves[1..], v)
  }

  lemma {:induction false} CountAppend(a: seq<LeafSeen>, b: seq<LeafSeen>, v: Visibility)
    ensures CountOf(a + b, v) == CountOf(a, v) + CountOf(b, v)
  {
    if a == [] {
      assert a + b == b;
    } else {
      CountAppend(a[1..], b, v);
      HeadAndTail(a, b);
    }
  }

  lemma HeadAndTail<T>(a: seq<T>, b: seq<T>)
    requires a != []
    ensures (a + b)[0] == a[0] && (a + b)[1..] == a[1..] + b
  {
  }

  lemma Grouped<T>(a: seq<T>, b: seq<T>, c: seq<T>)
    ensures a + (b + c) == a + b + c
  {
  }

  // ---- building a value from a schema ----

  function Copies<T>(n: nat, x: T): (s: seq<T>)
    ensures |s| == n && forall i :: 0 <= i < n ==> s[i] == x
  {
    seq(n, _ => x)
  }

  /** The names reflect.StructOf takes: none is empty and none repeated. */
  predicate GoodNames(fields: seq<Field>) {
    && (forall i :: 0 <= i < |fields| ==> fields[i].name != "")
    && (forall i, j :: 0 <= i < j < |fields| ==> fields[i].name != fields[j].name)
  }

  /** The element type of an array of variables is a variable, of other arrays their first sub-field's
      type; anything else panics. */
  predicate Instantiable(f: Field)
    decreases f
  {
    match f.kind
    case Leaf => true
    case Struct => GoodNames(f.subFields) && forall g :: g in f.subFields ==> Instantiable(g)
    case Array => f.subFields == [] || (f.subFields[0].kind != Leaf && Instantiable(f.subFields[0]))
  }

  function FieldValue(f: Field, omitEmpty: bool): Value
    requires Instantiable(f)
    decreases f, 1
  {
    match f.kind
    case Leaf => Variable
    case Struct => StructValue(ToStructFields(f.subFields, omitEmpty))
    case Array => ArrayValue(f.arraySize, f.subFields, omitEmpty)
  }

  function ArrayValue(n: nat, subFields: seq<Field>, omitEmpty: bool): Value
    requires subFields == [] || (subFields[0].kind != Leaf && Instantiable(subFields[0]))
    decreases subFields, 1
  {
    if subFields == [] then ListValue(Copies(n, Variable), false)
    else
      var first := subFields[0];
      if first.kind.Struct?
      then ListValue(Copies(n, StructValue(ToStructFields(first.subFields, omitEmpty))), false)
      else ListValue(Copies(n, ArrayValue(first.arraySize, first.subFields, omitEmpty)), false)
  }

  function ToStructFields(fields: seq<Field>, omitEmpty: bool): (gs: seq<GoField>)
    requires forall f :: f in fields ==> Instantiable(f)
    decreases fields, 0
  {
    if fields == [] then []
    else [GoField(fields[0].name, StructTag(fields[0].nameTag, fields[0].visibility, omitEmpty),
                  FieldValue(fields[0], omitEmpty))]
         + ToStructFields(fields[1..], omitEmpty)
  }

  predicate CanInstantiate(fields: seq<Field>) {
    GoodNames(fields) && forall f :: f in fields ==> Instantiable(f)
  }

  function Instantiate(fields: seq<Field>, omitEmpty: bool): Value
    requires CanInstantiate(fields)
  {
    StructValue(ToStructFields(fields, omitEmpty))
  }
}
