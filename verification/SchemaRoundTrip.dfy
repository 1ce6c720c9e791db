/** Parsing the value built from a parsed schema gives the same schema and the same leaves. */
module SchemaRoundTrip {
  import opened Term
  import opened Tags
  import opened Schema
  import opened SchemaLeaves

  // ---- what the parser and the builder enter ----

  predicate Visited(f: GoField) {
    ReadTag(f.tags.gnark) != Skipped
  }

  /** No two of the fields entered have the same name. */
  ghost predicate Distinct(fields: seq<GoField>) {
    forall i, j :: 0 <= i < j < |fields| && Visited(fields[i]) && Visited(fields[j])
      ==> fields[i].name != fields[j].name
  }

  /** Go field names are not empty, and differ within a struct. */
  ghost predicate Named(v: Value)
    decreases v
  {
    match v
    case Variable => true
    case OtherValue => true
    case StructValue(fields) =>
      Distinct(fields) && forall f :: f in fields && Visited(f) ==> f.name != "" && Named(f.value)
    case ListValue(elems, _) => forall e :: e in elems ==> Named(e)
  }

  /** Some variable is reached without entering a field tagged "-". */
  ghost predicate HasLeaf(v: Value)
    decreases v
  {
    match v
    case Variable => true
    case OtherValue => false
    case StructValue(fields) => exists f :: f in fields && Visited(f) && HasLeaf(f.value)
    case ListValue(elems, _) => exists e :: e in elems && HasLeaf(e)
  }

  /** The index of the first element with a leaf, or the length. */
  ghost function FirstLeaf(elems: seq<Value>): (i: nat)
    ensures i <= |elems|
    ensures i < |elems| ==> HasLeaf(elems[i])
    ensures forall k :: 0 <= k < i ==> !HasLeaf(elems[k])
  {
    if elems == [] || HasLeaf(elems[0]) then 0 else 1 + FirstLeaf(elems[1..])
  }

  /** Follows what the builder follows - every field of a struct, the first element of a list that has a
      leaf - and meets no list, other than a plain list of variables, in which that element is a
      variable. In Go such a list is one whose type is a defined type. */
  ghost predicate Buildable(v: Value)
    decreases v
  {
    match v
    case Variable => true
    case OtherValue => true
    case StructValue(fields) => forall f :: f in fields && Visited(f) ==> Buildable(f.value)
    case ListValue(elems, named) =>
      || IsVariableList(elems, named)
      || var i := FirstLeaf(elems);
         i == |elems| || (!elems[i].Variable? && Buildable(elems[i]))
  }

  /** The part of a value the parser enters: fields tagged "-" are dropped. */
  function Seen(v: Value): Value
    decreases v, 1
  {
    match v
    case StructValue(fields) => StructValue(SeenFields(fields))
    case ListValue(elems, named) => ListValue(SeenElems(elems), named)
    case _ => v
  }

  function SeenFields(fields: seq<GoField>): seq<GoField>
    decreases fields, 0
  {
    if fields == [] then []
    else (if Visited(fields[0]) then [fields[0].(value := Seen(fields[0].value))] else [])
         + SeenFields(fields[1..])
  }

  function SeenElems(elems: seq<Value>): (s: seq<Value>)
    ensures |s| == |elems|
    decreases elems, 0
  {
    if elems == [] then [] else [Seen(elems[0])] + SeenElems(elems[1..])
  }

  ghost predicate AllInstantiable(fields: seq<Field>) {
    forall f :: f in fields ==> Instantiable(f)
  }

  lemma {:induction false} ParseSeen(v: Value, n: string, g: string, tagName: string, vis: Visibility)
    ensures ParseValue(Seen(v), n, g, tagName, vis) == ParseValue(v, n, g, tagName, vis)
    decreases v, 1
  {
    hide ParseFields, ParseElems;
    match v
    case Variable =>
    case OtherValue =>
    case StructValue(fields) => ParseSeenFields(fields, n, vis);
    case ListValue(elems, _) =>
      ParseSeenElems(elems, 0, n, tagName, vis);
      if elems != [] {
        assert Seen(elems[0]).Variable? <==> elems[0].Variable?;
      }
  }

  lemma {:induction false} ParseSeenFields(fields: seq<GoField>, n: string, vis: Visibility)
    ensures ParseFields(SeenFields(fields), n, vis) == ParseFields(fields, n, vis)
    decreases fields, 0
  {
    hide ReadTag, ParseValue, FullName, Seen, Then;
    if fields != [] {
      var f := fields[0];
      var info := ReadTag(f.tags.gnark);
      ParseSeenFields(fields[1..], n, vis);
      if info.Info? {
        ParseSeen(f.value, FullName(n, f.name, info.nameTag), f.name, info.nameTag,
                  Inherit(vis, info.visibility));
      }
      if Visited(f) {
        assert SeenFields(fields)[1..] == SeenFields(fields[1..]);
      } else {
        assert SeenFields(fields) == SeenFields(fields[1..]);
      }
    }
  }

  lemma {:induction false} ParseSeenElems(elems: seq<Value>, j: nat, n: string, tagName: string, vis: Visibility)
    ensures ParseElems(SeenElems(elems), j, n, tagName, vis) == ParseElems(elems, j, n, tagName, vis)
    decreases elems, 0
  {
    hide ParseValue, ElementName, Seen, Then;
    if elems != [] {
      ParseSeen(elems[0], ElementName(n, j), ElementName(n, j), tagName, vis);
      ParseSeenElems(elems[1..], j + 1, n, tagName, vis);
      assert SeenElems(elems)[1..] == SeenElems(elems[1..]);
    }
  }

  // ---- how many fields a value gives ----

  /** A value gives a field exactly when it has a leaf to hand over. */
  lemma {:induction false} LeafIffField(v: Value, fullName: string, goName: string, tagName: string, vis: Visibility)
    requires ParseValue(v, fullName, goName, tagName, vis).Parsed?
    ensures var p := ParseValue(v, fullName, goName, tagName, vis);
            (p.fields != [] <==> HasLeaf(v)) && (p.leaves != [] <==> HasLeaf(v))
    decreases v, 1
  {
    hide ParseFields, ParseElems;
    match v
    case Variable =>
    case OtherValue =>
    case StructValue(fields) => LeafIffFields(fields, fullName, vis);
    case ListValue(elems, named) =>
      LeafIffElems(elems, 0, fullName, tagName, vis);
      if IsVariableList(elems, named) {
        assert HasLeaf(elems[0]) && elems[0] in elems;
      }
  }

  lemma {:induction false} LeafIffFields(fields: seq<GoField>, fullName: string, vis: Visibility)
    requires ParseFields(fields, fullName, vis).Parsed?
    ensures var p := ParseFields(fields, fullName, vis);
            && (p.fields != [] <==> exists f :: f in fields && Visited(f) && HasLeaf(f.value))
            && (p.leaves != [] <==> exists f :: f in fields && Visited(f) && HasLeaf(f.value))
    decreases fields, 0
  {
    hide ReadTag, FullName, ParseValue, HasLeaf;
    if fields != [] {
      LeafIffFields(fields[1..], fullName, vis);
      var f := fields[0];
      assert forall g :: g in fields <==> g == f || g in fields[1..];
      var info := ReadTag(f.tags.gnark);
      if info.Info? {
        LeafIffField(f.value, FullName(fullName, f.name, info.nameTag), f.name, info.nameTag,
                     Inherit(vis, info.visibility));
      }
    }
  }

  lemma {:induction false} LeafIffElems(
    elems: seq<Value>, j: nat, fullName: string, tagName: string, vis: Visibility)
    requires ParseElems(elems, j, fullName, tagName, vis).Parsed?
    ensures var p := ParseElems(elems, j, fullName, tagName, vis);
            && (p.fields != [] <==> exists e :: e in elems && HasLeaf(e))
            && (p.leaves != [] <==> exists e :: e in elems && HasLeaf(e))
    decreases elems, 0
  {
    hide ElementName, ParseValue, HasLeaf;
    if elems != [] {
      assert forall e :: e in elems <==> e == elems[0] || e in elems[1..];
      LeafIffElems(elems[1..], j + 1, fullName, tagName, vis);
      LeafIffField(elems[0], ElementName(fullName, j), ElementName(fullName, j), tagName, vis);
    }
  }

  /** The first field of a list's elements is that of the first element with a leaf. */
  lemma {:induction false} FirstGives(elems: seq<Value>, j: nat, n: string, tagName: string, vis: Visibility)
    requires ParseElems(elems, j, n, tagName, vis).Parsed?
    ensures var sub, i := ParseElems(elems, j, n, tagName, vis), FirstLeaf(elems);
            && (i == |elems| <==> sub.fields == [])
            && (i < |elems| ==>
                  var name := ElementName(n, j + i);
                  var q := ParseValue(elems[i], name, name, tagName, vis);
                  q.Parsed? && q.fields != [] && sub.fields[0] == q.fields[0])
    decreases |elems|
  {
    hide ElementName, ParseValue, HasLeaf;
    if elems != [] {
      var name := ElementName(n, j);
      FirstGives(elems[1..], j + 1, n, tagName, vis);
      LeafIffField(elems[0], name, name, tagName, vis);
    }
  }

  /** The one field a value below the root may give. */
  lemma OneField(v: Value, fullName: string, goName: string, tagName: string, vis: Visibility)
    requires goName != "" && ParseValue(v, fullName, goName, tagName, vis).Parsed?
    ensures var p := ParseValue(v, fullName, goName, tagName, vis);
            && |p.fields| <= 1
            && (p.fields == [] ==> p.leaves == [])
            && (p.fields != [] ==>
                  && p.fields[0].name == goName && p.fields[0].nameTag == tagName
                  && (p.fields[0].kind == Leaf <==> v.Variable?)
                  && p.fields[0].visibility == if v.Variable? then OrSecret(vis) else vis)
  {
    hide ParseFields, ParseElems;
    LeafIffField(v, fullName, goName, tagName, vis);
  }

  // ---- the shape of a field does not depend on where it stands ----

  /** Two fields that may differ only in name. */
  ghost predicate Alike(f: Field, g: Field, omitEmpty: bool) {
    && f.kind == g.kind && f.visibility == g.visibility && f.nameTag == g.nameTag
    && Instantiable(f) == Instantiable(g)
    && (Instantiable(f) ==> FieldValue(f, omitEmpty) == FieldValue(g, omitEmpty))
  }

  ghost predicate AllAlike(fs: seq<Field>, gs: seq<Field>, omitEmpty: bool) {
    |fs| == |gs| && forall i :: 0 <= i < |fs| ==> Alike(fs[i], gs[i], omitEmpty)
  }

  ghost predicate SameNames(fs: seq<Field>, gs: seq<Field>) {
    |fs| == |gs| && forall i :: 0 <= i < |fs| ==> fs[i].name == gs[i].name
  }

  ghost predicate SameOutcome(p: Parsed, q: Parsed, omitEmpty: bool) {
    if p.Failed? then q == p else q.Parsed? && AllAlike(p.fields, q.fields, omitEmpty)
  }

  lemma {:induction false} AlikeStructFields(fs: seq<Field>, gs: seq<Field>, omitEmpty: bool)
    requires AllAlike(fs, gs, omitEmpty) && SameNames(fs, gs)
    ensures AllInstantiable(fs) <==> AllInstantiable(gs)
    ensures AllInstantiable(fs) && AllInstantiable(gs)
            ==> ToStructFields(fs, omitEmpty) == ToStructFields(gs, omitEmpty)
  {
    hide Instantiable, FieldValue, StructTag;
    if fs != [] {
      AlikeStructFields(fs[1..], gs[1..], omitEmpty);
      assert Alike(fs[0], gs[0], omitEmpty);
      assert fs[0].name == gs[0].name;
      assert forall f :: f in fs <==> f == fs[0] || f in fs[1..];
      assert forall g :: g in gs <==> g == gs[0] || g in gs[1..];
    }
  }

  lemma ElementIsFieldValue(n: nat, first: Field, omitEmpty: bool)
    requires first.kind != Leaf && Instantiable(first)
    ensures ArrayValue(n, [first], omitEmpty) == ListValue(Copies(n, FieldValue(first, omitEmpty)), false)
  {
  }

  lemma AlikeArrays(f: Field, g: Field, omitEmpty: bool)
    requires f.kind == Array && g.kind == Array
    requires f.visibility == g.visibility && f.nameTag == g.nameTag && f.arraySize == g.arraySize
    requires |f.subFields| == |g.subFields| <= 1
    requires AllAlike(f.subFields, g.subFields, omitEmpty)
    ensures Alike(f, g, omitEmpty)
  {
    if f.subFields != [] {
      var a, b := f.subFields[0], g.subFields[0];
      assert Alike(a, b, omitEmpty);
      assert f.subFields == [a] && g.subFields == [b];
      if Instantiable(f) {
        ElementIsFieldValue(f.arraySize, a, omitEmpty);
        ElementIsFieldValue(f.arraySize, b, omitEmpty);
      }
    }
  }

  lemma AlikeStructs(f: Field, g: Field, omitEmpty: bool)
    requires f.kind == Struct && g.kind == Struct
    requires f.visibility == g.visibility && f.nameTag == g.nameTag
    requires AllAlike(f.subFields, g.subFields, omitEmpty) && SameNames(f.subFields, g.subFields)
    ensures Alike(f, g, omitEmpty)
  {
    hide Alike;
    AlikeStructFields(f.subFields, g.subFields, omitEmpty);
    SameGoodNames(f.subFields, g.subFields);
    AlikeStructsAre(f, g, omitEmpty);
  }

  lemma SameGoodNames(fs: seq<Field>, gs: seq<Field>)
    requires SameNames(fs, gs)
    ensures GoodNames(fs) <==> GoodNames(gs)
  {
  }

  lemma AlikeStructsAre(f: Field, g: Field, omitEmpty: bool)
    requires f.kind == Struct && g.kind == Struct
    requires f.visibility == g.visibility && f.nameTag == g.nameTag
    requires GoodNames(f.subFields) <==> GoodNames(g.subFields)
    requires AllInstantiable(f.subFields) <==> AllInstantiable(g.subFields)
    requires AllInstantiable(f.subFields) && AllInstantiable(g.subFields)
             ==> ToStructFields(f.subFields, omitEmpty) == ToStructFields(g.subFields, omitEmpty)
    ensures Alike(f, g, omitEmpty)
  {
  }

  lemma {:induction false} ShapeFree(
    v: Value, n: string, g: string, n': string, g': string, tagName: string, vis: Visibility, omitEmpty: bool)
    requires g == "" <==> g' == ""
    ensures var p, q := ParseValue(v, n, g, tagName, vis), ParseValue(v, n', g', tagName, vis);
            SameOutcome(p, q, omitEmpty) && (p.Parsed? && g == g' ==> SameNames(p.fields, q.fields))
    decreases v, 1
  {
    hide ParseFields, ParseElems, Instantiable, FieldValue, ArrayValue;
    var p, q := ParseValue(v, n, g, tagName, vis), ParseValue(v, n', g', tagName, vis);
    match v
    case Variable => AlikeLeaves(p.fields[0], q.fields[0], omitEmpty);
    case OtherValue =>
    case StructValue(fields) =>
      ShapeFreeFields(fields, n, n', vis, omitEmpty);
      var a, b := ParseFields(fields, n, vis), ParseFields(fields, n', vis);
      if a.Parsed? && a.fields != [] && g != "" {
        AlikeStructs(p.fields[0], q.fields[0], omitEmpty);
      }
    case ListValue(elems, named) =>
      ShapeFreeElems(elems, 0, n, n', tagName, vis, omitEmpty);
      var a, b := ParseElems(elems, 0, n, tagName, vis), ParseElems(elems, 0, n', tagName, vis);
      if a.Parsed? && p.fields != [] {
        if a.fields != [] {
          assert Alike(a.fields[0], b.fields[0], omitEmpty);
        }
        AlikeArrays(p.fields[0], q.fields[0], omitEmpty);
      }
  }

  lemma AlikeThen(p: Parsed, p': Parsed, q: Parsed, q': Parsed, omitEmpty: bool)
    requires SameOutcome(p, p', omitEmpty) && SameOutcome(q, q', omitEmpty)
    ensures SameOutcome(Then(p, q), Then(p', q'), omitEmpty)
    ensures Then(p, q).Parsed? && SameNames(p.fields, p'.fields) && SameNames(q.fields, q'.fields)
            ==> SameNames(Then(p, q).fields, Then(p', q').fields)
    ensures Then(p, q).Parsed? ==> p.Parsed? && p'.Parsed? && q.Parsed? && q'.Parsed? && Then(p', q').Parsed?
  {
    hide Alike;
  }

  lemma NothingAlike(omitEmpty: bool)
    ensures SameOutcome(Parsed([], []), Parsed([], []), omitEmpty) && SameNames([], [])
    ensures forall f :: SameOutcome(Failed(f), Failed(f), omitEmpty)
  {
  }

  lemma AlikeLeaves(f: Field, g: Field, omitEmpty: bool)
    requires f.kind == Leaf && g.kind == Leaf && f.visibility == g.visibility && f.nameTag == g.nameTag
    ensures Alike(f, g, omitEmpty)
  {
  }

  lemma {:induction false} ShapeFreeFields(
    fields: seq<GoField>, n: string, n': string, vis: Visibility, omitEmpty: bool)
    ensures var p, q := ParseFields(fields, n, vis), ParseFields(fields, n', vis);
            SameOutcome(p, q, omitEmpty) && (p.Parsed? ==> SameNames(p.fields, q.fields))
    decreases fields, 0
  {
    hide ParseValue, Alike, ReadTag, Then, SameOutcome, SameNames;
    NothingAlike(omitEmpty);
    if fields != [] {
      ShapeFreeFields(fields[1..], n, n', vis, omitEmpty);
      var f := fields[0];
      var info := ReadTag(f.tags.gnark);
      if info.Info? {
        var own := Inherit(vis, info.visibility);
        var full, full' := FullName(n, f.name, info.nameTag), FullName(n', f.name, info.nameTag);
        ShapeFree(f.value, full, f.name, full', f.name, info.nameTag, own, omitEmpty);
        AlikeThen(ParseValue(f.value, full, f.name, info.nameTag, own),
                  ParseValue(f.value, full', f.name, info.nameTag, own),
                  ParseFields(fields[1..], n, vis), ParseFields(fields[1..], n', vis), omitEmpty);
      }
    }
  }

  lemma {:induction false} ShapeFreeElems(
    elems: seq<Value>, j: nat, n: string, n': string, tagName: string, vis: Visibility, omitEmpty: bool)
    ensures SameOutcome(ParseElems(elems, j, n, tagName, vis), ParseElems(elems, j, n', tagName, vis), omitEmpty)
    decreases elems, 0
  {
    hide ParseValue, ElementName, Then, SameOutcome;
    NothingAlike(omitEmpty);
    if elems != [] {
      ShapeFreeElems(elems[1..], j + 1, n, n', tagName, vis, omitEmpty);
      ShapeFree(elems[0], ElementName(n, j), ElementName(n, j), ElementName(n', j), ElementName(n', j),
                tagName, vis, omitEmpty);
      AlikeThen(ParseValue(elems[0], ElementName(n, j), ElementName(n, j), tagName, vis),
                ParseValue(elems[0], ElementName(n', j), ElementName(n', j), tagName, vis),
                ParseElems(elems[1..], j + 1, n, tagName, vis),
                ParseElems(elems[1..], j + 1, n', tagName, vis), omitEmpty);
    }
  }

  // ---- the round trip ----

  predicate Settable(v: Visibility) {
    v == Unset || v == Secret || v == Public
  }

  /** The field printed for a parsed field reads back with its name tag, and its visibility neither
      conflicts with the parent's nor changes under it. */
  lemma PrintedFieldReads(parent: Visibility, tag: Option<string>, f: Field, omitEmpty: bool)
    requires Settable(parent) && ReadTag(tag).Info?
    requires var info := ReadTag(tag);
             && !Conflict(parent, info.visibility) && f.nameTag == info.nameTag
             && (f.visibility == Inherit(parent, info.visibility)
                 || f.visibility == OrSecret(Inherit(parent, info.visibility)))
    ensures ReadTag(StructTag(f.nameTag, f.visibility, omitEmpty).gnark) == Info(f.nameTag, f.visibility)
    ensures !Conflict(parent, f.visibility) && Inherit(parent, f.visibility) == f.visibility
  {
    hide ReadTag, StructTag;
    ReadTagName(tag);
    TagRoundTrip(f.nameTag, f.visibility, omitEmpty);
  }

  /** The value a field stands for parses back to the field, under the same names. */
  ghost predicate ReadsBack(f: Field, p: Parsed, fullName: string, omitEmpty: bool) {
    && Instantiable(f)
    && ParseValue(FieldValue(f, omitEmpty), fullName, f.name, f.nameTag, f.visibility) == p
  }

  lemma {:induction false} RoundTripValue(
    v: Value, n: string, g: string, tagName: string, vis: Visibility, omitEmpty: bool)
    requires g != "" && Settable(vis) && Named(v) && Buildable(v) && Uniform(v, vis)
    requires ParseValue(v, n, g, tagName, vis).Parsed? && ParseValue(v, n, g, tagName, vis).fields != []
    ensures var p := ParseValue(v, n, g, tagName, vis); ReadsBack(p.fields[0], p, n, omitEmpty)
    decreases v, 1
  {
    hide RelLeaves;
    match v
    case Variable =>
    case OtherValue =>
    case StructValue(fields) =>
      UniformFields(fields, vis);
      RoundTripFields(fields, n, vis, omitEmpty);
      StructReadsBack(v, n, g, tagName, vis, omitEmpty);
    case ListValue(elems, named) =>
      if IsVariableList(elems, named) {
        VariablesReadBack(v, n, g, tagName, vis, omitEmpty);
      } else {
        var name := ElementName(n, 0);
        UniformGives(elems, n, tagName, vis);
        RoundTripValue(elems[0], name, name, tagName, vis, omitEmpty);
        RoundTripElems(elems, n, tagName, vis, omitEmpty);
        ListReadsBack(v, n, g, tagName, vis, omitEmpty);
      }
  }

  lemma UniformFields(fields: seq<GoField>, vis: Visibility)
    requires Uniform(StructValue(fields), vis)
    ensures AllUniform(fields, vis)
  {
  }

  ghost predicate AllUniform(fields: seq<GoField>, vis: Visibility) {
    forall f :: f in fields && ReadTag(f.tags.gnark).Info?
      ==> Uniform(f.value, Inherit(vis, ReadTag(f.tags.gnark).visibility))
  }

  lemma StructReadsBack(v: Value, n: string, g: string, tagName: string, vis: Visibility, omitEmpty: bool)
    requires g != "" && v.StructValue?
    requires ParseValue(v, n, g, tagName, vis).Parsed? && ParseValue(v, n, g, tagName, vis).fields != []
    requires var sub := ParseFields(v.fields, n, vis);
             CanInstantiate(sub.fields)
             && ParseFields(ToStructFields(sub.fields, omitEmpty), n, vis) == sub
    ensures var p := ParseValue(v, n, g, tagName, vis); ReadsBack(p.fields[0], p, n, omitEmpty)
  {
    hide ParseFields;
  }

  lemma {:induction false} RoundTripFields(fields: seq<GoField>, n: string, vis: Visibility, omitEmpty: bool)
    requires Settable(vis) && ParseFields(fields, n, vis).Parsed? && AllUniform(fields, vis)
    requires Distinct(fields)
    requires forall f :: f in fields && Visited(f) ==> f.name != "" && Named(f.value) && Buildable(f.value)
    ensures var p := ParseFields(fields, n, vis);
            CanInstantiate(p.fields) && ParseFields(ToStructFields(p.fields, omitEmpty), n, vis) == p
    decreases fields, 0
  {
    hide ReadTag, ParseValue, Uniform, Named, Buildable, Instantiable, FieldValue, StructTag, FullName, Then,
         ReadsBack, GoodNames, Distinct;
    NamesGood(fields, n, vis);
    if fields != [] {
      DistinctTail(fields);
      var h := fields[0];
      var info := ReadTag(h.tags.gnark);
      if info.Skipped? {
        RoundTripFields(fields[1..], n, vis, omitEmpty);
      } else {
        assert h in fields && Visited(h);
        ReadTagName(h.tags.gnark);
        var own := Inherit(vis, info.visibility);
        var full := FullName(n, h.name, info.nameTag);
        var q, rest := ParseValue(h.value, full, h.name, info.nameTag, own), ParseFields(fields[1..], n, vis);
        BothParse(q, rest);
        RoundTripFields(fields[1..], n, vis, omitEmpty);
        OneField(h.value, full, h.name, info.nameTag, own);
        if q.fields == [] {
          NothingThen(q, rest);
        } else {
          RoundTripValue(h.value, full, h.name, info.nameTag, own, omitEmpty);
          var f := q.fields[0];
          PrintedFieldReads(vis, h.tags.gnark, f, omitEmpty);
          FirstFieldReadsBack(f, q, rest, n, vis, omitEmpty);
        }
      }
    }
  }

  lemma DistinctTail(fields: seq<GoField>)
    requires Distinct(fields) && fields != []
    ensures Distinct(fields[1..])
  {
    hide Visited;
  }

  ghost predicate Gives(fields: seq<GoField>, name: string) {
    exists i :: 0 <= i < |fields| && Visited(fields[i]) && fields[i].name == name
  }

  /** The fields of a struct have names that can be built from. */
  lemma {:induction false} NamesGood(fields: seq<GoField>, n: string, vis: Visibility)
    requires ParseFields(fields, n, vis).Parsed? && Distinct(fields)
    requires forall f :: f in fields && Visited(f) ==> f.name != ""
    ensures GoodNames(ParseFields(fields, n, vis).fields)
    ensures forall g :: g in ParseFields(fields, n, vis).fields ==> Gives(fields, g.name)
    decreases fields, 0
  {
    hide ReadTag, ParseValue, FullName, Gives, GoodNames;
    if fields != [] {
      var h := fields[0];
      var info := ReadTag(h.tags.gnark);
      DistinctTail(fields);
      NamesGood(fields[1..], n, vis);
      LaterGive(fields);
      if info.Info? {
        assert h in fields && Visited(h);
        var own, full := Inherit(vis, info.visibility), FullName(n, h.name, info.nameTag);
        var q, rest := ParseValue(h.value, full, h.name, info.nameTag, own), ParseFields(fields[1..], n, vis);
        OneField(h.value, full, h.name, info.nameTag, own);
        NewName(q.fields, rest.fields, h.name, fields);
      }
    } else {
      NoNames();
    }
  }

  lemma NoNames()
    ensures GoodNames([])
  {
  }

  lemma LaterGive(fields: seq<GoField>)
    requires fields != []
    ensures forall name :: Gives(fields[1..], name) ==> Gives(fields, name)
    ensures Visited(fields[0]) ==> Gives(fields, fields[0].name)
    ensures Distinct(fields) && Visited(fields[0]) ==> !Gives(fields[1..], fields[0].name)
  {
    hide Visited;
    forall name | Gives(fields[1..], name)
      ensures Gives(fields, name)
    {
      var i :| 0 <= i < |fields| - 1 && Visited(fields[1..][i]) && fields[1..][i].name == name;
      assert fields[i + 1] == fields[1..][i];
    }
  }

  lemma NewName(first: seq<Field>, rest: seq<Field>, name: string, fields: seq<GoField>)
    requires |first| <= 1 && (first != [] ==> first[0].name == name) && name != ""
    requires fields != [] && !Gives(fields[1..], name)
    requires GoodNames(rest) && forall g :: g in rest ==> Gives(fields[1..], g.name)
    ensures GoodNames(first + rest)
  {
    hide Gives;
    var all := first + rest;
    forall i, j | 0 <= i < j < |all|
      ensures all[i].name != all[j].name
    {
      assert all[j] == rest[j - |first|] && all[j] in rest;
      if i >= |first| {
        assert all[i] == rest[i - |first|];
      }
    }
  }

  lemma BothParse(q: Parsed, rest: Parsed)
    ensures Then(q, rest).Parsed? <==> q.Parsed? && rest.Parsed?
  {
  }

  lemma NothingThen(q: Parsed, rest: Parsed)
    requires q.Parsed? && q.fields == [] && q.leaves == []
    ensures Then(q, rest) == rest
  {
  }

  lemma FirstFieldReadsBack(f: Field, q: Parsed, rest: Parsed, n: string, vis: Visibility, omitEmpty: bool)
    requires q.Parsed? && q.fields == [f] && rest.Parsed?
    requires ReadsBack(f, q, FullName(n, f.name, f.nameTag), omitEmpty)
    requires ReadTag(StructTag(f.nameTag, f.visibility, omitEmpty).gnark) == Info(f.nameTag, f.visibility)
    requires !Conflict(vis, f.visibility) && Inherit(vis, f.visibility) == f.visibility
    requires AllInstantiable(rest.fields)
    requires ParseFields(ToStructFields(rest.fields, omitEmpty), n, vis) == rest
    ensures AllInstantiable(Then(q, rest).fields)
    ensures ParseFields(ToStructFields(Then(q, rest).fields, omitEmpty), n, vis) == Then(q, rest)
  {
    hide ReadTag, ParseValue, Instantiable, FieldValue, StructTag, FullName;
    var all := Then(q, rest).fields;
    assert all == [f] + rest.fields && all[1..] == rest.fields;
    var gs := ToStructFields(all, omitEmpty);
    assert gs[1..] == ToStructFields(rest.fields, omitEmpty);
  }

  lemma CopiesTail<T>(k: nat, x: T)
    requires k > 0
    ensures Copies(k, x)[0] == x && Copies(k, x)[1..] == Copies(k - 1, x)
  {
  }

  lemma NoElems(j: nat, n: string, tagName: string, vis: Visibility, e: Value)
    ensures ParseElems(Copies(0, e), j, n, tagName, vis) == Parsed([], [])
  {
  }

  /** Copies of a value that parses under one name parse; their first field is that of the first. */
  lemma {:induction false} CopiesParse(
    e: Value, k: nat, j: nat, n: string, name: string, tagName: string, vis: Visibility)
    requires name != "" && ParseValue(e, name, name, tagName, vis).Parsed?
    ensures var p, q := ParseElems(Copies(k, e), j, n, tagName, vis),
                        ParseValue(e, ElementName(n, j), ElementName(n, j), tagName, vis);
            && p.Parsed? && q.Parsed?
            && (k > 0 && q.fields != [] ==> p.fields != [] && p.fields[0] == q.fields[0])
    decreases k
  {
    hide ParseValue, ElementName, Alike, Copies;
    ShapeFree(e, name, name, ElementName(n, j), ElementName(n, j), tagName, vis, false);
    if k > 0 {
      CopiesTail(k, e);
      CopiesParse(e, k - 1, j + 1, n, name, tagName, vis);
    } else {
      NoElems(j, n, tagName, vis, e);
    }
  }

  /** Elements with the leaves of one value hand over what its copies do. */
  lemma CopiesLeaves(elems: seq<Value>, e: Value, n: string, tagName: string, vis: Visibility)
    requires ParseElems(elems, 0, n, tagName, vis).Parsed?
    requires ParseElems(Copies(|elems|, e), 0, n, tagName, vis).Parsed?
    requires forall i :: 0 <= i < |elems| ==> RelLeaves(elems[i], vis) == RelLeaves(e, vis)
    ensures ParseElems(Copies(|elems|, e), 0, n, tagName, vis).leaves == ParseElems(elems, 0, n, tagName, vis).leaves
  {
    hide ParseElems, RelLeaves, ElemLeaves;
    ElemLeavesAre(elems, 0, n, tagName, vis);
    ElemLeavesAre(Copies(|elems|, e), 0, n, tagName, vis);
    ElemsSame(elems, Copies(|elems|, e), 0, vis);
  }

  lemma VariablesReadBack(v: Value, n: string, g: string, tagName: string, vis: Visibility, omitEmpty: bool)
    requires g != "" && v.ListValue? && IsVariableList(v.elems, v.named) && Uniform(v, vis)
    requires ParseValue(v, n, g, tagName, vis).Parsed?
    ensures var p := ParseValue(v, n, g, tagName, vis); p.fields != [] && ReadsBack(p.fields[0], p, n, omitEmpty)
  {
    hide ParseElems, RelLeaves;
    assert v.elems[0] == Variable;
    CopiesParse(Variable, |v.elems|, 0, n, "X", tagName, vis);
    SameAsVariable(v.elems, vis);
    CopiesLeaves(v.elems, Variable, n, tagName, vis);
    var p := ParseValue(v, n, g, tagName, vis);
    var again := ListValue(Copies(|v.elems|, Variable), false);
    assert p.fields[0] == Field(g, tagName, Array, [], vis, |v.elems|);
    assert FieldValue(p.fields[0], omitEmpty) == again;
    assert IsVariableList(again.elems, again.named);
  }

  lemma SameAsVariable(elems: seq<Value>, vis: Visibility)
    requires elems != [] && elems[0].Variable?
    requires forall i :: 0 <= i < |elems| ==> RelLeaves(elems[i], vis) == RelLeaves(elems[0], vis)
    ensures forall i :: 0 <= i < |elems| ==> RelLeaves(elems[i], vis) == RelLeaves(Variable, vis)
  {
  }

  /** Where a uniform list has a leaf, its first element has. */
  lemma UniformGives(elems: seq<Value>, n: string, tagName: string, vis: Visibility)
    requires forall i :: 0 <= i < |elems| ==> RelLeaves(elems[i], vis) == RelLeaves(elems[0], vis)
    requires ParseElems(elems, 0, n, tagName, vis).Parsed? && ParseElems(elems, 0, n, tagName, vis).fields != []
    ensures elems != [] && FirstLeaf(elems) == 0
    ensures var name, sub := ElementName(n, 0), ParseElems(elems, 0, n, tagName, vis);
            var q := ParseValue(elems[0], name, name, tagName, vis);
            q.Parsed? && q.fields != [] && sub.fields[0] == q.fields[0]
  {
    hide ParseValue, RelLeaves, ElementName, HasLeaf;
    FirstGives(elems, 0, n, tagName, vis);
    var i := FirstLeaf(elems);
    var first, name := ElementName(n, 0), ElementName(n, i);
    assert ParseValue(elems[0], first, first, tagName, vis).Parsed? by {
      assert ParseElems(elems, 0, n, tagName, vis)
          == Then(ParseValue(elems[0], first, first, tagName, vis), ParseElems(elems[1..], 1, n, tagName, vis));
    }
    LeavesAre(elems[0], first, first, tagName, vis);
    LeavesAre(elems[i], name, name, tagName, vis);
    LeafIffField(elems[0], first, first, tagName, vis);
    LeafIffField(elems[i], name, name, tagName, vis);
    assert |RelLeaves(elems[i], vis)| == |RelLeaves(elems[0], vis)|;
  }

  /** The copies built from the first field's shape parse to the leaves, and to the first field, of the
      uniform list they were built for. */
  lemma RoundTripElems(elems: seq<Value>, n: string, tagName: string, vis: Visibility, omitEmpty: bool)
    requires forall i :: 0 <= i < |elems| ==> RelLeaves(elems[i], vis) == RelLeaves(elems[0], vis)
    requires elems != [] && !elems[0].Variable?
    requires ParseElems(elems, 0, n, tagName, vis).Parsed?
    requires var name, sub := ElementName(n, 0), ParseElems(elems, 0, n, tagName, vis);
             var q := ParseValue(elems[0], name, name, tagName, vis);
             && q.Parsed? && q.fields != [] && sub.fields != [] && sub.fields[0] == q.fields[0]
             && ReadsBack(q.fields[0], q, name, omitEmpty)
    ensures var sub := ParseElems(elems, 0, n, tagName, vis);
            var f := sub.fields[0];
            && f.kind != Leaf && Instantiable(f)
            && var again := ParseElems(Copies(|elems|, FieldValue(f, omitEmpty)), 0, n, tagName, vis);
               again.Parsed? && again.leaves == sub.leaves && again.fields != [] && again.fields[0] == f
  {
    hide ParseElems, ParseValue, RelLeaves, ElementName, FieldValue, Instantiable;
    var name := ElementName(n, 0);
    var q := ParseValue(elems[0], name, name, tagName, vis);
    var f := q.fields[0];
    OneField(elems[0], name, name, tagName, vis);
    var e := FieldValue(f, omitEmpty);
    LeavesAre(elems[0], name, name, tagName, vis);
    LeavesAre(e, name, name, tagName, vis);
    PrefixedSame(name, RelLeaves(elems[0], vis), RelLeaves(e, vis));
    CopiesParse(e, |elems|, 0, n, name, tagName, vis);
    CopiesLeaves(elems, e, n, tagName, vis);
  }

  lemma ListReadsBack(v: Value, n: string, g: string, tagName: string, vis: Visibility, omitEmpty: bool)
    requires g != "" && v.ListValue? && !IsVariableList(v.elems, v.named)
    requires ParseValue(v, n, g, tagName, vis).Parsed? && ParseValue(v, n, g, tagName, vis).fields != []
    requires var sub := ParseElems(v.elems, 0, n, tagName, vis);
             && sub.Parsed? && sub.fields != [] && sub.fields[0].kind != Leaf && Instantiable(sub.fields[0])
             && var again := ParseElems(Copies(|v.elems|, FieldValue(sub.fields[0], omitEmpty)), 0, n, tagName, vis);
                again.Parsed? && again.leaves == sub.leaves
                && again.fields != [] && again.fields[0] == sub.fields[0]
    ensures var p := ParseValue(v, n, g, tagName, vis); ReadsBack(p.fields[0], p, n, omitEmpty)
  {
    hide ParseElems;
    var sub := ParseElems(v.elems, 0, n, tagName, vis);
    var first := sub.fields[0];
    var again := ParseElems(Copies(|v.elems|, FieldValue(first, omitEmpty)), 0, n, tagName, vis);
    assert sub.fields[..1] == [first] == again.fields[..1];
    ElementIsFieldValue(|v.elems|, first, omitEmpty);
  }

  /** Parsing the value instantiated from a parsed circuit yields the same schema and hands the handler
      the same names and visibilities in the same order, and building it does not panic, when the
      circuit is buildable and the elements of its lists have the same leaves. */
  lemma SchemaRoundTrips(fields: seq<GoField>, omitEmpty: bool)
    requires Named(StructValue(fields)) && Buildable(StructValue(fields)) && Uniform(StructValue(fields), Unset)
    requires Parse(StructValue(fields)).Parsed?
    ensures var p := Parse(StructValue(fields));
            && CanInstantiate(p.fields)
            && Parse(Instantiate(p.fields, omitEmpty)) == p
  {
    hide Uniform;
    UniformFields(fields, Unset);
    RoundTripFields(fields, "", Unset, omitEmpty);
  }

  // ---- when building the value panics ----

  lemma {:induction false} InstantiableValue(
    v: Value, n: string, g: string, tagName: string, vis: Visibility)
    requires Named(v) && ParseValue(v, n, g, tagName, vis).Parsed?
    ensures AllInstantiable(ParseValue(v, n, g, tagName, vis).fields) <==> Buildable(v)
    decreases v, 1
  {
    hide ParseFields, ParseElems, ElementName, HasLeaf;
    match v
    case Variable =>
    case OtherValue =>
    case StructValue(fields) =>
      InstantiableFields(fields, n, vis);
      NamesGood(fields, n, vis);
      StructInstantiable(v, n, g, tagName, vis);
    case ListValue(elems, named) =>
      FirstGives(elems, 0, n, tagName, vis);
      var i := FirstLeaf(elems);
      if i < |elems| {
        var name := ElementName(n, i);
        InstantiableValue(elems[i], name, name, tagName, vis);
        OneField(elems[i], name, name, tagName, vis);
      }
      ListInstantiable(v, n, g, tagName, vis, i);
  }

  lemma StructInstantiable(v: Value, n: string, g: string, tagName: string, vis: Visibility)
    requires v.StructValue? && ParseValue(v, n, g, tagName, vis).Parsed?
    requires GoodNames(ParseFields(v.fields, n, vis).fields)
    ensures AllInstantiable(ParseValue(v, n, g, tagName, vis).fields)
            <==> AllInstantiable(ParseFields(v.fields, n, vis).fields)
  {
    hide ParseFields;
    var p, sub := ParseValue(v, n, g, tagName, vis), ParseFields(v.fields, n, vis);
    if p.fields != sub.fields {
      assert p.fields == [Field(g, tagName, Struct, sub.fields, vis, 0)];
      assert p.fields[0] in p.fields;
      assert Instantiable(p.fields[0]) <==> AllInstantiable(sub.fields);
    }
  }

  lemma ListInstantiable(v: Value, n: string, g: string, tagName: string, vis: Visibility, i: nat)
    requires v.ListValue? && i == FirstLeaf(v.elems)
    requires ParseValue(v, n, g, tagName, vis).Parsed?
    requires var sub := ParseElems(v.elems, 0, n, tagName, vis);
             && sub.Parsed? && (i == |v.elems| <==> sub.fields == [])
             && (i < |v.elems| ==> (sub.fields[0].kind == Leaf <==> v.elems[i].Variable?)
                                   && (Instantiable(sub.fields[0]) <==> Buildable(v.elems[i])))
    ensures AllInstantiable(ParseValue(v, n, g, tagName, vis).fields) <==> Buildable(v)
  {
    hide ParseElems, HasLeaf, FirstLeaf;
    var p := ParseValue(v, n, g, tagName, vis);
    var sub := ParseElems(v.elems, 0, n, tagName, vis);
    if p.fields != [] {
      assert p.fields[0] in p.fields && |p.fields| == 1;
      if !IsVariableList(v.elems, v.named) {
        assert sub.fields[..1] == [sub.fields[0]];
      }
    }
  }

  lemma {:induction false} InstantiableFields(fields: seq<GoField>, n: string, vis: Visibility)
    requires ParseFields(fields, n, vis).Parsed? && forall f :: f in fields && Visited(f) ==> Named(f.value)
    ensures AllInstantiable(ParseFields(fields, n, vis).fields)
            <==> forall f :: f in fields && Visited(f) ==> Buildable(f.value)
    decreases fields, 0
  {
    hide ReadTag, ParseValue, Buildable, Instantiable, FullName, Named;
    if fields != [] {
      var h := fields[0];
      var info := ReadTag(h.tags.gnark);
      assert forall f :: f in fields <==> f == h || f in fields[1..];
      InstantiableFields(fields[1..], n, vis);
      if info.Info? {
        var q := ParseValue(h.value, FullName(n, h.name, info.nameTag), h.name, info.nameTag,
                            Inherit(vis, info.visibility));
        assert Visited(h);
        InstantiableValue(h.value, FullName(n, h.name, info.nameTag), h.name, info.nameTag,
                          Inherit(vis, info.visibility));
        var rest := ParseFields(fields[1..], n, vis);
        assert forall f :: f in q.fields + rest.fields <==> f in q.fields || f in rest.fields;
      }
    }
  }

  /** For every circuit that parses, building a value from its schema succeeds exactly when following the
      builder through the circuit meets no list, other than a plain list of variables, whose first
      element with a leaf is a variable, and the circuit is a struct or has no leaf: the one field of any
      other circuit has no name. */
  lemma PanicsIffNamedList(circuit: Value)
    requires Named(circuit) && Parse(circuit).Parsed?
    ensures CanInstantiate(Parse(circuit).fields)
            <==> Buildable(circuit) && (circuit.StructValue? || !HasLeaf(circuit))
    ensures AllInstantiable(Parse(circuit).fields) <==> Buildable(circuit)
  {
    hide ParseFields, ParseElems, Named, HasLeaf, Buildable;
    InstantiableValue(circuit, "", "", "", Unset);
    LeafIffField(circuit, "", "", "", Unset);
    var fields := Parse(circuit).fields;
    match circuit
    case Variable => assert fields[0].name == "";
    case OtherValue =>
    case ListValue(_, _) => assert fields != [] ==> fields[0].name == "";
    case StructValue(fs) => RootNamesGood(fs);
  }

  lemma RootNamesGood(fields: seq<GoField>)
    requires Named(StructValue(fields)) && ParseFields(fields, "", Unset).Parsed?
    ensures GoodNames(ParseFields(fields, "", Unset).fields)
  {
    NamesGood(fields, "", Unset);
  }

  /** A circuit with one field of list type and no tags. */
  function OneListCircuit(elems: seq<Value>, named: bool): seq<GoField> {
    [GoField("X", GoTags(None, None), ListValue(elems, named))]
  }

  lemma OneListParse(elems: seq<Value>, named: bool)
    requires ParseValue(ListValue(elems, named), "X", "X", "", Unset).Parsed?
    ensures Parse(StructValue(OneListCircuit(elems, named))) == ParseValue(ListValue(elems, named), "X", "X", "", Unset)
  {
    hide ParseElems;
    var fields := OneListCircuit(elems, named);
    var p := ParseValue(fields[0].value, "X", "X", "", Unset);
    assert fields[1..] == [];
    assert ParseFields([], "", Unset) == Parsed([], []);
    assert FullName("", "X", "") == "X";
    assert ReadTag(None) == Info("", Unset);
    assert p.fields + [] == p.fields && p.leaves + [] == p.leaves;
    assert ParseFields(fields, "", Unset) == Then(p, Parsed([], []));
  }

  /** A circuit whose schema cannot be built: a defined slice type holding one variable. */
  lemma NamedListPanics()
    ensures var p := Parse(StructValue(OneListCircuit([Variable], true)));
            p.Parsed? && !CanInstantiate(p.fields)
  {
    var list := ListValue([Variable], true);
    OneListParse([Variable], true);
    assert ParseElems([Variable][1..], 1, "X", "", Unset) == Parsed([], []);
    assert ParseElems([Variable], 0, "X", "", Unset).Parsed?;
    assert !Buildable(list) by {
      assert HasLeaf([Variable][0]);
      assert FirstLeaf([Variable]) == 0;
    }
    InstantiableValue(list, "X", "X", "", Unset);
  }
}
