/** Exactly when a circuit survives being rebuilt from its schema. */
module SchemaRebuild {
  import opened Term
  import opened Tags
  import opened Schema
  import opened SchemaLeaves
  import opened SchemaRoundTrip
  import opened DecimalText

  // ---- the value a schema is rebuilt to, as a function of the value it was parsed from ----

  /** What the tag of a rebuilt field says: variables are always given a visibility. */
  function PrintedVisibility(v: Value, vis: Visibility): Visibility {
    if v.Variable? then OrSecret(vis) else vis
  }

  /** Parts without a leaf are dropped, and every element of a list becomes a copy of what its first
      element with a leaf is rebuilt to. */
  ghost function Rebuild(v: Value, vis: Visibility, omitEmpty: bool): Value
    decreases v, 1
  {
    match v
    case Variable => Variable
    case OtherValue => OtherValue
    case StructValue(fields) => StructValue(RebuildFields(fields, vis, omitEmpty))
    case ListValue(elems, _) =>
      var i := FirstLeaf(elems);
      if i == |elems| then ListValue([], false)
      else ListValue(Copies(|elems|, Rebuild(elems[i], vis, omitEmpty)), false)
  }

  ghost function RebuildFields(fields: seq<GoField>, vis: Visibility, omitEmpty: bool): seq<GoField>
    decreases fields, 0
  {
    if fields == [] then []
    else
      var f := fields[0];
      var rest := RebuildFields(fields[1..], vis, omitEmpty);
      match ReadTag(f.tags.gnark)
      case Info(nameTag, own) =>
        if HasLeaf(f.value) then
          [GoField(f.name,
                   StructTag(nameTag, PrintedVisibility(f.value, Inherit(vis, own)), omitEmpty),
                   Rebuild(f.value, Inherit(vis, own), omitEmpty))] + rest
        else rest
      case _ => rest
  }

  /** The builder makes of a parsed field what Rebuild makes of the value it was parsed from. */
  lemma {:induction false} RebuildIs(
    v: Value, n: string, g: string, tagName: string, vis: Visibility, omitEmpty: bool)
    requires g != "" && Named(v) && Buildable(v) && HasLeaf(v)
    requires ParseValue(v, n, g, tagName, vis).Parsed?
    ensures var p := ParseValue(v, n, g, tagName, vis);
            && p.fields != [] && Instantiable(p.fields[0])
            && FieldValue(p.fields[0], omitEmpty) == Rebuild(v, vis, omitEmpty)
    decreases v, 1
  {
    hide ParseFields, ParseElems, RebuildFields, HasLeaf, FirstLeaf, ElementName;
    LeafIffField(v, n, g, tagName, vis);
    InstantiableValue(v, n, g, tagName, vis);
    var p := ParseValue(v, n, g, tagName, vis);
    assert p.fields[0] in p.fields;
    match v
    case Variable =>
    case OtherValue =>
    case StructValue(fields) =>
      RebuildFieldsIs(fields, n, vis, omitEmpty);
    case ListValue(elems, named) =>
      FirstGives(elems, 0, n, tagName, vis);
      if IsVariableList(elems, named) {
        FirstIsVariable(elems);
      } else {
        var i := FirstLeaf(elems);
        var name := ElementName(n, i);
        var sub := ParseElems(elems, 0, n, tagName, vis);
        RebuildIs(elems[i], name, name, tagName, vis, omitEmpty);
        OneField(elems[i], name, name, tagName, vis);
        assert p.fields[0].subFields == sub.fields[..1] == [sub.fields[0]];
        ElementIsFieldValue(|elems|, sub.fields[0], omitEmpty);
      }
  }

  lemma FirstIsVariable(elems: seq<Value>)
    requires elems != [] && elems[0].Variable?
    ensures FirstLeaf(elems) == 0
  {
    assert HasLeaf(elems[0]);
  }

  lemma {:induction false} RebuildFieldsIs(fields: seq<GoField>, n: string, vis: Visibility, omitEmpty: bool)
    requires Distinct(fields)
    requires forall f :: f in fields && Visited(f) ==> f.name != "" && Named(f.value) && Buildable(f.value)
    requires ParseFields(fields, n, vis).Parsed?
    ensures var p := ParseFields(fields, n, vis);
            CanInstantiate(p.fields) && ToStructFields(p.fields, omitEmpty) == RebuildFields(fields, vis, omitEmpty)
    decreases fields, 0
  {
    hide ReadTag, ParseValue, FullName, Named, Buildable, HasLeaf, Rebuild, Instantiable, FieldValue, StructTag,
         GoodNames, Distinct;
    NamesGood(fields, n, vis);
    if fields != [] {
      DistinctTail(fields);
      var f := fields[0];
      var info := ReadTag(f.tags.gnark);
      RebuildFieldsIs(fields[1..], n, vis, omitEmpty);
      if info.Info? {
        assert f in fields && Visited(f);
        var own, full := Inherit(vis, info.visibility), FullName(n, f.name, info.nameTag);
        var q, rest := ParseValue(f.value, full, f.name, info.nameTag, own), ParseFields(fields[1..], n, vis);
        LeafIffField(f.value, full, f.name, info.nameTag, own);
        OneField(f.value, full, f.name, info.nameTag, own);
        if HasLeaf(f.value) {
          RebuildIs(f.value, full, f.name, info.nameTag, own, omitEmpty);
          assert q.fields == [q.fields[0]];
          assert ([q.fields[0]] + rest.fields)[1..] == rest.fields;
        } else {
          assert q.fields + rest.fields == rest.fields;
        }
      }
    }
  }

  // ---- names that two fields may both give ----

  /** A name, from the value's own name on, that a leaf of the value has at some list indices. */
  ghost predicate MayName(v: Value, s: string)
    decreases v
  {
    match v
    case Variable => s == ""
    case OtherValue => false
    case StructValue(fields) =>
      s != "" && s[0] == '_' && exists f :: f in fields && Visited(f) && FieldMayName(f, s[1..])
    case ListValue(elems, _) =>
      s != "" && s[0] == '_'
      && exists e, j: nat, t :: e in elems && s[1..] == Decimal(j) + t && MayName(e, t)
  }

  /** A name a leaf of the field has, from the field's own name on. */
  ghost predicate FieldMayName(f: GoField, s: string)
    decreases f
  {
    exists t :: s == OwnName(f) + t && MayName(f.value, t)
  }

  ghost predicate Clash(f: GoField, g: GoField) {
    exists s :: FieldMayName(f, s) && FieldMayName(g, s)
  }

  ghost predicate FieldsApart(fields: seq<GoField>) {
    forall a, b :: 0 <= a < b < |fields| && Visited(fields[a]) && Visited(fields[b])
      ==> !Clash(fields[a], fields[b])
  }

  /** In no struct may leaves of two fields have the same name, whatever their list indices. */
  ghost predicate Apart(v: Value)
    decreases v
  {
    match v
    case Variable => true
    case OtherValue => true
    case StructValue(fields) => FieldsApart(fields) && forall f :: f in fields && Visited(f) ==> Apart(f.value)
    case ListValue(elems, _) => forall e :: e in elems ==> Apart(e)
  }

  /** No own name of a struct's fields begins another, up to an underscore or the end. */
  predicate BeginsWith(name: string, start: string) {
    start <= name && Continues(name[|start|..])
  }

  ghost predicate PrefixFree(v: Value)
    decreases v
  {
    match v
    case Variable => true
    case OtherValue => true
    case StructValue(fields) =>
      && (forall a, b :: 0 <= a < |fields| && 0 <= b < |fields| && a != b && Visited(fields[a]) && Visited(fields[b])
                         ==> !BeginsWith(OwnName(fields[b]), OwnName(fields[a])))
      && forall f :: f in fields && Visited(f) ==> PrefixFree(f.value)
    case ListValue(elems, _) => forall e :: e in elems ==> PrefixFree(e)
  }

  lemma MayNameContinues(v: Value, s: string)
    requires MayName(v, s)
    ensures Continues(s)
  {
  }

  lemma CommonStart(a: string, t: string, b: string, u: string)
    requires a + t == b + u && Continues(t) && |a| <= |b|
    ensures BeginsWith(b, a)
  {
    assert (a + t)[..|a|] == a == (b + u)[..|a|];
    assert a <= b;
    if |a| < |b| {
      assert (a + t)[|a|] == b[|a|] == t[0];
    }
  }

  /** Prefix-free own names keep the fields of every struct apart. */
  lemma {:induction false} PrefixFreeApart(v: Value)
    requires PrefixFree(v)
    ensures Apart(v)
    decreases v
  {
    match v
    case Variable =>
    case OtherValue =>
    case ListValue(elems, _) =>
      forall e | e in elems
        ensures Apart(e)
      {
        PrefixFreeApart(e);
      }
    case StructValue(fields) =>
      forall f | f in fields && Visited(f)
        ensures Apart(f.value)
      {
        PrefixFreeApart(f.value);
      }
      forall a, b | 0 <= a < b < |fields| && Visited(fields[a]) && Visited(fields[b])
        ensures !Clash(fields[a], fields[b])
      {
        var x, y := OwnName(fields[a]), OwnName(fields[b]);
        forall s | FieldMayName(fields[a], s)
          ensures !FieldMayName(fields[b], s)
        {
          var t :| s == x + t && MayName(fields[a].value, t);
          MayNameContinues(fields[a].value, t);
          forall u | s == y + u
            ensures !MayName(fields[b].value, u)
          {
            if MayName(fields[b].value, u) {
              MayNameContinues(fields[b].value, u);
              if |x| <= |y| {
                CommonStart(x, t, y, u);
              } else {
                CommonStart(y, u, x, t);
              }
            }
          }
        }
      }
  }

  // ---- the names of the leaves, before and after ----

  ghost predicate AllMayName(leaves: seq<LeafSeen>, v: Value) {
    forall i :: 0 <= i < |leaves| ==> MayName(v, leaves[i].name)
  }

  ghost predicate FieldsMayName(fields: seq<GoField>, s: string) {
    exists f :: f in fields && Visited(f) && FieldMayName(f, s)
  }

  ghost predicate AllFieldsMayName(leaves: seq<LeafSeen>, fields: seq<GoField>) {
    forall i :: 0 <= i < |leaves| ==> FieldsMayName(fields, leaves[i].name)
  }

  lemma UnderField(f: GoField, fields: seq<GoField>, leaves: seq<LeafSeen>)
    requires f in fields && Visited(f) && AllMayName(leaves, f.value)
    ensures AllFieldsMayName(Prefixed(OwnName(f), leaves), fields)
    ensures AllIn(Prefixed(OwnName(f), leaves), OfField(f))
  {
    hide OwnName, Visited, MayName;
    var all := Prefixed(OwnName(f), leaves);
    forall i | 0 <= i < |all|
      ensures FieldMayName(f, all[i].name) && FieldsMayName(fields, all[i].name)
    {
      assert MayName(f.value, leaves[i].name);
    }
  }

  ghost function OfField(f: GoField): LeafSeen -> bool {
    (l: LeafSeen) => FieldMayName(f, l.name)
  }

  lemma MoreFields(leaves: seq<LeafSeen>, fields: seq<GoField>)
    requires fields != [] && AllFieldsMayName(leaves, fields[1..])
    ensures AllFieldsMayName(leaves, fields)
  {
    forall i | 0 <= i < |leaves|
      ensures FieldsMayName(fields, leaves[i].name)
    {
      assert FieldsMayName(fields[1..], leaves[i].name);
      var f :| f in fields[1..] && Visited(f) && FieldMayName(f, leaves[i].name);
      assert f in fields;
    }
  }

  lemma UnderStruct(fields: seq<GoField>, leaves: seq<LeafSeen>)
    requires AllFieldsMayName(leaves, fields)
    ensures AllMayName(Prefixed("_", leaves), StructValue(fields))
  {
    var all := Prefixed("_", leaves);
    forall i | 0 <= i < |all|
      ensures MayName(StructValue(fields), all[i].name)
    {
      assert FieldsMayName(fields, leaves[i].name);
      assert all[i].name[1..] == leaves[i].name;
    }
  }

  lemma UnderElement(elems: seq<Value>, named: bool, e: Value, j: nat, leaves: seq<LeafSeen>)
    requires e in elems && AllMayName(leaves, e)
    ensures AllMayName(Prefixed("_", Prefixed(Decimal(j), leaves)), ListValue(elems, named))
  {
    hide Decimal;
    var all := Prefixed("_", Prefixed(Decimal(j), leaves));
    forall i | 0 <= i < |all|
      ensures MayName(ListValue(elems, named), all[i].name)
    {
      assert MayName(e, leaves[i].name);
      assert all[i].name[1..] == Decimal(j) + leaves[i].name;
    }
  }

  lemma BothMayName(a: seq<LeafSeen>, b: seq<LeafSeen>, v: Value)
    requires AllMayName(a, v) && AllMayName(b, v)
    ensures AllMayName(a + b, v)
  {
  }

  lemma BothFieldsMayName(a: seq<LeafSeen>, b: seq<LeafSeen>, fields: seq<GoField>)
    requires AllFieldsMayName(a, fields) && AllFieldsMayName(b, fields)
    ensures AllFieldsMayName(a + b, fields)
  {
  }

  lemma {:induction false} NamesMay(v: Value, vis: Visibility)
    ensures AllMayName(RelLeaves(v, vis), v)
    decreases v, 1
  {
    hide FieldLeaves, ElemLeaves, AllMayName;
    match v
    case Variable => OneName(v, vis);
    case OtherValue => NoName(v);
    case StructValue(fields) =>
      FieldNamesMay(fields, vis);
      UnderStruct(fields, FieldLeaves(fields, vis));
    case ListValue(elems, named) =>
      ElemNamesMay(elems, elems, named, 0, vis);
  }

  lemma OneName(v: Value, vis: Visibility)
    requires v.Variable?
    ensures AllMayName(RelLeaves(v, vis), v)
  {
  }

  lemma NoName(v: Value)
    ensures AllMayName([], v)
  {
  }

  lemma {:induction false} FieldNamesMay(fields: seq<GoField>, vis: Visibility)
    ensures AllFieldsMayName(FieldLeaves(fields, vis), fields)
    decreases fields, 0
  {
    hide ReadTag, RelLeaves, OwnName, AllFieldsMayName, AllMayName;
    if fields != [] {
      var f := fields[0];
      FieldNamesMay(fields[1..], vis);
      MoreFields(FieldLeaves(fields[1..], vis), fields);
      var info := ReadTag(f.tags.gnark);
      if info.Info? {
        var own := Inherit(vis, info.visibility);
        NamesMay(f.value, own);
        UnderField(f, fields, RelLeaves(f.value, own));
        BothFieldsMayName(Prefixed(OwnName(f), RelLeaves(f.value, own)), FieldLeaves(fields[1..], vis), fields);
      }
    } else {
      NoFieldName(fields);
    }
  }

  lemma NoFieldName(fields: seq<GoField>)
    ensures AllFieldsMayName([], fields)
  {
  }

  lemma {:induction false} ElemNamesMay(elems: seq<Value>, all: seq<Value>, named: bool, j: nat, vis: Visibility)
    requires elems <= all || forall e :: e in elems ==> e in all
    ensures AllMayName(Prefixed("_", ElemLeaves(elems, j, vis)), ListValue(all, named))
    decreases elems, 0
  {
    hide RelLeaves, Decimal, AllMayName, Prefixed;
    if elems != [] {
      assert forall e :: e in elems ==> e in all;
      ElemNamesMay(elems[1..], all, named, j + 1, vis);
      NamesMay(elems[0], vis);
      var first := Prefixed(Decimal(j), RelLeaves(elems[0], vis));
      UnderElement(all, named, elems[0], j, RelLeaves(elems[0], vis));
      PrefixedAppend("_", first, ElemLeaves(elems[1..], j + 1, vis));
      BothMayName(Prefixed("_", first), Prefixed("_", ElemLeaves(elems[1..], j + 1, vis)), ListValue(all, named));
    } else {
      NothingPrefixed("_");
      NoName(ListValue(all, named));
    }
  }

  // ---- the leaves of a rebuilt value ----

  /** How a rebuilt field reads: its own name and inherited visibility are those of the original. */
  lemma RebuiltFieldReads(f: GoField, vis: Visibility, omitEmpty: bool) returns (g: GoField)
    requires ReadTag(f.tags.gnark).Info? && Settable(vis) && !Conflict(vis, ReadTag(f.tags.gnark).visibility)
    ensures var info := ReadTag(f.tags.gnark);
            var own := Inherit(vis, info.visibility);
            var printed := PrintedVisibility(f.value, own);
            && g == GoField(f.name, StructTag(info.nameTag, printed, omitEmpty), Rebuild(f.value, own, omitEmpty))
            && ReadTag(g.tags.gnark) == Info(info.nameTag, printed)
            && Inherit(vis, printed) == printed
            && OwnName(g) == OwnName(f) && Settable(own)
            && !Conflict(vis, printed) && RelLeaves(g.value, printed) == RelLeaves(g.value, own)
  {
    hide ReadTag, StructTag, Rebuild;
    var info := ReadTag(f.tags.gnark);
    var own := Inherit(vis, info.visibility);
    var printed := PrintedVisibility(f.value, own);
    ReadTagName(f.tags.gnark);
    g := GoField(f.name, StructTag(info.nameTag, printed, omitEmpty), Rebuild(f.value, own, omitEmpty));
    var field := Field(f.name, info.nameTag, Leaf, [], printed, 0);
    PrintedFieldReads(vis, f.tags.gnark, field, omitEmpty);
    SecretAnyway(f.value, own, omitEmpty);
  }

  lemma SecretAnyway(v: Value, own: Visibility, omitEmpty: bool)
    ensures v.Variable? ==> RelLeaves(Rebuild(v, own, omitEmpty), OrSecret(own))
                            == RelLeaves(Rebuild(v, own, omitEmpty), own)
  {
  }

  lemma {:induction false} RebuiltNamesMay(
    v: Value, n: string, g: string, tagName: string, vis: Visibility, omitEmpty: bool)
    requires Settable(vis) && ParseValue(v, n, g, tagName, vis).Parsed?
    ensures AllMayName(RelLeaves(Rebuild(v, vis, omitEmpty), vis), v)
    decreases v, 1
  {
    hide FieldLeaves, ElemLeaves, AllMayName, RebuildFields, FirstLeaf, HasLeaf, ParseFields, ParseElems, ElementName;
    match v
    case Variable => OneName(v, vis);
    case OtherValue => NoName(v);
    case StructValue(fields) =>
      RebuiltFieldNamesMay(fields, n, vis, omitEmpty);
      UnderStruct(fields, FieldLeaves(RebuildFields(fields, vis, omitEmpty), vis));
    case ListValue(elems, named) =>
      var i := FirstLeaf(elems);
      FirstGives(elems, 0, n, tagName, vis);
      if i < |elems| {
        var name, e := ElementName(n, i), Rebuild(elems[i], vis, omitEmpty);
        RebuiltNamesMay(elems[i], name, name, tagName, vis, omitEmpty);
        CopiesNamesMay(elems, named, elems[i], e, |elems|, 0, vis);
      } else {
        NoElemLeaves(vis);
        NothingPrefixed("_");
        NoName(v);
      }
  }

  lemma NoElemLeaves(vis: Visibility)
    ensures ElemLeaves([], 0, vis) == []
  {
  }

  lemma {:induction false} CopiesNamesMay(
    elems: seq<Value>, named: bool, source: Value, e: Value, k: nat, j: nat, vis: Visibility)
    requires source in elems && AllMayName(RelLeaves(e, vis), source)
    ensures AllMayName(Prefixed("_", ElemLeaves(Copies(k, e), j, vis)), ListValue(elems, named))
    decreases k
  {
    hide RelLeaves, Decimal, AllMayName, Prefixed, Copies;
    if k > 0 {
      CopiesTail(k, e);
      CopiesNamesMay(elems, named, source, e, k - 1, j + 1, vis);
      var first, rest := Prefixed(Decimal(j), RelLeaves(e, vis)), ElemLeaves(Copies(k - 1, e), j + 1, vis);
      UnderElement(elems, named, source, j, RelLeaves(e, vis));
      PrefixedAppend("_", first, rest);
      BothMayName(Prefixed("_", first), Prefixed("_", rest), ListValue(elems, named));
    } else {
      NothingPrefixed("_");
      NoName(ListValue(elems, named));
    }
  }

  lemma {:induction false} RebuiltFieldNamesMay(fields: seq<GoField>, n: string, vis: Visibility, omitEmpty: bool)
    requires Settable(vis) && ParseFields(fields, n, vis).Parsed?
    ensures AllFieldsMayName(FieldLeaves(RebuildFields(fields, vis, omitEmpty), vis), fields)
    decreases fields, 0
  {
    hide ReadTag, RelLeaves, OwnName, AllFieldsMayName, AllMayName, ParseValue, FullName, Rebuild, HasLeaf, StructTag;
    if fields != [] {
      var f := fields[0];
      var info := ReadTag(f.tags.gnark);
      RebuiltFieldNamesMay(fields[1..], n, vis, omitEmpty);
      var rest := RebuildFields(fields[1..], vis, omitEmpty);
      MoreFields(FieldLeaves(rest, vis), fields);
      if info.Info? && HasLeaf(f.value) {
        var own := Inherit(vis, info.visibility);
        var g := RebuiltFieldReads(f, vis, omitEmpty);
        RebuiltNamesMay(f.value, FullName(n, f.name, info.nameTag), f.name, info.nameTag, own, omitEmpty);
        UnderField(f, fields, RelLeaves(g.value, own));
        FirstFieldLeaves(g, rest, vis);
        BothFieldsMayName(Prefixed(OwnName(f), RelLeaves(g.value, own)), FieldLeaves(rest, vis), fields);
      }
    } else {
      NoFieldName(fields);
    }
  }

  lemma FirstFieldLeaves(g: GoField, rest: seq<GoField>, vis: Visibility)
    requires ReadTag(g.tags.gnark).Info?
    ensures FieldLeaves([g] + rest, vis)
            == Prefixed(OwnName(g), RelLeaves(g.value, Inherit(vis, ReadTag(g.tags.gnark).visibility)))
               + FieldLeaves(rest, vis)
  {
    hide ReadTag, RelLeaves, OwnName;
    assert ([g] + rest)[1..] == rest;
  }

  // ---- a rebuilt value parses ----

  lemma {:induction false} RebuiltParses(
    v: Value, n: string, g: string, tagName: string, vis: Visibility, omitEmpty: bool)
    requires Settable(vis) && ParseValue(v, n, g, tagName, vis).Parsed?
    ensures ParseValue(Rebuild(v, vis, omitEmpty), n, g, tagName, vis).Parsed?
    decreases v, 1
  {
    hide RebuildFields, FirstLeaf, HasLeaf, ParseFields, ParseElems, ElementName, Copies;
    match v
    case Variable =>
    case OtherValue =>
    case StructValue(fields) => RebuiltFieldsParse(fields, n, vis, omitEmpty);
    case ListValue(elems, named) =>
      var i := FirstLeaf(elems);
      FirstGives(elems, 0, n, tagName, vis);
      if i < |elems| {
        var name, e := ElementName(n, i), Rebuild(elems[i], vis, omitEmpty);
        RebuiltParses(elems[i], name, name, tagName, vis, omitEmpty);
        CopiesParse(e, |elems|, 0, n, name, tagName, vis);
      } else {
        NoElemsParse(n, tagName, vis);
      }
  }

  lemma NoElemsParse(n: string, tagName: string, vis: Visibility)
    ensures ParseElems([], 0, n, tagName, vis).Parsed?
  {
  }

  lemma {:induction false} RebuiltFieldsParse(fields: seq<GoField>, n: string, vis: Visibility, omitEmpty: bool)
    requires Settable(vis) && ParseFields(fields, n, vis).Parsed?
    ensures ParseFields(RebuildFields(fields, vis, omitEmpty), n, vis).Parsed?
    decreases fields, 0
  {
    hide ReadTag, ParseValue, FullName, Rebuild, HasLeaf, StructTag;
    if fields != [] {
      var f := fields[0];
      var info := ReadTag(f.tags.gnark);
      RebuiltFieldsParse(fields[1..], n, vis, omitEmpty);
      if info.Info? && HasLeaf(f.value) {
        var own, full := Inherit(vis, info.visibility), FullName(n, f.name, info.nameTag);
        var g := RebuiltFieldReads(f, vis, omitEmpty);
        RebuiltParses(f.value, full, f.name, info.nameTag, own, omitEmpty);
        VariableParses(f.value, own, full, f.name, info.nameTag, omitEmpty);
        var rest := RebuildFields(fields[1..], vis, omitEmpty);
        assert ([g] + rest)[1..] == rest;
      }
    }
  }

  lemma VariableParses(v: Value, own: Visibility, n: string, g: string, tagName: string, omitEmpty: bool)
    ensures v.Variable? ==> ParseValue(Rebuild(v, own, omitEmpty), n, g, tagName, OrSecret(own)).Parsed?
  {
  }

  // ---- only uniform circuits keep their leaves ----

  lemma {:induction false} LeaflessUniform(v: Value, n: string, g: string, tagName: string, vis: Visibility)
    requires ParseValue(v, n, g, tagName, vis).Parsed? && !HasLeaf(v)
    ensures RelLeaves(v, vis) == [] && Uniform(v, vis)
    decreases v, 1
  {
    hide ParseFields, ParseElems, ElementName;
    match v
    case Variable =>
    case OtherValue =>
    case StructValue(fields) =>
      LeaflessFields(fields, n, vis);
      NothingPrefixed("_");
    case ListValue(elems, _) =>
      LeaflessElems(elems, 0, n, tagName, vis);
      NothingPrefixed("_");
  }

  lemma {:induction false} LeaflessFields(fields: seq<GoField>, n: string, vis: Visibility)
    requires ParseFields(fields, n, vis).Parsed?
    requires forall f :: f in fields && Visited(f) ==> !HasLeaf(f.value)
    ensures FieldLeaves(fields, vis) == [] && AllUniform(fields, vis)
    decreases fields, 0
  {
    hide ReadTag, ParseValue, FullName, HasLeaf, RelLeaves, Uniform, OwnName;
    if fields != [] {
      var f := fields[0];
      var info := ReadTag(f.tags.gnark);
      LeaflessFields(fields[1..], n, vis);
      if info.Info? {
        assert f in fields && Visited(f);
        LeaflessUniform(f.value, FullName(n, f.name, info.nameTag), f.name, info.nameTag,
                        Inherit(vis, info.visibility));
        NothingPrefixed(OwnName(f));
      }
      assert forall g :: g in fields <==> g == f || g in fields[1..];
    }
  }

  lemma {:induction false} LeaflessElems(elems: seq<Value>, j: nat, n: string, tagName: string, vis: Visibility)
    requires ParseElems(elems, j, n, tagName, vis).Parsed?
    requires forall e :: e in elems ==> !HasLeaf(e)
    ensures ElemLeaves(elems, j, vis) == []
    ensures forall i :: 0 <= i < |elems| ==> RelLeaves(elems[i], vis) == [] && Uniform(elems[i], vis)
    decreases elems, 0
  {
    hide ParseValue, HasLeaf, RelLeaves, Uniform, Decimal, ElementName;
    if elems != [] {
      var name := ElementName(n, j);
      assert elems[0] in elems;
      LeaflessElems(elems[1..], j + 1, n, tagName, vis);
      LeaflessUniform(elems[0], name, name, tagName, vis);
      NothingPrefixed(Decimal(j));
      assert forall i :: 0 < i < |elems| ==> elems[i] == elems[1..][i - 1];
    }
  }

  lemma {:induction false} KeptIsUniform(
    v: Value, n: string, g: string, tagName: string, vis: Visibility, omitEmpty: bool)
    requires Settable(vis) && Apart(v) && ParseValue(v, n, g, tagName, vis).Parsed?
    requires RelLeaves(Rebuild(v, vis, omitEmpty), vis) == RelLeaves(v, vis)
    ensures Uniform(v, vis)
    decreases v, 1
  {
    hide FieldLeaves, ElemLeaves, RebuildFields, FirstLeaf, HasLeaf, ParseFields, ParseElems, ElementName,
         FieldsApart, Decimal;
    match v
    case Variable =>
    case OtherValue =>
    case StructValue(fields) =>
      PrefixedSame("_", FieldLeaves(RebuildFields(fields, vis, omitEmpty), vis), FieldLeaves(fields, vis));
      KeptFieldsUniform(fields, n, vis, omitEmpty);
    case ListValue(elems, named) =>
      var i := FirstLeaf(elems);
      FirstGives(elems, 0, n, tagName, vis);
      if i < |elems| {
        var e := Rebuild(elems[i], vis, omitEmpty);
        PrefixedSame("_", ElemLeaves(Copies(|elems|, e), 0, vis), ElemLeaves(elems, 0, vis));
        ElemsSame(Copies(|elems|, e), elems, 0, vis);
        UniformGives(elems, n, tagName, vis);
        var name := ElementName(n, 0);
        KeptIsUniform(elems[0], name, name, tagName, vis, omitEmpty);
      } else {
        LeafIffElems(elems, 0, n, tagName, vis);
        LeaflessElems(elems, 0, n, tagName, vis);
      }
  }

  lemma {:induction false} KeptFieldsUniform(fields: seq<GoField>, n: string, vis: Visibility, omitEmpty: bool)
    requires Settable(vis) && ParseFields(fields, n, vis).Parsed? && FieldsApart(fields)
    requires forall f :: f in fields && Visited(f) ==> Apart(f.value)
    requires FieldLeaves(RebuildFields(fields, vis, omitEmpty), vis) == FieldLeaves(fields, vis)
    ensures AllUniform(fields, vis)
    decreases fields, 0
  {
    hide ReadTag, ParseValue, FullName, HasLeaf, RelLeaves, Uniform, OwnName, Rebuild, StructTag, Apart, FieldsApart,
         AllMayName, AllFieldsMayName;
    if fields != [] {
      var f, later := fields[0], fields[1..];
      var info := ReadTag(f.tags.gnark);
      LaterApart(fields);
      if info.Info? {
        var own, full := Inherit(vis, info.visibility), FullName(n, f.name, info.nameTag);
        assert f in fields && Visited(f);
        if HasLeaf(f.value) {
          var g := RebuiltFieldReads(f, vis, omitEmpty);
          var rebuilt := RebuildFields(later, vis, omitEmpty);
          FirstFieldLeaves(g, rebuilt, vis);
          FieldLeavesApart(f, g.value, fields, rebuilt, n, vis, omitEmpty);
          KeptIsUniform(f.value, full, f.name, info.nameTag, own, omitEmpty);
        } else {
          LeaflessUniform(f.value, full, f.name, info.nameTag, own);
          NothingPrefixed(OwnName(f));
        }
      }
      KeptFieldsUniform(later, n, vis, omitEmpty);
      assert forall h :: h in fields <==> h == f || h in later;
    }
  }

  lemma LaterApart(fields: seq<GoField>)
    requires fields != [] && FieldsApart(fields)
    ensures FieldsApart(fields[1..])
    ensures Visited(fields[0]) ==> forall b :: 0 <= b < |fields| - 1 && Visited(fields[1..][b])
                                     ==> !Clash(fields[0], fields[1..][b])
  {
    hide Clash, Visited;
  }

  /** The leaves of a struct's first field are told apart from those of the later ones by their names,
      before and after rebuilding. */
  lemma FieldLeavesApart(
    f: GoField, e: Value, fields: seq<GoField>, rebuilt: seq<GoField>, n: string, vis: Visibility, omitEmpty: bool)
    requires fields != [] && f == fields[0] && ReadTag(f.tags.gnark).Info? && Settable(vis) && FieldsApart(fields)
    requires ParseFields(fields, n, vis).Parsed? && rebuilt == RebuildFields(fields[1..], vis, omitEmpty)
    requires var own := Inherit(vis, ReadTag(f.tags.gnark).visibility);
             && Settable(own) && e == Rebuild(f.value, own, omitEmpty)
             && Prefixed(OwnName(f), RelLeaves(e, own)) + FieldLeaves(rebuilt, vis) == FieldLeaves(fields, vis)
    ensures var own := Inherit(vis, ReadTag(f.tags.gnark).visibility);
            RelLeaves(e, own) == RelLeaves(f.value, own)
    ensures FieldLeaves(rebuilt, vis) == FieldLeaves(fields[1..], vis)
  {
    hide ReadTag, ParseValue, FullName, RelLeaves, OwnName, Rebuild, RebuildFields, FieldsApart, AllMayName,
         AllFieldsMayName;
    var later, info := fields[1..], ReadTag(f.tags.gnark);
    var own, full := Inherit(vis, info.visibility), FullName(n, f.name, info.nameTag);
    NamesMay(f.value, own);
    RebuiltNamesMay(f.value, full, f.name, info.nameTag, own, omitEmpty);
    UnderField(f, fields, RelLeaves(f.value, own));
    UnderField(f, fields, RelLeaves(e, own));
    FieldNamesMay(later, vis);
    RebuiltFieldNamesMay(later, n, vis, omitEmpty);
    LaterApart(fields);
    NoneOfField(f, later, FieldLeaves(later, vis));
    NoneOfField(f, later, FieldLeaves(rebuilt, vis));
    SplitByClass(Prefixed(OwnName(f), RelLeaves(e, own)), FieldLeaves(rebuilt, vis),
                 Prefixed(OwnName(f), RelLeaves(f.value, own)), FieldLeaves(later, vis), OfField(f));
    PrefixedSame(OwnName(f), RelLeaves(e, own), RelLeaves(f.value, own));
  }

  lemma NoneOfField(f: GoField, later: seq<GoField>, leaves: seq<LeafSeen>)
    requires AllFieldsMayName(leaves, later)
    requires forall b :: 0 <= b < |later| && Visited(later[b]) ==> !Clash(f, later[b])
    ensures NoneIn(leaves, OfField(f))
  {
    hide FieldMayName, Visited;
    forall i | 0 <= i < |leaves|
      ensures !OfField(f)(leaves[i])
    {
      assert FieldsMayName(later, leaves[i].name);
      var g :| g in later && Visited(g) && FieldMayName(g, leaves[i].name);
    }
  }

  // ---- circuits whose lists start with a leaf ----

  /** On the builder's way every list with a leaf has one in its first element. */
  ghost predicate FirstZero(v: Value)
    decreases v
  {
    match v
    case Variable => true
    case OtherValue => true
    case StructValue(fields) => forall f :: f in fields && Visited(f) && HasLeaf(f.value) ==> FirstZero(f.value)
    case ListValue(elems, _) =>
      var i := FirstLeaf(elems);
      i == |elems| || (i == 0 && FirstZero(elems[0]))
  }

  function OfElementAt(base: string, j: nat): LeafSeen -> bool {
    (l: LeafSeen) => |l.name| >= |base| && Head(l.name[|base|..]) == Decimal(j)
  }

  lemma ElementsApart(base: string, e: Value, j: nat, rest: seq<Value>, vis: Visibility)
    ensures AllIn(Prefixed(base, Prefixed(Decimal(j), RelLeaves(e, vis))), OfElementAt(base, j))
    ensures NoneIn(Prefixed(base, ElemLeaves(rest, j + 1, vis)), OfElementAt(base, j))
  {
    hide RelLeaves, ElemLeaves, Decimal, Head;
    FirstElemApart(e, j, rest, vis);
    UnderBase(base, Prefixed(Decimal(j), RelLeaves(e, vis)), j);
    UnderBase(base, ElemLeaves(rest, j + 1, vis), j);
  }

  lemma UnderBase(base: string, leaves: seq<LeafSeen>, j: nat)
    ensures AllIn(leaves, OfElement(j)) ==> AllIn(Prefixed(base, leaves), OfElementAt(base, j))
    ensures NoneIn(leaves, OfElement(j)) ==> NoneIn(Prefixed(base, leaves), OfElementAt(base, j))
  {
    hide Decimal, Head;
    var all := Prefixed(base, leaves);
    forall i | 0 <= i < |all|
      ensures OfElementAt(base, j)(all[i]) == OfElement(j)(leaves[i])
    {
      assert all[i].name[|base|..] == leaves[i].name;
    }
  }

  /** Whatever stands before, a class whose last member ends the first part of two equal sequences splits
      them in the same place. */
  lemma SplitAtLast(
    p: seq<LeafSeen>, x: seq<LeafSeen>, t: seq<LeafSeen>, q: seq<LeafSeen>, y: seq<LeafSeen>, u: seq<LeafSeen>,
    belongs: LeafSeen -> bool)
    requires p + (x + t) == q + (y + u) && x != [] && y != []
    requires AllIn(x, belongs) && AllIn(y, belongs) && NoneIn(t, belongs) && NoneIn(u, belongs)
    ensures p + x == q + y && t == u
  {
    var s, s' := p + (x + t), q + (y + u);
    Grouped(p, x, t);
    Grouped(q, y, u);
    assert belongs(s[|p + x| - 1]) && belongs(s'[|q + y| - 1]);
    assert forall i :: |p + x| <= i < |s| ==> !belongs(s[i]);
    assert forall i :: |q + y| <= i < |s'| ==> !belongs(s'[i]);
    assert |p + x| == |q + y|;
    assert s[..|p + x|] == p + x && s'[..|q + y|] == q + y;
    assert s[|p + x|..] == t && s'[|q + y|..] == u;
  }

  /** If the leaves of a value and those of what it is rebuilt to end two equal sequences, they are the
      same, and the value is uniform. */
  lemma {:induction false} SuffixKept(
    v: Value, n: string, g: string, tagName: string, vis: Visibility, omitEmpty: bool,
    base: string, p: seq<LeafSeen>, q: seq<LeafSeen>)
    requires Settable(vis) && FirstZero(v) && ParseValue(v, n, g, tagName, vis).Parsed?
    requires p + Prefixed(base, RelLeaves(v, vis)) == q + Prefixed(base, RelLeaves(Rebuild(v, vis, omitEmpty), vis))
    ensures p == q && Uniform(v, vis)
    decreases v, 1
  {
    hide FieldLeaves, ElemLeaves, RebuildFields, FirstLeaf, HasLeaf, ParseFields, ParseElems, ElementName, Decimal;
    match v
    case Variable => SameEnd(p, q, Prefixed(base, RelLeaves(v, vis)));
    case OtherValue => SameEnd(p, q, Prefixed(base, RelLeaves(v, vis)));
    case StructValue(fields) =>
      PrefixedTwice(base, "_", FieldLeaves(fields, vis));
      PrefixedTwice(base, "_", FieldLeaves(RebuildFields(fields, vis, omitEmpty), vis));
      SuffixKeptFields(fields, n, vis, omitEmpty, base + "_", p, q);
    case ListValue(elems, named) =>
      FirstGives(elems, 0, n, tagName, vis);
      if FirstLeaf(elems) < |elems| {
        var copies := Copies(|elems|, Rebuild(elems[0], vis, omitEmpty));
        PrefixedTwice(base, "_", ElemLeaves(elems, 0, vis));
        PrefixedTwice(base, "_", ElemLeaves(copies, 0, vis));
        SuffixKeptElems(elems, n, tagName, vis, omitEmpty, base + "_", p, q);
      } else {
        LeafIffElems(elems, 0, n, tagName, vis);
        LeaflessElems(elems, 0, n, tagName, vis);
        NoElemLeaves(vis);
        NothingPrefixed("_");
        SameEnd(p, q, Prefixed(base, []));
      }
  }

  lemma SameEnd(p: seq<LeafSeen>, q: seq<LeafSeen>, end: seq<LeafSeen>)
    requires p + end == q + end
    ensures p == q
  {
    assert (p + end)[..|p|] == p && (q + end)[..|q|] == q;
  }

  lemma {:induction false} RebuiltHasLeaf(
    v: Value, n: string, g: string, tagName: string, vis: Visibility, omitEmpty: bool)
    requires Settable(vis) && HasLeaf(v) && ParseValue(v, n, g, tagName, vis).Parsed?
    ensures HasLeaf(Rebuild(v, vis, omitEmpty))
    decreases v, 1
  {
    hide RebuildFields, FirstLeaf, ParseFields, ParseElems, ElementName;
    match v
    case Variable =>
    case OtherValue =>
    case StructValue(fields) => RebuiltFieldsHaveLeaf(fields, n, vis, omitEmpty);
    case ListValue(elems, _) =>
      FirstGives(elems, 0, n, tagName, vis);
      LeafIffElems(elems, 0, n, tagName, vis);
      var i := FirstLeaf(elems);
      var name, e := ElementName(n, i), Rebuild(elems[i], vis, omitEmpty);
      RebuiltHasLeaf(elems[i], name, name, tagName, vis, omitEmpty);
      assert Copies(|elems|, e)[0] == e && e in Copies(|elems|, e);
  }

  lemma {:induction false} RebuiltFieldsHaveLeaf(fields: seq<GoField>, n: string, vis: Visibility, omitEmpty: bool)
    requires Settable(vis) && ParseFields(fields, n, vis).Parsed?
    requires exists f :: f in fields && Visited(f) && HasLeaf(f.value)
    ensures exists g :: g in RebuildFields(fields, vis, omitEmpty) && Visited(g) && HasLeaf(g.value)
    decreases fields, 0
  {
    hide ReadTag, ParseValue, FullName, HasLeaf, Rebuild, StructTag;
    var f := fields[0];
    var info := ReadTag(f.tags.gnark);
    if info.Info? && HasLeaf(f.value) {
      var own := Inherit(vis, info.visibility);
      var g := RebuiltFieldReads(f, vis, omitEmpty);
      RebuiltHasLeaf(f.value, FullName(n, f.name, info.nameTag), f.name, info.nameTag, own, omitEmpty);
      assert g in RebuildFields(fields, vis, omitEmpty);
    } else {
      assert forall h :: h in fields <==> h == f || h in fields[1..];
      RebuiltFieldsHaveLeaf(fields[1..], n, vis, omitEmpty);
    }
  }

  lemma HasLeafGives(v: Value, name: string, tagName: string, vis: Visibility)
    requires name != "" && HasLeaf(v) && ParseValue(v, name, name, tagName, vis).Parsed?
    ensures RelLeaves(v, vis) != []
  {
    hide RelLeaves, ParseValue, HasLeaf;
    LeavesAre(v, name, name, tagName, vis);
    LeafIffField(v, name, name, tagName, vis);
  }

  /** Lists of one length whose first elements have leaves are split after those, whatever stands before. */
  lemma FirstElementsMeet(
    a: seq<Value>, b: seq<Value>, vis: Visibility, base: string, p: seq<LeafSeen>, q: seq<LeafSeen>)
    requires |a| == |b| && a != [] && RelLeaves(a[0], vis) != [] && RelLeaves(b[0], vis) != []
    requires p + Prefixed(base, ElemLeaves(a, 0, vis)) == q + Prefixed(base, ElemLeaves(b, 0, vis))
    ensures p + Prefixed(base + "0", RelLeaves(a[0], vis)) == q + Prefixed(base + "0", RelLeaves(b[0], vis))
    ensures forall i :: 0 < i < |a| ==> RelLeaves(a[i], vis) == RelLeaves(b[i], vis)
  {
    hide RelLeaves, Prefixed, Decimal, ElemLeaves, OfElementAt, AllIn, NoneIn;
    ZeroIs();
    FirstElemLeaves(a, vis);
    FirstElemLeaves(b, vis);
    NotNothing("0", RelLeaves(a[0], vis), base);
    NotNothing("0", RelLeaves(b[0], vis), base);
    var x, y := Prefixed("0", RelLeaves(a[0], vis)), Prefixed("0", RelLeaves(b[0], vis));
    var t, u := ElemLeaves(a[1..], 1, vis), ElemLeaves(b[1..], 1, vis);
    PrefixedAppend(base, x, t);
    PrefixedAppend(base, y, u);
    ElementsApart(base, a[0], 0, a[1..], vis);
    ElementsApart(base, b[0], 0, b[1..], vis);
    SplitAtLast(p, Prefixed(base, x), Prefixed(base, t), q, Prefixed(base, y), Prefixed(base, u), OfElementAt(base, 0));
    PrefixedTwice(base, "0", RelLeaves(a[0], vis));
    PrefixedTwice(base, "0", RelLeaves(b[0], vis));
    PrefixedSame(base, t, u);
    ElemsSame(a[1..], b[1..], 1, vis);
    assert forall i :: 0 < i < |a| ==> a[i] == a[1..][i - 1] && b[i] == b[1..][i - 1];
  }

  lemma FirstElemLeaves(elems: seq<Value>, vis: Visibility)
    requires elems != []
    ensures ElemLeaves(elems, 0, vis)
            == Prefixed(Decimal(0), RelLeaves(elems[0], vis)) + ElemLeaves(elems[1..], 1, vis)
  {
  }

  lemma NotNothing(own: string, leaves: seq<LeafSeen>, base: string)
    requires leaves != []
    ensures Prefixed(base, Prefixed(own, leaves)) != []
  {
    assert |Prefixed(base, Prefixed(own, leaves))| == |leaves|;
  }

  lemma ZeroIs()
    ensures Decimal(0) == "0"
  {
  }

  lemma {:induction false} SuffixKeptElems(
    elems: seq<Value>, n: string, tagName: string, vis: Visibility, omitEmpty: bool,
    base: string, p: seq<LeafSeen>, q: seq<LeafSeen>)
    requires Settable(vis) && elems != [] && FirstLeaf(elems) == 0 && FirstZero(elems[0])
    requires ParseElems(elems, 0, n, tagName, vis).Parsed?
    requires p + Prefixed(base, ElemLeaves(elems, 0, vis))
             == q + Prefixed(base, ElemLeaves(Copies(|elems|, Rebuild(elems[0], vis, omitEmpty)), 0, vis))
    ensures p == q && Uniform(elems[0], vis)
    ensures forall i :: 0 <= i < |elems| ==> RelLeaves(elems[i], vis) == RelLeaves(elems[0], vis)
    decreases elems, 0
  {
    hide ElemLeaves, Rebuild, HasLeaf, ParseValue, ParseElems, ElementName, RelLeaves, FirstZero, Uniform, Prefixed;
    FirstGives(elems, 0, n, tagName, vis);
    var name, e := ElementName(n, 0), Rebuild(elems[0], vis, omitEmpty);
    RebuiltParses(elems[0], name, name, tagName, vis, omitEmpty);
    RebuiltHasLeaf(elems[0], name, name, tagName, vis, omitEmpty);
    HasLeafGives(elems[0], name, tagName, vis);
    HasLeafGives(e, name, tagName, vis);
    FirstElementsMeet(elems, Copies(|elems|, e), vis, base, p, q);
    SuffixKept(elems[0], name, name, tagName, vis, omitEmpty, base + "0", p, q);
    SameStart(p, Prefixed(base + "0", RelLeaves(elems[0], vis)), Prefixed(base + "0", RelLeaves(e, vis)));
    PrefixedSame(base + "0", RelLeaves(elems[0], vis), RelLeaves(e, vis));
  }

  lemma SameStart(p: seq<LeafSeen>, x: seq<LeafSeen>, y: seq<LeafSeen>)
    requires p + x == p + y
    ensures x == y
  {
    assert (p + x)[|p|..] == x && (p + y)[|p|..] == y;
  }

  lemma {:induction false} SuffixKeptFields(
    fields: seq<GoField>, n: string, vis: Visibility, omitEmpty: bool, base: string,
    p: seq<LeafSeen>, q: seq<LeafSeen>)
    requires Settable(vis) && ParseFields(fields, n, vis).Parsed?
    requires forall f :: f in fields && Visited(f) && HasLeaf(f.value) ==> FirstZero(f.value)
    requires p + Prefixed(base, FieldLeaves(fields, vis))
             == q + Prefixed(base, FieldLeaves(RebuildFields(fields, vis, omitEmpty), vis))
    ensures p == q && AllUniform(fields, vis)
    decreases fields, 0
  {
    hide ReadTag, ParseValue, FullName, HasLeaf, RelLeaves, Uniform, OwnName, Rebuild, StructTag, FirstZero, Prefixed;
    if fields == [] {
      SameEnd(p, q, Prefixed(base, []));
    } else {
      var f, later := fields[0], fields[1..];
      var info := ReadTag(f.tags.gnark);
      if info.Info? {
        var own, full := Inherit(vis, info.visibility), FullName(n, f.name, info.nameTag);
        assert f in fields && Visited(f);
        var x := Prefixed(OwnName(f), RelLeaves(f.value, own));
        var l := FieldLeaves(later, vis);
        if HasLeaf(f.value) {
          var g := RebuiltFieldReads(f, vis, omitEmpty);
          var rebuilt := RebuildFields(later, vis, omitEmpty);
          FirstFieldLeaves(g, rebuilt, vis);
          var y, m := Prefixed(OwnName(f), RelLeaves(g.value, own)), FieldLeaves(rebuilt, vis);
          PrefixedAppend(base, x, l);
          PrefixedAppend(base, y, m);
          Grouped(p, Prefixed(base, x), Prefixed(base, l));
          Grouped(q, Prefixed(base, y), Prefixed(base, m));
          SuffixKeptFields(later, n, vis, omitEmpty, base, p + Prefixed(base, x), q + Prefixed(base, y));
          PrefixedTwice(base, OwnName(f), RelLeaves(f.value, own));
          PrefixedTwice(base, OwnName(f), RelLeaves(g.value, own));
          SuffixKept(f.value, full, f.name, info.nameTag, own, omitEmpty, base + OwnName(f), p, q);
        } else {
          LeaflessUniform(f.value, full, f.name, info.nameTag, own);
          NothingPrefixed(OwnName(f));
          SuffixKeptFields(later, n, vis, omitEmpty, base, p, q);
        }
      } else {
        SuffixKeptFields(later, n, vis, omitEmpty, base, p, q);
      }
      assert forall h :: h in fields <==> h == f || h in later;
    }
  }

  // ---- a kept schema starts every list with a leaf ----

  lemma {:induction false} SchemaKept(
    v: Value, n: string, g: string, tagName: string, vis: Visibility, omitEmpty: bool)
    requires g != "" && Settable(vis) && Named(v) && Buildable(v) && HasLeaf(v)
    requires ParseValue(v, n, g, tagName, vis).Parsed?
    requires ParseValue(Rebuild(v, vis, omitEmpty), n, g, tagName, vis).Parsed?
    requires ParseValue(Rebuild(v, vis, omitEmpty), n, g, tagName, vis).fields
             == ParseValue(v, n, g, tagName, vis).fields
    ensures FirstZero(v)
    decreases v, 1
  {
    hide RebuildFields, HasLeaf, FirstLeaf, ParseFields, ParseElems, ElementName;
    LeafIffField(v, n, g, tagName, vis);
    match v
    case Variable =>
    case OtherValue =>
    case StructValue(fields) =>
      SchemaKeptFields(fields, n, vis, omitEmpty);
    case ListValue(elems, named) =>
      if IsVariableList(elems, named) {
        FirstIsVariable(elems);
      } else {
        SchemaKeptList(v, n, g, tagName, vis, omitEmpty);
      }
  }

  lemma {:induction false} SchemaKeptList(
    v: Value, n: string, g: string, tagName: string, vis: Visibility, omitEmpty: bool)
    requires v.ListValue? && !IsVariableList(v.elems, v.named)
    requires g != "" && Settable(vis) && Named(v) && Buildable(v) && HasLeaf(v)
    requires ParseValue(v, n, g, tagName, vis).Parsed?
    requires ParseValue(Rebuild(v, vis, omitEmpty), n, g, tagName, vis).Parsed?
    requires ParseValue(Rebuild(v, vis, omitEmpty), n, g, tagName, vis).fields
             == ParseValue(v, n, g, tagName, vis).fields
    ensures FirstZero(v)
    decreases v, 0
  {
    hide HasLeaf, FirstLeaf, ParseFields, ParseElems, ElementName, ParseValue, Rebuild;
    var elems := v.elems;
    LeafIffField(v, n, g, tagName, vis);
    ListFields(v, n, g, tagName, vis);
    FirstGives(elems, 0, n, tagName, vis);
    var i := FirstLeaf(elems);
    var name, first := ElementName(n, i), ElementName(n, 0);
    var e := Rebuild(elems[i], vis, omitEmpty);
    var again := ListValue(Copies(|elems|, e), false);
    assert Rebuild(v, vis, omitEmpty) == again by { RebuiltList(v, vis, omitEmpty); }
    RebuiltHasLeaf(elems[i], name, name, tagName, vis, omitEmpty);
    RebuiltParses(elems[i], name, name, tagName, vis, omitEmpty);
    CopiesParse(e, |elems|, 0, n, name, tagName, vis);
    LeafIffField(e, first, first, tagName, vis);
    RebuiltKind(elems[i], vis, omitEmpty);
    ListFields(again, n, g, tagName, vis);
    OneField(elems[i], name, name, tagName, vis);
    OneField(e, first, first, tagName, vis);
    SameElementName(n, i, 0);
    SchemaKept(elems[0], first, first, tagName, vis, omitEmpty);
  }

  lemma RebuiltList(v: Value, vis: Visibility, omitEmpty: bool)
    requires v.ListValue? && FirstLeaf(v.elems) < |v.elems|
    ensures Rebuild(v, vis, omitEmpty)
            == ListValue(Copies(|v.elems|, Rebuild(v.elems[FirstLeaf(v.elems)], vis, omitEmpty)), false)
  {
  }

  lemma RebuiltKind(v: Value, vis: Visibility, omitEmpty: bool)
    ensures Rebuild(v, vis, omitEmpty).Variable? <==> v.Variable?
  {
  }

  /** The sub-field kept for a list of anything but variables. */
  lemma ListFields(v: Value, n: string, g: string, tagName: string, vis: Visibility)
    requires v.ListValue? && !IsVariableList(v.elems, v.named) && ParseValue(v, n, g, tagName, vis).Parsed?
    ensures var p, sub := ParseValue(v, n, g, tagName, vis), ParseElems(v.elems, 0, n, tagName, vis);
            && sub.Parsed?
            && (sub.fields != [] ==> p.fields == [Field(g, tagName, Array, [sub.fields[0]], vis, |v.elems|)])
            && (sub.fields == [] ==> p.fields == [])
  {
    hide ParseElems;
    var sub := ParseElems(v.elems, 0, n, tagName, vis);
    if sub.Parsed? && sub.fields != [] {
      assert sub.fields[..1] == [sub.fields[0]];
    }
  }

  lemma SameElementName(n: string, i: nat, j: nat)
    ensures ElementName(n, i) == ElementName(n, j) ==> i == j
  {
    hide Decimal;
    if ElementName(n, i) == ElementName(n, j) {
      assert Stem(n) + Decimal(i) == Stem(n) + Decimal(j);
      assert (Stem(n) + Decimal(i))[|Stem(n)|..] == Decimal(i);
      assert (Stem(n) + Decimal(j))[|Stem(n)|..] == Decimal(j);
      DecimalInjective(i, j);
    }
  }

  lemma {:induction false} SchemaKeptFields(fields: seq<GoField>, n: string, vis: Visibility, omitEmpty: bool)
    requires Settable(vis) && ParseFields(fields, n, vis).Parsed?
    requires Distinct(fields)
    requires forall f :: f in fields && Visited(f) ==> f.name != "" && Named(f.value) && Buildable(f.value)
    requires ParseFields(RebuildFields(fields, vis, omitEmpty), n, vis).Parsed?
    requires ParseFields(RebuildFields(fields, vis, omitEmpty), n, vis).fields == ParseFields(fields, n, vis).fields
    ensures forall f :: f in fields && Visited(f) && HasLeaf(f.value) ==> FirstZero(f.value)
    decreases fields, 0
  {
    hide ReadTag, ParseValue, FullName, Named, Buildable, HasLeaf, Rebuild, StructTag, FirstZero, RebuildFields;
    if fields != [] {
      var f, later := fields[0], fields[1..];
      var info := ReadTag(f.tags.gnark);
      FirstRebuilt(fields, vis, omitEmpty);
      if info.Info? {
        assert f in fields && Visited(f);
        var own, full := Inherit(vis, info.visibility), FullName(n, f.name, info.nameTag);
        LeafIffField(f.value, full, f.name, info.nameTag, own);
        OneField(f.value, full, f.name, info.nameTag, own);
        if HasLeaf(f.value) {
          var g := RebuiltFieldReads(f, vis, omitEmpty);
          var printed := PrintedVisibility(f.value, own);
          RebuiltHasLeaf(f.value, full, f.name, info.nameTag, own, omitEmpty);
          LeafIffField(g.value, full, f.name, info.nameTag, printed);
          OneField(g.value, full, f.name, info.nameTag, printed);
          var rest := RebuildFields(later, vis, omitEmpty);
          FirstParsed(g, rest, n, vis);
          HeadsMeet(ParseValue(g.value, full, f.name, info.nameTag, printed), ParseFields(rest, n, vis),
                    ParseValue(f.value, full, f.name, info.nameTag, own), ParseFields(later, n, vis));
          if f.value.Variable? {
            VariableFirstZero(f.value);
          } else {
            SchemaKept(f.value, full, f.name, info.nameTag, own, omitEmpty);
          }
        }
      }
      SchemaKeptFields(later, n, vis, omitEmpty);
      assert forall h :: h in fields <==> h == f || h in later;
    }
  }

  lemma FirstParsed(g: GoField, rest: seq<GoField>, n: string, vis: Visibility)
    requires ReadTag(g.tags.gnark).Info? && !Conflict(vis, ReadTag(g.tags.gnark).visibility)
    ensures var info := ReadTag(g.tags.gnark);
            ParseFields([g] + rest, n, vis)
            == Then(ParseValue(g.value, FullName(n, g.name, info.nameTag), g.name, info.nameTag,
                               Inherit(vis, info.visibility)),
                    ParseFields(rest, n, vis))
  {
    hide ReadTag, ParseValue, FullName;
    assert ([g] + rest)[1..] == rest;
  }

  lemma HeadsMeet(p: Parsed, p': Parsed, q: Parsed, q': Parsed)
    requires Then(p, p').Parsed? && Then(q, q').Parsed? && Then(p, p').fields == Then(q, q').fields
    requires p.Parsed? && q.Parsed? ==> |p.fields| == |q.fields|
    ensures p.fields == q.fields && p'.fields == q'.fields
  {
    var k := |p.fields|;
    assert Then(p, p').fields[..k] == p.fields && Then(q, q').fields[..k] == q.fields;
    assert Then(p, p').fields[k..] == p'.fields && Then(q, q').fields[k..] == q'.fields;
  }

  lemma VariableFirstZero(v: Value)
    requires v.Variable?
    ensures FirstZero(v)
  {
  }

  /** The rebuilt fields, one step at a time. */
  lemma FirstRebuilt(fields: seq<GoField>, vis: Visibility, omitEmpty: bool)
    requires fields != []
    ensures ReadTag(fields[0].tags.gnark).Info? && HasLeaf(fields[0].value) ==>
              RebuildFields(fields, vis, omitEmpty)
              == [RebuiltField(fields[0], vis, omitEmpty)] + RebuildFields(fields[1..], vis, omitEmpty)
    ensures !(ReadTag(fields[0].tags.gnark).Info? && HasLeaf(fields[0].value)) ==>
              RebuildFields(fields, vis, omitEmpty) == RebuildFields(fields[1..], vis, omitEmpty)
  {
    hide ReadTag, StructTag, Rebuild, HasLeaf;
  }

  ghost function RebuiltField(f: GoField, vis: Visibility, omitEmpty: bool): GoField
    requires ReadTag(f.tags.gnark).Info?
  {
    var info := ReadTag(f.tags.gnark);
    var own := Inherit(vis, info.visibility);
    GoField(f.name, StructTag(info.nameTag, PrintedVisibility(f.value, own), omitEmpty),
            Rebuild(f.value, own, omitEmpty))
  }

  // ---- the theorem ----

  /** For every circuit that parses and can be built: what its schema is instantiated to parses, and to
      the same schema and leaves exactly when the circuit is uniform. The leaves alone are the same
      exactly then too, if every list on the builder's way starts with a leaf or no two fields of a
      struct may give the same name. */
  lemma RoundTripIff(fields: seq<GoField>, omitEmpty: bool)
    requires Named(StructValue(fields)) && Buildable(StructValue(fields))
    requires Parse(StructValue(fields)).Parsed?
    ensures var circuit, p := StructValue(fields), Parse(StructValue(fields));
            && CanInstantiate(p.fields)
            && var q := Parse(Instantiate(p.fields, omitEmpty));
               && q.Parsed?
               && (q == p <==> Uniform(circuit, Unset))
               && (FirstZero(circuit) || Apart(circuit) ==> (q.leaves == p.leaves <==> Uniform(circuit, Unset)))
  {
    hide Uniform, Apart, FirstZero, ParseFields, Named, Buildable, Visited, OwnName, ReadTag;
    RootParts(fields);
    RebuiltLeaves(fields, omitEmpty);
    var circuit, p := StructValue(fields), Parse(StructValue(fields));
    var q := Parse(Instantiate(p.fields, omitEmpty));
    if Uniform(circuit, Unset) {
      SchemaRoundTrips(fields, omitEmpty);
    }
    if q == p {
      RebuildFieldsIs(fields, "", Unset, omitEmpty);
      SchemaKeptFields(fields, "", Unset, omitEmpty);
      RootStarts(fields);
    }
    if q.leaves == p.leaves && FirstZero(circuit) {
      RootStarts(fields);
      SuffixKeptFields(fields, "", Unset, omitEmpty, "", [], []);
      RootUniform(fields);
    }
    if q.leaves == p.leaves && Apart(circuit) {
      KeptFieldsUniform(fields, "", Unset, omitEmpty);
      RootUniform(fields);
    }
  }

  lemma RootStarts(fields: seq<GoField>)
    ensures FirstZero(StructValue(fields))
            <==> forall f :: f in fields && Visited(f) && HasLeaf(f.value) ==> FirstZero(f.value)
  {
  }

  /** The leaves of a circuit and those of the circuit rebuilt from its schema. */
  lemma RebuiltLeaves(fields: seq<GoField>, omitEmpty: bool)
    requires Named(StructValue(fields)) && Buildable(StructValue(fields))
    requires Parse(StructValue(fields)).Parsed?
    ensures var p := Parse(StructValue(fields));
            && CanInstantiate(p.fields) && p.leaves == FieldLeaves(fields, Unset)
            && var q := Parse(Instantiate(p.fields, omitEmpty));
               q.Parsed? && q.leaves == FieldLeaves(RebuildFields(fields, Unset, omitEmpty), Unset)
  {
    hide ParseFields, Named, Buildable, Visited, OwnName, ReadTag;
    var rebuilt := RebuildFields(fields, Unset, omitEmpty);
    RootParts(fields);
    RebuildFieldsIs(fields, "", Unset, omitEmpty);
    RebuiltOwnNames(fields, "", Unset, omitEmpty);
    RebuiltFieldsParse(fields, "", Unset, omitEmpty);
    FieldLeavesAre(fields, "", Unset);
    FieldLeavesAre(rebuilt, "", Unset);
    PrefixedNothing(FieldLeaves(fields, Unset));
    PrefixedNothing(FieldLeaves(rebuilt, Unset));
  }

  lemma RootParts(fields: seq<GoField>)
    requires Named(StructValue(fields)) && Buildable(StructValue(fields))
    ensures Distinct(fields)
    ensures forall f :: f in fields && Visited(f) ==> f.name != "" && Named(f.value) && Buildable(f.value)
    ensures forall f :: f in fields && ReadTag(f.tags.gnark).Info? ==> OwnName(f) != ""
    ensures Apart(StructValue(fields))
            ==> FieldsApart(fields) && forall f :: f in fields && Visited(f) ==> Apart(f.value)
  {
  }

  lemma RootUniform(fields: seq<GoField>)
    requires AllUniform(fields, Unset)
    ensures Uniform(StructValue(fields), Unset)
  {
  }

  lemma {:induction false} RebuiltOwnNames(fields: seq<GoField>, n: string, vis: Visibility, omitEmpty: bool)
    requires Settable(vis) && ParseFields(fields, n, vis).Parsed?
    requires forall f :: f in fields && ReadTag(f.tags.gnark).Info? ==> OwnName(f) != ""
    ensures forall g :: g in RebuildFields(fields, vis, omitEmpty) ==> OwnName(g) != ""
    decreases fields, 0
  {
    hide ReadTag, OwnName, ParseValue, FullName, Rebuild, HasLeaf, StructTag;
    if fields != [] {
      var f := fields[0];
      RebuiltOwnNames(fields[1..], n, vis, omitEmpty);
      if ReadTag(f.tags.gnark).Info? && HasLeaf(f.value) {
        var g := RebuiltFieldReads(f, vis, omitEmpty);
      }
    }
  }
}
