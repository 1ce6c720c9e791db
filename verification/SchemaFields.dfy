/** What the fields of a schema say about the circuit they were parsed from, attribute by attribute. */
module SchemaFields {
  import opened Term
  import opened Tags
  import opened Schema
  import opened SchemaRoundTrip
  import opened DecimalText

  function Under(path: string, own: string): string {
    if path == "" then own else path + "_" + own
  }

  /** The field is that of a value at `path` which has a leaf, `vis` being the visibility asked for so far. */
  ghost predicate Describes(f: Field, v: Value, path: string, vis: Visibility)
    decreases v, 1
  {
    match v
    case OtherValue => false
    case Variable =>
      f.kind == Leaf && f.subFields == [] && f.arraySize == 0 && f.visibility == if vis == Unset then Secret else vis
    case StructValue(fields) =>
      f.kind == Struct && f.arraySize == 0 && f.visibility == vis && DescribesAll(f.subFields, fields, path, vis)
    case ListValue(elems, named) =>
      && f.kind == Array && f.arraySize == |elems| && f.visibility == vis
      && if !named && elems != [] && elems[0].Variable? then f.subFields == []
         else
           var i := FirstLeaf(elems);
           && i < |elems| && |f.subFields| == 1
           && f.subFields[0].name == Under(path, Decimal(i)) && f.subFields[0].nameTag == f.nameTag
           && Describes(f.subFields[0], elems[i], Under(path, Decimal(i)), vis)
  }

  /** The fields are those of the struct fields that are entered and have a leaf, in order: name and name
      tag are the struct field's, and its own visibility, where it has one, replaces the one above. */
  ghost predicate DescribesAll(fs: seq<Field>, fields: seq<GoField>, path: string, vis: Visibility)
    decreases fields, 0
  {
    if fields == [] then fs == []
    else
      var g := fields[0];
      if Visited(g) && HasLeaf(g.value) then
        var info := ReadTag(g.tags.gnark);
        && info.Info? && fs != [] && fs[0].name == g.name && fs[0].nameTag == info.nameTag
        && Describes(fs[0], g.value, Under(path, if info.nameTag != "" then info.nameTag else g.name),
                     if info.visibility != Unset then info.visibility else vis)
        && DescribesAll(fs[1..], fields[1..], path, vis)
      else DescribesAll(fs, fields[1..], path, vis)
  }

  lemma {:induction false} FieldSays(v: Value, path: string, goName: string, tagName: string, vis: Visibility)
    requires goName != "" && Named(v) && ParseValue(v, path, goName, tagName, vis).Parsed?
    ensures var p := ParseValue(v, path, goName, tagName, vis);
            HasLeaf(v) ==> p.fields != [] && Describes(p.fields[0], v, path, vis)
    decreases v, 1
  {
    hide ParseFields, ParseElems, FirstLeaf, DescribesAll;
    LeafIffField(v, path, goName, tagName, vis);
    match v
    case Variable =>
    case OtherValue =>
    case StructValue(fields) =>
      FieldsSay(fields, path, vis);
    case ListValue(elems, named) =>
      ListSays(elems, named, path, goName, tagName, vis);
  }

  lemma ListField(
    elems: seq<Value>, named: bool, path: string, goName: string, tagName: string, vis: Visibility)
    requires ParseValue(ListValue(elems, named), path, goName, tagName, vis).Parsed?
    ensures var p := ParseValue(ListValue(elems, named), path, goName, tagName, vis);
            var sub := ParseElems(elems, 0, path, tagName, vis);
            && sub.Parsed?
            && (p.fields != [] ==>
                  if IsVariableList(elems, named) then p.fields[0] == Field(goName, tagName, Array, [], vis, |elems|)
                  else sub.fields != []
                       && p.fields[0] == Field(goName, tagName, Array, sub.fields[..1], vis, |elems|))
  {
  }

  /** What describes a list, once its first element with a leaf is described. */
  lemma ListDescribed(f: Field, elems: seq<Value>, named: bool, path: string, vis: Visibility, g: Field)
    requires FirstLeaf(elems) < |elems| && !IsVariableList(elems, named)
    requires f.kind == Array && f.arraySize == |elems| && f.visibility == vis && f.subFields == [g]
    requires var i := FirstLeaf(elems);
             g.name == Under(path, Decimal(i)) && g.nameTag == f.nameTag
             && Describes(g, elems[i], Under(path, Decimal(i)), vis)
    ensures Describes(f, ListValue(elems, named), path, vis)
  {
    hide FirstLeaf, DescribesAll;
  }

  lemma {:induction false} ListSays(
    elems: seq<Value>, named: bool, path: string, goName: string, tagName: string, vis: Visibility)
    requires forall e :: e in elems ==> Named(e)
    requires ParseValue(ListValue(elems, named), path, goName, tagName, vis).Parsed?
    ensures var p := ParseValue(ListValue(elems, named), path, goName, tagName, vis);
            p.fields != [] ==> Describes(p.fields[0], ListValue(elems, named), path, vis)
    decreases elems, 1
  {
    hide HasLeaf, FirstLeaf, DescribesAll, ParseValue, ParseElems, Named;
    var p := ParseValue(ListValue(elems, named), path, goName, tagName, vis);
    ListField(elems, named, path, goName, tagName, vis);
    if p.fields != [] && !IsVariableList(elems, named) {
      FirstGives(elems, 0, path, tagName, vis);
      var i := FirstLeaf(elems);
      var name := ElementName(path, i);
      assert i + 0 == i;
      FieldSays(elems[i], name, name, tagName, vis);
      OneField(elems[i], name, name, tagName, vis);
      ListDescribed(p.fields[0], elems, named, path, vis, p.fields[0].subFields[0]);
    }
  }

  lemma {:induction false} FieldsSay(fields: seq<GoField>, path: string, vis: Visibility)
    requires (forall f :: f in fields && Visited(f) ==> f.name != "" && Named(f.value))
    requires ParseFields(fields, path, vis).Parsed?
    ensures DescribesAll(ParseFields(fields, path, vis).fields, fields, path, vis)
    decreases fields, 0
  {
    hide ReadTag, ParseValue, Named, HasLeaf, Describes;
    if fields != [] {
      var g := fields[0];
      FieldsSay(fields[1..], path, vis);
      var info := ReadTag(g.tags.gnark);
      if info.Info? {
        var own := FullName(path, g.name, info.nameTag);
        FieldSays(g.value, own, g.name, info.nameTag, Inherit(vis, info.visibility));
        OneField(g.value, own, g.name, info.nameTag, Inherit(vis, info.visibility));
        LeafIffField(g.value, own, g.name, info.nameTag, Inherit(vis, info.visibility));
        OneFirst(ParseValue(g.value, own, g.name, info.nameTag, Inherit(vis, info.visibility)).fields,
                 ParseFields(fields[1..], path, vis).fields);
      }
    }
  }

  lemma OneFirst<T>(a: seq<T>, b: seq<T>)
    requires |a| <= 1
    ensures a == [] ==> a + b == b
    ensures a != [] ==> (a + b)[0] == a[0] && (a + b)[1..] == b
  {
  }

  /** One field for each struct field with a leaf; one nameless field for a circuit that is itself a list
      or a variable. */
  ghost predicate IsSchemaOf(fields: seq<Field>, circuit: Value) {
    if circuit.StructValue? then DescribesAll(fields, circuit.fields, "", Unset)
    else
      && |fields| == (if HasLeaf(circuit) then 1 else 0)
      && forall f :: f in fields ==> f.name == f.nameTag == "" && Describes(f, circuit, "", Unset)
  }

  /** The schema of any circuit that parses says, field by field in order, the name, tag, kind, visibility
      and length of what it stands for, and so on inside it. */
  lemma SchemaSays(circuit: Value)
    requires Named(circuit) && Parse(circuit).Parsed?
    ensures IsSchemaOf(Parse(circuit).fields, circuit)
  {
    hide ParseFields, ParseElems, FirstLeaf, DescribesAll;
    LeafIffField(circuit, "", "", "", Unset);
    match circuit
    case Variable =>
    case OtherValue =>
    case StructValue(own) => FieldsSay(own, "", Unset);
    case ListValue(elems, named) => ListSays(elems, named, "", "", "", Unset);
  }

  // ---- the two counters ----

  ghost function Holders(leaves: seq<LeafSeen>, v: Visibility): set<nat> {
    set i | 0 <= i < |leaves| && leaves[i].visibility == v
  }

  lemma OneMore(leaves: seq<LeafSeen>, last: LeafSeen, v: Visibility)
    ensures |leaves| !in Holders(leaves, v)
    ensures Holders(leaves + [last], v) == Holders(leaves, v) + if last.visibility == v then {|leaves|} else {}
  {
  }

  lemma CountLast(leaves: seq<LeafSeen>, last: LeafSeen, v: Visibility)
    ensures CountOf(leaves + [last], v) == CountOf(leaves, v) + if last.visibility == v then 1 else 0
  {
    CountAppend(leaves, [last], v);
    assert [last][1..] == [];
  }

  /** The counter of a visibility is the number of leaves that have it. */
  lemma {:induction false} CountIs(leaves: seq<LeafSeen>, v: Visibility)
    ensures CountOf(leaves, v) == |Holders(leaves, v)|
    decreases |leaves|, 0
  {
    if leaves == [] {
      assert Holders(leaves, v) == {};
    } else {
      NextCount(leaves[..|leaves| - 1], leaves[|leaves| - 1], v);
      assert leaves[..|leaves| - 1] + [leaves[|leaves| - 1]] == leaves;
    }
  }

  lemma {:induction false} NextCount(leaves: seq<LeafSeen>, last: LeafSeen, v: Visibility)
    ensures CountOf(leaves + [last], v) == |Holders(leaves + [last], v)|
    decreases |leaves|, 1
  {
    hide CountOf, Holders;
    CountIs(leaves, v);
    CountLast(leaves, last, v);
    OneMore(leaves, last, v);
  }
}
