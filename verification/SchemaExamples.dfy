/** What the round trip of a schema keeps and loses on particular circuits: slices of slices of any
    lengths, and lists whose names clash. */
module SchemaExamples {
  import opened Term
  import opened Tags
  import opened Schema
  import opened SchemaLeaves
  import opened SchemaRoundTrip
  import opened SchemaRebuild
  import opened DecimalText

  // ---- lists of lists of variables ----

  function VariableLists(lengths: seq<nat>): (elems: seq<Value>)
    ensures |elems| == |lengths|
  {
    if lengths == [] then [] else [ListValue(Copies(lengths[0], Variable), false)] + VariableLists(lengths[1..])
  }

  lemma VariableListFacts(k: nat, vis: Visibility)
    ensures var v := ListValue(Copies(k, Variable), false);
            && Named(v) && Buildable(v) && Apart(v) && Uniform(v, vis) && |RelLeaves(v, vis)| == k
            && (HasLeaf(v) <==> k > 0)
  {
    hide RelLeaves, ElemLeaves;
    var elems := Copies(k, Variable);
    forall e | e in elems
      ensures e == Variable && Named(e) && Apart(e) && HasLeaf(e)
    {
    }
    if k > 0 {
      assert elems[0] in elems;
      assert Uniform(elems[0], vis);
    }
    VariableLeaves(k, 0, vis);
    assert |RelLeaves(ListValue(elems, false), vis)| == |ElemLeaves(elems, 0, vis)| by {
      ListLeaves(elems, vis);
    }
  }

  lemma ListLeaves(elems: seq<Value>, vis: Visibility)
    ensures RelLeaves(ListValue(elems, false), vis) == Prefixed("_", ElemLeaves(elems, 0, vis))
  {
  }

  lemma {:induction false} VariableLeaves(k: nat, j: nat, vis: Visibility)
    ensures |ElemLeaves(Copies(k, Variable), j, vis)| == k
  {
    hide Copies, Decimal;
    if k > 0 {
      CopiesTail(k, Variable);
      VariableLeaves(k - 1, j + 1, vis);
    }
  }

  lemma {:induction false} VariableListsAt(lengths: seq<nat>, i: nat)
    requires i < |lengths|
    ensures VariableLists(lengths)[i] == ListValue(Copies(lengths[i], Variable), false)
  {
    hide Copies;
    if i > 0 {
      VariableListsAt(lengths[1..], i - 1);
    }
  }

  ghost predicate AllEqual(lengths: seq<nat>) {
    forall i :: 0 <= i < |lengths| ==> lengths[i] == lengths[0]
  }

  lemma ListsOfListsFacts(lengths: seq<nat>)
    ensures var circuit := StructValue(OneListCircuit(VariableLists(lengths), false));
            && Parse(circuit).Parsed? && Named(circuit) && Buildable(circuit) && Apart(circuit)
            && (Uniform(circuit, Unset) <==> AllEqual(lengths))
  {
    hide Uniform, Apart, Named, Buildable, RelLeaves, Copies, ParseElems, Parse, HasLeaf, FirstLeaf;
    var elems := VariableLists(lengths);
    forall i | 0 <= i < |elems|
      ensures elems[i] == ListValue(Copies(lengths[i], Variable), false)
      ensures Named(elems[i]) && Buildable(elems[i]) && Apart(elems[i]) && Uniform(elems[i], Unset)
      ensures |RelLeaves(elems[i], Unset)| == lengths[i]
    {
      VariableListsAt(lengths, i);
      VariableListFacts(lengths[i], Unset);
    }
    ListsParseAny(lengths, 0, "X", "", Unset);
    OneListParse(elems, false);
    OneListFacts(elems);
    if AllEqual(lengths) {
      assert forall i :: 0 <= i < |elems| ==> elems[i] == elems[0];
    } else {
      var i :| 0 <= i < |lengths| && lengths[i] != lengths[0];
      assert RelLeaves(elems[i], Unset) != RelLeaves(elems[0], Unset);
    }
  }

  /** A slice of slices of variables survives being rebuilt exactly when its lengths are all equal,
      whatever they are. */
  lemma RaggedListReadsBackIff(lengths: seq<nat>, omitEmpty: bool)
    ensures var p := Parse(StructValue(OneListCircuit(VariableLists(lengths), false)));
            && p.Parsed? && CanInstantiate(p.fields)
            && var q := Parse(Instantiate(p.fields, omitEmpty));
               && (q == p <==> AllEqual(lengths))
               && (q.Parsed? && q.leaves == p.leaves <==> AllEqual(lengths))
  {
    hide Uniform, Apart, Named, Buildable, Parse, Instantiate, OneListCircuit, AllEqual;
    ListsOfListsFacts(lengths);
    RoundTripIff(OneListCircuit(VariableLists(lengths), false), omitEmpty);
  }

  lemma {:induction false} ListsParseAny(lengths: seq<nat>, j: nat, n: string, tagName: string, vis: Visibility)
    ensures ParseElems(VariableLists(lengths), j, n, tagName, vis).Parsed?
  {
    hide ParseValue, ElementName, Copies;
    if lengths != [] {
      assert VariableLists(lengths)[1..] == VariableLists(lengths[1..]);
      ListsParseAny(lengths[1..], j + 1, n, tagName, vis);
      OneOfListsParses(lengths[0], ElementName(n, j), tagName, vis);
    }
  }

  lemma {:induction false} VariablesParse(k: nat, j: nat, n: string, tagName: string, vis: Visibility)
    ensures ParseElems(Copies(k, Variable), j, n, tagName, vis).Parsed?
  {
    hide Copies, ElementName;
    if k > 0 {
      CopiesTail(k, Variable);
      VariablesParse(k - 1, j + 1, n, tagName, vis);
    } else {
      NoElems(j, n, tagName, vis, Variable);
    }
  }

  lemma OneOfListsParses(k: nat, name: string, tagName: string, vis: Visibility)
    ensures ParseValue(ListValue(Copies(k, Variable), false), name, name, tagName, vis).Parsed?
  {
    hide ParseElems;
    VariablesParse(k, 0, name, tagName, vis);
  }

  lemma OneListFacts(elems: seq<Value>)
    requires forall i :: 0 <= i < |elems|
               ==> elems[i].ListValue? && Named(elems[i]) && Buildable(elems[i]) && Apart(elems[i])
    ensures var circuit := StructValue(OneListCircuit(elems, false));
            && Named(circuit) && Buildable(circuit) && Apart(circuit)
            && (Uniform(circuit, Unset)
                <==> && (forall i :: 0 <= i < |elems| ==> RelLeaves(elems[i], Unset) == RelLeaves(elems[0], Unset))
                     && (elems != [] ==> Uniform(elems[0], Unset)))
  {
    hide RelLeaves, HasLeaf, MayName;
    var fields, list := OneListCircuit(elems, false), ListValue(elems, false);
    assert Named(list) && Buildable(list) && Apart(list);
    assert ReadTag(None) == Info("", Unset) && fields[0] in fields;
    assert forall f :: f in fields ==> f == fields[0];
  }

  function Sum(lengths: seq<nat>): nat {
    if lengths == [] then 0 else lengths[0] + Sum(lengths[1..])
  }

  /** The first length that is not zero, if any. */
  function FirstLength(lengths: seq<nat>): nat {
    if lengths == [] || lengths[0] > 0 then (if lengths == [] then 0 else lengths[0])
    else FirstLength(lengths[1..])
  }

  lemma {:induction false} ListsLeaves(lengths: seq<nat>, j: nat, vis: Visibility)
    ensures |ElemLeaves(VariableLists(lengths), j, vis)| == Sum(lengths)
  {
    hide RelLeaves, Copies, Decimal;
    if lengths != [] {
      VariableListFacts(lengths[0], vis);
      ListsLeaves(lengths[1..], j + 1, vis);
      assert VariableLists(lengths)[1..] == VariableLists(lengths[1..]);
    }
  }

  lemma {:induction false} CopiesLeafCount(e: Value, k: nat, j: nat, vis: Visibility)
    ensures |ElemLeaves(Copies(k, e), j, vis)| == k * |RelLeaves(e, vis)|
  {
    hide RelLeaves, Copies, Decimal;
    if k > 0 {
      CopiesTail(k, e);
      CopiesLeafCount(e, k - 1, j + 1, vis);
      OneMore(k, |RelLeaves(e, vis)|);
    }
  }

  lemma OneMore(k: nat, x: nat)
    requires k > 0
    ensures k * x == x + (k - 1) * x
  {
  }

  lemma {:induction false} FirstOfLists(lengths: seq<nat>)
    ensures var elems, i := VariableLists(lengths), FirstLeaf(VariableLists(lengths));
            && (i == |elems| ==> FirstLength(lengths) == 0)
            && (i < |elems| ==> elems[i] == ListValue(Copies(FirstLength(lengths), Variable), false)
                                && FirstLength(lengths) > 0)
  {
    hide HasLeaf, Copies;
    if lengths != [] {
      VariableListFacts(lengths[0], Unset);
      FirstOfLists(lengths[1..]);
      assert VariableLists(lengths)[1..] == VariableLists(lengths[1..]);
    }
  }

  lemma VariablesRebuilt(k: nat, vis: Visibility, omitEmpty: bool)
    requires k > 0
    ensures var v := ListValue(Copies(k, Variable), false); Rebuild(v, vis, omitEmpty) == v
  {
    FirstIsVariable(Copies(k, Variable));
  }

  /** How much a slice of slices of variables gains or loses: the circuit has as many leaves as its lengths
      sum to, the rebuilt one as many as their number times the first that is not zero. */
  lemma RaggedListDiffers(lengths: seq<nat>, omitEmpty: bool)
    ensures var p := Parse(StructValue(OneListCircuit(VariableLists(lengths), false)));
            && p.Parsed? && |p.leaves| == Sum(lengths) && CanInstantiate(p.fields)
            && var q := Parse(Instantiate(p.fields, omitEmpty));
               q.Parsed? && |q.leaves| == |lengths| * FirstLength(lengths)
  {
    hide RelLeaves, Parse, Named, Buildable, Uniform, Apart, FirstLeaf, HasLeaf, VariableLists, FieldLeaves, Rebuild,
         RebuildFields, ElemLeaves, Copies, FirstLength, Instantiate, CanInstantiate;
    var elems := VariableLists(lengths);
    var list := ListValue(elems, false);
    var f := Untagged("X", list);
    assert OneListCircuit(elems, false) == [f] + [];
    ListsOfListsFacts(lengths);
    RebuiltLeaves([f] + [], omitEmpty);
    ListsLeaves(lengths, 0, Unset);
    ListLeaves(elems, Unset);
    UntaggedLeaves("X", list, []);
    NoFieldLeaves();
    FirstOfLists(lengths);
    OneRebuilt(f, omitEmpty);
    ListHasLeaf(elems);
    if FirstLeaf(elems) < |elems| {
      var e := ListValue(Copies(FirstLength(lengths), Variable), false);
      VariablesRebuilt(FirstLength(lengths), Unset, omitEmpty);
      VariableListFacts(FirstLength(lengths), Unset);
      RebuiltList(list, Unset, omitEmpty);
      ListLeaves(Copies(|elems|, e), Unset);
      CopiesLeafCount(e, |elems|, 0, Unset);
    }
  }

  lemma ListHasLeaf(elems: seq<Value>)
    ensures HasLeaf(ListValue(elems, false)) <==> FirstLeaf(elems) < |elems|
  {
    if FirstLeaf(elems) < |elems| {
      assert elems[FirstLeaf(elems)] in elems;
    }
  }

  lemma OneRebuilt(f: GoField, omitEmpty: bool)
    requires f == Untagged(f.name, f.value)
    ensures FieldLeaves(RebuildFields([f] + [], Unset, omitEmpty), Unset)
            == if HasLeaf(f.value) then Prefixed(f.name, RelLeaves(Rebuild(f.value, Unset, omitEmpty), Unset)) else []
  {
    hide RelLeaves, Rebuild, HasLeaf, ReadTag, StructTag;
    NoTagReads();
    var g := RebuiltFieldReads(f, Unset, omitEmpty);
    assert ([f] + [])[0] == f && ([f] + [])[1..] == [];
    assert RebuildFields([], Unset, omitEmpty) == [];
    FirstRebuilt([f] + [], Unset, omitEmpty);
    FirstFieldLeaves(g, [], Unset);
    NoFieldLeaves();
  }

  // ---- names that clash hide a loss ----

  function Untagged(name: string, v: Value): GoField {
    GoField(name, GoTags(None, None), v)
  }

  /** A struct with one variable. */
  function Cell(name: string): Value {
    StructValue([Untagged(name, Variable)])
  }

  /** Two slices of such structs. */
  function TwoSlices(k: nat, l: nat, name: string): Value {
    ListValue([ListValue(Copies(k, Cell(name)), false), ListValue(Copies(l, Cell(name)), false)], false)
  }

  /** The first list loses its third leaf, and the second gains one of the same name. */
  function ClashingCircuit(): seq<GoField> {
    [Untagged("M", TwoSlices(1, 2, "Z_0_0_Y")), Untagged("M_1_1_Z", TwoSlices(0, 1, "Y"))]
  }

  function Seen1(name: string): seq<LeafSeen> {
    [LeafSeen(Secret, name)]
  }

  lemma UntaggedLeaves(name: string, v: Value, rest: seq<GoField>)
    ensures FieldLeaves([Untagged(name, v)] + rest, Unset)
            == Prefixed(name, RelLeaves(v, Unset)) + FieldLeaves(rest, Unset)
  {
    hide RelLeaves;
    FirstFieldLeaves(Untagged(name, v), rest, Unset);
  }

  lemma CellLeaves(name: string, omitEmpty: bool)
    requires name != ""
    ensures RelLeaves(Cell(name), Unset) == Seen1("_" + name)
    ensures HasLeaf(Cell(name))
    ensures RelLeaves(Rebuild(Cell(name), Unset, omitEmpty), Unset) == Seen1("_" + name)
  {
    hide ReadTag, StructTag;
    var f := Untagged(name, Variable);
    assert ReadTag(None) == Info("", Unset) by { NoTagReads(); }
    assert f in [f] && HasLeaf(f.value) && Visited(f);
    UntaggedLeaves(name, Variable, []);
    assert [f] + [] == [f];
    assert FieldLeaves([], Unset) == [];
    var g := RebuiltFieldReads(f, Unset, omitEmpty);
    assert RebuildFields([f], Unset, omitEmpty) == [g] by {
      assert [f][1..] == [] && RebuildFields([], Unset, omitEmpty) == [];
    }
    FirstFieldLeaves(g, [], Unset);
    assert [g] + [] == [g];
    assert name + "" == name;
    assert Prefixed(name, [LeafSeen(Secret, "")]) == Seen1(name);
    assert Prefixed("_", Seen1(name)) == Seen1("_" + name);
  }

  lemma NoTagReads()
    ensures ReadTag(None) == Info("", Unset)
  {
  }

  lemma {:induction false} FewElements(e: Value, s: string)
    requires RelLeaves(e, Unset) == Seen1(s)
    ensures RelLeaves(ListValue(Copies(0, e), false), Unset) == []
    ensures RelLeaves(ListValue(Copies(1, e), false), Unset) == Seen1("_0" + s)
    ensures RelLeaves(ListValue(Copies(2, e), false), Unset) == Seen1("_0" + s) + Seen1("_1" + s)
  {
    hide Copies, RelLeaves;
    CopiesTail(1, e);
    CopiesTail(2, e);
    ListLeaves(Copies(0, e), Unset);
    ListLeaves(Copies(1, e), Unset);
    ListLeaves(Copies(2, e), Unset);
    assert Decimal(0) == "0" && Decimal(1) == "1";
    assert ElemLeaves(Copies(0, e), 1, Unset) == ElemLeaves(Copies(0, e), 2, Unset) == [];
    assert ElemLeaves(Copies(1, e), 0, Unset) == Seen1("0" + s);
    assert ElemLeaves(Copies(1, e), 1, Unset) == Seen1("1" + s);
    assert ElemLeaves(Copies(2, e), 0, Unset) == Seen1("0" + s) + Seen1("1" + s);
    assert "_" + ("0" + s) == "_0" + s && "_" + ("1" + s) == "_1" + s;
  }

  lemma {:induction false} TwoElements(a: Value, b: Value)
    ensures RelLeaves(ListValue([a, b], false), Unset)
            == Prefixed("_0", RelLeaves(a, Unset)) + Prefixed("_1", RelLeaves(b, Unset))
  {
    hide RelLeaves;
    ListLeaves([a, b], Unset);
    assert [a, b][1..] == [b] && [b][1..] == [];
    assert Decimal(0) == "0" && Decimal(1) == "1";
    var x, y := RelLeaves(a, Unset), RelLeaves(b, Unset);
    assert ElemLeaves([], 2, Unset) == [];
    assert ElemLeaves([b], 1, Unset) == Prefixed("1", y);
    assert ElemLeaves([a, b], 0, Unset) == Prefixed("0", x) + Prefixed("1", y);
    PrefixedAppend("_", Prefixed("0", x), Prefixed("1", y));
    PrefixedTwice("_", "0", x);
    PrefixedTwice("_", "1", y);
    assert "_" + "0" == "_0" && "_" + "1" == "_1";
  }

  function Slice(k: nat, name: string): Value {
    ListValue(Copies(k, Cell(name)), false)
  }

  lemma SliceFacts(name: string, omitEmpty: bool)
    requires name != ""
    ensures RelLeaves(Slice(0, name), Unset) == [] && !HasLeaf(Slice(0, name))
    ensures RelLeaves(Slice(1, name), Unset) == Seen1("_0_" + name) && HasLeaf(Slice(1, name))
    ensures RelLeaves(Slice(2, name), Unset) == Seen1("_0_" + name) + Seen1("_1_" + name) && HasLeaf(Slice(2, name))
    ensures RelLeaves(Rebuild(Slice(1, name), Unset, omitEmpty), Unset) == Seen1("_0_" + name)
    ensures forall k :: Named(Slice(k, name)) && Buildable(Slice(k, name)) && !Slice(k, name).Variable?
  {
    hide RelLeaves;
    var e := Cell(name);
    CellLeaves(name, omitEmpty);
    FewElements(e, "_" + name);
    assert "_0" + ("_" + name) == "_0_" + name && "_1" + ("_" + name) == "_1_" + name;
    assert Copies(1, e)[0] == e && e in Copies(1, e);
    assert Copies(2, e)[0] == e && e in Copies(2, e);
    assert FirstLeaf(Copies(1, e)) == 0;
    FewElements(Rebuild(e, Unset, omitEmpty), "_" + name);
    CellBasics(name);
  }

  lemma CellBasics(name: string)
    requires name != ""
    ensures Named(Cell(name)) && Buildable(Cell(name)) && Plain(Cell(name))
  {
    assert forall f :: f in [Untagged(name, Variable)] ==> f.value == Variable;
    assert Named(Variable) && Buildable(Variable) && Plain(Variable);
  }

  /** Two slices of which the first or only the second has a leaf. */
  lemma PairFacts(a: Value, b: Value, omitEmpty: bool, s: string)
    requires HasLeaf(b) && !a.Variable? && !b.Variable?
    requires Named(a) && Named(b) && Buildable(a) && Buildable(b)
    requires RelLeaves(Rebuild(if HasLeaf(a) then a else b, Unset, omitEmpty), Unset) == Seen1(s)
    ensures var v := ListValue([a, b], false);
            && Named(v) && Buildable(v) && HasLeaf(v)
            && RelLeaves(Rebuild(v, Unset, omitEmpty), Unset) == Seen1("_0" + s) + Seen1("_1" + s)
  {
    hide RelLeaves, HasLeaf, Buildable, Named;
    PairBasics(a, b);
    var v, e := ListValue([a, b], false), Rebuild(if HasLeaf(a) then a else b, Unset, omitEmpty);
    FewElements(e, s);
    assert Rebuild(v, Unset, omitEmpty) == ListValue(Copies(2, e), false);
  }

  lemma PairBasics(a: Value, b: Value)
    requires HasLeaf(b) && !a.Variable? && !b.Variable?
    requires Named(a) && Named(b) && Buildable(a) && Buildable(b)
    ensures var v := ListValue([a, b], false); Named(v) && Buildable(v) && HasLeaf(v)
    ensures FirstLeaf([a, b]) == if HasLeaf(a) then 0 else 1
  {
    assert [a, b][1..] == [b] && b in [a, b];
    assert FirstLeaf([b]) == 0;
  }

  /** What the two lists of the circuit are, and what they are rebuilt to. */
  lemma ClashingLists(omitEmpty: bool)
    ensures var v, w := TwoSlices(1, 2, "Z_0_0_Y"), TwoSlices(0, 1, "Y");
            && Named(v) && Buildable(v) && HasLeaf(v) && !Uniform(v, Unset)
            && Named(w) && Buildable(w) && HasLeaf(w)
            && Prefixed("M", RelLeaves(v, Unset)) + Prefixed("M_1_1_Z", RelLeaves(w, Unset)) == FourLeaves()
            && Prefixed("M", RelLeaves(Rebuild(v, Unset, omitEmpty), Unset))
               + Prefixed("M_1_1_Z", RelLeaves(Rebuild(w, Unset, omitEmpty), Unset)) == FourLeaves()
  {
    hide RelLeaves, Named, Buildable, HasLeaf, Rebuild, Copies;
    var z, y := "Z_0_0_Y", "Y";
    var v, w := TwoSlices(1, 2, z), TwoSlices(0, 1, y);
    SliceFacts(z, omitEmpty);
    SliceFacts(y, omitEmpty);
    TwoElements(Slice(1, z), Slice(2, z));
    TwoElements(Slice(0, y), Slice(1, y));
    PairFacts(Slice(1, z), Slice(2, z), omitEmpty, "_0_" + z);
    PairFacts(Slice(0, y), Slice(1, y), omitEmpty, "_0_" + y);
    assert v.elems[1] == Slice(2, z) && v.elems[0] == Slice(1, z);
    assert |RelLeaves(v.elems[1], Unset)| == 2 && |RelLeaves(v.elems[0], Unset)| == 1;
    PrefixedParts("M", "_0_" + z, "_1_" + z);
    PrefixedParts("M_1_1_Z", "_0_" + y, "");
    NamesMeet();
  }

  function FourLeaves(): seq<LeafSeen> {
    Seen1("M_0_0_Z_0_0_Y") + Seen1("M_1_0_Z_0_0_Y") + Seen1("M_1_1_Z_0_0_Y") + Seen1("M_1_1_Z_1_0_Y")
  }

  lemma PrefixedParts(m: string, s: string, t: string)
    ensures Prefixed(m, Prefixed("_0", Seen1(s)) + Prefixed("_1", Seen1(s) + Seen1(t)))
            == Seen1(m + "_0" + s) + Seen1(m + "_1" + s) + Seen1(m + "_1" + t)
    ensures Prefixed(m, Seen1("_0" + s) + Seen1("_1" + s)) == Seen1(m + "_0" + s) + Seen1(m + "_1" + s)
    ensures Prefixed(m, Prefixed("_0", []) + Prefixed("_1", Seen1(s))) == Seen1(m + "_1" + s)
  {
    assert m + ("_0" + s) == m + "_0" + s && m + ("_1" + s) == m + "_1" + s && m + ("_1" + t) == m + "_1" + t;
  }

  lemma NamesMeet()
    ensures "M" + "_0" + ("_0_" + "Z_0_0_Y") == "M_0_0_Z_0_0_Y" && "M" + "_1" + ("_0_" + "Z_0_0_Y") == "M_1_0_Z_0_0_Y"
    ensures "M" + "_1" + ("_1_" + "Z_0_0_Y") == "M_1_1_Z_0_0_Y"
    ensures "M_1_1_Z" + "_0" + ("_0_" + "Y") == "M_1_1_Z_0_0_Y" && "M_1_1_Z" + "_1" + ("_0_" + "Y") == "M_1_1_Z_1_0_Y"
  {
  }

  /** A circuit whose two lists have elements of unlike lengths and which keeps its leaves all the same:
      the leaf M_1_1_Z_0_0_Y, lost by the first list, is also gained by the second. */
  lemma ClashHidesLoss(omitEmpty: bool)
    ensures var circuit, p := StructValue(ClashingCircuit()), Parse(StructValue(ClashingCircuit()));
            && Named(circuit) && Buildable(circuit) && p.Parsed? && CanInstantiate(p.fields)
            && !Uniform(circuit, Unset) && !Apart(circuit)
            && var q := Parse(Instantiate(p.fields, omitEmpty));
               q.Parsed? && q.leaves == p.leaves
  {
    hide RelLeaves, Parse, Buildable, Named, Uniform, Apart, Rebuild, HasLeaf, TwoSlices, FieldLeaves, RebuildFields;
    ClashingLists(omitEmpty);
    var v, w := TwoSlices(1, 2, "Z_0_0_Y"), TwoSlices(0, 1, "Y");
    var f, g := Untagged("M", v), Untagged("M_1_1_Z", w);
    var fields := ClashingCircuit();
    assert fields == [f] + [g] && [g] + [] == [g];
    TwoUntagged(f, g);
    UntaggedLeaves(f.name, v, [g]);
    UntaggedLeaves(g.name, w, []);
    TwoRebuilt(f, g, omitEmpty);
    assert FieldLeaves([], Unset) == [] by { NoFieldLeaves(); }
    ClashingParses();
    RebuiltLeaves(fields, omitEmpty);
    RoundTripIff(fields, omitEmpty);
  }

  lemma ClashingParses()
    ensures Parse(StructValue(ClashingCircuit())).Parsed?
  {
    hide ParseValue, Cell;
    CellBasics("Z_0_0_Y");
    CellBasics("Y");
    forall k: nat, name | Plain(Cell(name))
      ensures Plain(Slice(k, name))
    {
    }
    assert Plain(TwoSlices(1, 2, "Z_0_0_Y")) && Plain(TwoSlices(0, 1, "Y"));
    PlainParses(StructValue(ClashingCircuit()), "", "", "", Unset);
  }

  lemma NoFieldLeaves()
    ensures FieldLeaves([], Unset) == []
  {
  }

  lemma TwoUntagged(f: GoField, g: GoField)
    requires f == Untagged(f.name, f.value) && g == Untagged(g.name, g.value)
    requires f.name != "" && g.name != "" && f.name != g.name
    requires Named(f.value) && Named(g.value) && Buildable(f.value) && Buildable(g.value)
    ensures var circuit := StructValue([f] + [g]);
            && Named(circuit) && Buildable(circuit) && (Uniform(circuit, Unset) ==> Uniform(f.value, Unset))
  {
    NoTagReads();
    assert f in [f] + [g];
  }

  lemma TwoRebuilt(f: GoField, g: GoField, omitEmpty: bool)
    requires f == Untagged(f.name, f.value) && g == Untagged(g.name, g.value) && HasLeaf(f.value) && HasLeaf(g.value)
    ensures FieldLeaves(RebuildFields([f] + [g], Unset, omitEmpty), Unset)
            == Prefixed(f.name, RelLeaves(Rebuild(f.value, Unset, omitEmpty), Unset))
               + Prefixed(g.name, RelLeaves(Rebuild(g.value, Unset, omitEmpty), Unset))
  {
    hide RelLeaves, Rebuild, HasLeaf, ReadTag, StructTag;
    NoTagReads();
    var f' := RebuiltFieldReads(f, Unset, omitEmpty);
    var g' := RebuiltFieldReads(g, Unset, omitEmpty);
    assert ([f] + [g])[1..] == [g] && [g][1..] == [];
    assert RebuildFields([], Unset, omitEmpty) == [];
    assert RebuildFields([g], Unset, omitEmpty) == [g'] + [];
    assert RebuildFields([f] + [g], Unset, omitEmpty) == [f'] + ([g'] + []);
    FirstFieldLeaves(f', [g'] + [], Unset);
    FirstFieldLeaves(g', [], Unset);
    NoFieldLeaves();
  }

  // ---- circuits without tags ----

  ghost predicate Plain(v: Value)
    decreases v
  {
    match v
    case Variable => true
    case OtherValue => true
    case StructValue(fields) => forall f :: f in fields ==> f.tags.gnark.None? && Plain(f.value)
    case ListValue(elems, _) => forall e :: e in elems ==> Plain(e)
  }

  lemma {:induction false} PlainParses(v: Value, n: string, g: string, tagName: string, vis: Visibility)
    requires Plain(v)
    ensures ParseValue(v, n, g, tagName, vis).Parsed?
    decreases v, 1
  {
    hide ParseFields, ParseElems;
    match v
    case Variable =>
    case OtherValue =>
    case StructValue(fields) => PlainFieldsParse(fields, n, vis);
    case ListValue(elems, _) => PlainElemsParse(elems, 0, n, tagName, vis);
  }

  lemma {:induction false} PlainFieldsParse(fields: seq<GoField>, n: string, vis: Visibility)
    requires forall f :: f in fields ==> f.tags.gnark.None? && Plain(f.value)
    ensures ParseFields(fields, n, vis).Parsed?
    decreases fields, 0
  {
    hide ParseValue, FullName, Plain;
    if fields != [] {
      NoTagReads();
      var f := fields[0];
      PlainParses(f.value, FullName(n, f.name, ""), f.name, "", Inherit(vis, Unset));
      PlainFieldsParse(fields[1..], n, vis);
    }
  }

  lemma {:induction false} PlainElemsParse(elems: seq<Value>, j: nat, n: string, tagName: string, vis: Visibility)
    requires forall e :: e in elems ==> Plain(e)
    ensures ParseElems(elems, j, n, tagName, vis).Parsed?
    decreases elems, 0
  {
    hide ParseValue, ElementName, Plain;
    if elems != [] {
      PlainParses(elems[0], ElementName(n, j), ElementName(n, j), tagName, vis);
      PlainElemsParse(elems[1..], j + 1, n, tagName, vis);
    }
  }
}
