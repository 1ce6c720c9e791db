/** What a parse says about visibility and names, stated over the paths of a circuit instead of the
    parser's inheritance: every leaf takes the nearest explicit visibility above it. */
module SchemaVisibility {
  import opened Term
  import opened Tags
  import opened Schema
  import opened DecimalText

  // ---- paths ----

  datatype Step = FieldStep(name: string, tag: Option<string>) | IndexStep(j: nat)

  /** A field or leaf the parser reaches, with the steps that lead to it. */
  datatype Node = Node(path: seq<Step>, isLeaf: bool)

  /** Every node under a value in the order of its fields and elements; fields tagged "-" are not
      entered. */
  function Nodes(v: Value, path: seq<Step>): seq<Node>
    decreases v, 1
  {
    match v
    case Variable => [Node(path, true)]
    case OtherValue => []
    case StructValue(fields) => FieldNodes(fields, path)
    case ListValue(elems, _) => ElemNodes(elems, 0, path)
  }

  function FieldNodes(fields: seq<GoField>, path: seq<Step>): seq<Node>
    decreases fields, 0
  {
    if fields == [] then []
    else
      var f := fields[0];
      var rest := FieldNodes(fields[1..], path);
      if ReadTag(f.tags.gnark) == Skipped then rest
      else
        var here := path + [FieldStep(f.name, f.tags.gnark)];
        [Node(here, false)] + Nodes(f.value, here) + rest
  }

  function ElemNodes(elems: seq<Value>, j: nat, path: seq<Step>): seq<Node>
    decreases elems, 0
  {
    if elems == [] then []
    else Nodes(elems[0], path + [IndexStep(j)]) + ElemNodes(elems[1..], j + 1, path)
  }

  /** The visibility a step sets itself, if any. */
  function Explicit(s: Step): Visibility {
    match s
    case IndexStep(_) => Unset
    case FieldStep(_, tag) => match ReadTag(tag)
                              case Info(_, v) => v
                              case _ => Unset
  }

  function Nearest(path: seq<Step>): Visibility {
    if path == [] then Unset
    else if Explicit(path[|path| - 1]) != Unset then Explicit(path[|path| - 1])
    else Nearest(path[..|path| - 1])
  }

  /** What a step is called: the name in its tag, or else the field's; an element by its index. */
  function StepName(s: Step): string {
    match s
    case IndexStep(j) => Decimal(j)
    case FieldStep(name, tag) =>
      match ReadTag(tag)
      case Info(nameTag, _) => if nameTag != "" then nameTag else name
      case _ => name
  }

  /** The names of the steps, joined by underscores. */
  function PathName(path: seq<Step>): string {
    if path == [] then ""
    else
      var parent, own := PathName(path[..|path| - 1]), StepName(path[|path| - 1]);
      if parent == "" then own else parent + "_" + own
  }

  /** Every tag on the path names a known option, and the path does not set both public and secret. */
  ghost predicate Consistent(path: seq<Step>) {
    && (forall i :: 0 <= i < |path| && path[i].FieldStep? ==> ReadTag(path[i].tag).Info?)
    && (forall i, j :: 0 <= i < |path| && 0 <= j < |path|
                       ==> !(Explicit(path[i]) == Public && Explicit(path[j]) == Secret))
  }

  ghost predicate AllConsistent(nodes: seq<Node>) {
    forall i :: 0 <= i < |nodes| ==> Consistent(nodes[i].path)
  }

  /** The nearest explicit visibility, and Secret where there is none. */
  function LeafVisibility(path: seq<Step>): Visibility {
    if Nearest(path) == Unset then Secret else Nearest(path)
  }

  function LeafAt(node: Node): seq<LeafSeen> {
    if node.isLeaf then [LeafSeen(LeafVisibility(node.path), PathName(node.path))] else []
  }

  /** The leaves among the nodes, with their names and visibilities. */
  function LeavesOf(nodes: seq<Node>): seq<LeafSeen> {
    if nodes == [] then [] else LeafAt(nodes[0]) + LeavesOf(nodes[1..])
  }

  // ---- paths and inheritance ----

  lemma {:induction false} NearestSettable(path: seq<Step>)
    ensures Nearest(path) in {Unset, Secret, Public}
  {
    if path != [] {
      var s := path[|path| - 1];
      if s.FieldStep? && ReadTag(s.tag).Info? {
        ReadTagName(s.tag);
      }
      NearestSettable(path[..|path| - 1]);
    }
  }

  /** On a consistent path every explicit visibility is the nearest one. */
  lemma {:induction false} NearestIsOnly(path: seq<Step>, i: nat)
    requires Consistent(path) && i < |path| && Explicit(path[i]) != Unset
    ensures Explicit(path[i]) == Nearest(path)
  {
    hide ReadTag;
    var k := |path| - 1;
    ExplicitSettable(path[i]);
    ExplicitSettable(path[k]);
    assert !Conflict(Explicit(path[i]), Explicit(path[k]));
    if Explicit(path[k]) == Unset {
      ConsistentPrefix(path);
      NearestIsOnly(path[..k], i);
    }
  }

  lemma ExplicitSettable(s: Step)
    ensures Explicit(s) in {Unset, Secret, Public}
  {
    if s.FieldStep? && ReadTag(s.tag).Info? {
      ReadTagName(s.tag);
    }
  }

  lemma ConsistentPrefix(path: seq<Step>)
    requires path != [] && Consistent(path)
    ensures Consistent(path[..|path| - 1])
  {
    hide ReadTag, Explicit;
  }

  /** Adding a step keeps a path consistent exactly when its tag is known and does not conflict with
      the visibility inherited so far. */
  lemma ConsistentStep(path: seq<Step>, s: Step)
    requires Consistent(path)
    ensures Consistent(path + [s])
            <==> (s.FieldStep? ==> ReadTag(s.tag).Info?) && !Conflict(Nearest(path), Explicit(s))
    ensures Nearest(path + [s]) == Inherit(Nearest(path), Explicit(s))
  {
    hide ReadTag, Explicit;
    var p := path + [s];
    assert p[..|path|] == path;
    if Consistent(p) {
      assert ReadTagKnown(p, |path|);
      if Nearest(path) != Unset {
        var i := NearestStep(path);
        assert !Conflict(Explicit(p[i]), Explicit(p[|path|]));
      }
    }
    if (s.FieldStep? ==> ReadTag(s.tag).Info?) && !Conflict(Nearest(path), Explicit(s)) {
      forall i, j | 0 <= i < |p| && 0 <= j < |p|
        ensures !Conflict(Explicit(p[i]), Explicit(p[j]))
      {
        if i < |path| && j == |path| && Explicit(p[i]) != Unset {
          NearestIsOnly(path, i);
        } else if j < |path| && i == |path| && Explicit(p[j]) != Unset {
          NearestIsOnly(path, j);
        } else if i < |path| && j < |path| {
          assert !Conflict(Explicit(path[i]), Explicit(path[j]));
        }
      }
    }
  }

  ghost predicate ReadTagKnown(path: seq<Step>, i: nat)
    requires i < |path|
  {
    path[i].FieldStep? ==> ReadTag(path[i].tag).Info?
  }

  lemma {:induction false} NearestStep(path: seq<Step>) returns (i: nat)
    requires Nearest(path) != Unset
    ensures i < |path| && Explicit(path[i]) == Nearest(path)
  {
    hide Explicit;
    i := |path| - 1;
    if Explicit(path[i]) == Unset {
      i := NearestStep(path[..|path| - 1]);
    }
  }

  // ---- the law ----

  lemma {:induction false} LeavesAppend(a: seq<Node>, b: seq<Node>)
    ensures LeavesOf(a + b) == LeavesOf(a) + LeavesOf(b)
  {
    hide LeafAt;
    if a == [] {
      assert a + b == b;
    } else {
      LeavesAppend(a[1..], b);
      HeadAndTail(a, b);
      Grouped(LeafAt(a[0]), LeavesOf(a[1..]), LeavesOf(b));
    }
  }

  /** The parse of a part of the circuit is what its nodes say. */
  ghost predicate ParsedAs(p: Parsed, nodes: seq<Node>) {
    && (p.Parsed? <==> AllConsistent(nodes))
    && (p.Parsed? ==> p.leaves == LeavesOf(nodes))
  }

  lemma ParsedAsThen(p: Parsed, q: Parsed, a: seq<Node>, b: seq<Node>)
    requires ParsedAs(p, a) && ParsedAs(q, b)
    ensures ParsedAs(Then(p, q), a + b)
  {
    hide Consistent, LeavesOf;
    LeavesAppend(a, b);
    var ab := a + b;
    if AllConsistent(ab) {
      assert forall i :: 0 <= i < |a| ==> a[i] == ab[i];
      assert forall i :: 0 <= i < |b| ==> b[i] == ab[|a| + i];
    }
  }

  lemma {:induction false} ValueLaw(v: Value, path: seq<Step>, goName: string, tagName: string)
    requires Consistent(path)
    ensures ParsedAs(ParseValue(v, PathName(path), goName, tagName, Nearest(path)), Nodes(v, path))
    decreases v, 2
  {
    hide Consistent, Nearest, PathName;
    match v
    case Variable => OneLeaf(path);
    case OtherValue =>
    case StructValue(fields) => FieldsLaw(fields, path);
    case ListValue(elems, _) => ElemsLaw(elems, 0, path, tagName);
  }

  lemma OneLeaf(path: seq<Step>)
    ensures LeavesOf([Node(path, true)]) == [LeafSeen(OrSecret(Nearest(path)), PathName(path))]
    ensures LeavesOf([Node(path, false)]) == [] && LeavesOf([]) == []
  {
  }

  lemma {:induction false} FieldsLaw(fields: seq<GoField>, path: seq<Step>)
    requires Consistent(path)
    ensures ParsedAs(ParseFields(fields, PathName(path), Nearest(path)), FieldNodes(fields, path))
    decreases fields, 1
  {
    hide Consistent, Nearest, PathName, ReadTag, LeavesOf, ParseValue, Nodes, ParsedAs;
    if fields == [] {
      NoNodes();
    } else {
      FieldsLaw(fields[1..], path);
      var f := fields[0];
      if ReadTag(f.tags.gnark) != Skipped {
        FieldLaw(f, fields, path);
      }
    }
  }

  lemma NoNodes()
    ensures ParsedAs(Parsed([], []), [])
  {
  }

  lemma {:induction false} FieldLaw(f: GoField, fields: seq<GoField>, path: seq<Step>)
    requires fields != [] && f == fields[0] && ReadTag(f.tags.gnark) != Skipped && Consistent(path)
    requires ParsedAs(ParseFields(fields[1..], PathName(path), Nearest(path)), FieldNodes(fields[1..], path))
    ensures ParsedAs(ParseFields(fields, PathName(path), Nearest(path)), FieldNodes(fields, path))
    decreases fields, 0
  {
    hide Consistent, Nearest, PathName, ReadTag, LeavesOf, ParseValue, Nodes, ParsedAs;
    var step := FieldStep(f.name, f.tags.gnark);
    var here := path + [step];
    var info := ReadTag(f.tags.gnark);
    var rest, restNodes := ParseFields(fields[1..], PathName(path), Nearest(path)), FieldNodes(fields[1..], path);
    ConsistentStep(path, step);
    FieldPath(path, f.name, f.tags.gnark);
    if Consistent(here) {
      ValueLaw(f.value, here, f.name, info.nameTag);
      var p := ParseValue(f.value, PathName(here), f.name, info.nameTag, Nearest(here));
      FieldHead(p, here, Nodes(f.value, here));
      ParsedAsThen(p, rest, [Node(here, false)] + Nodes(f.value, here), restNodes);
    } else {
      BadHead(here, Nodes(f.value, here) + restNodes);
      assert [Node(here, false)] + Nodes(f.value, here) + restNodes
          == [Node(here, false)] + (Nodes(f.value, here) + restNodes);
    }
  }

  lemma FieldPath(path: seq<Step>, name: string, tag: Option<string>)
    ensures ReadTag(tag).Info? ==>
              && Explicit(FieldStep(name, tag)) == ReadTag(tag).visibility
              && PathName(path + [FieldStep(name, tag)])
                 == FullName(PathName(path), name, ReadTag(tag).nameTag)
  {
    hide ReadTag, Nearest;
    assert (path + [FieldStep(name, tag)])[..|path|] == path;
  }

  lemma FieldHead(p: Parsed, here: seq<Step>, nodes: seq<Node>)
    requires Consistent(here) && ParsedAs(p, nodes)
    ensures ParsedAs(p, [Node(here, false)] + nodes)
  {
    hide Consistent, Nearest, PathName;
    var all := [Node(here, false)] + nodes;
    assert all[1..] == nodes;
    assert forall i :: 0 <= i < |nodes| ==> all[i + 1] == nodes[i];
  }

  lemma BadHead(here: seq<Step>, nodes: seq<Node>)
    requires !Consistent(here)
    ensures forall f :: ParsedAs(Failed(f), [Node(here, false)] + nodes)
  {
    hide Consistent, LeavesOf;
    var all := [Node(here, false)] + nodes;
    assert all[0].path == here;
  }

  lemma {:induction false} ElemsLaw(elems: seq<Value>, j: nat, path: seq<Step>, tagName: string)
    requires Consistent(path)
    ensures ParsedAs(ParseElems(elems, j, PathName(path), tagName, Nearest(path)), ElemNodes(elems, j, path))
    decreases elems, 0
  {
    hide Consistent, Nearest, PathName, LeavesOf, ParseValue, Nodes, ParsedAs;
    if elems == [] {
      NoNodes();
    } else {
      var here := path + [IndexStep(j)];
      ConsistentStep(path, IndexStep(j));
      IndexPath(path, j);
      ValueLaw(elems[0], here, PathName(here), tagName);
      ElemsLaw(elems[1..], j + 1, path, tagName);
      ParsedAsThen(ParseValue(elems[0], PathName(here), PathName(here), tagName, Nearest(here)),
                   ParseElems(elems[1..], j + 1, PathName(path), tagName, Nearest(path)),
                   Nodes(elems[0], here), ElemNodes(elems[1..], j + 1, path));
    }
  }

  lemma IndexPath(path: seq<Step>, j: nat)
    ensures PathName(path + [IndexStep(j)]) == ElementName(PathName(path), j)
    ensures !Conflict(Nearest(path), Explicit(IndexStep(j)))
    ensures Inherit(Nearest(path), Explicit(IndexStep(j))) == Nearest(path)
  {
    assert (path + [IndexStep(j)])[..|path|] == path;
  }

  lemma {:induction false} EveryLeafCounted(nodes: seq<Node>)
    ensures CountOf(LeavesOf(nodes), Public) + CountOf(LeavesOf(nodes), Secret) == |LeavesOf(nodes)|
  {
    hide Nearest, PathName;
    if nodes != [] {
      EveryLeafCounted(nodes[1..]);
      NearestSettable(nodes[0].path);
      CountAppend(LeafAt(nodes[0]), LeavesOf(nodes[1..]), Public);
      CountAppend(LeafAt(nodes[0]), LeavesOf(nodes[1..]), Secret);
      if nodes[0].isLeaf {
        assert LeafAt(nodes[0])[1..] == [];
      }
    }
  }

  /** A circuit parses exactly when no path in it has an unknown option or sets both public and secret;
      the handler then sees each leaf once, in field order, named by its path, with the nearest explicit
      visibility above it or else Secret; and the two counters together count every leaf. */
  lemma VisibilityLaw(circuit: Value)
    ensures Parse(circuit).Parsed? <==> AllConsistent(Nodes(circuit, []))
    ensures var p := Parse(circuit);
            p.Parsed? ==>
              && p.leaves == LeavesOf(Nodes(circuit, []))
              && CountOf(p.leaves, Public) + CountOf(p.leaves, Secret) == |p.leaves|
  {
    assert Consistent([]);
    ValueLaw(circuit, [], "", "");
    EveryLeafCounted(Nodes(circuit, []));
  }

  /** A circuit with a path that sets public at one step and secret at another, in either order and at
      any distance, never parses. */
  lemma MixedPathFails(circuit: Value, n: nat, i: nat, j: nat)
    requires n < |Nodes(circuit, [])|
    requires var path := Nodes(circuit, [])[n].path;
             i < |path| && j < |path| && Explicit(path[i]) == Public && Explicit(path[j]) == Secret
    ensures Parse(circuit).Failed?
  {
    hide Nodes, Explicit, Parse;
    VisibilityLaw(circuit);
    var node := Nodes(circuit, [])[n];
    assert Conflict(Explicit(node.path[i]), Explicit(node.path[j]));
    assert !Consistent(node.path);
  }
}
