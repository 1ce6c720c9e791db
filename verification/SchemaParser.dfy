/** The schema parser and builder in the form of lib/schema/schema.go: loops that append to field lists,
    counters shared by the whole walk, and the witness sequence written from a rebuilt circuit. */
module SchemaParser {
  import opened Term
  import opened Tags
  import opened Schema
  import opened SchemaLeaves
  import opened SchemaRoundTrip
  import opened SchemaRebuild

  // ---- what one walk does ----

  datatype Outcome = Done(fields: seq<Field>) | Error(failure: Failure)

  /** The names handled with a visibility, in order. */
  function NamesOf(leaves: seq<LeafSeen>, v: Visibility): seq<string> {
    if leaves == [] then [] else NameIf(leaves[0], v) + NamesOf(leaves[1..], v)
  }

  function NameIf(leaf: LeafSeen, v: Visibility): seq<string> {
    if leaf.visibility == v then [leaf.name] else []
  }

  /** As many names as leaves with the visibility, and each leaf's name at its place among those. */
  lemma {:induction false} NamesAre(leaves: seq<LeafSeen>, v: Visibility, i: nat)
    requires i < |leaves| && leaves[i].visibility == v
    ensures CountOf(leaves[..i], v) < |NamesOf(leaves, v)| == CountOf(leaves, v)
    ensures NamesOf(leaves, v)[CountOf(leaves[..i], v)] == leaves[i].name
  {
    hide CountOf, NamesOf;
    var before, after := leaves[..i], leaves[i + 1..];
    assert leaves == before + ([leaves[i]] + after);
    NamesAppend(before, [leaves[i]] + after, v);
    NamesAppend([leaves[i]], after, v);
    CountAppend(before, [leaves[i]] + after, v);
    CountAppend([leaves[i]], after, v);
    NamesCount(before, v);
    NamesCount(after, v);
    OneSeen(leaves[i]);
  }

  lemma OneSeen(leaf: LeafSeen)
    ensures NamesOf([leaf], leaf.visibility) == [leaf.name] && CountOf([leaf], leaf.visibility) == 1
  {
    assert [leaf][1..] == [];
  }

  lemma {:induction false} NamesCount(leaves: seq<LeafSeen>, v: Visibility)
    ensures |NamesOf(leaves, v)| == CountOf(leaves, v)
  {
    if leaves != [] {
      NamesCount(leaves[1..], v);
    }
  }

  lemma {:induction false} NamesAppend(a: seq<LeafSeen>, b: seq<LeafSeen>, v: Visibility)
    ensures NamesOf(a + b, v) == NamesOf(a, v) + NamesOf(b, v)
  {
    hide NameIf;
    if a == [] {
      assert a + b == b;
    } else {
      NamesAppend(a[1..], b, v);
      HeadAndTail(a, b);
      Grouped(NameIf(a[0], v), NamesOf(a[1..], v), NamesOf(b, v));
    }
  }

  lemma ThenAssociates(p: Parsed, q: Parsed, r: Parsed)
    ensures Then(Then(p, q), r) == Then(p, Then(q, r))
  {
    if p.Parsed? && q.Parsed? && r.Parsed? {
      assert p.fields + q.fields + r.fields == p.fields + (q.fields + r.fields);
      assert p.leaves + q.leaves + r.leaves == p.leaves + (q.leaves + r.leaves);
    }
  }

  lemma ThenNothing(p: Parsed)
    ensures Then(Parsed([], []), p) == p && Then(p, Parsed([], [])) == p
  {
  }

  /** The state one walk updates: the two counters behind Parse's pointers, and the lists the handler of
      WriteSequence appends to. */
  class Walk {
    var nbPublic: nat
    var nbSecret: nat
    var public: seq<string>
    var secret: seq<string>
    ghost var handled: seq<LeafSeen>

    ghost predicate Valid()
      reads this
    {
      && nbPublic == CountOf(handled, Public) && nbSecret == CountOf(handled, Secret)
      && public == NamesOf(handled, Public) && secret == NamesOf(handled, Secret)
    }

    constructor ()
      ensures Valid() && handled == []
    {
      nbPublic, nbSecret := 0, 0;
      public, secret := [], [];
      handled := [];
    }

    /** The stop condition of the walk: count the leaf and hand it to the handler. */
    method Handle(v: Visibility, name: string)
      requires Valid()
      modifies this
      ensures Valid() && handled == old(handled) + [LeafSeen(v, name)]
    {
      CountAppend(handled, [LeafSeen(v, name)], Secret);
      CountAppend(handled, [LeafSeen(v, name)], Public);
      NamesAppend(handled, [LeafSeen(v, name)], Secret);
      NamesAppend(handled, [LeafSeen(v, name)], Public);
      if v == Secret {
        nbSecret := nbSecret + 1;
      } else if v == Public {
        nbPublic := nbPublic + 1;
      }
      if v == Public {
        public := public + [name];
      } else if v == Secret {
        secret := secret + [name];
      }
      handled := handled + [LeafSeen(v, name)];
    }

    /** Whether the walk from `before` did what p says, adding its fields to r. */
    ghost predicate Did(p: Parsed, r: seq<Field>, out: Outcome, before: seq<LeafSeen>)
      reads this
    {
      match p
      case Failed(failure) => out == Error(failure)
      case Parsed(fields, leaves) => out == Done(r + fields) && handled == before + leaves
    }

    method ParseInto(
      r: seq<Field>, v: Value, fullName: string, goName: string, tagName: string, vis: Visibility)
      returns (out: Outcome)
      requires Valid() && Named(v) && (goName == "" ==> r == [])
      modifies this
      ensures Valid() && Did(ParseValue(v, fullName, goName, tagName, vis), r, out, old(handled))
      decreases v, 1
    {
      hide CountOf, NamesOf, ParseFields, ParseElems;
      match v {
        case Variable =>
          Handle(OrSecret(vis), fullName);
          return Done(r + [Field(goName, tagName, Leaf, [], OrSecret(vis), 0)]);
        case OtherValue =>
          assert r + [] == r;
          return Done(r);
        case StructValue(fields) =>
          var sub := ParseStruct(fields, fullName, vis);
          if sub.Error? {
            return sub;
          }
          ghost var p := ParseFields(fields, fullName, vis);
          assert [] + p.fields == p.fields && r + [] == r;
          if goName == "" {
            return sub;
          }
          if sub.fields == [] {
            return Done(r);
          }
          return Done(r + [Field(goName, tagName, Struct, sub.fields, vis, 0)]);
        case ListValue(elems, named) =>
          assert r + [] == r;
          if elems == [] {
            NoElements(fullName, tagName, vis);
            return Done(r);
          }
          var sub := ParseList(elems, fullName, tagName, vis, !IsVariableList(elems, named));
          if sub.Error? {
            return sub;
          }
          if IsVariableList(elems, named) {
            return Done(r + [Field(goName, tagName, Array, [], vis, |elems|)]);
          }
          if sub.fields == [] {
            return Done(r);
          }
          return Done(r + [Field(goName, tagName, Array, sub.fields[..1], vis, |elems|)]);
      }
    }

    /** The loop over a struct's fields. */
    method ParseStruct(fields: seq<GoField>, fullName: string, vis: Visibility) returns (out: Outcome)
      requires Valid() && forall f :: f in fields && Visited(f) ==> f.name != "" && Named(f.value)
      modifies this
      ensures Valid() && Did(ParseFields(fields, fullName, vis), [], out, old(handled))
      decreases fields, 0
    {
      hide CountOf, NamesOf, ReadTag, ParseValue, Conflict, Inherit, FullName, Then;
      ghost var all := ParseFields(fields, fullName, vis);
      var subFields := [];
      ghost var seen := [];
      ThenNothing(all);
      for i := 0 to |fields|
        invariant Valid() && handled == old(handled) + seen
        invariant all == Then(Parsed(subFields, seen), ParseFields(fields[i..], fullName, vis))
      {
        var f := fields[i];
        assert f in fields && fields[i..][1..] == fields[i + 1..] && fields[i..][0] == f;
        ghost var rest := ParseFields(fields[i + 1..], fullName, vis);
        var info := ReadTag(f.tags.gnark);
        if info.Skipped? {
          continue;
        }
        if info.BadOption? {
          StopsHere(Parsed(subFields, seen), InvalidOption, rest);
          return Error(InvalidOption);
        }
        if Conflict(vis, info.visibility) {
          StopsHere(Parsed(subFields, seen), ConflictingVisibility, rest);
          return Error(ConflictingVisibility);
        }
        ghost var p := ParseValue(f.value, FullName(fullName, f.name, info.nameTag), f.name, info.nameTag,
                                  Inherit(vis, info.visibility));
        ThenAssociates(Parsed(subFields, seen), p, rest);
        AfterOne(subFields, seen, p, rest);
        var next := ParseInto(subFields, f.value, FullName(fullName, f.name, info.nameTag), f.name,
                              info.nameTag, Inherit(vis, info.visibility));
        if next.Error? {
          return next;
        }
        assert old(handled) + seen + p.leaves == old(handled) + (seen + p.leaves);
        subFields, seen := next.fields, seen + p.leaves;
      }
      assert fields[|fields|..] == [];
      ThenNothing(Parsed(subFields, seen));
      return Done(subFields);
    }

    /** The two loops over a list's elements: the one for variables drops the fields it is given. */
    method ParseList(elems: seq<Value>, fullName: string, tagName: string, vis: Visibility, keep: bool)
      returns (out: Outcome)
      requires Valid() && forall e :: e in elems ==> Named(e)
      modifies this
      ensures Valid()
      ensures var p := ParseElems(elems, 0, fullName, tagName, vis);
              if p.Failed? then out == Error(p.failure)
              else out.Done? && (keep ==> out.fields == p.fields) && handled == old(handled) + p.leaves
      decreases elems, 0
    {
      hide CountOf, NamesOf, ParseValue, ElementName, Then;
      ghost var all := ParseElems(elems, 0, fullName, tagName, vis);
      var subFields := [];
      ghost var fields, seen := [], [];
      ThenNothing(all);
      for j := 0 to |elems|
        invariant Valid() && handled == old(handled) + seen
        invariant keep ==> subFields == fields
        invariant all == Then(Parsed(fields, seen), ParseElems(elems[j..], j, fullName, tagName, vis))
      {
        var e := elems[j];
        assert e in elems && elems[j..][1..] == elems[j + 1..] && elems[j..][0] == e;
        ghost var rest := ParseElems(elems[j + 1..], j + 1, fullName, tagName, vis);
        var fqn := ElementName(fullName, j);
        ghost var p := ParseValue(e, fqn, fqn, tagName, vis);
        ThenAssociates(Parsed(fields, seen), p, rest);
        AfterOne(fields, seen, p, rest);
        var next := ParseInto(if keep then subFields else [], e, fqn, fqn, tagName, vis);
        if next.Error? {
          return next;
        }
        assert old(handled) + seen + p.leaves == old(handled) + (seen + p.leaves);
        if keep {
          subFields := next.fields;
        }
        fields, seen := fields + p.fields, seen + p.leaves;
      }
      assert elems[|elems|..] == [];
      ThenNothing(Parsed(fields, seen));
      return Done(subFields);
    }
  }

  lemma NoElements(fullName: string, tagName: string, vis: Visibility)
    ensures ParseElems([], 0, fullName, tagName, vis) == Parsed([], [])
  {
  }

  lemma StopsHere(p: Parsed, failure: Failure, rest: Parsed)
    requires p.Parsed?
    ensures Then(p, Failed(failure)) == Failed(failure)
  {
  }

  lemma AfterOne(fields: seq<Field>, seen: seq<LeafSeen>, p: Parsed, rest: Parsed)
    ensures var q := Then(Then(Parsed(fields, seen), p), rest);
            if p.Failed? then q == Failed(p.failure)
            else q == Then(Parsed(fields + p.fields, seen + p.leaves), rest)
  {
  }

  // ---- Parse ----

  datatype CircuitSchema = CircuitSchema(fields: seq<Field>, nbPublic: nat, nbSecret: nat)

  datatype ParseResult = Parsing(schema: CircuitSchema, public: seq<string>, secret: seq<string>)
                       | ParseError(failure: Failure)

  /** Parse with the handler that collects names: the schema and both counters are those of the walk,
      and the names are the public and the secret leaves in order. */
  method ParseCircuit(circuit: Value) returns (res: ParseResult)
    requires Named(circuit)
    ensures var p := Parse(circuit);
            match p
            case Failed(failure) => res == ParseError(failure)
            case Parsed(fields, leaves) =>
              res == Parsing(CircuitSchema(fields, CountOf(leaves, Public), CountOf(leaves, Secret)),
                             NamesOf(leaves, Public), NamesOf(leaves, Secret))
  {
    hide CountOf, NamesOf, ParseValue;
    var walk := new Walk();
    var out := walk.ParseInto([], circuit, "", "", "", Unset);
    if out.Error? {
      return ParseError(out.failure);
    }
    assert forall fields: seq<Field> :: [] + fields == fields;
    assert forall leaves: seq<LeafSeen> :: [] + leaves == leaves;
    return Parsing(CircuitSchema(out.fields, walk.nbPublic, walk.nbSecret), walk.public, walk.secret);
  }

  // ---- Instantiate ----

  /** reflect.StructOf: panics on an empty or a repeated name. */
  function StructOf(gs: seq<GoField>): Maybe<Value> {
    if (forall i :: 0 <= i < |gs| ==> gs[i].name != "")
       && (forall i, j :: 0 <= i < j < |gs| ==> gs[i].name != gs[j].name)
    then Maybe.Value(StructValue(gs)) else Panic
  }

  lemma StructOfBuilt(fields: seq<Field>, omitEmpty: bool)
    requires AllInstantiable(fields)
    ensures var t := StructOf(ToStructFields(fields, omitEmpty));
            && (t.Panic? <==> !GoodNames(fields))
            && (t.Value? ==> t.value == StructValue(ToStructFields(fields, omitEmpty)))
  {
    hide Instantiable, FieldValue, StructTag, ToStructFields;
    BuiltFields(fields, omitEmpty);
    var gs := ToStructFields(fields, omitEmpty);
    assert forall i :: 0 <= i < |gs| ==> gs[i].name == fields[i].name;
  }

  /** Panics exactly when the type of some field cannot be built. */
  method ToStructField(fields: seq<Field>, omitEmpty: bool) returns (gs: Maybe<seq<GoField>>)
    ensures gs.Panic? <==> !AllInstantiable(fields)
    ensures gs.Value? ==> gs.value == ToStructFields(fields, omitEmpty)
    decreases fields, 0
  {
    hide StructTag;
    var r := new GoField[|fields|](_ => GoField("", GoTags(None, None), OtherValue));
    for i := 0 to |fields|
      invariant forall k :: 0 <= k < i ==> Instantiable(fields[k]) && r[k] == BuiltField(fields[k], omitEmpty)
    {
      var f := fields[i];
      assert f in fields;
      var t := FieldType(f, omitEmpty);
      if t.Panic? {
        return Panic;
      }
      r[i] := GoField(f.name, StructTag(f.nameTag, f.visibility, omitEmpty), t.value);
    }
    BuiltFields(fields, omitEmpty);
    return Maybe.Value(r[..]);
  }

  method FieldType(f: Field, omitEmpty: bool) returns (t: Maybe<Value>)
    ensures t.Panic? <==> !Instantiable(f)
    ensures t.Value? ==> t.value == FieldValue(f, omitEmpty)
    decreases f, 1
  {
    match f.kind {
      case Leaf => return Maybe.Value(Variable);
      case Array => t := ArrayElementType(f.arraySize, f.subFields, omitEmpty);
      case Struct => t := StructType(f.subFields, omitEmpty);
    }
  }

  /** A struct type of the fields. */
  method StructType(fields: seq<Field>, omitEmpty: bool) returns (t: Maybe<Value>)
    ensures t.Panic? <==> !CanInstantiate(fields)
    ensures t.Value? ==> t.value == StructValue(ToStructFields(fields, omitEmpty))
    decreases fields, 1
  {
    hide Instantiable, ToStructFields, GoodNames, StructOf;
    var sub := ToStructField(fields, omitEmpty);
    if sub.Panic? {
      return Panic;
    }
    StructOfBuilt(fields, omitEmpty);
    return StructOf(sub.value);
  }

  function BuiltField(f: Field, omitEmpty: bool): GoField
    requires Instantiable(f)
  {
    GoField(f.name, StructTag(f.nameTag, f.visibility, omitEmpty), FieldValue(f, omitEmpty))
  }

  lemma {:induction false} BuiltFields(fields: seq<Field>, omitEmpty: bool)
    requires AllInstantiable(fields)
    ensures var gs := ToStructFields(fields, omitEmpty);
            |gs| == |fields| && forall k :: 0 <= k < |fields| ==> gs[k] == BuiltField(fields[k], omitEmpty)
  {
    hide StructTag, FieldValue, Instantiable;
    if fields != [] {
      BuiltFields(fields[1..], omitEmpty);
      assert forall k :: 0 < k < |fields| ==> fields[k] == fields[1..][k - 1];
    }
  }

  /** The cases of the element type; an array whose first sub-field is a leaf is the panic. */
  method ArrayElementType(n: nat, fields: seq<Field>, omitEmpty: bool) returns (t: Maybe<Value>)
    ensures t.Panic? <==> fields != [] && (fields[0].kind == Leaf || !Instantiable(fields[0]))
    ensures t.Value? ==> t.value == ArrayValue(n, fields, omitEmpty)
    decreases fields, 2
  {
    if fields == [] {
      return Maybe.Value(ListValue(Copies(n, Variable), false));
    }
    var first := fields[0];
    var e;
    match first.kind {
      case Struct => e := StructType(first.subFields, omitEmpty);
      case Array => e := ArrayElementType(first.arraySize, first.subFields, omitEmpty);
      case Leaf => return Panic;
    }
    return if e.Panic? then Panic else Maybe.Value(ListValue(Copies(n, e.value), false));
  }

  // ---- WriteSequence ----

  function Lines(names: seq<string>): string {
    if names == [] then "" else names[0] + "\n" + Lines(names[1..])
  }

  lemma LinesAppend(names: seq<string>, name: string)
    ensures Lines(names + [name]) == Lines(names) + name + "\n"
  {
    LinesJoin(names, [name]);
    assert [name][1..] == [];
    assert Lines([name]) == name + "\n" + "";
    Grouped(Lines(names), name, "\n");
  }

  /** The text naming the public leaves, then the secret ones. */
  function SequenceText(leaves: seq<LeafSeen>): string {
    "public:\n" + Lines(NamesOf(leaves, Public)) + "secret:\n" + Lines(NamesOf(leaves, Secret))
  }

  datatype Written = Written(text: string) | WriteError(failure: Failure) | WritePanic

  method WriteNames(w: string, names: seq<string>) returns (text: string)
    ensures text == w + Lines(names)
  {
    hide Lines;
    text := w;
    assert names[..0] == [];
    LinesNone(w);
    for i := 0 to |names|
      invariant text == w + Lines(names[..i])
    {
      LinesAppend(names[..i], names[i]);
      assert names[..i + 1] == names[..i] + [names[i]];
      assert w + Lines(names[..i]) + names[i] + "\n" == w + (Lines(names[..i]) + names[i] + "\n");
      text := text + names[i];
      text := text + "\n";
    }
    assert names[..|names|] == names;
  }

  lemma LinesNone(w: string)
    ensures w + Lines([]) == w
  {
  }

  /** What WriteSequence does with any schema: panic when it cannot be instantiated, and else write the
      leaves of the circuit rebuilt from it. */
  method WriteSequence(s: CircuitSchema) returns (res: Written)
    ensures res.WritePanic? <==> !CanInstantiate(s.fields)
    ensures CanInstantiate(s.fields) ==>
              match Parse(Instantiate(s.fields, false))
              case Failed(failure) => res == WriteError(failure)
              case Parsed(_, leaves) => res == Written(SequenceText(leaves))
  {
    hide Lines, NamesOf, Parse, CountOf, Named, Instantiable, GoodNames;
    var t := StructType(s.fields, false);
    if t.Panic? {
      return WritePanic;
    }
    BuiltFieldsNamed(s.fields, false);
    var parsed := ParseCircuit(t.value);
    if parsed.ParseError? {
      return WriteError(parsed.failure);
    }
    var text := WriteNames("public:\n", parsed.public);
    text := text + "secret:\n";
    text := WriteNames(text, parsed.secret);
    return Written(text);
  }

  // ---- the sequence of a parsed circuit ----

  lemma {:induction false} BuiltNamed(f: Field, omitEmpty: bool)
    requires Instantiable(f)
    ensures Named(FieldValue(f, omitEmpty))
    decreases f, 1
  {
    match f.kind
    case Leaf =>
    case Struct => BuiltFieldsNamed(f.subFields, omitEmpty);
    case Array =>
      if f.subFields != [] {
        BuiltNamed(f.subFields[0], omitEmpty);
      }
  }

  lemma {:induction false} BuiltFieldsNamed(fields: seq<Field>, omitEmpty: bool)
    requires CanInstantiate(fields)
    ensures Named(StructValue(ToStructFields(fields, omitEmpty)))
    decreases fields, 0
  {
    hide StructTag, FieldValue, Instantiable, ToStructFields;
    BuiltFields(fields, omitEmpty);
    var gs := ToStructFields(fields, omitEmpty);
    forall g | g in gs
      ensures g.name != "" && Named(g.value)
    {
      var k :| 0 <= k < |gs| && gs[k] == g;
      assert fields[k] in fields;
      BuiltNamed(fields[k], omitEmpty);
    }
  }

  /** For the schema of any circuit that parses, WriteSequence does not fail, and it panics exactly when
      the circuit cannot be built; for a uniform circuit it writes the public and then the secret leaves
      of the circuit the schema came from. */
  lemma SequenceOfCircuit(fields: seq<GoField>)
    requires Named(StructValue(fields)) && Parse(StructValue(fields)).Parsed?
    ensures var circuit, p := StructValue(fields), Parse(StructValue(fields));
            && (CanInstantiate(p.fields) <==> Buildable(circuit))
            && (Buildable(circuit) ==>
                  && Parse(Instantiate(p.fields, false)).Parsed?
                  && (Uniform(circuit, Unset)
                      ==> SequenceText(Parse(Instantiate(p.fields, false)).leaves) == SequenceText(p.leaves)))
  {
    hide Uniform, Buildable, Named, Instantiate, CanInstantiate;
    PanicsIffNamedList(StructValue(fields));
    if Buildable(StructValue(fields)) {
      RoundTripIff(fields, false);
    }
  }

  // ---- reading the sequence text ----

  predicate OneLine(name: string) {
    '\n' !in name
  }

  predicate AllOneLine(names: seq<string>) {
    forall i :: 0 <= i < |names| ==> OneLine(names[i])
  }

  /** The first line of a text is determined by it. */
  lemma FirstLine(x: string, rest: string, y: string, rest': string)
    requires OneLine(x) && OneLine(y) && x + "\n" + rest == y + "\n" + rest'
    ensures x == y && rest == rest'
  {
    var t, u := x + "\n" + rest, y + "\n" + rest';
    assert t[|x|] == '\n' && u[|y|] == '\n';
    assert forall k :: 0 <= k < |x| ==> t[k] == x[k] != '\n';
    assert forall k :: 0 <= k < |y| ==> u[k] == y[k] != '\n';
    assert |x| == |y|;
    assert t[..|x|] == x && u[..|y|] == y;
    assert t[|x| + 1..] == rest && u[|y| + 1..] == rest';
  }

  lemma {:induction false} LinesInjective(xs: seq<string>, ys: seq<string>)
    requires AllOneLine(xs) && AllOneLine(ys) && Lines(xs) == Lines(ys)
    ensures xs == ys
  {
    if xs != [] && ys != [] {
      FirstLine(xs[0], Lines(xs[1..]), ys[0], Lines(ys[1..]));
      LinesInjective(xs[1..], ys[1..]);
      assert xs == [xs[0]] + xs[1..] && ys == [ys[0]] + ys[1..];
    }
  }

  lemma {:induction false} LinesJoin(xs: seq<string>, ys: seq<string>)
    ensures Lines(xs + ys) == Lines(xs) + Lines(ys)
  {
    if xs == [] {
      assert xs + ys == ys;
    } else {
      LinesJoin(xs[1..], ys);
      HeadAndTail(xs, ys);
      Grouped(xs[0] + "\n", Lines(xs[1..]), Lines(ys));
    }
  }

  const SECRET_HEADER := "secret:"

  /** All lines after the first. */
  function SequenceLines(leaves: seq<LeafSeen>): seq<string> {
    NamesOf(leaves, Public) + [SECRET_HEADER] + NamesOf(leaves, Secret)
  }

  lemma TextIsLines(leaves: seq<LeafSeen>)
    ensures SequenceText(leaves) == "public:\n" + Lines(SequenceLines(leaves))
  {
    hide NamesOf;
    var public, secret := NamesOf(leaves, Public), NamesOf(leaves, Secret);
    LinesAppend(public, SECRET_HEADER);
    LinesJoin(public + [SECRET_HEADER], secret);
    assert "secret:\n" == SECRET_HEADER + "\n";
  }

  ghost predicate NamesOneLine(leaves: seq<LeafSeen>) {
    AllOneLine(NamesOf(leaves, Public)) && AllOneLine(NamesOf(leaves, Secret))
  }

  /** The text determines the public and the secret names, provided no name spans lines and no public
      leaf is called like the second heading. */
  lemma TextDetermines(a: seq<LeafSeen>, b: seq<LeafSeen>)
    requires NamesOneLine(a) && NamesOneLine(b) && SequenceText(a) == SequenceText(b)
    requires SECRET_HEADER !in NamesOf(a, Public) && SECRET_HEADER !in NamesOf(b, Public)
    ensures NamesOf(a, Public) == NamesOf(b, Public) && NamesOf(a, Secret) == NamesOf(b, Secret)
  {
    hide NamesOf, Lines, SequenceText;
    SameLines(a, b);
    SameSplit(NamesOf(a, Public), NamesOf(a, Secret), NamesOf(b, Public), NamesOf(b, Secret), SECRET_HEADER);
  }

  lemma SameSplit(xs: seq<string>, ys: seq<string>, xs': seq<string>, ys': seq<string>, mark: string)
    requires mark !in xs && mark !in xs' && xs + [mark] + ys == xs' + [mark] + ys'
    ensures xs == xs' && ys == ys'
  {
    var all, all' := xs + [mark] + ys, xs' + [mark] + ys';
    assert all[|xs|] == mark && all'[|xs'|] == mark;
    assert forall k :: 0 <= k < |xs| ==> all[k] == xs[k] != mark;
    assert forall k :: 0 <= k < |xs'| ==> all'[k] == xs'[k] != mark;
    assert |xs| == |xs'|;
    assert all[..|xs|] == xs && all'[..|xs'|] == xs';
    assert all[|xs| + 1..] == ys && all'[|xs'| + 1..] == ys';
  }

  /** A circuit with one variable of that name and visibility. */
  function OneNamed(name: string, v: Visibility): seq<GoField> {
    [GoField("X", StructTag(name, v, false), Variable)]
  }

  lemma OneNamedParses(name: string, v: Visibility)
    requires IsTagName(name) && name != "" && v in {Secret, Public}
    ensures var p := Parse(StructValue(OneNamed(name, v))); p.Parsed? && p.leaves == [LeafSeen(v, name)]
  {
    hide ReadTag, StructTag, IsTagName;
    TagRoundTrip(name, v, false);
    var fields := OneNamed(name, v);
    assert fields[1..] == [];
    assert ParseFields([], "", Unset) == Parsed([], []);
    assert FullName("", "X", name) == name;
    var leaf := ParseValue(Variable, name, "X", name, v);
    assert leaf.leaves + [] == [LeafSeen(v, name)];
    assert ParseFields(fields, "", Unset) == Then(leaf, Parsed([], []));
  }

  /** The whole text of such a circuit. */
  lemma OneNamedText(name: string)
    requires IsTagName(name) && name != ""
    ensures var p := Parse(StructValue(OneNamed(name, Public)));
            p.Parsed? && SequenceText(p.leaves) == "public:\n" + name + "\nsecret:\n"
    ensures var p := Parse(StructValue(OneNamed(name, Secret)));
            p.Parsed? && SequenceText(p.leaves) == "public:\nsecret:\n" + name + "\n"
  {
    hide IsTagName, Lines, NamesOf, Parse, StructTag;
    OneNamedParses(name, Public);
    OneNamedParses(name, Secret);
    OneName(Public, Secret, name);
    OneName(Secret, Public, name);
    OneLineText(name);
  }

  lemma OneLineText(name: string)
    ensures Lines([]) == "" && Lines([name]) == name + "\n"
  {
    assert [name][1..] == [] && name + "\n" + "" == name + "\n";
  }

  /** Without the last proviso it does not: two circuits with one variable each, tagged `secret:,public`
      and `secret:,secret`, give the same text for different names. */
  lemma NamesClash()
    ensures StructTag(SECRET_HEADER, Public, false).gnark == Some("secret:,public")
    ensures StructTag(SECRET_HEADER, Secret, false).gnark == Some("secret:,secret")
    ensures var p, q := Parse(StructValue(OneNamed(SECRET_HEADER, Public))),
                        Parse(StructValue(OneNamed(SECRET_HEADER, Secret)));
            && p.Parsed? && q.Parsed? && NamesOneLine(p.leaves) && NamesOneLine(q.leaves)
            && SequenceText(p.leaves) == SequenceText(q.leaves)
            && NamesOf(p.leaves, Public) != NamesOf(q.leaves, Public)
  {
    hide IsTagName, SequenceText, Lines, NamesOf, Parse, StructTag;
    HeaderTags();
    var a, b := [LeafSeen(Public, SECRET_HEADER)], [LeafSeen(Secret, SECRET_HEADER)];
    HeaderIsTagName();
    OneNamedParses(SECRET_HEADER, Public);
    OneNamedParses(SECRET_HEADER, Secret);
    OneName(Public, Secret, SECRET_HEADER);
    OneName(Secret, Public, SECRET_HEADER);
    TextIsLines(a);
    TextIsLines(b);
    assert SequenceLines(a) == [SECRET_HEADER, SECRET_HEADER] == SequenceLines(b);
  }

  lemma HeaderTags()
    ensures StructTag(SECRET_HEADER, Public, false).gnark == Some("secret:,public")
    ensures StructTag(SECRET_HEADER, Secret, false).gnark == Some("secret:,secret")
  {
    assert SECRET_HEADER + "," + "public" == "secret:,public";
    assert SECRET_HEADER + "," + "secret" == "secret:,secret";
  }

  lemma OneName(v: Visibility, other: Visibility, name: string)
    requires v != other
    ensures NamesOf([LeafSeen(v, name)], v) == [name] && NamesOf([LeafSeen(v, name)], other) == []
  {
    assert [LeafSeen(v, name)][1..] == [];
  }

  lemma HeaderIsTagName()
    ensures IsTagName(SECRET_HEADER) && OneLine(SECRET_HEADER)
  {
  }

  /** Leaves of one visibility with these names. */
  function LeavesNamed(names: seq<string>, v: Visibility): seq<LeafSeen> {
    if names == [] then [] else [LeafSeen(v, names[0])] + LeavesNamed(names[1..], v)
  }

  lemma {:induction false} NamesOfNamed(names: seq<string>, v: Visibility, other: Visibility)
    requires v != other
    ensures NamesOf(LeavesNamed(names, v), v) == names && NamesOf(LeavesNamed(names, v), other) == []
  {
    if names != [] {
      NamesOfNamed(names[1..], v, other);
      assert LeavesNamed(names, v)[1..] == LeavesNamed(names[1..], v);
    }
  }

  lemma LeavesFor(public: seq<string>, secret: seq<string>) returns (leaves: seq<LeafSeen>)
    ensures NamesOf(leaves, Public) == public && NamesOf(leaves, Secret) == secret
  {
    var p, q := LeavesNamed(public, Public), LeavesNamed(secret, Secret);
    leaves := p + q;
    NamesOfNamed(public, Public, Secret);
    NamesOfNamed(secret, Secret, Public);
    NamesAppend(p, q, Public);
    NamesAppend(p, q, Secret);
  }

  /** Other names that give the same text. */
  ghost predicate Confused(a: seq<LeafSeen>, b: seq<LeafSeen>) {
    && NamesOneLine(b) && SequenceText(b) == SequenceText(a)
    && !(NamesOf(b, Public) == NamesOf(a, Public) && NamesOf(b, Secret) == NamesOf(a, Secret))
  }

  lemma SameLinesConfuse(a: seq<LeafSeen>, public: seq<string>, secret: seq<string>)
    requires AllOneLine(public) && AllOneLine(secret) && public != NamesOf(a, Public)
    requires public + [SECRET_HEADER] + secret == SequenceLines(a)
    ensures exists b :: Confused(a, b)
  {
    hide NamesOf, SequenceText;
    var b := LeavesFor(public, secret);
    TextIsLines(a);
    TextIsLines(b);
    assert Confused(a, b);
  }

  /** The text of one-line names is also the text of other such names exactly when one of them, public or
      secret, is that of the second heading. */
  lemma TextAmbiguousIff(a: seq<LeafSeen>)
    requires NamesOneLine(a)
    ensures (exists b :: Confused(a, b))
            <==> SECRET_HEADER in NamesOf(a, Public) || SECRET_HEADER in NamesOf(a, Secret)
  {
    hide NamesOf, SequenceText, Lines;
    var public, secret := NamesOf(a, Public), NamesOf(a, Secret);
    if SECRET_HEADER in public {
      var i :| 0 <= i < |public| && public[i] == SECRET_HEADER;
      assert public == public[..i] + [SECRET_HEADER] + public[i + 1..];
      assert public[..i] + [SECRET_HEADER] + (public[i + 1..] + [SECRET_HEADER] + secret) == SequenceLines(a);
      SameLinesConfuse(a, public[..i], public[i + 1..] + [SECRET_HEADER] + secret);
    } else if SECRET_HEADER in secret {
      var i :| 0 <= i < |secret| && secret[i] == SECRET_HEADER;
      assert secret == secret[..i] + [SECRET_HEADER] + secret[i + 1..];
      assert (public + [SECRET_HEADER] + secret[..i]) + [SECRET_HEADER] + secret[i + 1..] == SequenceLines(a);
      SameLinesConfuse(a, public + [SECRET_HEADER] + secret[..i], secret[i + 1..]);
    } else {
      forall b | NamesOneLine(b) && SequenceText(b) == SequenceText(a)
        ensures !Confused(a, b)
      {
        TextIsLines(a);
        TextIsLines(b);
        SameLines(a, b);
        OneHeader(public, secret, NamesOf(b, Public), NamesOf(b, Secret), SECRET_HEADER);
      }
    }
  }

  lemma SameLines(a: seq<LeafSeen>, b: seq<LeafSeen>)
    requires NamesOneLine(a) && NamesOneLine(b) && SequenceText(a) == SequenceText(b)
    ensures SequenceLines(a) == SequenceLines(b)
  {
    hide NamesOf, Lines, SequenceText;
    TextIsLines(a);
    TextIsLines(b);
    var head := "public:\n";
    assert Lines(SequenceLines(a)) == SequenceText(a)[|head|..];
    assert Lines(SequenceLines(b)) == SequenceText(b)[|head|..];
    LinesInjective(SequenceLines(a), SequenceLines(b));
  }

  /** A mark that occurs once splits a sequence in one way. */
  lemma OneHeader(xs: seq<string>, ys: seq<string>, xs': seq<string>, ys': seq<string>, mark: string)
    requires mark !in xs && mark !in ys && xs + [mark] + ys == xs' + [mark] + ys'
    ensures xs == xs' && ys == ys'
  {
    var all := xs + [mark] + ys;
    assert forall k :: 0 <= k < |all| && all[k] == mark ==> k == |xs|;
    assert (xs' + [mark] + ys')[|xs'|] == mark;
    assert all[..|xs|] == xs && (xs' + [mark] + ys')[..|xs'|] == xs';
    assert all[|xs| + 1..] == ys && (xs' + [mark] + ys')[|xs'| + 1..] == ys';
  }
}
