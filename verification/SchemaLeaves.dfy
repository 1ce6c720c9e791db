/** The leaves of a value relative to its own name: what a parse hands to the handler, wherever the value
    stands. */
module SchemaLeaves {
  import opened Term
  import opened Tags
  import opened Schema
  import opened DecimalText

  // ---- prefixes ----

  function Prefixed(prefix: string, leaves: seq<LeafSeen>): (r: seq<LeafSeen>)
    ensures |r| == |leaves|
    ensures forall i :: 0 <= i < |r| ==> r[i] == LeafSeen(leaves[i].visibility, prefix + leaves[i].name)
  {
    seq(|leaves|, i requires 0 <= i < |leaves| => LeafSeen(leaves[i].visibility, prefix + leaves[i].name))
  }

  lemma PrefixedAppend(prefix: string, a: seq<LeafSeen>, b: seq<LeafSeen>)
    ensures Prefixed(prefix, a + b) == Prefixed(prefix, a) + Prefixed(prefix, b)
  {
  }

  lemma PrefixedTwice(outer: string, inner: string, a: seq<LeafSeen>)
    ensures Prefixed(outer, Prefixed(inner, a)) == Prefixed(outer + inner, a)
  {
    forall i | 0 <= i < |a|
      ensures Prefixed(outer, Prefixed(inner, a))[i] == Prefixed(outer + inner, a)[i]
    {
      assert outer + (inner + a[i].name) == outer + inner + a[i].name;
    }
  }

  lemma PrefixedNothing(a: seq<LeafSeen>)
    ensures Prefixed("", a) == a
  {
    forall i | 0 <= i < |a|
      ensures Prefixed("", a)[i] == a[i]
    {
      assert "" + a[i].name == a[i].name;
    }
  }

  lemma PrefixedSame(prefix: string, a: seq<LeafSeen>, b: seq<LeafSeen>)
    ensures Prefixed(prefix, a) == Prefixed(prefix, b) <==> a == b
  {
    var p, q := Prefixed(prefix, a), Prefixed(prefix, b);
    if p == q {
      forall i | 0 <= i < |a|
        ensures a[i] == b[i]
      {
        assert p[i] == q[i];
        assert a[i].name == p[i].name[|prefix|..] && b[i].name == q[i].name[|prefix|..];
      }
    }
  }

  // ---- relative leaves ----

  /** The name a field goes by under its parent. */
  function OwnName(f: GoField): string {
    match ReadTag(f.tags.gnark)
    case Info(nameTag, _) => FullName("", f.name, nameTag)
    case _ => f.name
  }

  /** The leaves of a value, named from the value's own name on. */
  function RelLeaves(v: Value, vis: Visibility): seq<LeafSeen>
    decreases v, 1
  {
    match v
    case Variable => [LeafSeen(OrSecret(vis), "")]
    case OtherValue => []
    case StructValue(fields) => Prefixed("_", FieldLeaves(fields, vis))
    case ListValue(elems, _) => Prefixed("_", ElemLeaves(elems, 0, vis))
  }

  /** The leaves of a struct's fields, named from the fields' own names on. */
  function FieldLeaves(fields: seq<GoField>, vis: Visibility): seq<LeafSeen>
    decreases fields, 0
  {
    if fields == [] then []
    else
      var f := fields[0];
      match ReadTag(f.tags.gnark)
      case Info(_, own) =>
        Prefixed(OwnName(f), RelLeaves(f.value, Inherit(vis, own))) + FieldLeaves(fields[1..], vis)
      case _ => FieldLeaves(fields[1..], vis)
  }

  function ElemLeaves(elems: seq<Value>, j: nat, vis: Visibility): seq<LeafSeen>
    decreases elems, 0
  {
    if elems == [] then []
    else Prefixed(Decimal(j), RelLeaves(elems[0], vis)) + ElemLeaves(elems[1..], j + 1, vis)
  }

  /** What comes before the own name of a part. */
  function Stem(parent: string): string {
    if parent == "" then "" else parent + "_"
  }

  /** A parse hands over the relative leaves, each under the name the value stands at. */
  lemma {:induction false} LeavesAre(v: Value, n: string, g: string, tagName: string, vis: Visibility)
    requires n != "" && ParseValue(v, n, g, tagName, vis).Parsed?
    ensures ParseValue(v, n, g, tagName, vis).leaves == Prefixed(n, RelLeaves(v, vis))
    decreases v, 1
  {
    hide ParseFields, ParseElems, FieldLeaves, ElemLeaves, Prefixed;
    match v
    case Variable => assert n + "" == n;
    case OtherValue =>
    case StructValue(fields) =>
      FieldLeavesAre(fields, n, vis);
      PrefixedTwice(n, "_", FieldLeaves(fields, vis));
    case ListValue(elems, _) =>
      ElemLeavesAre(elems, 0, n, tagName, vis);
      PrefixedTwice(n, "_", ElemLeaves(elems, 0, vis));
  }

  lemma {:induction false} FieldLeavesAre(fields: seq<GoField>, n: string, vis: Visibility)
    requires ParseFields(fields, n, vis).Parsed?
    requires n == "" ==> forall f :: f in fields && ReadTag(f.tags.gnark).Info? ==> OwnName(f) != ""
    ensures ParseFields(fields, n, vis).leaves == Prefixed(Stem(n), FieldLeaves(fields, vis))
    decreases fields, 0
  {
    hide ReadTag, ParseValue, FullName, Prefixed, RelLeaves, OwnName;
    if fields != [] {
      var f := fields[0];
      FieldLeavesAre(fields[1..], n, vis);
      var info := ReadTag(f.tags.gnark);
      if info.Info? {
        var own := Inherit(vis, info.visibility);
        var full := FullName(n, f.name, info.nameTag);
        OwnNameIs(f, n);
        LeavesAre(f.value, full, f.name, info.nameTag, own);
        PrefixedTwice(Stem(n), OwnName(f), RelLeaves(f.value, own));
        PrefixedAppend(Stem(n), Prefixed(OwnName(f), RelLeaves(f.value, own)), FieldLeaves(fields[1..], vis));
      }
    } else {
      NothingPrefixed(Stem(n));
    }
  }

  lemma OwnNameIs(f: GoField, n: string)
    requires ReadTag(f.tags.gnark).Info? && (n == "" ==> OwnName(f) != "")
    ensures FullName(n, f.name, ReadTag(f.tags.gnark).nameTag) == Stem(n) + OwnName(f) != ""
  {
    hide ReadTag;
  }

  lemma NothingPrefixed(prefix: string)
    ensures Prefixed(prefix, []) == []
  {
  }

  lemma {:induction false} ElemLeavesAre(elems: seq<Value>, j: nat, n: string, tagName: string, vis: Visibility)
    requires ParseElems(elems, j, n, tagName, vis).Parsed?
    ensures ParseElems(elems, j, n, tagName, vis).leaves == Prefixed(Stem(n), ElemLeaves(elems, j, vis))
    decreases elems, 0
  {
    hide ParseValue, Prefixed, RelLeaves, Decimal;
    if elems != [] {
      var own := ElementName(n, j);
      assert own == Stem(n) + Decimal(j);
      ElemLeavesAre(elems[1..], j + 1, n, tagName, vis);
      LeavesAre(elems[0], own, own, tagName, vis);
      PrefixedTwice(Stem(n), Decimal(j), RelLeaves(elems[0], vis));
      PrefixedAppend(Stem(n), Prefixed(Decimal(j), RelLeaves(elems[0], vis)), ElemLeaves(elems[1..], j + 1, vis));
    } else {
      NothingPrefixed(Stem(n));
    }
  }

  // ---- telling the parts of a sequence of leaves apart ----

  /** A name that is empty or goes on with an underscore. */
  predicate Continues(name: string) {
    name == "" || name[0] == '_'
  }

  lemma RelNames(v: Value, vis: Visibility)
    ensures forall i :: 0 <= i < |RelLeaves(v, vis)| ==> Continues(RelLeaves(v, vis)[i].name)
  {
    hide FieldLeaves, ElemLeaves;
  }

  /** A name up to its first underscore. */
  function Head(name: string): string {
    if name == "" || name[0] == '_' then "" else [name[0]] + Head(name[1..])
  }

  lemma {:induction false} HeadOfPart(own: string, rest: string)
    requires (forall i :: 0 <= i < |own| ==> own[i] != '_') && Continues(rest)
    ensures Head(own + rest) == own
  {
    if own == "" {
      assert own + rest == rest;
    } else {
      HeadOfPart(own[1..], rest);
      assert (own + rest)[1..] == own[1..] + rest;
    }
  }

  /** Every leaf of the elements from j on is named by the index of its element. */
  lemma {:induction false} ElemHeads(elems: seq<Value>, j: nat, vis: Visibility, i: nat)
    requires i < |ElemLeaves(elems, j, vis)|
    ensures exists k: nat :: j <= k && Head(ElemLeaves(elems, j, vis)[i].name) == Decimal(k)
    decreases elems
  {
    hide Decimal, RelLeaves;
    var first := Prefixed(Decimal(j), RelLeaves(elems[0], vis));
    if i < |first| {
      RelNames(elems[0], vis);
      HeadOfPart(Decimal(j), RelLeaves(elems[0], vis)[i].name);
    } else {
      ElemHeads(elems[1..], j + 1, vis, i - |first|);
    }
  }

  predicate AllIn(leaves: seq<LeafSeen>, belongs: LeafSeen -> bool) {
    forall i :: 0 <= i < |leaves| ==> belongs(leaves[i])
  }

  predicate NoneIn(leaves: seq<LeafSeen>, belongs: LeafSeen -> bool) {
    forall i :: 0 <= i < |leaves| ==> !belongs(leaves[i])
  }

  /** Two sequences of leaves whose first parts belong to a class that no leaf of their second parts
      belongs to are equal only part by part. */
  lemma SplitByClass(
    a: seq<LeafSeen>, b: seq<LeafSeen>, a': seq<LeafSeen>, b': seq<LeafSeen>, belongs: LeafSeen -> bool)
    requires a + b == a' + b'
    requires AllIn(a, belongs) && AllIn(a', belongs) && NoneIn(b, belongs) && NoneIn(b', belongs)
    ensures a == a' && b == b'
  {
    var s := a + b;
    assert forall i :: 0 <= i < |s| ==> (belongs(s[i]) <==> i < |a|);
    assert forall i :: 0 <= i < |s| ==> (belongs(s[i]) <==> i < |a'|);
    assert |a| < |s| ==> !belongs(s[|a|]);
    assert |a'| < |s| ==> !belongs(s[|a'|]);
    assert a == s[..|a|] && b == s[|a|..];
  }

  /** Lists have the same leaves exactly when their elements have, one by one. */
  lemma {:induction false} ElemsSame(a: seq<Value>, b: seq<Value>, j: nat, vis: Visibility)
    requires |a| == |b|
    ensures ElemLeaves(a, j, vis) == ElemLeaves(b, j, vis)
            <==> forall i :: 0 <= i < |a| ==> RelLeaves(a[i], vis) == RelLeaves(b[i], vis)
    decreases |a|
  {
    hide RelLeaves, Decimal, Prefixed;
    if a != [] {
      var x, y := Prefixed(Decimal(j), RelLeaves(a[0], vis)), Prefixed(Decimal(j), RelLeaves(b[0], vis));
      var a', b' := ElemLeaves(a[1..], j + 1, vis), ElemLeaves(b[1..], j + 1, vis);
      ElemsSame(a[1..], b[1..], j + 1, vis);
      PrefixedSame(Decimal(j), RelLeaves(a[0], vis), RelLeaves(b[0], vis));
      if x + a' == y + b' {
        FirstElemApart(a[0], j, a[1..], vis);
        FirstElemApart(b[0], j, b[1..], vis);
        SplitByClass(x, a', y, b', OfElement(j));
        assert forall i :: 0 < i < |a| ==> a[i] == a[1..][i - 1] && b[i] == b[1..][i - 1];
      }
      if forall i :: 0 <= i < |a| ==> RelLeaves(a[i], vis) == RelLeaves(b[i], vis) {
        assert forall i :: 0 <= i < |a| - 1 ==> a[1..][i] == a[i + 1] && b[1..][i] == b[i + 1];
      }
    }
  }

  function OfElement(j: nat): LeafSeen -> bool {
    (l: LeafSeen) => Head(l.name) == Decimal(j)
  }

  lemma FirstElemApart(e: Value, j: nat, rest: seq<Value>, vis: Visibility)
    ensures AllIn(Prefixed(Decimal(j), RelLeaves(e, vis)), OfElement(j))
    ensures NoneIn(ElemLeaves(rest, j + 1, vis), OfElement(j))
  {
    hide RelLeaves, ElemLeaves, Decimal;
    RelNames(e, vis);
    var first, later := Prefixed(Decimal(j), RelLeaves(e, vis)), ElemLeaves(rest, j + 1, vis);
    forall i | 0 <= i < |first|
      ensures OfElement(j)(first[i])
    {
      HeadOfPart(Decimal(j), RelLeaves(e, vis)[i].name);
    }
    forall i | 0 <= i < |later|
      ensures !OfElement(j)(later[i])
    {
      ElemHeads(rest, j + 1, vis, i);
      var k: nat :| j + 1 <= k && Head(later[i].name) == Decimal(k);
      if Decimal(k) == Decimal(j) {
        DecimalInjective(k, j);
      }
    }
  }

  // ---- uniform circuits ----

  /** In every list the parser enters, each element has the leaves of the first, relative to its own
      name; and so within the first element. */
  ghost predicate Uniform(v: Value, vis: Visibility)
    decreases v
  {
    match v
    case Variable => true
    case OtherValue => true
    case StructValue(fields) =>
      forall f :: f in fields && ReadTag(f.tags.gnark).Info?
        ==> Uniform(f.value, Inherit(vis, ReadTag(f.tags.gnark).visibility))
    case ListValue(elems, _) =>
      && (forall i :: 0 <= i < |elems| ==> RelLeaves(elems[i], vis) == RelLeaves(elems[0], vis))
      && (elems != [] ==> Uniform(elems[0], vis))
  }
}
