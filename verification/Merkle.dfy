/** The in-circuit Merkle path check (gnark-prover/src/tako_gnark_ecdsa/verify.go), over an abstract
    hash of field elements. Leaves and inner nodes are hashed by the same hasher, told apart only by how
    many elements are written. */
module Merkle {

  type Field = int

  type Hash = seq<Field> -> Field

  /** The field hasher: elements are written to a buffer and summed. */
  class FieldHasher {
    const hash: Hash
    var data: seq<Field>

    constructor (hash: Hash)
      ensures this.hash == hash
    {
      this.hash := hash;
      data := [];
    }

    method Reset()
      modifies this
      ensures data == []
    {
      data := [];
    }

    method Write(xs: seq<Field>)
      modifies this
      ensures data == old(data) + xs
    {
      data := data + xs;
    }

    method Sum() returns (s: Field)
      modifies this
      ensures s == hash(old(data))
    {
      s := hash(data);
    }
  }

  method LeafSum(h: FieldHasher, data: Field) returns (s: Field)
    modifies h
    ensures s == h.hash([data])
  {
    h.Reset();
    h.Write([data]);
    assert h.data == [data];
    s := h.Sum();
  }

  /** Whatever was left in the buffer, only `a` and `b` are hashed, in that order. */
  method NodeSum(h: FieldHasher, a: Field, b: Field) returns (s: Field)
    modifies h
    ensures s == h.hash([a, b])
  {
    h.Reset();
    h.Write([a, b]);
    assert h.data == [a, b];
    s := h.Sum();
  }

  // ---- the path fold ----

  function Pow2(n: nat): (p: nat)
    ensures p >= 1
  {
    if n == 0 then 1 else 2 * Pow2(n - 1)
  }

  /** The binary decomposition of a constrained variable, least significant bit first; there is none
      when the value needs more bits. */
  function Bits(v: nat, n: nat): (b: seq<bool>)
    ensures |b| == n
  {
    if n == 0 then [] else [v % 2 == 1] + Bits(v / 2, n - 1)
  }

  /** One level up: a set bit means the running sum is the right child. */
  function Up(h: Hash, bit: bool, sum: Field, sibling: Field): Field {
    if bit then h([sibling, sum]) else h([sum, sibling])
  }

  function Fold(h: Hash, sum: Field, siblings: seq<Field>, bits: seq<bool>): Field
    requires |siblings| == |bits|
  {
    if siblings == [] then sum
    else
      var k := |siblings| - 1;
      Up(h, bits[k], Fold(h, sum, siblings[..k], bits[..k]), siblings[k])
  }

  /** What the circuit asserts: the index has as many bits as the path has levels, and the fold of the
      leaf's hash with the siblings is the root. */
  predicate Accepts(h: Hash, root: Field, path: seq<Field>, index: nat)
    requires path != []
  {
    && index < Pow2(|path| - 1)
    && Fold(h, h([path[0]]), path[1..], Bits(index, |path| - 1)) == root
  }

  method VerifyProof(h: FieldHasher, root: Field, path: seq<Field>, leaf: nat) returns (ok: bool)
    requires path != []
    modifies h
    ensures ok == Accepts(h.hash, root, path, leaf)
  {
    var depth := |path| - 1;
    var sum := LeafSum(h, path[0]);
    if leaf >= Pow2(depth) {
      return false;
    }
    var binLeaf := Bits(leaf, depth);
    var i := 1;
    while i < |path|
      invariant 1 <= i <= |path|
      invariant sum == Fold(h.hash, h.hash([path[0]]), path[1..i], binLeaf[..i - 1])
    {
      assert path[1..i + 1][..i - 1] == path[1..i] && binLeaf[..i][..i - 1] == binLeaf[..i - 1];
      var d1 := if binLeaf[i - 1] then path[i] else sum;
      var d2 := if binLeaf[i - 1] then sum else path[i];
      sum := NodeSum(h, d1, d2);
      i := i + 1;
    }
    assert path[1..i] == path[1..] && binLeaf[..i - 1] == binLeaf;
    return sum == root;
  }

  // ---- perfect trees ----

  datatype Tree = Leaf(data: Field) | Branch(left: Tree, right: Tree)

  predicate Perfect(t: Tree, depth: nat) {
    match t
    case Leaf(_) => depth == 0
    case Branch(l, r) => depth > 0 && Perfect(l, depth - 1) && Perfect(r, depth - 1)
  }

  function Leaves(t: Tree): seq<Field> {
    match t
    case Leaf(d) => [d]
    case Branch(l, r) => Leaves(l) + Leaves(r)
  }

  /** A perfect tree has as many leaves as its depth's power of two, numbered from the left. */
  lemma {:induction false} PerfectLeaves(t: Tree, depth: nat, index: nat)
    requires Perfect(t, depth) && index < Pow2(depth)
    ensures |Leaves(t)| == Pow2(depth) && LeafAt(t, depth, index) == Leaves(t)[index]
  {
    if t.Branch? {
      var half := Pow2(depth - 1);
      PerfectLeaves(t.left, depth - 1, if index < half then index else 0);
      PerfectLeaves(t.right, depth - 1, if index < half then 0 else index - half);
    }
  }

  function Root(h: Hash, t: Tree): Field {
    match t
    case Leaf(d) => h([d])
    case Branch(l, r) => h([Root(h, l), Root(h, r)])
  }

  /** The leaf at an index counted from the left. */
  function LeafAt(t: Tree, depth: nat, index: nat): Field
    requires Perfect(t, depth) && index < Pow2(depth)
  {
    match t
    case Leaf(d) => d
    case Branch(l, r) =>
      var half := Pow2(depth - 1);
      if index < half then LeafAt(l, depth - 1, index) else LeafAt(r, depth - 1, index - half)
  }

  /** The siblings on the way from a leaf to the root, lowest first. */
  function Siblings(h: Hash, t: Tree, depth: nat, index: nat): (s: seq<Field>)
    requires Perfect(t, depth) && index < Pow2(depth)
    ensures |s| == depth
  {
    match t
    case Leaf(_) => []
    case Branch(l, r) =>
      var half := Pow2(depth - 1);
      if index < half then Siblings(h, l, depth - 1, index) + [Root(h, r)]
      else Siblings(h, r, depth - 1, index - half) + [Root(h, l)]
  }

  /** Counting from the top: the highest bit says which half the index lies in. */
  lemma {:induction false} TopBit(index: nat, depth: nat)
    requires depth > 0 && index < Pow2(depth)
    ensures Bits(index, depth)[depth - 1] == (index >= Pow2(depth - 1))
    ensures Bits(index, depth)[..depth - 1]
            == Bits(if index < Pow2(depth - 1) then index else index - Pow2(depth - 1), depth - 1)
  {
    if depth > 1 {
      TopBit(index / 2, depth - 1);
      var half := Pow2(depth - 1);
      var rest := if index < half then index else index - half;
      assert Bits(index, depth)[1..] == Bits(index / 2, depth - 1);
      assert Bits(index, depth)[..depth - 1] == [index % 2 == 1] + Bits(index / 2, depth - 1)[..depth - 2];
      assert rest / 2 == (if index / 2 < Pow2(depth - 2) then index / 2 else index / 2 - Pow2(depth - 2));
      assert rest % 2 == index % 2;
    }
  }

  lemma {:induction false} PathFolds(h: Hash, t: Tree, depth: nat, index: nat)
    requires Perfect(t, depth) && index < Pow2(depth)
    ensures Fold(h, h([LeafAt(t, depth, index)]), Siblings(h, t, depth, index), Bits(index, depth))
            == Root(h, t)
    decreases depth
  {
    if t.Branch? {
      var half := Pow2(depth - 1);
      TopBit(index, depth);
      var (sub, other, rest) := if index < half then (t.left, t.right, index)
                                else (t.right, t.left, index - half);
      PathFolds(h, sub, depth - 1, rest);
      assert Siblings(h, t, depth, index)[..depth - 1] == Siblings(h, sub, depth - 1, rest);
    }
  }

  /** Completeness: the sibling path of every leaf of a perfect tree is accepted at its index. */
  lemma Completeness(h: Hash, t: Tree, depth: nat, index: nat)
    requires Perfect(t, depth) && index < Pow2(depth)
    ensures Accepts(h, Root(h, t), [LeafAt(t, depth, index)] + Siblings(h, t, depth, index), index)
  {
    PathFolds(h, t, depth, index);
    var path := [LeafAt(t, depth, index)] + Siblings(h, t, depth, index);
    assert path[1..] == Siblings(h, t, depth, index);
  }

  ghost predicate Collision(h: Hash, x: seq<Field>, y: seq<Field>) {
    x != y && h(x) == h(y)
  }

  /** Two folds to the same value along the same bits use the same start and siblings, or a collision
      is found at the level where they part. */
  lemma {:induction false} FoldBinds(
    h: Hash, s: Field, t: Field, ss: seq<Field>, ts: seq<Field>, bits: seq<bool>)
    returns (x: seq<Field>, y: seq<Field>)
    requires |ss| == |ts| == |bits|
    requires Fold(h, s, ss, bits) == Fold(h, t, ts, bits)
    requires s != t || ss != ts
    ensures Collision(h, x, y)
    decreases |bits|
  {
    x, y := [], [];
    if bits != [] {
      var k := |bits| - 1;
      var u, v := Fold(h, s, ss[..k], bits[..k]), Fold(h, t, ts[..k], bits[..k]);
      x := if bits[k] then [ss[k], u] else [u, ss[k]];
      y := if bits[k] then [ts[k], v] else [v, ts[k]];
      if x == y {
        assert x[0] == y[0] && x[1] == y[1];
        assert ss == ss[..k] + [ss[k]] && ts == ts[..k] + [ts[k]];
        x, y := FoldBinds(h, s, t, ss[..k], ts[..k], bits[..k]);
      }
    }
  }

  /** Binding: two accepting paths of equal length for the same root and index that are not the same
      path exhibit two different inputs with the same hash. */
  lemma Binding(h: Hash, root: Field, p: seq<Field>, q: seq<Field>, index: nat)
    returns (x: seq<Field>, y: seq<Field>)
    requires p != [] && q != [] && |p| == |q|
    requires Accepts(h, root, p, index) && Accepts(h, root, q, index)
    requires p != q
    ensures Collision(h, x, y)
  {
    var a, b := h([p[0]]), h([q[0]]);
    assert p == [p[0]] + p[1..] && q == [q[0]] + q[1..];
    if a == b && p[1..] == q[1..] {
      return [p[0]], [q[0]];
    }
    x, y := FoldBinds(h, a, b, p[1..], q[1..], Bits(index, |p| - 1));
  }

  /** A path accepted for the root of a perfect tree starts with the tree's leaf at that index, unless
      the hash collides. */
  lemma Soundness(h: Hash, t: Tree, depth: nat, p: seq<Field>, index: nat)
    returns (x: seq<Field>, y: seq<Field>)
    requires Perfect(t, depth) && |p| == depth + 1
    requires Accepts(h, Root(h, t), p, index)
    ensures p[0] == LeafAt(t, depth, index) || Collision(h, x, y)
  {
    Completeness(h, t, depth, index);
    x, y := [], [];
    var q := [LeafAt(t, depth, index)] + Siblings(h, t, depth, index);
    if p[0] != q[0] {
      x, y := Binding(h, Root(h, t), p, q, index);
    }
  }
}
