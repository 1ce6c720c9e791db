/** The hub's registry of live nodes and its proof-of-history chain
    (hub/src/modules/node_list/main.py). The hash is a parameter: where a property needs the hash to be
    collision free, the lemma hands out the two colliding inputs instead. */
module NodeList {

  type Hash = string

  datatype Option<T> = None | Some(value: T)

  /** The two JSON documents that are hashed; sorted keys make them one text per value. */
  datatype Document =
    | UniqueDoc(grpc: string, http: string)
    | PohDoc(grpc: string, http: string, timestamp: int, lastPoh: Option<Hash>)

  datatype Node = Node(grpc: string, http: string, timestamp: int, poh: Hash)

  ghost predicate Collision(h: Document -> Hash, x: Document, y: Document) {
    x != y && h(x) == h(y)
  }

  // ---- steps ----

  datatype Registry = Registry(nodes: map<Hash, Node>, lastPoh: Option<Hash>, timeout: int)

  datatype Event =
    | Add(grpc: string, http: string, timestamp: int)
    | Remove(index: Hash)
    | Expire(now: int)
    | SetTimeout(timeout: int)

  function NewPoh(h: Document -> Hash, r: Registry, grpc: string, http: string, timestamp: int): Hash {
    h(PohDoc(grpc, http, timestamp, r.lastPoh))
  }

  function AddStep(h: Document -> Hash, r: Registry, grpc: string, http: string, timestamp: int): Registry {
    var poh := NewPoh(h, r, grpc, http, timestamp);
    r.(nodes := r.nodes[h(UniqueDoc(grpc, http)) := Node(grpc, http, timestamp, poh)],
       lastPoh := Some(poh))
  }

  predicate Active(n: Node, now: int, timeout: int) {
    now - n.timestamp <= timeout
  }

  function ExpireStep(r: Registry, now: int): Registry {
    r.(nodes := map i | i in r.nodes && Active(r.nodes[i], now, r.timeout) :: r.nodes[i])
  }

  function Apply(h: Document -> Hash, r: Registry, e: Event): Registry {
    match e
    case Add(grpc, http, timestamp) => AddStep(h, r, grpc, http, timestamp)
    case Remove(index) => r.(nodes := r.nodes - {index})
    case Expire(now) => ExpireStep(r, now)
    case SetTimeout(t) => r.(timeout := t)
  }

  const EMPTY := Registry(map[], None, 30)

  function Run(h: Document -> Hash, es: seq<Event>): Registry {
    if es == [] then EMPTY else Apply(h, Run(h, es[..|es| - 1]), es[|es| - 1])
  }

  class NodeList {
    const hash: Document -> Hash
    var nodes: map<Hash, Node>
    var lastPoh: Option<Hash>
    var timeout: int

    function Contents(): Registry
      reads this
    {
      Registry(nodes, lastPoh, timeout)
    }

    constructor (hash: Document -> Hash)
      ensures Contents() == EMPTY && this.hash == hash
    {
      this.hash := hash;
      nodes, lastPoh, timeout := map[], None, 30;
    }

    function GeneratePoh(grpc: string, http: string, timestamp: int): Hash
      reads this
    {
      hash(PohDoc(grpc, http, timestamp, lastPoh))
    }

    function GenerateUnique(grpc: string, http: string): Hash {
      hash(UniqueDoc(grpc, http))
    }

    method Add(grpc: string, http: string, timestamp: int)
      modifies this`nodes, this`lastPoh
      ensures Contents() == Apply(hash, old(Contents()), Event.Add(grpc, http, timestamp))
    {
      var index := GenerateUnique(grpc, http);
      var poh := GeneratePoh(grpc, http, timestamp);
      if lastPoh.None? {
        lastPoh := Some(poh);
      }
      nodes := nodes[index := Node(grpc, http, timestamp, poh)];
      lastPoh := Some(poh);
    }

    method Remove(index: Hash)
      modifies this`nodes
      ensures Contents() == Apply(hash, old(Contents()), Event.Remove(index))
    {
      if index in nodes {
        nodes := nodes - {index};
      } else {
        assert nodes - {index} == nodes;
      }
    }

    method RemoveInactiveNodes(now: int)
      modifies this`nodes
      ensures Contents() == Apply(hash, old(Contents()), Expire(now))
    {
      nodes := map i | i in nodes && now - nodes[i].timestamp <= timeout :: nodes[i];
    }

    method SetTimeout(t: int)
      modifies this`timeout
      ensures Contents() == Apply(hash, old(Contents()), Event.SetTimeout(t))
    {
      timeout := t;
    }

    /** All nodes when more are asked for than there are; otherwise the nodes of a random sample,
        given here as the distinct indices drawn. */
    method GetNode(size: int, sample: seq<Hash>) returns (r: seq<Node>, indices: seq<Hash>)
      requires size <= |nodes| ==>
                 |sample| == size && (forall i :: 0 <= i < |sample| ==> sample[i] in nodes)
                 && forall i, j :: 0 <= i < j < |sample| ==> sample[i] != sample[j]
      ensures |r| == |indices| == if size > |nodes| then |nodes| else size
      ensures forall i, j :: 0 <= i < j < |indices| ==> indices[i] != indices[j]
      ensures forall i :: 0 <= i < |r| ==> indices[i] in nodes && r[i] == nodes[indices[i]]
    {
      if size <= |nodes| {
        indices := sample;
      } else {
        indices := [];
        var left := nodes.Keys;
        while left != {}
          invariant left <= nodes.Keys && |indices| + |left| == |nodes|
          invariant forall i :: 0 <= i < |indices| ==> indices[i] in nodes && indices[i] !in left
          invariant forall i, j :: 0 <= i < j < |indices| ==> indices[i] != indices[j]
          decreases |left|
        {
          var k :| k in left;
          indices := indices + [k];
          left := left - {k};
        }
      }
      r := seq(|indices|, i requires 0 <= i < |indices| && indices[i] in nodes reads this => nodes[indices[i]]);
    }
  }

  // ---- the proof-of-history chain ----

  /** The documents hashed by the adds of a run, in order. */
  function PohDocs(h: Document -> Hash, es: seq<Event>): (ds: seq<Document>)
    ensures forall i :: 0 <= i < |ds| ==> ds[i].PohDoc?
  {
    if es == [] then []
    else
      var before, e := es[..|es| - 1], es[|es| - 1];
      PohDocs(h, before)
      + if e.Add? then [PohDoc(e.grpc, e.http, e.timestamp, Run(h, before).lastPoh)] else []
  }

  lemma {:induction false} LastPohIsNewest(h: Document -> Hash, es: seq<Event>)
    ensures var ds := PohDocs(h, es);
            Run(h, es).lastPoh == if ds == [] then None else Some(h(ds[|ds| - 1]))
  {
    if es != [] {
      LastPohIsNewest(h, es[..|es| - 1]);
    }
  }

  /** Each proof of history hashes its entry with the one before it; the first hashes None. */
  lemma {:induction false} ChainLinks(h: Document -> Hash, es: seq<Event>, i: nat)
    requires i < |PohDocs(h, es)|
    ensures PohDocs(h, es)[i].lastPoh == if i == 0 then None else Some(h(PohDocs(h, es)[i - 1]))
    decreases |es|
  {
    hide Run;
    var before := es[..|es| - 1];
    if i < |PohDocs(h, before)| {
      ChainLinks(h, before, i);
    } else {
      LastPohIsNewest(h, before);
    }
  }

  /** No proof of history repeats: if two adds of a run got the same one, walking back along the chain
      finds two different documents with the same hash. */
  lemma {:induction false} PohRepeatIsCollision(h: Document -> Hash, es: seq<Event>, i: nat, j: nat)
    returns (x: Document, y: Document)
    requires i < j < |PohDocs(h, es)| && h(PohDocs(h, es)[i]) == h(PohDocs(h, es)[j])
    ensures Collision(h, x, y)
    decreases i
  {
    ChainLinks(h, es, i);
    ChainLinks(h, es, j);
    var ds := PohDocs(h, es);
    x, y := ds[i], ds[j];
    if x == y {
      x, y := PohRepeatIsCollision(h, es, i - 1, j - 1);
    }
  }

  // ---- the registry ----

  /** Every live entry stands at the hash of its addresses and carries the proof of one of the adds. */
  ghost predicate Indexed(h: Document -> Hash, r: Registry, ds: seq<Document>) {
    forall k :: k in r.nodes ==>
      && k == h(UniqueDoc(r.nodes[k].grpc, r.nodes[k].http))
      && exists i :: Source(h, ds, i, r.nodes[k])
  }

  /** Add number `i` of the run made this entry. */
  ghost predicate Source(h: Document -> Hash, ds: seq<Document>, i: int, n: Node) {
    && 0 <= i < |ds| && ds[i].PohDoc? && n.poh == h(ds[i])
    && n.grpc == ds[i].grpc && n.http == ds[i].http && n.timestamp == ds[i].timestamp
  }

  lemma {:induction false} RunIndexed(h: Document -> Hash, es: seq<Event>)
    ensures Indexed(h, Run(h, es), PohDocs(h, es))
  {
    if es != [] {
      var before, e := es[..|es| - 1], es[|es| - 1];
      RunIndexed(h, before);
      var r, r', ds, ds' := Run(h, before), Run(h, es), PohDocs(h, before), PohDocs(h, es);
      forall k | k in r'.nodes
        ensures k == h(UniqueDoc(r'.nodes[k].grpc, r'.nodes[k].http))
        ensures exists i :: Source(h, ds', i, r'.nodes[k])
      {
        if k in r.nodes && r'.nodes[k] == r.nodes[k] {
          var i :| Source(h, ds, i, r.nodes[k]);
          assert Source(h, ds', i, r'.nodes[k]);
        } else {
          assert Source(h, ds', |ds|, r'.nodes[k]);
        }
      }
    }
  }

  /** At most one live entry per pair of addresses, and no two live entries with the same proof of
      history unless the hash collides. */
  lemma LiveEntriesDiffer(h: Document -> Hash, es: seq<Event>, a: Hash, b: Hash)
    requires a in Run(h, es).nodes && b in Run(h, es).nodes && a != b
    ensures var m, n := Run(h, es).nodes[a], Run(h, es).nodes[b];
            && !(m.grpc == n.grpc && m.http == n.http)
            && (m.poh == n.poh ==> exists x, y :: Collision(h, x, y))
  {
    RunIndexed(h, es);
    var ds := PohDocs(h, es);
    var m, n := Run(h, es).nodes[a], Run(h, es).nodes[b];
    var i :| Source(h, ds, i, m);
    var j :| Source(h, ds, j, n);
    if m.poh == n.poh {
      var x, y;
      if i < j {
        x, y := PohRepeatIsCollision(h, es, i, j);
      } else if j < i {
        x, y := PohRepeatIsCollision(h, es, j, i);
      }
    }
  }

  // ---- which entries a run leaves ----

  /** The number of the last add of an address pair that hashes to the index, or -1. */
  function LastAdd(h: Document -> Hash, es: seq<Event>, index: Hash): (i: int)
    ensures -1 <= i < |es|
    ensures i >= 0 ==> es[i].Add? && h(UniqueDoc(es[i].grpc, es[i].http)) == index
    ensures forall j :: i < j < |es| && es[j].Add? ==> h(UniqueDoc(es[j].grpc, es[j].http)) != index
  {
    if es == [] then -1
    else
      var k := |es| - 1;
      if es[k].Add? && h(UniqueDoc(es[k].grpc, es[k].http)) == index then k
      else LastAdd(h, es[..k], index)
  }

  /** The timeout in force when the first `n` events are over: the last one set, or 30 seconds. */
  function TimeoutAt(es: seq<Event>, n: nat): int
    requires n <= |es|
  {
    if n == 0 then 30 else if es[n - 1].SetTimeout? then es[n - 1].timeout else TimeoutAt(es, n - 1)
  }

  /** Event number `j` takes an entry with this index and time out of the registry. */
  predicate Drops(es: seq<Event>, j: nat, index: Hash, timestamp: int)
    requires j < |es|
  {
    || es[j] == Remove(index)
    || (es[j].Expire? && es[j].now - timestamp > TimeoutAt(es, j))
  }

  /** Since add number `i` nothing took its entry out. */
  ghost predicate Stays(es: seq<Event>, i: nat, index: Hash)
    requires i < |es| && es[i].Add?
  {
    forall j :: i < j < |es| ==> !Drops(es, j, index, es[i].timestamp)
  }

  /** How many of the first `n` events are adds. */
  function AddsBefore(es: seq<Event>, n: nat): nat
    requires n <= |es|
  {
    if n == 0 then 0 else AddsBefore(es, n - 1) + if es[n - 1].Add? then 1 else 0
  }

  lemma {:induction false} TimeoutPrefix(es: seq<Event>, k: nat, n: nat)
    requires n <= k <= |es|
    ensures TimeoutAt(es[..k], n) == TimeoutAt(es, n) && AddsBefore(es[..k], n) == AddsBefore(es, n)
  {
    if n > 0 {
      TimeoutPrefix(es, k, n - 1);
    }
  }

  lemma {:induction false} RunTimeout(h: Document -> Hash, es: seq<Event>)
    ensures Run(h, es).timeout == TimeoutAt(es, |es|)
  {
    if es != [] {
      RunTimeout(h, es[..|es| - 1]);
      TimeoutPrefix(es, |es| - 1, |es| - 1);
    }
  }

  /** The document an add hashes is at its place among the adds, with the add's own fields. */
  lemma {:induction false} PohDocAt(h: Document -> Hash, es: seq<Event>, i: nat)
    requires i < |es| && es[i].Add?
    ensures var ds, k := PohDocs(h, es), AddsBefore(es, i);
            && |ds| == AddsBefore(es, |es|) && k < |ds| && ds[k].PohDoc?
            && ds[k].grpc == es[i].grpc && ds[k].http == es[i].http && ds[k].timestamp == es[i].timestamp
    decreases |es|
  {
    hide Run;
    var n := |es| - 1;
    PohDocCount(h, es);
    PohDocCount(h, es[..n]);
    TimeoutPrefix(es, n, n);
    TimeoutPrefix(es, n, i);
    if i < n {
      PohDocAt(h, es[..n], i);
    }
  }

  lemma {:induction false} PohDocCount(h: Document -> Hash, es: seq<Event>)
    ensures |PohDocs(h, es)| == AddsBefore(es, |es|)
  {
    hide Run;
    if es != [] {
      PohDocCount(h, es[..|es| - 1]);
      TimeoutPrefix(es, |es| - 1, |es| - 1);
    }
  }

  /** The entry that an add makes: its addresses and time, and the hash of its document in the chain. */
  function EntryOf(h: Document -> Hash, es: seq<Event>, i: nat): Node
    requires i < |es| && es[i].Add? && AddsBefore(es, i) < |PohDocs(h, es)|
  {
    Node(es[i].grpc, es[i].http, es[i].timestamp, h(PohDocs(h, es)[AddsBefore(es, i)]))
  }

  /** What the registry holds at an index. */
  ghost predicate HeldAt(h: Document -> Hash, es: seq<Event>, index: Hash) {
    var i, nodes := LastAdd(h, es, index), Run(h, es).nodes;
    && (index in nodes <==> i >= 0 && Stays(es, i, index))
    && (index in nodes ==> AddsBefore(es, i) < |PohDocs(h, es)| && nodes[index] == EntryOf(h, es, i))
  }

  lemma DropsPrefix(es: seq<Event>, n: nat, j: nat, index: Hash, timestamp: int)
    requires j < n <= |es|
    ensures Drops(es[..n], j, index, timestamp) == Drops(es, j, index, timestamp)
  {
    TimeoutPrefix(es, n, j);
  }

  lemma StaysStep(es: seq<Event>, i: nat, index: Hash)
    requires i < |es| - 1 && es[i].Add?
    ensures Stays(es, i, index)
            <==> Stays(es[..|es| - 1], i, index) && !Drops(es, |es| - 1, index, es[i].timestamp)
  {
    hide Drops;
    var n := |es| - 1;
    forall j | i < j < n
      ensures Drops(es[..n], j, index, es[i].timestamp) == Drops(es, j, index, es[i].timestamp)
    {
      DropsPrefix(es, n, j, index, es[i].timestamp);
    }
  }

  lemma EntryStep(h: Document -> Hash, es: seq<Event>, i: nat)
    requires i < |es| - 1 && es[i].Add?
    ensures AddsBefore(es[..|es| - 1], i) < |PohDocs(h, es[..|es| - 1])| && AddsBefore(es, i) < |PohDocs(h, es)|
    ensures EntryOf(h, es, i) == EntryOf(h, es[..|es| - 1], i)
    ensures EntryOf(h, es, i).timestamp == es[i].timestamp
  {
    hide Run;
    PohDocAt(h, es, i);
    PohDocAt(h, es[..|es| - 1], i);
    TimeoutPrefix(es, |es| - 1, i);
  }

  /** The entry an add has just made. */
  lemma EntryMade(h: Document -> Hash, es: seq<Event>)
    requires es != [] && es[|es| - 1].Add?
    ensures var n := |es| - 1;
            && AddsBefore(es, n) < |PohDocs(h, es)|
            && EntryOf(h, es, n) == Node(es[n].grpc, es[n].http, es[n].timestamp,
                                         h(PohDoc(es[n].grpc, es[n].http, es[n].timestamp, Run(h, es[..n]).lastPoh)))
  {
    hide Run;
    var n := |es| - 1;
    PohDocCount(h, es[..n]);
    TimeoutPrefix(es, n, n);
  }

  /** Over any run, an index is live exactly when some add hashes to it and, since the last such add, it was
      not removed, and no sweep came later than the timeout then in force after that add. The entry is
      that add's. */
  lemma {:induction false} LiveIff(h: Document -> Hash, es: seq<Event>, index: Hash)
    ensures HeldAt(h, es, index)
  {
    hide Stays, EntryOf, AddsBefore, PohDocs, TimeoutAt;
    if es != [] {
      var n := |es| - 1;
      var e, before := es[n], es[..n];
      LiveIff(h, before, index);
      RunTimeout(h, before);
      TimeoutPrefix(es, n, n);
      var i := LastAdd(h, es, index);
      if i == n {
        EntryMade(h, es);
        JustAdded(es, index);
      } else if i >= 0 {
        StaysStep(es, i, index);
        EntryStep(h, es, i);
      }
    }
  }

  lemma JustAdded(es: seq<Event>, index: Hash)
    requires es != [] && es[|es| - 1].Add?
    ensures Stays(es, |es| - 1, index)
  {
  }
}
