/** The split of a loop among workers (lib/compiled/parallelize.go). */
module Parallelize {

  /** The half-open range of iterations one worker gets. */
  datatype Range = Range(start: int, end: int)

  function Length(r: Range): int {
    r.end - r.start
  }

  /** The ranges follow one another from 0 to `n`, none is empty, and no two lengths differ by more
      than one. */
  ghost predicate Partition(rs: seq<Range>, n: nat) {
    && (rs == [] <==> n == 0)
    && (rs != [] ==> rs[0].start == 0 && rs[|rs| - 1].end == n)
    && (forall i :: 0 < i < |rs| ==> rs[i].start == rs[i - 1].end)
    && (forall r :: r in rs ==> r.start < r.end)
    && (forall q, r :: q in rs && r in rs ==> Length(q) - Length(r) <= 1)
  }

  function Min(a: int, b: int): int {
    if a < b then a else b
  }

  /** Hands out the ranges given to the workers, in the order they are started. */
  method Parallelize(iterations: nat, maxTasks: nat) returns (rs: seq<Range>)
    requires maxTasks >= 1
    ensures Partition(rs, iterations)
    ensures |rs| == Min(maxTasks, iterations)
  {
    var nbTasks, perTask := maxTasks, iterations / maxTasks;
    if perTask < 1 {
      perTask, nbTasks := 1, iterations;
    }
    var extra := iterations - nbTasks * perTask;
    ghost var extra0 := extra;
    ShareOut(iterations, maxTasks);
    var offset := 0;
    rs := [];
    var i := 0;
    while i < nbTasks
      invariant 0 <= i <= nbTasks && |rs| == i
      invariant offset == Min(i, extra0) && extra == extra0 - offset
      invariant forall j :: 0 <= j < i ==>
                  rs[j] == Range(Share(j, perTask, extra0), Share(j + 1, perTask, extra0))
    {
      var start := i * perTask + offset;
      var end := start + perTask;
      ShareStep(i, perTask, extra0);
      if extra > 0 {
        end := end + 1;
        extra := extra - 1;
        offset := offset + 1;
      }
      rs := rs + [Range(start, end)];
      i := i + 1;
    }
    SharesPartition(rs, nbTasks, perTask, extra0, iterations);
  }

  /** Where worker `i` starts. */
  function Share(i: int, perTask: int, extra: int): int {
    i * perTask + Min(i, extra)
  }

  lemma ShareStep(i: int, perTask: int, extra: int)
    ensures Share(i + 1, perTask, extra)
            == Share(i, perTask, extra) + perTask + if i < extra then 1 else 0
  {
  }

  lemma ShareOut(iterations: nat, maxTasks: nat)
    requires maxTasks >= 1
    ensures iterations / maxTasks >= 1
            ==> maxTasks <= iterations
                && 0 <= iterations - maxTasks * (iterations / maxTasks) < maxTasks
    ensures iterations / maxTasks < 1 ==> iterations < maxTasks
  {
    assert iterations == maxTasks * (iterations / maxTasks) + iterations % maxTasks;
  }

  lemma SharesPartition(rs: seq<Range>, nbTasks: nat, perTask: int, extra: int, n: nat)
    requires perTask >= 1 && 0 <= extra <= nbTasks && nbTasks * perTask + extra == n
    requires |rs| == nbTasks
    requires forall j :: 0 <= j < nbTasks ==>
               rs[j] == Range(Share(j, perTask, extra), Share(j + 1, perTask, extra))
    ensures Partition(rs, n)
  {
    forall j | 0 <= j < nbTasks
      ensures perTask <= Length(rs[j]) <= perTask + 1
    {
      ShareStep(j, perTask, extra);
    }
    forall i | 0 < i < nbTasks
      ensures rs[i].start == rs[i - 1].end
    {
      var p := i - 1;
      assert rs[p] == Range(Share(p, perTask, extra), Share(p + 1, perTask, extra));
      assert rs[i] == Range(Share(i, perTask, extra), Share(i + 1, perTask, extra));
    }
    if nbTasks > 0 {
      var last := nbTasks - 1;
      assert rs[0] == Range(Share(0, perTask, extra), Share(1, perTask, extra));
      assert Share(0, perTask, extra) == 0 by { assert 0 * perTask == 0; }
      assert rs[last].end == Share(last + 1, perTask, extra) == n;
      assert nbTasks * perTask >= 1;
    }
  }

  /** Every iteration belongs to exactly one worker. */
  lemma {:induction false} ExactlyOneWorker(rs: seq<Range>, n: nat, k: nat) returns (w: nat)
    requires Partition(rs, n) && k < n
    ensures w < |rs| && rs[w].start <= k < rs[w].end
    ensures forall j :: 0 <= j < |rs| && rs[j].start <= k < rs[j].end ==> j == w
  {
    w := 0;
    while rs[w].end <= k
      invariant w < |rs| && rs[w].start <= k
      decreases |rs| - w
    {
      assert rs[w] in rs;
      w := w + 1;
    }
    forall j | 0 <= j < |rs| && j != w
      ensures !(rs[j].start <= k < rs[j].end)
    {
      if j < w {
        Ordered(rs, n, j, w);
      } else {
        Ordered(rs, n, w, j);
      }
    }
  }

  lemma {:induction false} Ordered(rs: seq<Range>, n: nat, i: nat, j: nat)
    requires Partition(rs, n) && i < j < |rs|
    ensures rs[i].end <= rs[j].start
    decreases j
  {
    if i + 1 < j {
      Ordered(rs, n, i, j - 1);
      assert rs[j - 1] in rs;
    }
  }
}
