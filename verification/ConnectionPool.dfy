/** The bounded channel pool shared by the circom and gnark provers
    (modules/prover/circom/main.py, modules/prover/gnark/main.py), first as an object and then as a
    system of callers that acquire, wait, release and close in any order. */
module ConnectionPool {

  /** Channels are numbered in the order of their creation. */
  type Channel = nat

  /** `closings` lists the channels on which close() was called. */
  datatype Pool = Pool(
    maxConnections: int, idle: seq<Channel>, created: nat, closed: bool, closings: seq<Channel>)

  datatype AcquireResult = Closed | Got(channel: Channel) | MustWait

  function Limit(maxConnections: int): nat {
    if maxConnections < 0 then 0 else maxConnections
  }

  function AcquireReply(p: Pool): AcquireResult {
    if p.closed then Closed
    else if p.idle != [] then Got(p.idle[0])
    else if p.created < p.maxConnections then Got(p.created)
    else MustWait
  }

  function AcquireStep(p: Pool): Pool {
    if p.closed then p
    else if p.idle != [] then p.(idle := p.idle[1..])
    else if p.created < p.maxConnections then p.(created := p.created + 1)
    else p
  }

  /** A waiting caller is handed the channel at the head of the queue. */
  function TakeStep(p: Pool): Pool
    requires p.idle != []
  {
    p.(idle := p.idle[1..])
  }

  function ReleaseStep(p: Pool, ch: Channel): Pool {
    if p.closed then p.(closings := p.closings + [ch]) else p.(idle := p.idle + [ch])
  }

  function CloseStep(p: Pool): Pool {
    p.(closed := true, idle := [], closings := p.closings + p.idle)
  }

  function Naturals(n: nat): (s: seq<nat>)
    ensures |s| == n && forall i :: 0 <= i < n ==> s[i] == i
  {
    seq(n, i => i)
  }

  /** A pool after its warm-up. */
  function Fresh(maxConnections: int, initialSize: int): Pool {
    var n := if initialSize < maxConnections then initialSize else maxConnections;
    var n := if n < 0 then 0 else n;
    Pool(maxConnections, Naturals(n), n, false, [])
  }

  class ConnectionPool {
    const maxConnections: int
    var idle: seq<Channel>
    var created: nat
    var closed: bool
    var closings: seq<Channel>

    function Contents(): Pool
      reads this
    {
      Pool(maxConnections, idle, created, closed, closings)
    }

    constructor (maxConnections: int, initialSize: int)
      ensures Contents() == Fresh(maxConnections, initialSize)
    {
      this.maxConnections := maxConnections;
      idle, created, closed, closings := [], 0, false, [];
      new;
      var size := if initialSize < maxConnections then initialSize else maxConnections;
      size := if size < 0 then 0 else size;
      var i := 0;
      while i < size
        invariant 0 <= i <= size && created == i && idle == Naturals(i)
        invariant !closed && closings == []
      {
        var ch := NewChannel();
        idle := idle + [ch];
        i := i + 1;
      }
    }

    method NewChannel() returns (ch: Channel)
      modifies this`created
      ensures ch == old(created) && created == old(created) + 1
    {
      ch := created;
      created := created + 1;
    }

    /** The part of acquire that runs before any suspension. */
    method Acquire() returns (r: AcquireResult)
      modifies this`idle, this`created
      ensures r == AcquireReply(old(Contents())) && Contents() == AcquireStep(old(Contents()))
    {
      if closed {
        return Closed;
      }
      if idle != [] {
        r := Got(idle[0]);
        idle := idle[1..];
        return;
      }
      if created < maxConnections {
        var ch := NewChannel();
        return Got(ch);
      }
      return MustWait;
    }

    method Release(ch: Channel)
      modifies this`idle, this`closings
      ensures Contents() == ReleaseStep(old(Contents()), ch)
    {
      if closed {
        closings := closings + [ch];
        return;
      }
      idle := idle + [ch];
    }

    /** Drains the queue, then closes what was drained. */
    method Close()
      modifies this`idle, this`closed, this`closings
      ensures Contents() == CloseStep(old(Contents()))
    {
      closed := true;
      var closing: seq<Channel> := [];
      ghost var was := idle;
      while idle != []
        invariant closed && closings == old(closings) && closing + idle == was
        decreases |idle|
      {
        closing := closing + [idle[0]];
        idle := idle[1..];
      }
      assert closing + idle == closing;
      closings := closings + closing;
    }
  }

  // ---- callers ----

  type Caller = nat

  /** `holder` says who holds each channel in use; `waiting` are the callers suspended in acquire. */
  datatype World = World(pool: Pool, holder: map<Channel, Caller>, waiting: set<Caller>)

  datatype Event =
    | Acquire(c: Caller)
    | Wake(c: Caller)
    | Cancel(c: Caller)
    | Release(ch: Channel)
    | Close

  predicate Enabled(w: World, e: Event) {
    match e
    case Acquire(c) => c !in w.waiting && c !in w.holder.Values
    case Wake(c) => c in w.waiting && w.pool.idle != []
    case Cancel(c) => c in w.waiting
    case Release(ch) => ch in w.holder
    case Close => true
  }

  function Apply(w: World, e: Event): World
    requires Enabled(w, e)
  {
    match e
    case Acquire(c) =>
      var w' := w.(pool := AcquireStep(w.pool));
      (match AcquireReply(w.pool)
       case Closed => w'
       case Got(ch) => w'.(holder := w.holder[ch := c])
       case MustWait => w'.(waiting := w.waiting + {c}))
    case Wake(c) =>
      World(TakeStep(w.pool), w.holder[w.pool.idle[0] := c], w.waiting - {c})
    case Cancel(c) => w.(waiting := w.waiting - {c})
    case Release(ch) => w.(pool := ReleaseStep(w.pool, ch), holder := w.holder - {ch})
    case Close => w.(pool := CloseStep(w.pool))
  }

  predicate CanRun(w: World, es: seq<Event>)
    decreases es
  {
    es == [] || (Enabled(w, es[0]) && CanRun(Apply(w, es[0]), es[1..]))
  }

  function Run(w: World, es: seq<Event>): World
    requires CanRun(w, es)
    decreases es
  {
    if es == [] then w else Run(Apply(w, es[0]), es[1..])
  }

  function Start(maxConnections: int, initialSize: int): World {
    World(Fresh(maxConnections, initialSize), map[], {})
  }

  // ---- conservation ----

  /** How many times a channel is to be found, over the queue, the holders and the closings. */
  function Places(w: World, ch: Channel): nat {
    multiset(w.pool.idle)[ch] + (if ch in w.holder then 1 else 0) + multiset(w.pool.closings)[ch]
  }

  ghost predicate Conserved(w: World) {
    && w.pool.created <= Limit(w.pool.maxConnections)
    && (forall ch: Channel :: Places(w, ch) == if ch < w.pool.created then 1 else 0)
    && (w.pool.closed ==> w.pool.idle == [])
    && (!w.pool.closed ==> w.pool.closings == [])
  }

  lemma HeadAndTail(s: seq<Channel>)
    requires s != []
    ensures multiset(s) == multiset{s[0]} + multiset(s[1..])
  {
    assert s == [s[0]] + s[1..];
  }

  lemma StartConserved(maxConnections: int, initialSize: int)
    ensures Conserved(Start(maxConnections, initialSize))
  {
    var w := Start(maxConnections, initialSize);
    NaturalsOnce(w.pool.created);
  }

  lemma {:induction false} NaturalsOnce(n: nat)
    ensures forall ch: Channel :: multiset(Naturals(n))[ch] == if ch < n then 1 else 0
  {
    if n > 0 {
      NaturalsOnce(n - 1);
      assert Naturals(n) == Naturals(n - 1) + [n - 1];
    }
  }

  /** After a step, as before it, a channel has one place if it was created and none if not. */
  lemma StepPlaces(w: World, e: Event, ch: Channel)
    requires Conserved(w) && Enabled(w, e)
    ensures Places(Apply(w, e), ch) == if ch < Apply(w, e).pool.created then 1 else 0
  {
    hide Places;
    assert Places(w, ch) == if ch < w.pool.created then 1 else 0;
    var w' := Apply(w, e);
    match e
    case Acquire(c) =>
      if !w.pool.closed && w.pool.idle != [] {
        TakenPlaces(w, w', c, ch);
      } else if !w.pool.closed && w.pool.created < w.pool.maxConnections {
        NewPlaces(w, w', c, ch);
      } else {
        SamePlaces(w, w', ch);
      }
    case Wake(c) => TakenPlaces(w, w', c, ch);
    case Cancel(c) => SamePlaces(w, w', ch);
    case Release(r) => ReleasedPlaces(w, r, ch);
    case Close => ClosedPlaces(w, ch);
  }

  lemma SamePlaces(w: World, w': World, ch: Channel)
    requires w'.pool == w.pool && w'.holder == w.holder
    ensures Places(w', ch) == Places(w, ch)
  {
  }

  lemma TakenPlaces(w: World, w': World, c: Caller, ch: Channel)
    requires Conserved(w) && w.pool.idle != []
    requires w'.pool.idle == w.pool.idle[1..] && w'.pool.closings == w.pool.closings
    requires w'.holder == w.holder[w.pool.idle[0] := c]
    ensures Places(w', ch) == Places(w, ch)
  {
    HeadLeaves(w, ch);
  }

  lemma NewPlaces(w: World, w': World, c: Caller, ch: Channel)
    requires Conserved(w) && w'.pool.idle == w.pool.idle && w'.pool.closings == w.pool.closings
    requires w'.holder == w.holder[w.pool.created := c]
    ensures Places(w', ch) == Places(w, ch) + if ch == w.pool.created then 1 else 0
  {
    assert Places(w, w.pool.created) == 0;
  }

  lemma ReleasedPlaces(w: World, r: Channel, ch: Channel)
    requires Conserved(w) && r in w.holder
    ensures Places(Apply(w, Release(r)), ch) == Places(w, ch)
  {
    assert Places(w, r) == 1;
  }

  lemma ClosedPlaces(w: World, ch: Channel)
    ensures Places(Apply(w, Close), ch) == Places(w, ch)
  {
  }

  lemma HeadLeaves(w: World, ch: Channel)
    requires Conserved(w) && w.pool.idle != []
    ensures w.pool.idle[0] !in w.holder
    ensures multiset(w.pool.idle)[ch]
            == multiset(w.pool.idle[1..])[ch] + if ch == w.pool.idle[0] then 1 else 0
  {
    HeadAndTail(w.pool.idle);
    assert Places(w, w.pool.idle[0]) == 1;
  }

  lemma StepConserved(w: World, e: Event)
    requires Conserved(w) && Enabled(w, e)
    ensures Conserved(Apply(w, e))
  {
    hide Places;
    forall ch: Channel
      ensures Places(Apply(w, e), ch) == if ch < Apply(w, e).pool.created then 1 else 0
    {
      StepPlaces(w, e, ch);
    }
  }

  lemma {:induction false} RunConserved(w: World, es: seq<Event>)
    requires CanRun(w, es) && Conserved(w)
    ensures Conserved(Run(w, es))
    decreases es
  {
    hide Conserved;
    if es != [] {
      StepConserved(w, es[0]);
      RunConserved(Apply(w, es[0]), es[1..]);
    }
  }

  /** In every reachable state: no more channels than the limit were created, and every created
      channel is in exactly one place, once - in the queue, with one holder, or closed; after close the
      queue is empty, and before it nothing was closed. */
  lemma PoolConserves(maxConnections: int, initialSize: int, es: seq<Event>)
    requires CanRun(Start(maxConnections, initialSize), es)
    ensures Conserved(Run(Start(maxConnections, initialSize), es))
  {
    hide Conserved;
    StartConserved(maxConnections, initialSize);
    RunConserved(Start(maxConnections, initialSize), es);
  }

  /** A caller starts to wait only when the limit is reached and every channel is held. */
  lemma WaitOnlyWhenAllHeld(w: World, c: Caller)
    requires Conserved(w) && Enabled(w, Acquire(c))
    requires c in Apply(w, Acquire(c)).waiting
    ensures w.pool.created == Limit(w.pool.maxConnections)
    ensures forall ch: Channel :: ch in w.holder <==> ch < Limit(w.pool.maxConnections)
  {
    forall ch: Channel
      ensures ch in w.holder <==> ch < w.pool.created
    {
      assert Places(w, ch) == if ch < w.pool.created then 1 else 0;
    }
  }

  // ---- callers ----

  /** No caller both waits and holds a channel, and none holds two. */
  ghost predicate CallersApart(w: World) {
    && (forall ch: Channel :: ch in w.holder ==> w.holder[ch] !in w.waiting)
    && (forall a: Channel, b: Channel :: a in w.holder && b in w.holder && w.holder[a] == w.holder[b] ==> a == b)
  }

  /** Over every run a caller is in one place; and a caller that is woken or cancelled waits no longer. */
  lemma {:induction false} RunCallersApart(w: World, es: seq<Event>)
    requires CallersApart(w) && CanRun(w, es)
    ensures CallersApart(Run(w, es))
    decreases es
  {
    if es != [] {
      StepCallersApart(w, es[0]);
      RunCallersApart(Apply(w, es[0]), es[1..]);
    }
  }

  lemma StepCallersApart(w: World, e: Event)
    requires CallersApart(w) && Enabled(w, e)
    ensures CallersApart(Apply(w, e))
    ensures e.Wake? || e.Cancel? ==> Apply(w, e).waiting == set c | c in w.waiting && c != e.c
  {
  }

  lemma CallersStartApart(maxConnections: int, initialSize: int)
    ensures CallersApart(Start(maxConnections, initialSize))
  {
  }

  // ---- the queue ----

  /** A new pool holds as many channels as asked for, up to the limit and none for a negative number, and
      all of them are idle, in the order of their creation. */
  lemma WarmUp(maxConnections: int, initialSize: int)
    ensures var pool := Start(maxConnections, initialSize).pool;
            && (initialSize <= 0 || maxConnections <= 0 ==> pool.created == 0)
            && (0 < initialSize <= maxConnections ==> pool.created == initialSize)
            && (0 < maxConnections <= initialSize ==> pool.created == maxConnections)
            && |pool.idle| == pool.created && (forall i :: 0 <= i < pool.created ==> pool.idle[i] == i)
            && !pool.closed && pool.closings == []
  {
  }

  /** A channel is created exactly when an open pool with an empty queue is asked for one below the limit. */
  lemma CreatesIff(w: World, c: Caller)
    requires Enabled(w, Acquire(c))
    ensures Apply(w, Acquire(c)).pool.created
            == if !w.pool.closed && w.pool.idle == [] && w.pool.created < w.pool.maxConnections
               then w.pool.created + 1 else w.pool.created
  {
  }

  /** The channels that a step puts into the queue: one released to an open pool. */
  function Entering(w: World, e: Event): seq<Channel> {
    if e.Release? && !w.pool.closed then [e.ch] else []
  }

  /** A channel that existed before the step and has a holder only after it. */
  predicate Taken(w: World, e: Event, ch: Channel)
    requires Enabled(w, e)
  {
    ch < w.pool.created && ch !in w.holder && ch in Apply(w, e).holder
  }

  ghost function Leaving(w: World, e: Event): seq<Channel>
    requires Enabled(w, e)
  {
    if exists ch :: Taken(w, e, ch) then
      var ch :| Taken(w, e, ch);
      [ch]
    else []
  }

  ghost function AllEntering(w: World, es: seq<Event>): seq<Channel>
    requires CanRun(w, es)
    decreases es
  {
    if es == [] then [] else Entering(w, es[0]) + AllEntering(Apply(w, es[0]), es[1..])
  }

  ghost function AllLeaving(w: World, es: seq<Event>): seq<Channel>
    requires CanRun(w, es)
    decreases es
  {
    if es == [] then [] else Leaving(w, es[0]) + AllLeaving(Apply(w, es[0]), es[1..])
  }

  lemma StepFifo(w: World, e: Event)
    requires Conserved(w) && Enabled(w, e) && !Apply(w, e).pool.closed
    ensures w.pool.idle + Entering(w, e) == Leaving(w, e) + Apply(w, e).pool.idle
  {
    hide Places;
    if (e.Acquire? || e.Wake?) && w.pool.idle != [] {
      var first := w.pool.idle[0];
      IdleIsFree(w);
      assert Taken(w, e, first);
      assert forall ch :: Taken(w, e, ch) ==> ch == first;
    } else {
      assert forall ch :: !Taken(w, e, ch);
    }
  }

  lemma IdleIsFree(w: World)
    requires Conserved(w) && w.pool.idle != []
    ensures w.pool.idle[0] !in w.holder && w.pool.idle[0] < w.pool.created
  {
    HeadLeaves(w, w.pool.idle[0]);
    assert Places(w, w.pool.idle[0]) >= 1;
  }

  /** First in, first out: as long as the pool is open, the channels taken from it, in order, and then those
      still idle are the ones idle at first and then those released, in order. */
  lemma {:induction false} QueueIsFifo(w: World, es: seq<Event>)
    requires Conserved(w) && CanRun(w, es) && !Run(w, es).pool.closed
    ensures w.pool.idle + AllEntering(w, es) == AllLeaving(w, es) + Run(w, es).pool.idle
    decreases es
  {
    hide Conserved, Entering, Leaving;
    if es != [] {
      var w' := Apply(w, es[0]);
      StepConserved(w, es[0]);
      if w'.pool.closed {
        ClosedHandsOutNothing(w', es[1..]);
      }
      StepFifo(w, es[0]);
      QueueIsFifo(w', es[1..]);
      Regrouped(w.pool.idle, Entering(w, es[0]), AllEntering(w', es[1..]), Leaving(w, es[0]), w'.pool.idle,
                AllLeaving(w', es[1..]), Run(w, es).pool.idle);
    }
  }

  lemma Regrouped(
    a: seq<Channel>, b: seq<Channel>, c: seq<Channel>, d: seq<Channel>, e: seq<Channel>, f: seq<Channel>,
    g: seq<Channel>)
    requires a + b == d + e && e + c == f + g
    ensures a + (b + c) == d + f + g
  {
    assert a + (b + c) == a + b + c == d + (e + c);
  }

  lemma ClosedStays(w: World, e: Event)
    requires Conserved(w) && Enabled(w, e) && w.pool.closed
    ensures var w' := Apply(w, e);
            && w'.pool.closed && w'.pool.created == w.pool.created
            && w'.holder.Keys <= w.holder.Keys
            && (forall c :: c in w.waiting && e != Cancel(c) ==> c in w'.waiting)
  {
  }

  /** After close no channel is created or handed out again, and a caller that was waiting is never
      woken: it waits until it is cancelled. */
  lemma {:induction false} ClosedHandsOutNothing(w: World, es: seq<Event>)
    requires Conserved(w) && CanRun(w, es) && w.pool.closed
    ensures var w' := Run(w, es);
            && w'.pool.closed && w'.pool.created == w.pool.created
            && w'.holder.Keys <= w.holder.Keys
            && (forall c :: c in w.waiting && Cancel(c) !in es ==> c in w'.waiting)
    decreases es
  {
    hide Conserved;
    if es != [] {
      ClosedStays(w, es[0]);
      StepConserved(w, es[0]);
      ClosedHandsOutNothing(Apply(w, es[0]), es[1..]);
    }
  }

  /** A released channel can be taken by a waiting caller exactly when the pool is open. */
  lemma ReleaseWakesIff(w: World, ch: Channel, c: Caller)
    requires Conserved(w) && Enabled(w, Release(ch)) && c in w.waiting
    ensures Enabled(Apply(w, Release(ch)), Wake(c)) <==> !w.pool.closed
  {
    hide Places;
  }

  /** Closing while a caller waits strands it: with a limit of one channel, the second caller waits, the
      pool is closed, the first caller gives its channel back, and the second waits on. */
  lemma CloseStrandsWaiter()
    ensures var es := [Acquire(0), Acquire(1), Close, Release(0)];
            && CanRun(Start(1, 0), es)
            && var w := Run(Start(1, 0), es);
               && w.pool.closed && w.waiting == {1} && w.holder == map[]
               && w.pool.idle == [] && w.pool.closings == [0]
  {
    hide Run, CanRun;
    var w0 := Start(1, 0);
    var w1 := Apply(w0, Acquire(0));
    assert w1 == World(Pool(1, [], 1, false, []), map[0 := 0], {});
    var w2 := Apply(w1, Acquire(1));
    assert w2 == World(Pool(1, [], 1, false, []), map[0 := 0], {1});
    var w3 := Apply(w2, Close);
    assert w3 == World(Pool(1, [], 1, true, []), map[0 := 0], {1});
    var w4 := Apply(w3, Release(0));
    assert w4 == World(Pool(1, [], 1, true, [0]), map[], {1});
    RunEnds(w4);
    RunStarts(w3, Release(0), []);
    assert [Release(0)] + [] == [Release(0)];
    RunStarts(w2, Close, [Release(0)]);
    assert [Close] + [Release(0)] == [Close, Release(0)];
    RunStarts(w1, Acquire(1), [Close, Release(0)]);
    assert [Acquire(1)] + [Close, Release(0)] == [Acquire(1), Close, Release(0)];
    RunStarts(w0, Acquire(0), [Acquire(1), Close, Release(0)]);
    assert [Acquire(0)] + [Acquire(1), Close, Release(0)] == [Acquire(0), Acquire(1), Close, Release(0)];
  }

  lemma RunEnds(w: World)
    ensures CanRun(w, []) && Run(w, []) == w
  {
  }

  lemma RunStarts(w: World, e: Event, es: seq<Event>)
    requires Enabled(w, e) && CanRun(Apply(w, e), es)
    ensures CanRun(w, [e] + es) && Run(w, [e] + es) == Run(Apply(w, e), es)
  {
    hide Apply, Enabled;
    assert ([e] + es)[1..] == es;
  }

  /** Once a closed pool has every channel back, each channel created was closed exactly once. */
  lemma EveryChannelClosedOnce(maxConnections: int, initialSize: int, es: seq<Event>, ch: Channel)
    requires CanRun(Start(maxConnections, initialSize), es)
    ensures var w := Run(Start(maxConnections, initialSize), es);
            w.pool.closed && w.holder == map[]
            ==> multiset(w.pool.closings)[ch] == if ch < w.pool.created then 1 else 0
  {
    PoolConserves(maxConnections, initialSize, es);
    var w := Run(Start(maxConnections, initialSize), es);
    assert Places(w, ch) == if ch < w.pool.created then 1 else 0;
  }
}
