/** The node's task cache (modules/proof_manager/main.py) and the push handler that feeds it
    (application/http_server/v1/main.py): entries that expire, are evicted lazily and are written to a
    snapshot file by a flush that runs beside the request handlers. */
module TaskCache {

  type Key = string

  const PENDING := 0
  const RUNNING := 1
  const TTL := 60.0

  datatype Option<T> = None | Some(value: T)

  /** A value and the time at which it expires, if any. */
  datatype Entry = Entry(value: int, expiry: Option<real>)

  type Cache = map<Key, Entry>

  predicate LiveEntry(e: Entry, now: real) {
    e.expiry.None? || e.expiry.value > now
  }

  /** The part of a cache a reader can see at a time. */
  function Live(c: Cache, now: real): (l: Cache)
    ensures forall k :: k in l <==> k in c && LiveEntry(c[k], now)
    ensures forall k :: k in l ==> l[k] == c[k]
  {
    map k | k in c && LiveEntry(c[k], now) :: c[k]
  }

  function Lookup(c: Cache, key: Key, now: real): Option<int> {
    if key in c && LiveEntry(c[key], now) then Some(c[key].value) else None
  }

  // ---- the steps, as functions on the state ----

  /** `file` is what the snapshot file holds; a missing or unreadable file is None. */
  datatype Store = Store(cache: Cache, dirty: bool, file: Option<Cache>)

  function GetStep(s: Store, key: Key, now: real): Store {
    if key in s.cache && !LiveEntry(s.cache[key], now)
    then s.(cache := s.cache - {key}, dirty := true)
    else s
  }

  function SetStep(s: Store, key: Key, value: int, ttl: Option<real>, now: real): Store {
    var expiry := if ttl.Some? then Some(now + ttl.value) else None;
    s.(cache := s.cache[key := Entry(value, expiry)], dirty := true)
  }

  /** What a write of the snapshot did: it succeeded, or it failed and left something in the file. */
  datatype Write = Written | WriteFailed(left: Option<Cache>)

  function SaveStep(s: Store, now: real, w: Write): Store {
    if !s.dirty then s
    else
      var kept := Live(s.cache, now);
      match w
      case Written => Store(kept, false, Some(kept))
      case WriteFailed(left) => Store(kept, true, left)
  }

  function CleanStep(s: Store, now: real, saveTime: real, w: Write): Store {
    if Live(s.cache, now) == s.cache then s
    else SaveStep(s.(cache := Live(s.cache, now), dirty := true), saveTime, w)
  }

  /** A fresh process: the cache is what the file holds, less what has expired. */
  function LoadStep(file: Option<Cache>, now: real): Store {
    Store(if file.Some? then Live(file.value, now) else map[], false, file)
  }

  // ---- the class ----

  datatype ClaimReply = Claimed | NotFound | Invalid

  datatype PushReply = Pushed | BadSignature | AlreadyExists

  /** Pushing is refused only for a value Python treats as true: a live RUNNING entry. */
  predicate Truthy(v: Option<int>) {
    v.Some? && v.value != 0
  }

  class ProofManager {
    var cache: Cache
    var dirty: bool
    var file: Option<Cache>

    function Contents(): Store
      reads this
    {
      Store(cache, dirty, file)
    }

    constructor (snapshot: Option<Cache>, now: real)
      ensures Contents() == LoadStep(snapshot, now)
    {
      file, dirty := snapshot, false;
      cache := if snapshot.Some? then Live(snapshot.value, now) else map[];
    }

    method Get(key: Key, now: real) returns (value: Option<int>)
      modifies this`cache, this`dirty
      ensures Contents() == GetStep(old(Contents()), key, now)
      ensures value == Lookup(old(cache), key, now)
    {
      if key in cache {
        var e := cache[key];
        if e.expiry.None? || e.expiry.value > now {
          return Some(e.value);
        }
        cache := cache - {key};
        dirty := true;
      }
      return None;
    }

    method Set(key: Key, value: int, ttl: Option<real>, now: real)
      modifies this`cache, this`dirty
      ensures Contents() == SetStep(old(Contents()), key, value, ttl, now)
    {
      var expiry := if ttl.Some? then Some(now + ttl.value) else None;
      cache := cache[key := Entry(value, expiry)];
      dirty := true;
    }

    /** Collects the expired keys and then deletes them one by one. */
    method DropExpired(now: real)
      modifies this`cache
      ensures cache == Live(old(cache), now)
    {
      var expired := set k | k in cache && !LiveEntry(cache[k], now);
      ghost var was, all := cache, expired;
      while expired != {}
        invariant expired <= all
        invariant cache == was - (all - expired)
        decreases expired
      {
        var k :| k in expired;
        cache := cache - {k};
        expired := expired - {k};
      }
    }

    method SaveCache(now: real, w: Write)
      modifies this
      ensures Contents() == SaveStep(old(Contents()), now, w)
    {
      if !dirty {
        return;
      }
      DropExpired(now);
      match w {
        case Written =>
          file := Some(cache);
          dirty := false;
        case WriteFailed(left) =>
          file := left;
      }
    }

    method CleanExpired(now: real, saveTime: real, w: Write)
      modifies this
      ensures Contents() == CleanStep(old(Contents()), now, saveTime, w)
    {
      var expired := set k | k in cache && !LiveEntry(cache[k], now);
      if expired == {} {
        assert forall k :: k in cache ==> k !in expired;
        assert Live(cache, now) == cache;
        return;
      }
      assert Live(cache, now) != cache by {
        var k :| k in expired;
        assert k !in Live(cache, now);
      }
      DropExpired(now);
      dirty := true;
      SaveCache(saveTime, w);
    }

    /** A claim succeeds exactly on a live PENDING entry, which it turns into a RUNNING one that
        expires a minute later. */
    method ClaimTask(key: Key, getTime: real, setTime: real) returns (reply: ClaimReply)
      modifies this`cache, this`dirty
      ensures reply == match Lookup(old(cache), key, getTime)
                       case None => NotFound
                       case Some(v) => if v == PENDING then Claimed else Invalid
      ensures Contents() == var s := GetStep(old(Contents()), key, getTime);
                            if reply == Claimed then SetStep(s, key, RUNNING, Some(TTL), setTime) else s
    {
      var status := Get(key, getTime);
      if status.None? {
        return NotFound;
      }
      if status.value != PENDING {
        return Invalid;
      }
      Set(key, RUNNING, Some(TTL), setTime);
      return Claimed;
    }

    method PushTask(key: Key, validSignature: bool, getTime: real, setTime: real)
      returns (reply: PushReply)
      modifies this`cache, this`dirty
      ensures reply == if !validSignature then BadSignature
                       else if Truthy(Lookup(old(cache), key, getTime)) then AlreadyExists else Pushed
      ensures Contents() == if !validSignature then old(Contents())
                            else var s := GetStep(old(Contents()), key, getTime);
                                 if reply == Pushed then SetStep(s, key, PENDING, Some(TTL), setTime)
                                 else s
    {
      if !validSignature {
        return BadSignature;
      }
      var status := Get(key, getTime);
      if Truthy(status) {
        return AlreadyExists;
      }
      Set(key, PENDING, Some(TTL), setTime);
      return Pushed;
    }
  }

  // ---- runs ----

  /** Request handlers run one at a time; a handler is between its lookup and its update while the
      flush thread may step in. `since` is the time of the lookup. */
  datatype Handler = Idle | Pushing(key: Key, since: real) | Claiming(key: Key, since: real)

  /** A completed push or a successful claim: when its lookup and its update were made. */
  datatype Record = Push(key: Key, since: real, at: real) | Claim(key: Key, since: real, at: real)

  /** `ideal` holds everything ever set, and nothing is evicted from it; only a restart from a file that
      is behind takes it back to what the file holds. `log` lists the completed pushes and claims, over
      all restarts. */
  datatype System = System(
    store: Store, handler: Handler, clock: real, ideal: Cache, log: seq<Record>)

  datatype Event =
    | PushLookup(key: Key, now: real)
    | ClaimLookup(key: Key, now: real)
    | Update(now: real)
    | Probe(key: Key, now: real)
    | Flush(now: real, w: Write)
    | Clean(now: real, saveTime: real, w: Write)
    | Restart(now: real)

  /** The clock never goes back. Only the flush may come between the two halves of a request. A restart
      may come at any time, and drops a request that is half done. */
  predicate Enabled(s: System, e: Event) {
    && s.clock <= e.now
    && match e
       case PushLookup(_, _) => s.handler.Idle?
       case ClaimLookup(_, _) => s.handler.Idle?
       case Update(_) => !s.handler.Idle?
       case Probe(_, _) => s.handler.Idle?
       case Flush(_, _) => true
       case Clean(now, saveTime, _) => s.handler.Idle? && now <= saveTime
       case Restart(_) => true
  }

  function Apply(s: System, e: Event): System
    requires Enabled(s, e)
  {
    var s := s.(clock := if e.Clean? then e.saveTime else e.now);
    match e
    case PushLookup(key, now) =>
      var found := Lookup(s.store.cache, key, now);
      s.(store := GetStep(s.store, key, now),
         handler := if Truthy(found) then Idle else Pushing(key, now))
    case ClaimLookup(key, now) =>
      var found := Lookup(s.store.cache, key, now);
      s.(store := GetStep(s.store, key, now),
         handler := if found == Some(PENDING) then Claiming(key, now) else Idle)
    case Update(now) =>
      var key := s.handler.key;
      var value := if s.handler.Pushing? then PENDING else RUNNING;
      s.(store := SetStep(s.store, key, value, Some(TTL), now),
         handler := Idle,
         ideal := s.ideal[key := Entry(value, Some(now + TTL))],
         log := s.log + [if s.handler.Pushing? then Push(key, s.handler.since, now)
                         else Claim(key, s.handler.since, now)])
    case Probe(key, now) => s.(store := GetStep(s.store, key, now))
    case Flush(now, w) => s.(store := SaveStep(s.store, now, w))
    case Clean(now, saveTime, w) => s.(store := CleanStep(s.store, now, saveTime, w))
    case Restart(now) =>
      s.(store := LoadStep(s.store.file, now),
         handler := Idle,
         ideal := if s.store.dirty then FileContents(s.store.file) else s.ideal)
  }

  function FileContents(file: Option<Cache>): Cache {
    if file.Some? then file.value else map[]
  }

  predicate CanRun(s: System, es: seq<Event>)
    decreases es
  {
    es == [] || (Enabled(s, es[0]) && CanRun(Apply(s, es[0]), es[1..]))
  }

  function Run(s: System, es: seq<Event>): System
    requires CanRun(s, es)
    decreases es
  {
    if es == [] then s else Run(Apply(s, es[0]), es[1..])
  }

  /** A process that has just loaded its snapshot. */
  function Boot(file: Option<Cache>, now: real): System {
    System(LoadStep(file, now), Idle, now, if file.Some? then file.value else map[], [])
  }

  /** What claim_task does, when no flush steps in, is its two events of a run: the store it leaves is
      the run's, and exactly a granted claim is logged. */
  lemma ClaimIsItsEvents(s: System, key: Key, getTime: real, setTime: real)
    requires s.handler.Idle? && s.clock <= getTime <= setTime
    ensures var granted := Lookup(s.store.cache, key, getTime) == Some(PENDING);
            var es := [ClaimLookup(key, getTime)] + if granted then [Update(setTime)] else [];
            var seen := GetStep(s.store, key, getTime);
            && CanRun(s, es)
            && var s' := Run(s, es);
               && s'.handler.Idle?
               && s'.store == (if granted then SetStep(seen, key, RUNNING, Some(TTL), setTime) else seen)
               && s'.log == s.log + if granted then [Claim(key, getTime, setTime)] else []
  {
    hide Lookup, GetStep, SetStep;
    TwoEvents(s, ClaimLookup(key, getTime), setTime);
  }

  lemma PushIsItsEvents(s: System, key: Key, getTime: real, setTime: real)
    requires s.handler.Idle? && s.clock <= getTime <= setTime
    ensures var granted := !Truthy(Lookup(s.store.cache, key, getTime));
            var es := [PushLookup(key, getTime)] + if granted then [Update(setTime)] else [];
            var seen := GetStep(s.store, key, getTime);
            && CanRun(s, es)
            && var s' := Run(s, es);
               && s'.handler.Idle?
               && s'.store == (if granted then SetStep(seen, key, PENDING, Some(TTL), setTime) else seen)
               && s'.log == s.log + if granted then [Push(key, getTime, setTime)] else []
  {
    hide Lookup, GetStep, SetStep, Truthy;
    TwoEvents(s, PushLookup(key, getTime), setTime);
  }

  lemma TwoEvents(s: System, first: Event, now: real)
    requires Enabled(s, first)
    ensures CanRun(s, [first]) && Run(s, [first]) == Apply(s, first)
    ensures var s' := Apply(s, first);
            Enabled(s', Update(now))
            ==> CanRun(s, [first, Update(now)]) && Run(s, [first, Update(now)]) == Apply(s', Update(now))
  {
    hide Apply, Enabled;
    var s' := Apply(s, first);
    assert [first][1..] == [] && [first, Update(now)][1..] == [Update(now)] && [Update(now)][1..] == [];
    assert CanRun(s', []) && Run(s', []) == s';
    if Enabled(s', Update(now)) {
      var s'' := Apply(s', Update(now));
      assert CanRun(s'', []) && Run(s'', []) == s'';
      assert CanRun(s', [Update(now)]) && Run(s', [Update(now)]) == s'';
    }
  }

  // ---- the cache refines the ideal map ----

  ghost predicate SameAt(a: Cache, b: Cache, key: Key, t: real) {
    Lookup(a, key, t) == Lookup(b, key, t)
  }

  /** From now on no reader can tell the two caches apart. */
  ghost predicate SameView(a: Cache, b: Cache, clock: real) {
    forall k, t :: t >= clock ==> SameAt(a, b, k, t)
  }

  ghost predicate Refines(s: System) {
    && SameView(s.store.cache, s.ideal, s.clock)
    && (!s.store.dirty ==> SameView(FileContents(s.store.file), s.ideal, s.clock))
  }

  lemma LiveSameView(c: Cache, now: real, clock: real)
    requires now <= clock
    ensures SameView(Live(c, now), c, clock)
  {
  }

  lemma GetSameView(s: Store, key: Key, now: real)
    ensures SameView(GetStep(s, key, now).cache, s.cache, now)
  {
  }

  lemma ViewsCompose(a: Cache, b: Cache, c: Cache, clock: real, later: real)
    requires SameView(a, b, later) && SameView(b, c, clock) && clock <= later
    ensures SameView(a, c, later)
  {
    forall k, t | t >= later
      ensures SameAt(a, c, k, t)
    {
      assert SameAt(a, b, k, t) && SameAt(b, c, k, t);
    }
  }

  lemma SetSameView(a: Cache, b: Cache, clock: real, key: Key, e: Entry)
    requires SameView(a, b, clock)
    ensures SameView(a[key := e], b[key := e], clock)
  {
    forall k, t {:trigger SameAt(a[key := e], b[key := e], k, t)} | t >= clock
      ensures SameAt(a[key := e], b[key := e], k, t)
    {
      assert SameAt(a, b, k, t);
    }
  }

  lemma SaveRefines(s: Store, ideal: Cache, clock: real, now: real, w: Write)
    requires SameView(s.cache, ideal, clock) && clock <= now
    requires !s.dirty ==> SameView(FileContents(s.file), ideal, clock)
    ensures SameView(SaveStep(s, now, w).cache, ideal, now)
    ensures var s' := SaveStep(s, now, w); !s'.dirty ==> SameView(FileContents(s'.file), ideal, now)
  {
    hide SameView;
    LiveSameView(s.cache, now, now);
    ViewsCompose(Live(s.cache, now), s.cache, ideal, clock, now);
    LaterView(s.cache, ideal, clock, now);
    if !s.dirty {
      LaterView(FileContents(s.file), ideal, clock, now);
    }
  }

  lemma LaterView(a: Cache, b: Cache, clock: real, later: real)
    requires SameView(a, b, clock) && clock <= later
    ensures SameView(a, b, later)
  {
  }

  lemma StepRefines(s: System, e: Event)
    requires Enabled(s, e) && Refines(s)
    ensures Refines(Apply(s, e))
  {
    hide SameView, Lookup, Live;
    LaterView(s.store.cache, s.ideal, s.clock, e.now);
    if !s.store.dirty {
      LaterView(FileContents(s.store.file), s.ideal, s.clock, e.now);
    }
    match e
    case Update(now) =>
      SetSameView(s.store.cache, s.ideal, now, s.handler.key, Apply(s, e).ideal[s.handler.key]);
    case Flush(now, w) =>
      SaveRefines(s.store, s.ideal, s.clock, now, w);
    case Clean(now, saveTime, w) =>
      LiveSameView(s.store.cache, now, now);
      ViewsCompose(Live(s.store.cache, now), s.store.cache, s.ideal, s.clock, now);
      SaveRefines(s.store.(cache := Live(s.store.cache, now), dirty := true), s.ideal, now, saveTime, w);
      LaterView(s.store.cache, s.ideal, s.clock, saveTime);
      if !s.store.dirty {
        LaterView(FileContents(s.store.file), s.ideal, s.clock, saveTime);
      }
    case Restart(now) =>
      var contents := FileContents(s.store.file);
      LiveSameView(contents, now, now);
      SelfView(contents, now);
      assert s.store.file.None? ==> Live(map[], now) == map[] by { EmptyLive(now); }
      if !s.store.dirty {
        ViewsCompose(Live(contents, now), contents, s.ideal, s.clock, now);
      }
    case _ =>
      GetSameView(s.store, e.key, e.now);
      ViewsCompose(GetStep(s.store, e.key, e.now).cache, s.store.cache, s.ideal, s.clock, e.now);
  }

  lemma SelfView(c: Cache, now: real)
    ensures SameView(c, c, now)
  {
  }

  lemma EmptyLive(now: real)
    ensures Live(map[], now) == map[]
  {
  }

  lemma {:induction false} RunRefines(s: System, es: seq<Event>)
    requires CanRun(s, es) && Refines(s)
    ensures Refines(Run(s, es))
    decreases es
  {
    if es != [] {
      StepRefines(s, es[0]);
      RunRefines(Apply(s, es[0]), es[1..]);
    }
  }

  /** Eviction is invisible: at any point of any run, and at any later time, every lookup answers as
      if nothing had ever been evicted; and whenever the dirty flag is false, a process that loads the
      snapshot instead answers the same. */
  lemma CacheRefinesIdeal(file: Option<Cache>, start: real, es: seq<Event>, key: Key, t: real, later: real)
    requires CanRun(Boot(file, start), es)
    requires Run(Boot(file, start), es).clock <= t <= later
    ensures var s := Run(Boot(file, start), es);
            && Lookup(s.store.cache, key, t) == Lookup(s.ideal, key, t)
            && (!s.store.dirty
                ==> Lookup(LoadStep(s.store.file, t).cache, key, later) == Lookup(s.ideal, key, later))
  {
    LiveSameView(FileContents(file), start, start);
    RunRefines(Boot(file, start), es);
    var s := Run(Boot(file, start), es);
    LiveSameView(FileContents(s.store.file), t, later);
    assert SameAt(s.store.cache, s.ideal, key, t);
    if !s.store.dirty {
      assert SameAt(FileContents(s.store.file), s.ideal, key, later);
      assert SameAt(LoadStep(s.store.file, t).cache, FileContents(s.store.file), key, later);
    }
  }

  /** A flush that succeeds persists everything: over any run, a process restarted at any later time answers
      every lookup as the ideal map did before. */
  lemma FlushPersists(
    file: Option<Cache>, start: real, es: seq<Event>, now: real, later: real, key: Key, t: real)
    requires CanRun(Boot(file, start), es) && Run(Boot(file, start), es).clock <= now <= later <= t
    ensures var s := Apply(Run(Boot(file, start), es), Flush(now, Written));
            Lookup(Apply(s, Restart(later)).store.cache, key, t) == Lookup(s.ideal, key, t)
  {
    hide SameView;
    var s0 := Run(Boot(file, start), es);
    BootRefines(file, start);
    RunRefines(Boot(file, start), es);
    StepRefines(s0, Flush(now, Written));
    PersistedAnswers(Apply(s0, Flush(now, Written)), later, key, t);
  }

  /** So does a cleaning that finds something expired and whose save succeeds. */
  lemma CleanPersists(
    file: Option<Cache>, start: real, es: seq<Event>, now: real, saveTime: real, later: real, key: Key, t: real,
    expired: Key)
    requires CanRun(Boot(file, start), es) && Run(Boot(file, start), es).handler.Idle?
    requires Run(Boot(file, start), es).clock <= now <= saveTime <= later <= t
    requires Expired(Run(Boot(file, start), es).store.cache, expired, now)
    ensures var s := Apply(Run(Boot(file, start), es), Clean(now, saveTime, Written));
            Lookup(Apply(s, Restart(later)).store.cache, key, t) == Lookup(s.ideal, key, t)
  {
    hide SameView;
    var s0 := Run(Boot(file, start), es);
    BootRefines(file, start);
    RunRefines(Boot(file, start), es);
    StepRefines(s0, Clean(now, saveTime, Written));
    assert expired !in Live(s0.store.cache, now);
    PersistedAnswers(Apply(s0, Clean(now, saveTime, Written)), later, key, t);
  }

  /** A process that has only loaded its snapshot writes nothing. */
  lemma LoadedIsClean(s: System, now: real, flush: real, w: Write)
    requires s.clock <= now <= flush
    ensures var s' := Apply(s, Restart(now));
            Apply(s', Flush(flush, w)).store == s'.store && s'.store.file == s.store.file && !s'.store.dirty
  {
  }

  lemma BootRefines(file: Option<Cache>, start: real)
    ensures Refines(Boot(file, start))
  {
    LiveSameView(FileContents(file), start, start);
  }

  lemma PersistedAnswers(s: System, later: real, key: Key, t: real)
    requires Refines(s) && !s.store.dirty && s.clock <= later <= t
    ensures Lookup(Apply(s, Restart(later)).store.cache, key, t) == Lookup(s.ideal, key, t)
  {
    assert SameAt(FileContents(s.store.file), s.ideal, key, t);
  }

  predicate Expired(c: Cache, key: Key, t: real) {
    key in c && c[key].expiry.Some? && c[key].expiry.value <= t
  }

  /** A lookup, of a push, a claim or any other, forgets its key when that has expired, which is a change to
      be flushed, and changes nothing else. */
  lemma LookupForgets(s: System, e: Event)
    requires Enabled(s, e) && (e.PushLookup? || e.ClaimLookup? || e.Probe?)
    ensures var was, now := s.store, Apply(s, e).store;
            if Expired(was.cache, e.key, e.now)
            then now == Store(map k | k in was.cache && k != e.key :: was.cache[k], true, was.file)
            else now == was
  {
  }

  /** The file is written by nothing but a flush of a cache that has changed and a cleaning that finds
      something expired; a cleaning that does not changes nothing at all. */
  lemma WrittenOnlyWhenDue(s: System, e: Event)
    requires Enabled(s, e)
    ensures Apply(s, e).store.file != s.store.file
            ==> (e.Flush? && s.store.dirty) || (e.Clean? && exists k :: Expired(s.store.cache, k, e.now))
    ensures e.Clean? && (forall k :: !Expired(s.store.cache, k, e.now)) ==> Apply(s, e).store == s.store
    ensures e.Flush? && !s.store.dirty ==> Apply(s, e).store == s.store
  {
    if e.Clean? && Live(s.store.cache, e.now) != s.store.cache {
      var k :| k in s.store.cache && k !in Live(s.store.cache, e.now);
      assert Expired(s.store.cache, k, e.now);
    }
  }

  /** After a cleaning, and after a flush of a cache that has changed, memory holds no entry that had
      expired by then. */
  lemma ExpiredLeaveMemory(s: System, e: Event, key: Key)
    requires Enabled(s, e) && (e.Clean? || (e.Flush? && s.store.dirty))
    requires key in Apply(s, e).store.cache
    ensures var entry := Apply(s, e).store.cache[key]; entry.expiry.None? || entry.expiry.value > e.now
  {
    if e.Clean? && Live(s.store.cache, e.now) == s.store.cache {
      assert key in Live(s.store.cache, e.now);
    }
  }

  /** A granted claim is seen for 60 seconds, and other keys are seen as before. */
  lemma ClaimLastsAMinute(s: System, key: Key, getTime: real, setTime: real, other: Key, t: real)
    requires s.handler.Idle? && s.clock <= getTime <= setTime <= t
    requires Lookup(s.store.cache, key, getTime) == Some(0)
    ensures var es := [ClaimLookup(key, getTime)] + [Update(setTime)];
            && CanRun(s, es)
            && var cache := Run(s, es).store.cache;
               && Lookup(cache, key, t) == (if t < setTime + 60.0 then Some(1) else None)
               && (other != key ==> Lookup(cache, other, t) == Lookup(s.store.cache, other, t))
  {
    hide Run, CanRun;
    ClaimIsItsEvents(s, key, getTime, setTime);
  }

  /** A push is granted where the key has no live entry or a PENDING one, and is seen for 60 seconds. */
  lemma PushLastsAMinute(s: System, key: Key, getTime: real, setTime: real, other: Key, t: real)
    requires s.handler.Idle? && s.clock <= getTime <= setTime <= t
    requires Lookup(s.store.cache, key, getTime) == None || Lookup(s.store.cache, key, getTime) == Some(0)
    ensures var es := [PushLookup(key, getTime)] + [Update(setTime)];
            && CanRun(s, es)
            && var cache := Run(s, es).store.cache;
               && Lookup(cache, key, t) == (if t < setTime + 60.0 then Some(0) else None)
               && (other != key ==> Lookup(cache, other, t) == Lookup(s.store.cache, other, t))
  {
    hide Run, CanRun;
    PushIsItsEvents(s, key, getTime, setTime);
  }

  /** The whole way of a hash: pushed to a node without a snapshot, it can be claimed at once. */
  lemma PushAndClaim(key: Key, start: real, at: real)
    requires start <= at
    ensures var es := [PushLookup(key, at), Update(at), ClaimLookup(key, at), Update(at)];
            CanRun(Boot(None, start), es) && Run(Boot(None, start), es).log == [Push(key, at, at), Claim(key, at, at)]
  {
    hide Lookup, GetStep, SetStep, Run, CanRun, Live;
    var s := Boot(None, start);
    NewIsEmpty(key, start, at);
    var push, claim := [PushLookup(key, at)] + [Update(at)], [ClaimLookup(key, at)] + [Update(at)];
    PushIsItsEvents(s, key, at, at);
    PushLastsAMinute(s, key, at, at, key, at);
    TwoEvents(s, PushLookup(key, at), at);
    assert push == [PushLookup(key, at), Update(at)];
    ClaimIsItsEvents(Run(s, push), key, at, at);
    RunJoin(s, push, claim);
    assert push + claim == [PushLookup(key, at), Update(at), ClaimLookup(key, at), Update(at)];
  }

  lemma NewIsEmpty(key: Key, start: real, at: real)
    ensures Lookup(Boot(None, start).store.cache, key, at) == None
  {
  }

  // ---- claims are spaced ----

  /** The index of the last record of a key, or -1. */
  function LastIndex(log: seq<Record>, key: Key): (i: int)
    ensures -1 <= i < |log|
    ensures i >= 0 ==> log[i].key == key
    ensures forall j :: i < j < |log| ==> log[j].key != key
  {
    if log == [] then -1
    else if log[|log| - 1].key == key then |log| - 1
    else LastIndex(log[..|log| - 1], key)
  }

  /** The time of the last claim of a key, if no push followed it. */
  function HeldSince(log: seq<Record>, key: Key): Option<real> {
    var i := LastIndex(log, key);
    if i >= 0 && log[i].Claim? then Some(log[i].at) else None
  }

  /** The time of the last claim of a key. */
  function LastClaim(log: seq<Record>, key: Key): Option<real> {
    if log == [] then None
    else
      var r := log[|log| - 1];
      if r.Claim? && r.key == key then Some(r.at) else LastClaim(log[..|log| - 1], key)
  }

  /** The cache holds an entry for the key, other than a PENDING one, that lives until that time. */
  predicate Keeps(c: Cache, key: Key, until: real) {
    key in c && c[key].value != PENDING && (c[key].expiry.None? || c[key].expiry.value >= until)
  }

  /** The cache holds a PENDING entry for the key that is live at that time. */
  predicate Claimable(c: Cache, key: Key, t: real) {
    key in c && c[key].value == PENDING && LiveEntry(c[key], t)
  }

  /** Within the minute after a claim the cache keeps an entry for it, and no request works on the key. */
  ghost predicate ClaimKept(s: System, key: Key) {
    var last := LastClaim(s.log, key);
    last.Some? && s.clock < last.value + TTL
    ==> Keeps(s.ideal, key, last.value + TTL) && (s.handler.Idle? || s.handler.key != key)
  }

  /** A request in progress on the key found the last claim's minute over. */
  ghost predicate HandlerLate(s: System, key: Key) {
    !s.handler.Idle? && s.handler.key == key && LastClaim(s.log, key).Some?
    ==> s.handler.since >= LastClaim(s.log, key).value + TTL
  }

  ghost predicate LogOrdered(s: System) {
    && (forall i :: 0 <= i < |s.log| ==> s.log[i].since <= s.log[i].at <= s.clock)
    && (forall i, j :: 0 <= i < j < |s.log| ==> s.log[i].at <= s.log[j].since)
    && (!s.handler.Idle? ==> s.handler.since <= s.clock
                             && forall i :: 0 <= i < |s.log| ==> s.log[i].at <= s.handler.since)
  }

  /** Pushes and claims after a claim of the key began when that claim's minute was over. */
  ghost predicate MinuteApart(log: seq<Record>, key: Key) {
    forall i, m :: 0 <= i < m < |log| && log[i].Claim? && log[i].key == key && log[m].key == key
      ==> log[m].since >= log[i].at + TTL
  }

  /** The invariant behind the minute between two claims of a key. */
  ghost predicate Spaced(s: System, key: Key) {
    ClaimKept(s, key) && HandlerLate(s, key) && LogOrdered(s) && MinuteApart(s.log, key)
  }

  ghost predicate PushBetween(log: seq<Record>, i: nat, j: nat, m: int)
    requires i < |log| && j < |log|
  {
    i < m < j && log[m].Push? && log[m].key == log[i].key
  }

  /** A push of the key between the two claims that began when the first claim's minute was over and
      was complete when the second claim began. */
  ghost predicate PushAfterMinute(log: seq<Record>, i: nat, j: nat, m: int)
    requires i < |log| && j < |log|
  {
    PushBetween(log, i, j, m) && log[m].since >= log[i].at + 60.0 && log[m].at <= log[j].since
  }

  ghost predicate ClaimsAlternate(log: seq<Record>, key: Key) {
    forall i, j :: 0 <= i < j < |log| && log[i].Claim? && log[j].Claim? && log[i].key == log[j].key == key
      ==> exists m :: PushBetween(log, i, j, m)
  }

  /** The invariant behind the push between two claims: a key that was claimed and not pushed since cannot
      be claimed, nor is it being claimed. */
  ghost predicate Alternating(s: System, key: Key) {
    && (HeldSince(s.log, key).Some? ==> !Claimable(s.ideal, key, s.clock))
    && (s.handler.Claiming? && s.handler.key == key ==> HeldSince(s.log, key).None?)
    && ClaimsAlternate(s.log, key)
  }

  // What a restart must find in the file.

  /** Within the minute after a claim of the key, the file keeps an entry for it. */
  predicate RestartKeeps(s: System, key: Key, now: real) {
    var last := LastClaim(s.log, key);
    last.Some? && now < last.value + TTL ==> Keeps(FileContents(s.store.file), key, last.value + TTL)
  }

  /** The file has no claimable entry for a key that was claimed and not pushed since. */
  predicate RestartOffersNothing(s: System, key: Key, now: real) {
    HeldSince(s.log, key).Some? ==> !Claimable(FileContents(s.store.file), key, now)
  }

  predicate RestartsKeep(s: System, es: seq<Event>, key: Key)
    requires CanRun(s, es)
    decreases es
  {
    es == []
    || ((es[0].Restart? ==> RestartKeeps(s, key, es[0].now)) && RestartsKeep(Apply(s, es[0]), es[1..], key))
  }

  predicate RestartsOfferNothing(s: System, es: seq<Event>, key: Key)
    requires CanRun(s, es)
    decreases es
  {
    es == []
    || ((es[0].Restart? ==> RestartOffersNothing(s, key, es[0].now))
        && RestartsOfferNothing(Apply(s, es[0]), es[1..], key))
  }

  lemma LastAppend(log: seq<Record>, r: Record, key: Key)
    ensures HeldSince(log + [r], key)
            == if r.key != key then HeldSince(log, key) else if r.Claim? then Some(r.at) else None
    ensures LastClaim(log + [r], key) == if r.key == key && r.Claim? then Some(r.at) else LastClaim(log, key)
  {
    assert (log + [r])[..|log|] == log;
  }

  /** The last claim is in the log, and no claim of the key is later. */
  lemma {:induction false} LastClaimAt(log: seq<Record>, key: Key) returns (i: int)
    ensures -1 <= i < |log|
    ensures LastClaim(log, key).Some? ==> 0 <= i && log[i].Claim? && log[i].key == key
                                          && log[i].at == LastClaim(log, key).value
    ensures LastClaim(log, key).None? ==> i == -1
    ensures forall k :: i < k < |log| && log[k].Claim? ==> log[k].key != key
  {
    if log == [] {
      i := -1;
    } else if log[|log| - 1].Claim? && log[|log| - 1].key == key {
      i := |log| - 1;
    } else {
      i := LastClaimAt(log[..|log| - 1], key);
      assert forall k :: 0 <= k < |log| - 1 ==> log[..|log| - 1][k] == log[k];
    }
  }

  lemma KeepsLooksTruthy(c: Cache, key: Key, until: real, t: real)
    requires Keeps(c, key, until) && t < until
    ensures Truthy(Lookup(c, key, t)) && Lookup(c, key, t) != Some(PENDING)
  {
  }

  lemma ClaimableLooks(c: Cache, key: Key, t: real)
    ensures Lookup(c, key, t) == Some(PENDING) <==> Claimable(c, key, t)
  {
  }

  lemma SameNow(s: System, key: Key, now: real)
    requires Refines(s) && s.clock <= now
    ensures Lookup(s.store.cache, key, now) == Lookup(s.ideal, key, now)
  {
    assert SameAt(s.store.cache, s.ideal, key, now);
  }

  /** Steps other than an update complete nothing. */
  lemma QuietStepSpaced(s: System, e: Event, key: Key)
    requires Enabled(s, e) && Spaced(s, key) && Refines(s) && !e.Update?
    requires e.Restart? ==> RestartKeeps(s, key, e.now)
    ensures Spaced(Apply(s, e), key)
  {
    hide SameView, Live, MinuteApart, LastClaim, Keeps, Lookup, Refines;
    var s' := Apply(s, e);
    var last := LastClaim(s.log, key);
    if e.PushLookup? || e.ClaimLookup? {
      SameNow(s, e.key, e.now);
      if e.key == key && last.Some? && e.now < last.value + TTL {
        KeepsLooksTruthy(s.ideal, key, last.value + TTL, e.now);
      }
    }
  }

  lemma QuietStepAlternating(s: System, e: Event, key: Key)
    requires Enabled(s, e) && Alternating(s, key) && Refines(s) && !e.Update?
    requires e.Restart? ==> RestartOffersNothing(s, key, e.now)
    ensures Alternating(Apply(s, e), key)
  {
    hide SameView, Live, ClaimsAlternate, HeldSince, Lookup, Refines;
    var s' := Apply(s, e);
    assert Claimable(s'.ideal, key, s'.clock) && s'.ideal == s.ideal ==> Claimable(s.ideal, key, s.clock);
    if e.PushLookup? || e.ClaimLookup? {
      SameNow(s, e.key, e.now);
      ClaimableLooks(s.ideal, e.key, e.now);
    }
  }

  lemma UpdateSpaced(s: System, now: real, key: Key)
    requires Enabled(s, Update(now)) && Spaced(s, key)
    ensures Spaced(Apply(s, Update(now)), key)
  {
    hide LastClaim, LogOrdered, MinuteApart;
    var s' := Apply(s, Update(now));
    var r := s'.log[|s.log|];
    LastAppend(s.log, r, key);
    OrderedAppend(s, s', r);
    MinuteAppend(s, r, key);
  }

  lemma OrderedAppend(s: System, s': System, r: Record)
    requires LogOrdered(s) && !s.handler.Idle? && s'.handler.Idle? && s.clock <= s'.clock
    requires s'.log == s.log + [r] && r.since == s.handler.since && r.at == s'.clock
    ensures LogOrdered(s')
  {
  }

  lemma MinuteAppend(s: System, r: Record, key: Key)
    requires LogOrdered(s) && MinuteApart(s.log, key)
    requires r.key == key && LastClaim(s.log, key).Some? ==> r.since >= LastClaim(s.log, key).value + TTL
    ensures MinuteApart(s.log + [r], key)
  {
    hide LastClaim;
    if r.key == key {
      var last := LastClaimAt(s.log, key);
      forall i | 0 <= i < |s.log| && s.log[i].Claim? && s.log[i].key == key
        ensures r.since >= s.log[i].at + TTL
      {
        assert i <= last;
        if i < last {
          assert s.log[last].since >= s.log[i].at + TTL;
        }
      }
    }
  }

  lemma UpdateAlternating(s: System, now: real, key: Key)
    requires Enabled(s, Update(now)) && Alternating(s, key)
    ensures Alternating(Apply(s, Update(now)), key)
  {
    hide LastIndex;
    var s' := Apply(s, Update(now));
    var r := s'.log[|s.log|];
    LastAppend(s.log, r, key);
    if r.Claim? && r.key == key {
      ClaimAppended(s.log, r);
    } else {
      OtherAppended(s.log, r, key);
    }
  }

  lemma OtherAppended(log: seq<Record>, r: Record, key: Key)
    requires ClaimsAlternate(log, key) && !(r.Claim? && r.key == key)
    ensures ClaimsAlternate(log + [r], key)
  {
    var log' := log + [r];
    forall i, j | 0 <= i < j < |log'| && log'[i].Claim? && log'[j].Claim? && log'[i].key == log'[j].key == key
      ensures exists m :: PushBetween(log', i, j, m)
    {
      assert j < |log|;
      var m :| PushBetween(log, i, j, m);
      assert PushBetween(log', i, j, m);
    }
  }

  lemma ClaimAppended(log: seq<Record>, r: Record)
    requires ClaimsAlternate(log, r.key) && r.Claim? && HeldSince(log, r.key).None?
    ensures ClaimsAlternate(log + [r], r.key)
  {
    var log' := log + [r];
    forall i, j | 0 <= i < j < |log'| && log'[i].Claim? && log'[j].Claim? && log'[i].key == log'[j].key == r.key
      ensures exists m :: PushBetween(log', i, j, m)
    {
      if j < |log| {
        var m :| PushBetween(log, i, j, m);
        assert PushBetween(log', i, j, m);
      } else {
        var m := LastIndex(log, r.key);
        assert i <= m;
        assert PushBetween(log', i, j, m);
      }
    }
  }

  lemma {:induction false} RunSpaced(s: System, es: seq<Event>, key: Key)
    requires CanRun(s, es) && Spaced(s, key) && Refines(s) && RestartsKeep(s, es, key)
    ensures Spaced(Run(s, es), key)
    decreases es
  {
    hide Spaced, Refines, RestartKeeps;
    if es != [] {
      StepRefines(s, es[0]);
      if es[0].Update? {
        UpdateSpaced(s, es[0].now, key);
      } else {
        QuietStepSpaced(s, es[0], key);
      }
      RunSpaced(Apply(s, es[0]), es[1..], key);
    }
  }

  lemma {:induction false} RunAlternating(s: System, es: seq<Event>, key: Key)
    requires CanRun(s, es) && Alternating(s, key) && Refines(s) && RestartsOfferNothing(s, es, key)
    ensures Alternating(Run(s, es), key)
    decreases es
  {
    hide Alternating, Refines, RestartOffersNothing;
    if es != [] {
      StepRefines(s, es[0]);
      if es[0].Update? {
        UpdateAlternating(s, es[0].now, key);
      } else {
        QuietStepAlternating(s, es[0], key);
      }
      RunAlternating(Apply(s, es[0]), es[1..], key);
    }
  }

  lemma BootInvariants(file: Option<Cache>, start: real, key: Key)
    ensures var s := Boot(file, start); Refines(s) && Spaced(s, key) && Alternating(s, key)
  {
    LiveSameView(FileContents(file), start, start);
  }

  /** Over every run whose restarts keep the claims of a key, two successful claims of the key are at
      least a minute apart; and if no restart offers a claimed key again, between them lies a push that
      began when the first claim's minute was over and ended before the second claim began. */
  lemma ClaimSpacing(file: Option<Cache>, start: real, es: seq<Event>, i: nat, j: nat)
    requires CanRun(Boot(file, start), es)
    requires var log := Run(Boot(file, start), es).log;
             && i < j < |log| && log[i].Claim? && log[j].Claim? && log[i].key == log[j].key
             && RestartsKeep(Boot(file, start), es, log[i].key)
    ensures var log := Run(Boot(file, start), es).log;
            && log[j].since >= log[i].at + 60.0
            && (RestartsOfferNothing(Boot(file, start), es, log[i].key)
                ==> exists m: nat :: PushAfterMinute(log, i, j, m))
  {
    var s := Boot(file, start);
    var log := Run(s, es).log;
    var key := log[i].key;
    BootInvariants(file, start, key);
    RunSpaced(s, es, key);
    assert MinuteApart(log, key) && LogOrdered(Run(s, es));
    if RestartsOfferNothing(s, es, key) {
      RunAlternating(s, es, key);
      assert ClaimsAlternate(log, key);
      var m :| PushBetween(log, i, j, m);
      assert PushAfterMinute(log, i, j, m);
    }
  }

  // ---- restarts ----

  /** Two caches with the same view keep the same entries. */
  lemma KeepsView(a: Cache, b: Cache, clock: real, key: Key, until: real)
    requires SameView(a, b, clock) && Keeps(b, key, until) && clock < until
    ensures Keeps(a, key, until)
  {
    assert SameAt(a, b, key, clock);
    var e := a[key].expiry;
    assert SameAt(a, b, key, if e.Some? && e.value >= clock then e.value else clock);
  }

  /** A restart from a file that is not behind forgets no claim. */
  lemma CleanRestartKeeps(s: System, key: Key, now: real)
    requires Refines(s) && Spaced(s, key) && Alternating(s, key) && !s.store.dirty && s.clock <= now
    ensures RestartKeeps(s, key, now) && RestartOffersNothing(s, key, now)
  {
    hide LastClaim, HeldSince, LogOrdered, MinuteApart, ClaimsAlternate;
    var contents, last := FileContents(s.store.file), LastClaim(s.log, key);
    if last.Some? && now < last.value + TTL {
      KeepsView(contents, s.ideal, s.clock, key, last.value + TTL);
    }
    if Claimable(contents, key, now) {
      assert SameAt(contents, s.ideal, key, now);
    }
  }

  predicate RestartsClean(s: System, es: seq<Event>)
    requires CanRun(s, es)
    decreases es
  {
    es == [] || ((es[0].Restart? ==> !s.store.dirty) && RestartsClean(Apply(s, es[0]), es[1..]))
  }

  /** So spacing needs no more than that restarts find the dirty flag cleared. */
  lemma {:induction false} CleanRunKeeps(s: System, es: seq<Event>, key: Key)
    requires CanRun(s, es) && RestartsClean(s, es)
    requires Refines(s) && Spaced(s, key) && Alternating(s, key)
    ensures RestartsKeep(s, es, key) && RestartsOfferNothing(s, es, key)
    decreases es
  {
    hide Refines, Spaced, Alternating, RestartKeeps, RestartOffersNothing;
    if es != [] {
      var e := es[0];
      if e.Restart? {
        CleanRestartKeeps(s, key, e.now);
      }
      StepRefines(s, e);
      if e.Update? {
        UpdateSpaced(s, e.now, key);
        UpdateAlternating(s, e.now, key);
      } else {
        QuietStepSpaced(s, e, key);
        QuietStepAlternating(s, e, key);
      }
      CleanRunKeeps(Apply(s, e), es[1..], key);
    }
  }

  /** What a restarted process answers is what the file holds: a key can be claimed at once exactly when
      the file maps it to a live PENDING entry, and pushed exactly when it maps it to no live entry but a
      PENDING one. */
  lemma RestartAnswers(s: System, key: Key, now: real, t: real)
    requires now <= t
    ensures var cache, contents := LoadStep(s.store.file, now).cache, FileContents(s.store.file);
            && (Lookup(cache, key, t) == Some(PENDING) <==> Claimable(contents, key, t))
            && (Truthy(Lookup(cache, key, t)) <==> Truthy(Lookup(contents, key, t)))
  {
  }

  predicate NoRestart(es: seq<Event>) {
    forall i :: 0 <= i < |es| ==> !es[i].Restart?
  }

  /** A second claim of the key, within the minute of its claim at time `at`, that the process restarted
      at `now` comes to grant in some run without a further restart. */
  ghost predicate GrantsAgain(s: System, key: Key, now: real, at: real, es: seq<Event>)
    requires s.clock <= now
  {
    var s0 := Apply(s, Restart(now));
    && CanRun(s0, es) && NoRestart(es)
    && exists j :: |s.log| <= j < |Run(s0, es).log| && EarlyClaim(Run(s0, es).log[j], key, at)
  }

  ghost predicate EarlyClaim(r: Record, key: Key, at: real) {
    r.Claim? && r.key == key && r.since < at + 60.0
  }

  /** Wherever a run of keeping restarts leads: one more restart makes the last claim of a key be followed
      by another within its minute, in some continuation, exactly when it comes within that minute and
      the file does not keep an entry for the key. */
  lemma RestartForgetsIff(file: Option<Cache>, start: real, es: seq<Event>, key: Key, now: real, at: real)
    requires CanRun(Boot(file, start), es) && RestartsKeep(Boot(file, start), es, key)
    requires var s := Run(Boot(file, start), es); LastClaim(s.log, key) == Some(at) && s.clock <= now
    ensures var s := Run(Boot(file, start), es);
            (exists more :: GrantsAgain(s, key, now, at, more))
            <==> now < at + 60.0 && !Keeps(FileContents(s.store.file), key, at + 60.0)
  {
    hide Refines, Spaced, LastClaim, Keeps;
    BootInvariants(file, start, key);
    RunRefines(Boot(file, start), es);
    RunSpaced(Boot(file, start), es, key);
    var s := Run(Boot(file, start), es);
    if now < at + TTL && !Keeps(FileContents(s.store.file), key, at + TTL) {
      ForgottenIsGranted(s, key, now, at);
    } else {
      forall more | CanRun(Apply(s, Restart(now)), more) && NoRestart(more)
        ensures !GrantsAgain(s, key, now, at, more)
      {
        KeptIsNotGranted(s, key, now, at, more);
      }
    }
  }

  lemma KeptIsNotGranted(s: System, key: Key, now: real, at: real, es: seq<Event>)
    requires Refines(s) && Spaced(s, key) && LastClaim(s.log, key) == Some(at) && s.clock <= now
    requires now >= at + TTL || Keeps(FileContents(s.store.file), key, at + TTL)
    requires CanRun(Apply(s, Restart(now)), es) && NoRestart(es)
    ensures !GrantsAgain(s, key, now, at, es)
  {
    hide Refines, Keeps, LastClaim, Run, CanRun, ClaimKept, HandlerLate, LogOrdered, RestartsKeep;
    var s0 := Apply(s, Restart(now));
    StepRefines(s, Restart(now));
    QuietStepSpaced(s, Restart(now), key);
    NoRestartKeeps(s0, es, key);
    RunSpaced(s0, es, key);
    LogGrows(s0, es);
    var i := LastClaimAt(s.log, key);
    var log := Run(s0, es).log;
    assert s0.log == s.log && log[..|s.log|] == s.log;
    assert log[i] == s.log[i];
    forall j | |s.log| <= j < |log|
      ensures !EarlyClaim(log[j], key, at)
    {
      assert MinuteApart(log, key);
    }
  }

  lemma {:induction false} NoRestartKeeps(s: System, es: seq<Event>, key: Key)
    requires CanRun(s, es) && NoRestart(es)
    ensures RestartsKeep(s, es, key)
    decreases es
  {
    if es != [] {
      NoRestartKeeps(Apply(s, es[0]), es[1..], key);
    }
  }

  lemma {:induction false} LogGrows(s: System, es: seq<Event>)
    requires CanRun(s, es)
    ensures s.log <= Run(s, es).log
    decreases es
  {
    if es != [] {
      LogGrows(Apply(s, es[0]), es[1..]);
    }
  }

  lemma {:induction false} RunJoin(s: System, es: seq<Event>, fs: seq<Event>)
    requires CanRun(s, es) && CanRun(Run(s, es), fs)
    ensures CanRun(s, es + fs) && Run(s, es + fs) == Run(Run(s, es), fs)
    decreases es
  {
    hide Apply, Enabled;
    if es == [] {
      assert es + fs == fs;
    } else {
      RunJoin(Apply(s, es[0]), es[1..], fs);
      assert (es + fs)[0] == es[0] && (es + fs)[1..] == es[1..] + fs;
    }
  }

  /** A time within the minute at which the file holds no entry but a PENDING one. */
  lemma ForgottenAt(c: Cache, key: Key, now: real, until: real) returns (t: real)
    requires now < until && !Keeps(c, key, until)
    ensures now <= t < until && !Truthy(Lookup(c, key, t))
  {
    t := now;
    if key in c && c[key].value != PENDING && c[key].expiry.value > now {
      t := c[key].expiry.value;
    }
  }

  lemma ForgottenIsGranted(s: System, key: Key, now: real, at: real)
    requires s.clock <= now < at + TTL && !Keeps(FileContents(s.store.file), key, at + TTL)
    ensures exists es :: GrantsAgain(s, key, now, at, es)
  {
    hide Keeps, Lookup, Run, CanRun, GetStep, SetStep;
    var s0 := Apply(s, Restart(now));
    var t := ForgottenAt(FileContents(s.store.file), key, now, at + TTL);
    RestartAnswers(s, key, now, t);
    var claim := [ClaimLookup(key, t), Update(t)];
    if Lookup(s0.store.cache, key, t) == Some(PENDING) {
      ClaimIsItsEvents(s0, key, t, t);
      assert [ClaimLookup(key, t)] + [Update(t)] == claim;
      GrantedBy(s, key, now, at, claim, t);
    } else {
      var push := [PushLookup(key, t), Update(t)];
      PushIsItsEvents(s0, key, t, t);
      assert [PushLookup(key, t)] + [Update(t)] == push;
      var s1 := Run(s0, push);
      JustPushed(GetStep(s0.store, key, t), key, t);
      PushedClock(s0, key, t);
      ClaimIsItsEvents(s1, key, t, t);
      assert [ClaimLookup(key, t)] + [Update(t)] == claim;
      RunJoin(s0, push, claim);
      GrantedBy(s, key, now, at, push + claim, t);
    }
  }

  lemma JustPushed(s: Store, key: Key, t: real)
    ensures Lookup(SetStep(s, key, PENDING, Some(TTL), t).cache, key, t) == Some(PENDING)
  {
  }

  lemma PushedClock(s: System, key: Key, t: real)
    requires s.handler.Idle? && s.clock <= t && !Truthy(Lookup(s.store.cache, key, t))
    ensures CanRun(s, [PushLookup(key, t), Update(t)]) && Run(s, [PushLookup(key, t), Update(t)]).clock == t
  {
    hide Lookup, GetStep, SetStep;
    TwoEvents(s, PushLookup(key, t), t);
  }

  lemma GrantedBy(s: System, key: Key, now: real, at: real, es: seq<Event>, t: real)
    requires s.clock <= now && t < at + TTL
    requires var s0 := Apply(s, Restart(now));
             && CanRun(s0, es) && NoRestart(es)
             && var log := Run(s0, es).log;
                |log| > |s.log| && log[|log| - 1] == Claim(key, t, t)
    ensures exists es :: GrantsAgain(s, key, now, at, es)
  {
    hide Run, CanRun, Apply;
    var log := Run(Apply(s, Restart(now)), es).log;
    assert EarlyClaim(log[|log| - 1], key, at);
    assert GrantsAgain(s, key, now, at, es);
  }

  /** A claim of the key, with no push of it since the restart at `now`, that the restarted process comes to
      grant in some run without a further restart. */
  ghost predicate GrantsUnpushed(s: System, key: Key, now: real, es: seq<Event>)
    requires s.clock <= now
  {
    var s0 := Apply(s, Restart(now));
    && CanRun(s0, es) && NoRestart(es)
    && exists j :: |s.log| <= j < |Run(s0, es).log| && UnpushedClaim(Run(s0, es).log, |s.log|, j, key)
  }

  ghost predicate UnpushedClaim(log: seq<Record>, from: nat, j: nat, key: Key)
    requires j < |log|
  {
    && log[j].Claim? && log[j].key == key
    && forall m :: from <= m < j ==> !(log[m].Push? && log[m].key == key)
  }

  /** Wherever a run whose restarts offer nothing leads, with the key claimed and not pushed since: a
      restart lets it be claimed again without a push exactly when the file maps it to a PENDING entry
      that is live at the restart. */
  lemma RestartOffersIff(file: Option<Cache>, start: real, es: seq<Event>, key: Key, now: real)
    requires CanRun(Boot(file, start), es) && RestartsOfferNothing(Boot(file, start), es, key)
    requires var s := Run(Boot(file, start), es); HeldSince(s.log, key).Some? && s.clock <= now
    ensures var s := Run(Boot(file, start), es);
            (exists more :: GrantsUnpushed(s, key, now, more)) <==> Claimable(FileContents(s.store.file), key, now)
  {
    hide Refines, Alternating, HeldSince, Claimable;
    BootInvariants(file, start, key);
    RunRefines(Boot(file, start), es);
    RunAlternating(Boot(file, start), es, key);
    var s := Run(Boot(file, start), es);
    if Claimable(FileContents(s.store.file), key, now) {
      OfferedIsGranted(s, key, now);
    } else {
      forall more | CanRun(Apply(s, Restart(now)), more) && NoRestart(more)
        ensures !GrantsUnpushed(s, key, now, more)
      {
        NotOfferedIsNotGranted(s, key, now, more);
      }
    }
  }

  lemma OfferedIsGranted(s: System, key: Key, now: real)
    requires s.clock <= now && Claimable(FileContents(s.store.file), key, now)
    ensures exists es :: GrantsUnpushed(s, key, now, es)
  {
    hide Run, CanRun, GetStep, SetStep, Lookup, Claimable;
    var s0 := Apply(s, Restart(now));
    RestartAnswers(s, key, now, now);
    ClaimIsItsEvents(s0, key, now, now);
    var es := [ClaimLookup(key, now)] + [Update(now)];
    assert UnpushedClaim(Run(s0, es).log, |s.log|, |s.log|, key);
    assert GrantsUnpushed(s, key, now, es);
  }

  lemma NotOfferedIsNotGranted(s: System, key: Key, now: real, es: seq<Event>)
    requires Refines(s) && Alternating(s, key) && HeldSince(s.log, key).Some? && s.clock <= now
    requires !Claimable(FileContents(s.store.file), key, now)
    requires CanRun(Apply(s, Restart(now)), es) && NoRestart(es)
    ensures !GrantsUnpushed(s, key, now, es)
  {
    hide Refines, Run, CanRun, RestartsOfferNothing, Claimable;
    var s0 := Apply(s, Restart(now));
    StepRefines(s, Restart(now));
    QuietStepAlternating(s, Restart(now), key);
    NoRestartOffers(s0, es, key);
    RunAlternating(s0, es, key);
    LogGrows(s0, es);
    var log, i := Run(s0, es).log, LastIndex(s.log, key);
    assert log[..|s.log|] == s.log;
    assert forall k :: 0 <= k < |s.log| ==> log[k] == s.log[k];
    forall j | |s.log| <= j < |log|
      ensures !UnpushedClaim(log, |s.log|, j, key)
    {
      if log[j].Claim? && log[j].key == key {
        var m :| PushBetween(log, i, j, m);
        assert m >= |s.log|;
      }
    }
  }

  lemma {:induction false} NoRestartOffers(s: System, es: seq<Event>, key: Key)
    requires CanRun(s, es) && NoRestart(es)
    ensures RestartsOfferNothing(s, es, key)
    decreases es
  {
    if es != [] {
      NoRestartOffers(Apply(s, es[0]), es[1..], key);
    }
  }

  /** A small such history: nothing is flushed before the restart, and the key is claimed at seconds 1
      and 2. */
  lemma StaleRestartForgetsClaim(key: Key)
    ensures var s := Boot(Some(map[key := Entry(PENDING, Some(60.0))]), 0.0);
            exists es :: CanRun(s, es) && Run(s, es).log == [Claim(key, 1.0, 1.0), Claim(key, 2.0, 2.0)]
  {
    hide Lookup, GetStep, SetStep, Live, Run, CanRun;
    var snapshot := map[key := Entry(PENDING, Some(60.0))];
    var s := Boot(Some(snapshot), 0.0);
    var first, rest := [ClaimLookup(key, 1.0)] + [Update(1.0)], [ClaimLookup(key, 2.0)] + [Update(2.0)];
    PendingSnapshot(key, 0.0, 1.0);
    ClaimIsItsEvents(s, key, 1.0, 1.0);
    var s1 := Run(s, first);
    FileKept(s, key, 1.0);
    TwoEvents(s1, Restart(2.0), 2.0);
    var s2 := Apply(s1, Restart(2.0));
    PendingSnapshot(key, 2.0, 2.0);
    ClaimIsItsEvents(s2, key, 2.0, 2.0);
    RunJoin(s1, [Restart(2.0)], rest);
    RunJoin(s, first, [Restart(2.0)] + rest);
    assert Run(s, first + ([Restart(2.0)] + rest)).log == [Claim(key, 1.0, 1.0), Claim(key, 2.0, 2.0)];
  }

  lemma PendingSnapshot(key: Key, now: real, t: real)
    requires now <= t < 60.0
    ensures var snapshot := map[key := Entry(PENDING, Some(60.0))];
            Lookup(LoadStep(Some(snapshot), now).cache, key, t) == Some(PENDING)
  {
  }

  /** A granted claim writes nothing to the file. */
  lemma FileKept(s: System, key: Key, t: real)
    requires s.handler.Idle? && s.clock <= t && Lookup(s.store.cache, key, t) == Some(PENDING)
    ensures var es := [ClaimLookup(key, t)] + [Update(t)];
            CanRun(s, es) && Run(s, es).store.file == s.store.file && Run(s, es).clock == t
  {
    hide Lookup;
    TwoEvents(s, ClaimLookup(key, t), t);
    assert [ClaimLookup(key, t)] + [Update(t)] == [ClaimLookup(key, t), Update(t)];
  }
}
