/** The storage driver cache under concurrent requests and resets: lookups and inserts run under a lock,
    construction does not. */
module DriverCache {
  import opened StorageModel

  /** The fingerprint of a configuration; the digest is taken to be injective. */
  datatype Key = Key(config: Storage)

  /** A constructed client. `builtAt` records when its construction began. */
  datatype Driver = Driver(config: Storage, builtAt: nat)

  /** Where a request is. `generation` is what it read under the lock on its cache miss. */
  datatype Request =
    | Idle
    | Missed(config: Storage, generation: nat)
    | Constructing(config: Storage, generation: nat, since: nat)
    | Constructed(driver: Driver, generation: nat)
    | Served(asked: Storage, driver: Driver)

  /** `clock` counts steps and `lastReset` dates the latest reset; neither influences a step. */
  datatype State = State(cache: map<Key, Driver>, generation: nat, requests: map<nat, Request>, clock: nat,
                         lastReset: nat)

  datatype Event =
    | Ask(who: nat, storage: Storage)
    | Begin(who: nat)
    | Fail(who: nat)
    | Finish(who: nat)
    | Insert(who: nat)
    | Reset

  const INITIAL := State(map[], 0, map[], 0, 0)

  function RequestOf(s: State, who: nat): Request { if who in s.requests then s.requests[who] else Idle }

  function Put(s: State, who: nat, r: Request): State { s.(requests := s.requests[who := r]) }

  /** One atomic step; an event that is not enabled changes nothing. Entries without an identifier skip the cache. */
  function Act(s: State, e: Event): State {
    match e
    case Reset => s.(generation := s.generation + 1, cache := map[], lastReset := s.clock)
    case Ask(who, storage) =>
      var r := RequestOf(s, who);
      if !r.Idle? && !r.Served? then s
      else if storage.id == NoId then Put(s, who, Served(storage, Driver(storage, s.clock)))
      else if Key(storage) in s.cache then Put(s, who, Served(storage, s.cache[Key(storage)]))
      else Put(s, who, Missed(storage, s.generation))
    case Begin(who) =>
      (match RequestOf(s, who)
       case Missed(config, generation) => Put(s, who, Constructing(config, generation, s.clock))
       case _ => s)
    case Fail(who) => if RequestOf(s, who).Constructing? then Put(s, who, Idle) else s
    case Finish(who) =>
      (match RequestOf(s, who)
       case Constructing(config, generation, since) => Put(s, who, Constructed(Driver(config, since), generation))
       case _ => s)
    case Insert(who) =>
      (match RequestOf(s, who)
       case Constructed(driver, generation) =>
         var key := Key(driver.config);
         if key in s.cache then Put(s, who, Served(driver.config, s.cache[key]))
         else if generation != s.generation then Put(s, who, Served(driver.config, driver))
         else Put(s, who, Served(driver.config, driver)).(cache := s.cache[key := driver])
       case _ => s)
  }

  function Step(s: State, e: Event): State { Act(s, e).(clock := s.clock + 1) }

  function Run(s: State, events: seq<Event>): State
    decreases |events|
  {
    if events == [] then s else Run(Step(s, events[0]), events[1..])
  }

  /** A cached driver was built from the configuration its key fingerprints, after the last reset. */
  predicate Fresh(s: State) {
    forall k :: k in s.cache ==> k == Key(s.cache[k].config) && s.lastReset <= s.cache[k].builtAt < s.clock
  }

  /** A request that read the current generation did so after the last reset. */
  predicate Timely(s: State, r: Request) {
    match r
    case Idle => true
    case Missed(_, g) => g <= s.generation
    case Constructing(_, g, since) => g <= s.generation && since < s.clock
      && (g == s.generation ==> s.lastReset <= since)
    case Constructed(d, g) => g <= s.generation && d.builtAt < s.clock
      && (g == s.generation ==> s.lastReset <= d.builtAt)
    case Served(asked, d) => d.config == asked
  }

  predicate Invariant(s: State) {
    && s.lastReset <= s.clock
    && Fresh(s)
    && forall who :: who in s.requests ==> Timely(s, s.requests[who])
  }

  lemma StepFresh(s: State, e: Event)
    requires Invariant(s)
    ensures Fresh(Step(s, e))
  {
    if e.Insert? && e.who in s.requests { assert Timely(s, s.requests[e.who]); }
  }

  lemma StepTimely(s: State, e: Event, who: nat)
    requires Invariant(s) && who in Step(s, e).requests
    ensures Timely(Step(s, e), Step(s, e).requests[who])
  {
    if who in s.requests { assert Timely(s, s.requests[who]); }
  }

  lemma StepKeepsInvariant(s: State, e: Event)
    requires Invariant(s)
    ensures Invariant(Step(s, e))
  {
    StepFresh(s, e);
    forall who | who in Step(s, e).requests
      ensures Timely(Step(s, e), Step(s, e).requests[who])
    {
      StepTimely(s, e, who);
    }
  }

  /** Over every interleaving: no driver whose construction began before the last reset is cached, every cached
      driver fits its key, and every request is served a driver of the configuration it asked for. */
  lemma {:induction false} EveryRunIsFresh(s: State, events: seq<Event>)
    requires Invariant(s)
    ensures Invariant(Run(s, events))
    decreases |events|
  {
    if events != [] {
      StepKeepsInvariant(s, events[0]);
      EveryRunIsFresh(Step(s, events[0]), events[1..]);
    }
  }

  function Resets(events: seq<Event>): nat {
    if events == [] then 0 else (if events[0].Reset? then 1 else 0) + Resets(events[1..])
  }

  lemma {:induction false} GenerationCountsResets(s: State, events: seq<Event>)
    ensures Run(s, events).generation == s.generation + Resets(events)
    decreases |events|
  {
    if events != [] {
      GenerationCountsResets(Step(s, events[0]), events[1..]);
    }
  }

  /** After a reset, whatever ran before and whatever interleaves after, a hit returns a driver begun since. */
  lemma HitAfterResetIsNew(before: seq<Event>, after: seq<Event>, who: nat, storage: Storage)
    requires storage.id != NoId
    ensures var reset := Step(Run(INITIAL, before), Reset);
      var s := Run(reset, after);
      Key(storage) in s.cache ==>
        s.cache[Key(storage)].config == storage && s.cache[Key(storage)].builtAt >= reset.lastReset
  {
    var s := Run(INITIAL, before);
    EveryRunIsFresh(INITIAL, before);
    StepKeepsInvariant(s, Reset);
    var reset := Step(s, Reset);
    EveryRunIsFresh(reset, after);
    ResetsOnlyAdvance(reset, after);
  }

  lemma {:induction false} ResetsOnlyAdvance(s: State, events: seq<Event>)
    requires s.lastReset <= s.clock
    ensures Run(s, events).lastReset >= s.lastReset
    decreases |events|
  {
    if events != [] {
      ResetsOnlyAdvance(Step(s, events[0]), events[1..]);
    }
  }

  /** Without the generation check the invariant breaks: a construction begun before a reset would be cached after
      it. */
  lemma GenerationCheckNeeded(storage: Storage)
    requires storage.id != NoId
    ensures var s := Run(INITIAL, [Ask(0, storage), Begin(0), Reset, Finish(0)]);
      && RequestOf(s, 0).Constructed?
      && !Fresh(s.(cache := s.cache[Key(storage) := RequestOf(s, 0).driver]))
      && Key(storage) !in Step(s, Insert(0)).cache
  {
    var s1 := Step(INITIAL, Ask(0, storage));
    var s2 := Step(s1, Begin(0));
    var s3 := Step(s2, Reset);
    var s4 := Step(s3, Finish(0));
    assert Run(s4, []) == s4;
    assert Run(s3, [Finish(0)]) == s4;
    assert Run(s2, [Reset, Finish(0)]) == s4 by { assert [Reset, Finish(0)][1..] == [Finish(0)]; }
    assert Run(s1, [Begin(0), Reset, Finish(0)]) == s4 by {
      assert [Begin(0), Reset, Finish(0)][1..] == [Reset, Finish(0)];
    }
    assert [Ask(0, storage), Begin(0), Reset, Finish(0)][1..] == [Begin(0), Reset, Finish(0)];
    assert s4.requests[0] == Constructed(Driver(storage, 1), 0);
    var bad := s4.(cache := s4.cache[Key(storage) := Driver(storage, 1)]);
    assert Key(storage) in bad.cache && bad.cache[Key(storage)].builtAt < bad.lastReset;
  }

  // What a step does, and that the cache is used.

  /** A step changes the request of its own caller alone; a reset changes none. */
  lemma OthersUntouched(s: State, e: Event, who: nat)
    requires e.Reset? || e.who != who
    ensures RequestOf(Step(s, e), who) == RequestOf(s, who)
  {
  }

  /** The cache grows by what an insertion of this generation adds, is emptied by a reset, and else stays. */
  lemma CacheChangesIff(s: State, e: Event, key: Key)
    ensures key in Step(s, e).cache <==>
      || (key in s.cache && !e.Reset?)
      || (e.Insert? && exists d :: RequestOf(s, e.who) == Constructed(d, s.generation) && Key(d.config) == key)
    ensures key in s.cache && key in Step(s, e).cache ==> Step(s, e).cache[key] == s.cache[key]
  {
  }

  /** Without a reset in between, a cached driver stays, so one client serves a configuration until then. */
  lemma {:induction false} CachedUntilReset(s: State, events: seq<Event>, key: Key)
    requires key in s.cache && forall e :: e in events ==> !e.Reset?
    ensures key in Run(s, events).cache && Run(s, events).cache[key] == s.cache[key]
    decreases |events|
  {
    if events != [] {
      assert events[0] in events;
      assert forall e :: e in events[1..] ==> e in events;
      CachedUntilReset(Step(s, events[0]), events[1..], key);
    }
  }

  predicate CanAsk(s: State, who: nat) { RequestOf(s, who).Idle? || RequestOf(s, who).Served? }

  /** What a request is answered: a new driver for an entry without an identifier, else the cached one, else it is a
      miss that remembers the generation. */
  lemma AskAnswers(s: State, who: nat, storage: Storage)
    requires CanAsk(s, who)
    ensures var t := Step(s, Ask(who, storage));
      && t.cache == s.cache && t.generation == s.generation
      && (storage.id == NoId ==> RequestOf(t, who) == Served(storage, Driver(storage, s.clock)))
      && (storage.id != NoId && Key(storage) in s.cache ==>
            RequestOf(t, who) == Served(storage, s.cache[Key(storage)]))
      && (storage.id != NoId && Key(storage) !in s.cache ==> RequestOf(t, who) == Missed(storage, s.generation))
  {
  }

  /** A miss that nothing interrupts is constructed, cached and served; from then on the driver is the cached one. */
  lemma MissIsCached(s: State, who: nat, storage: Storage)
    requires CanAsk(s, who) && storage.id != NoId && Key(storage) !in s.cache
    ensures var t := Step(Step(Step(Step(s, Ask(who, storage)), Begin(who)), Finish(who)), Insert(who));
      && Key(storage) in t.cache && t.cache[Key(storage)] == Driver(storage, s.clock + 1)
      && RequestOf(t, who) == Served(storage, t.cache[Key(storage)])
  {
  }

  /** When someone else cached the configuration meanwhile, their driver is served; when a reset came, the request's
      own, and the cache stays as it is. */
  lemma LateInsert(s: State, who: nat, d: Driver, generation: nat)
    requires RequestOf(s, who) == Constructed(d, generation)
    ensures var t := Step(s, Insert(who));
      && (Key(d.config) in s.cache ==> RequestOf(t, who) == Served(d.config, s.cache[Key(d.config)]))
      && (Key(d.config) !in s.cache ==> RequestOf(t, who) == Served(d.config, d))
      && (generation != s.generation ==> t.cache == s.cache)
  {
  }

  /** A construction that fails caches nothing and leaves its caller free to ask again. */
  lemma FailureReleases(s: State, who: nat)
    requires RequestOf(s, who).Constructing?
    ensures CanAsk(Step(s, Fail(who)), who) && Step(s, Fail(who)).cache == s.cache
  {
  }
}
