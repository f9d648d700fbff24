// Model of apps/server/src/lib/settings-service.ts: a cache over an asynchronous read, whose
// calls interleave at the await.
module SettingsCache {
  import opened Wrappers

  // ---------------------------------------------------------------- the merge

  // What a read of an organisation's record ends in: an error, no row, a row that fails its
  // schema, or the stored patch.
  datatype Lookup<K, V> = Failed | Missing | Corrupt | Found(patch: map<K, V>)

  function Resolved<K, V>(defaults: map<K, V>, lookup: Lookup<K, V>): (settings: map<K, V>)
    ensures defaults.Keys <= settings.Keys
    ensures forall k :: k in settings ==>
      if lookup.Found? && k in lookup.patch then settings[k] == lookup.patch[k]
      else k in defaults && settings[k] == defaults[k]
  {
    match lookup
    case Found(patch) => defaults + patch
    case _ => defaults
  }

  // ---------------------------------------------------------------- runs

  // A call of resolve, the answer of the read of the call begun at step `id`, the return of
  // that call, and a call of invalidate.
  datatype Event<O, K, V> =
    | Start(org: O, at: int)
    | Answer(id: nat, at: int, lookup: Lookup<K, V>)
    | Finish(id: nat, at: int)
    | Invalidate(org: O, at: int)

  // A value, and the step and the time of the read it comes from.
  datatype Snapshot<S> = Snapshot(value: S, step: nat, at: int)

  datatype Entry<S> = Entry(snap: Snapshot<S>, doneAt: int, expiresAt: int)

  datatype Flight<O, S> = Flight(org: O, snap: Option<Snapshot<S>>)

  // What a call of resolve, begun at step `start`, returned at time `at`.
  datatype Served<O, S> = Served(org: O, start: nat, at: int, snap: Snapshot<S>, doneAt: int)

  datatype State<O, S> = State(cache: map<O, Entry<S>>, flights: map<nat, Flight<O, S>>, served: seq<Served<O, S>>)

  datatype Config<K, V> = Config(defaults: map<K, V>, ttlMs: int)

  function Step<O(==), K, V>(c: Config<K, V>, s: State<O, map<K, V>>, k: nat, e: Event<O, K, V>): State<O, map<K, V>> {
    match e
    case Start(org, at) =>
      if org in s.cache && s.cache[org].expiresAt > at then
        s.(served := s.served + [Served(org, k, at, s.cache[org].snap, s.cache[org].doneAt)])
      else s.(flights := s.flights[k := Flight(org, None)])
    case Answer(id, at, lookup) =>
      if id in s.flights && s.flights[id].snap.None? then
        s.(flights := s.flights[id := s.flights[id].(snap := Some(Snapshot(Resolved(c.defaults, lookup), k, at)))])
      else s
    case Finish(id, at) =>
      if id in s.flights && s.flights[id].snap.Some? then
        var f := s.flights[id];
        State(
          s.cache[f.org := Entry(f.snap.value, at, at + c.ttlMs)],
          s.flights - {id},
          s.served + [Served(f.org, id, at, f.snap.value, at)])
      else s
    case Invalidate(org, at) => s.(cache := s.cache - {org})
  }

  function Run<O(==), K, V>(c: Config<K, V>, log: seq<Event<O, K, V>>): State<O, map<K, V>> {
    if log == [] then State(map[], map[], [])
    else Step(c, Run(c, log[..|log| - 1]), |log| - 1, log[|log| - 1])
  }

  lemma RunMore<O, K, V>(c: Config<K, V>, log: seq<Event<O, K, V>>, e: Event<O, K, V>)
    ensures Run(c, log + [e]) == Step(c, Run(c, log), |log|, e)
  {
    assert (log + [e])[..|log|] == log;
  }

  // A clock that does not go back.
  ghost predicate Ordered<O, K, V>(log: seq<Event<O, K, V>>) {
    forall i, j :: 0 <= i < j < |log| ==> log[i].at <= log[j].at
  }

  // ---------------------------------------------------------------- bounded staleness

  // The snapshot is the merged answer that the read of the call begun at `start` got at its step.
  ghost predicate ReadFor<O, K, V>(
    c: Config<K, V>, log: seq<Event<O, K, V>>, org: O, start: nat, snap: Snapshot<map<K, V>>)
  {
    && start < snap.step < |log| && log[start].Start? && log[start].org == org
    && log[snap.step].Answer? && log[snap.step].id == start && log[snap.step].at == snap.at
    && snap.value == Resolved(c.defaults, log[snap.step].lookup)
  }

  ghost predicate FinishesAt<O, K, V>(log: seq<Event<O, K, V>>, start: nat, f: nat) {
    f < |log| && log[f].Finish? && log[f].id == start
  }

  ghost predicate Unfinished<O, K, V>(log: seq<Event<O, K, V>>, start: nat, from: nat) {
    forall j: nat :: from < j < |log| ==> !FinishesAt(log, start, j)
  }

  // The call begun at `start` read the snapshot and then returned, at step f and at time `doneAt`.
  ghost predicate CompletedBy<O, K, V>(
    c: Config<K, V>, log: seq<Event<O, K, V>>, org: O, start: nat, f: nat, snap: Snapshot<map<K, V>>, doneAt: int)
  {
    && ReadFor(c, log, org, start, snap) && snap.step < f && FinishesAt(log, start, f) && log[f].at == doneAt
    && Unfinished(log[..f], start, snap.step) && snap.at <= doneAt
  }

  ghost predicate EntryBy<O, K, V>(
    c: Config<K, V>, log: seq<Event<O, K, V>>, org: O, e: Entry<map<K, V>>, start: nat, f: nat)
  {
    CompletedBy(c, log, org, start, f, e.snap, e.doneAt) && e.expiresAt == e.doneAt + c.ttlMs
  }

  ghost predicate EntryOk<O, K, V>(c: Config<K, V>, log: seq<Event<O, K, V>>, org: O, e: Entry<map<K, V>>) {
    exists start: nat, f: nat :: EntryBy(c, log, org, e, start, f)
  }

  ghost predicate FlightOk<O, K, V>(c: Config<K, V>, log: seq<Event<O, K, V>>, id: nat, f: Flight<O, map<K, V>>) {
    && id < |log| && log[id].Start? && log[id].org == f.org
    && (f.snap.Some? ==> ReadFor(c, log, f.org, id, f.snap.value) && Unfinished(log, id, f.snap.value.step))
  }

  // The call itself read the value, and returned it as it completed.
  ghost predicate ServedFresh<O, K, V>(
    c: Config<K, V>, log: seq<Event<O, K, V>>, r: Served<O, map<K, V>>, f: nat)
  {
    CompletedBy(c, log, r.org, r.start, f, r.snap, r.doneAt) && r.at == r.doneAt
  }

  // The call was answered as it began, from a read that had completed less than the time to
  // live before.
  ghost predicate ServedCached<O, K, V>(
    c: Config<K, V>, log: seq<Event<O, K, V>>, r: Served<O, map<K, V>>, start: nat, f: nat)
  {
    && CompletedBy(c, log, r.org, start, f, r.snap, r.doneAt) && f < r.start < |log|
    && log[r.start].Start? && log[r.start].org == r.org && log[r.start].at == r.at
    && r.doneAt <= r.at < r.doneAt + c.ttlMs
  }

  ghost predicate ServedOk<O, K, V>(c: Config<K, V>, log: seq<Event<O, K, V>>, r: Served<O, map<K, V>>) {
    || (exists f: nat :: ServedFresh(c, log, r, f))
    || (exists start: nat, f: nat :: ServedCached(c, log, r, start, f))
  }

  ghost predicate CacheOk<O(!new), K(!new), V(!new)>(
    c: Config<K, V>, log: seq<Event<O, K, V>>, cache: map<O, Entry<map<K, V>>>)
  {
    forall org :: org in cache ==> EntryOk(c, log, org, cache[org])
  }

  ghost predicate FlightsOk<O(!new), K(!new), V(!new)>(
    c: Config<K, V>, log: seq<Event<O, K, V>>, flights: map<nat, Flight<O, map<K, V>>>)
  {
    forall id :: id in flights ==> FlightOk(c, log, id, flights[id])
  }

  ghost predicate AllServedOk<O(!new), K(!new), V(!new)>(
    c: Config<K, V>, log: seq<Event<O, K, V>>, served: seq<Served<O, map<K, V>>>)
  {
    forall i :: 0 <= i < |served| ==> ServedOk(c, log, served[i])
  }

  lemma CompletedLater<O(!new), K(!new), V(!new)>(
    c: Config<K, V>, log: seq<Event<O, K, V>>, e: Event<O, K, V>, org: O, start: nat, f: nat,
    snap: Snapshot<map<K, V>>, doneAt: int)
    requires CompletedBy(c, log, org, start, f, snap, doneAt)
    ensures CompletedBy(c, log + [e], org, start, f, snap, doneAt)
  {
    assert (log + [e])[..f] == log[..f];
  }

  lemma CacheLater<O(!new), K(!new), V(!new)>(
    c: Config<K, V>, log: seq<Event<O, K, V>>, e: Event<O, K, V>, cache: map<O, Entry<map<K, V>>>)
    requires CacheOk(c, log, cache)
    ensures CacheOk(c, log + [e], cache)
  {
    forall org | org in cache ensures EntryOk(c, log + [e], org, cache[org]) {
      var start: nat, f: nat :| EntryBy(c, log, org, cache[org], start, f);
      CompletedLater(c, log, e, org, start, f, cache[org].snap, cache[org].doneAt);
      assert EntryBy(c, log + [e], org, cache[org], start, f);
    }
  }

  lemma ServedOkLater<O(!new), K(!new), V(!new)>(
    c: Config<K, V>, log: seq<Event<O, K, V>>, e: Event<O, K, V>, r: Served<O, map<K, V>>)
    requires ServedOk(c, log, r)
    ensures ServedOk(c, log + [e], r)
  {
    if f: nat :| ServedFresh(c, log, r, f) {
      CompletedLater(c, log, e, r.org, r.start, f, r.snap, r.doneAt);
      assert ServedFresh(c, log + [e], r, f);
    } else {
      var start: nat, f: nat :| ServedCached(c, log, r, start, f);
      CompletedLater(c, log, e, r.org, start, f, r.snap, r.doneAt);
      assert ServedCached(c, log + [e], r, start, f);
    }
  }

  lemma AllServedLater<O(!new), K(!new), V(!new)>(
    c: Config<K, V>, log: seq<Event<O, K, V>>, e: Event<O, K, V>, served: seq<Served<O, map<K, V>>>)
    requires AllServedOk(c, log, served)
    ensures AllServedOk(c, log + [e], served)
  {
    forall i | 0 <= i < |served| ensures ServedOk(c, log + [e], served[i]) {
      ServedOkLater(c, log, e, served[i]);
    }
  }

  lemma FlightLater<O(!new), K(!new), V(!new)>(
    c: Config<K, V>, log: seq<Event<O, K, V>>, e: Event<O, K, V>, id: nat, f: Flight<O, map<K, V>>)
    requires FlightOk(c, log, id, f) && !(e.Finish? && e.id == id)
    ensures FlightOk(c, log + [e], id, f)
  {
    var more := log + [e];
    if f.snap.Some? {
      forall j: nat | f.snap.value.step < j < |more| ensures !FinishesAt(more, id, j) {
        assert j < |log| ==> !FinishesAt(log, id, j);
      }
    }
  }

  lemma FlightsLater<O(!new), K(!new), V(!new)>(
    c: Config<K, V>, log: seq<Event<O, K, V>>, e: Event<O, K, V>, flights: map<nat, Flight<O, map<K, V>>>)
    requires FlightsOk(c, log, flights)
    ensures !e.Finish? ==> FlightsOk(c, log + [e], flights)
    ensures e.Finish? ==> FlightsOk(c, log + [e], flights - {e.id})
  {
    forall id | id in flights && !(e.Finish? && e.id == id) ensures FlightOk(c, log + [e], id, flights[id]) {
      FlightLater(c, log, e, id, flights[id]);
    }
  }

  // A call that is not in flight, or has no answer yet, changes nothing by finishing.
  lemma NoSuchFlight<O(!new), K(!new), V(!new)>(
    c: Config<K, V>, log: seq<Event<O, K, V>>, id: nat, at: int, flights: map<nat, Flight<O, map<K, V>>>)
    requires FlightsOk(c, log, flights) && (id !in flights || flights[id].snap.None?)
    ensures FlightsOk(c, log + [Finish(id, at)], flights)
  {
    var e: Event<O, K, V> := Finish(id, at);
    FlightsLater(c, log, e, flights);
    forall k | k in flights ensures FlightOk(c, log + [e], k, flights[k]) {
      if k != id {
        assert FlightOk(c, log + [e], k, (flights - {id})[k]);
      }
    }
  }

  lemma StartOk<O(!new), K(!new), V(!new)>(
    c: Config<K, V>, log: seq<Event<O, K, V>>, org: O, at: int, s: State<O, map<K, V>>)
    requires CacheOk(c, log, s.cache) && Ordered(log + [Start(org, at)])
    requires org in s.cache && s.cache[org].expiresAt > at
    ensures ServedOk(c, log + [Start(org, at)], Served(org, |log|, at, s.cache[org].snap, s.cache[org].doneAt))
  {
    var more := log + [Start(org, at)];
    var start: nat, f: nat :| EntryBy(c, log, org, s.cache[org], start, f);
    CompletedLater(c, log, Start(org, at), org, start, f, s.cache[org].snap, s.cache[org].doneAt);
    assert more[f].at <= more[|log|].at;
    assert ServedCached(c, more, Served(org, |log|, at, s.cache[org].snap, s.cache[org].doneAt), start, f);
  }

  lemma AnswerOk<O(!new), K(!new), V(!new)>(
    c: Config<K, V>, log: seq<Event<O, K, V>>, id: nat, at: int, lookup: Lookup<K, V>, f: Flight<O, map<K, V>>)
    requires FlightOk(c, log, id, f)
    ensures FlightOk(
      c, log + [Answer(id, at, lookup)], id, f.(snap := Some(Snapshot(Resolved(c.defaults, lookup), |log|, at))))
  {
  }

  lemma FinishOk<O(!new), K(!new), V(!new)>(
    c: Config<K, V>, log: seq<Event<O, K, V>>, id: nat, at: int, f: Flight<O, map<K, V>>)
    requires FlightOk(c, log, id, f) && f.snap.Some? && Ordered(log + [Finish(id, at)])
    ensures CompletedBy(c, log + [Finish(id, at)], f.org, id, |log|, f.snap.value, at)
  {
    var more := log + [Finish(id, at)];
    assert more[..|log|] == log;
    assert more[f.snap.value.step].at <= more[|log|].at;
  }

  ghost predicate StateOk<O(!new), K(!new), V(!new)>(
    c: Config<K, V>, log: seq<Event<O, K, V>>, s: State<O, map<K, V>>)
  {
    CacheOk(c, log, s.cache) && FlightsOk(c, log, s.flights) && AllServedOk(c, log, s.served)
  }

  lemma CacheSet<O(!new), K(!new), V(!new)>(
    c: Config<K, V>, log: seq<Event<O, K, V>>, cache: map<O, Entry<map<K, V>>>, org: O, e: Entry<map<K, V>>,
    start: nat, f: nat)
    requires CacheOk(c, log, cache) && EntryBy(c, log, org, e, start, f)
    ensures CacheOk(c, log, cache[org := e])
  {
    assert EntryOk(c, log, org, e);
  }

  lemma ServedOneMore<O(!new), K(!new), V(!new)>(
    c: Config<K, V>, log: seq<Event<O, K, V>>, served: seq<Served<O, map<K, V>>>, r: Served<O, map<K, V>>)
    requires AllServedOk(c, log, served) && ServedOk(c, log, r)
    ensures AllServedOk(c, log, served + [r])
  {
  }

  lemma StepFinishOk<O(!new), K(!new), V(!new)>(
    c: Config<K, V>, log: seq<Event<O, K, V>>, id: nat, at: int, s: State<O, map<K, V>>)
    requires StateOk(c, log, s) && Ordered(log + [Finish(id, at)])
    requires id in s.flights && s.flights[id].snap.Some?
    ensures StateOk(c, log + [Finish(id, at)], Step(c, s, |log|, Finish(id, at)))
  {
    var e: Event<O, K, V> := Finish(id, at);
    var f := s.flights[id];
    CacheLater(c, log, e, s.cache);
    FlightsLater(c, log, e, s.flights);
    AllServedLater(c, log, e, s.served);
    FinishOk(c, log, id, at, f);
    CacheSet(c, log + [e], s.cache, f.org, Entry(f.snap.value, at, at + c.ttlMs), id, |log|);
    assert ServedFresh(c, log + [e], Served(f.org, id, at, f.snap.value, at), |log|);
    ServedOneMore(c, log + [e], s.served, Served(f.org, id, at, f.snap.value, at));
  }

  lemma StepOk<O(!new), K(!new), V(!new)>(
    c: Config<K, V>, log: seq<Event<O, K, V>>, e: Event<O, K, V>, s: State<O, map<K, V>>)
    requires StateOk(c, log, s) && Ordered(log + [e])
    ensures StateOk(c, log + [e], Step(c, s, |log|, e))
  {
    CacheLater(c, log, e, s.cache);
    AllServedLater(c, log, e, s.served);
    match e
    case Start(org, at) =>
      FlightsLater(c, log, e, s.flights);
      if org in s.cache && s.cache[org].expiresAt > at {
        StartOk(c, log, org, at, s);
        ServedOneMore(
          c, log + [e], s.served, Served(org, |log|, at, s.cache[org].snap, s.cache[org].doneAt));
      }
    case Answer(id, at, lookup) =>
      FlightsLater(c, log, e, s.flights);
      if id in s.flights {
        AnswerOk(c, log, id, at, lookup, s.flights[id]);
      }
    case Finish(id, at) =>
      if id in s.flights && s.flights[id].snap.Some? {
        StepFinishOk(c, log, id, at, s);
      } else {
        NoSuchFlight(c, log, id, at, s.flights);
      }
    case Invalidate(_, _) =>
      FlightsLater(c, log, e, s.flights);
  }

  lemma OrderedFront<O, K, V>(front: seq<Event<O, K, V>>, e: Event<O, K, V>, log: seq<Event<O, K, V>>)
    requires Ordered(log) && log == front + [e]
    ensures Ordered(front)
  {
    forall i, j | 0 <= i < j < |front| ensures front[i].at <= front[j].at {
      assert log[i].at <= log[j].at;
    }
  }

  lemma OneMoreOk<O(!new), K(!new), V(!new)>(c: Config<K, V>, front: seq<Event<O, K, V>>, e: Event<O, K, V>)
    requires Ordered(front + [e]) && StateOk(c, front, Run(c, front))
    ensures StateOk(c, front + [e], Run(c, front + [e]))
  {
    StepOk(c, front, e, Run(c, front));
    RunMore(c, front, e);
  }

  lemma {:induction false} RunOk<O(!new), K(!new), V(!new)>(c: Config<K, V>, log: seq<Event<O, K, V>>)
    requires Ordered(log)
    ensures StateOk(c, log, Run(c, log))
    decreases |log|
  {
    if log != [] {
      OrderedFront(log[..|log| - 1], log[|log| - 1], log);
      RunOk(c, log[..|log| - 1]);
      OneMoreOk(c, log[..|log| - 1], log[|log| - 1]);
      assert log[..|log| - 1] + [log[|log| - 1]] == log;
    }
  }

  // In every run, every value served is the merge of what a read of that organisation's
  // record answered at time r, in a call that returned at time w. It is served as that call
  // returns, or to a later call that begins before w + ttl.
  lemma BoundedStaleness<O(!new), K(!new), V(!new)>(c: Config<K, V>, log: seq<Event<O, K, V>>, i: nat)
    requires Ordered(log) && i < |Run(c, log).served|
    ensures
      var r := Run(c, log).served[i];
      && ServedOk(c, log, r) && r.snap.at <= r.doneAt <= r.at
      && (r.at == r.doneAt || r.at - r.snap.at < c.ttlMs + (r.doneAt - r.snap.at))
  {
    RunOk(c, log);
    assert ServedOk(c, log, Run(c, log).served[i]);
  }

  // ---------------------------------------------------------------- time to live

  // The organisation is not invalidated, and no other call for it completes.
  ghost predicate Undisturbed<O, K, V>(
    c: Config<K, V>, log: seq<Event<O, K, V>>, more: seq<Event<O, K, V>>, org: O)
    decreases |more|
  {
    more != [] ==>
      var front, e := more[..|more| - 1], more[|more| - 1];
      var flights := Run(c, log + front).flights;
      && Undisturbed(c, log, front, org)
      && !(e.Invalidate? && e.org == org)
      && !(e.Finish? && e.id in flights && flights[e.id].org == org)
  }

  lemma {:induction false} EntryStays<O, K, V>(
    c: Config<K, V>, log: seq<Event<O, K, V>>, more: seq<Event<O, K, V>>, org: O)
    requires org in Run(c, log).cache && Undisturbed(c, log, more, org)
    ensures org in Run(c, log + more).cache && Run(c, log + more).cache[org] == Run(c, log).cache[org]
    decreases |more|
  {
    if more == [] {
      assert log + more == log;
    } else {
      var front, e := more[..|more| - 1], more[|more| - 1];
      EntryStays(c, log, front, org);
      RunMore(c, log + front, e);
      assert log + more == log + front + [e];
    }
  }

  lemma EntryExpires<O(!new), K(!new), V(!new)>(c: Config<K, V>, log: seq<Event<O, K, V>>, org: O)
    requires Ordered(log) && org in Run(c, log).cache
    ensures Run(c, log).cache[org].expiresAt == Run(c, log).cache[org].doneAt + c.ttlMs
  {
    RunOk(c, log);
    assert EntryOk(c, log, org, Run(c, log).cache[org]);
  }

  // What a call that completed has cached is served to every later call, without another read,
  // for exactly the time to live.
  lemma ServedForTtl<O(!new), K(!new), V(!new)>(
    c: Config<K, V>, log: seq<Event<O, K, V>>, more: seq<Event<O, K, V>>, org: O, at: int)
    requires Ordered(log) && org in Run(c, log).cache && Undisturbed(c, log, more, org)
    ensures
      var e, was := Run(c, log).cache[org], Run(c, log + more);
      var now := Run(c, log + more + [Start(org, at)]);
      if at < e.doneAt + c.ttlMs then
        now.served == was.served + [Served(org, |log + more|, at, e.snap, e.doneAt)] && now.flights == was.flights
      else
        now.served == was.served && now.flights == was.flights[|log + more| := Flight(org, None)]
  {
    EntryStays(c, log, more, org);
    EntryExpires(c, log, org);
    RunMore(c, log + more, Start(org, at));
  }

  // ---------------------------------------------------------------- invalidation

  // No call for this organisation has its read's answer but has not yet returned.
  ghost predicate Quiet<O, S>(s: State<O, S>, org: O) {
    forall id :: id in s.flights && s.flights[id].org == org ==> s.flights[id].snap.None?
  }

  // Every call begun after step i returned something read after step i.
  ghost predicate AllFresh<O, S>(served: seq<Served<O, S>>, org: O, i: nat) {
    forall j :: 0 <= j < |served| && served[j].org == org && served[j].start > i ==> served[j].snap.step > i
  }

  ghost predicate FreshFrom<O, S>(s: State<O, S>, org: O, i: nat) {
    && (org in s.cache ==> s.cache[org].snap.step > i)
    && (forall id :: id in s.flights && s.flights[id].org == org && s.flights[id].snap.Some? ==>
          s.flights[id].snap.value.step > i)
    && AllFresh(s.served, org, i)
  }

  lemma FreshStep<O, K, V>(c: Config<K, V>, s: State<O, map<K, V>>, k: nat, e: Event<O, K, V>, org: O, i: nat)
    requires FreshFrom(s, org, i) && k > i
    ensures FreshFrom(Step(c, s, k, e), org, i)
  {
  }

  lemma {:induction false} FreshRun<O, K, V>(
    c: Config<K, V>, log: seq<Event<O, K, V>>, more: seq<Event<O, K, V>>, org: O, i: nat)
    requires FreshFrom(Run(c, log), org, i) && |log| > i
    ensures FreshFrom(Run(c, log + more), org, i)
  {
    if more == [] {
      assert log + more == log;
    } else {
      var front, e := more[..|more| - 1], more[|more| - 1];
      assert log + more == (log + front) + [e];
      FreshRun(c, log, front, org, i);
      RunMore(c, log + front, e);
      FreshStep(c, Run(c, log + front), |log + front|, e, org, i);
    }
  }

  lemma QuietInvalidateIsFresh<O(!new), K(!new), V(!new)>(
    c: Config<K, V>, log: seq<Event<O, K, V>>, org: O, at: int, more: seq<Event<O, K, V>>)
    requires Ordered(log) && Quiet(Run(c, log), org)
    ensures AllFresh(Run(c, log + [Invalidate(org, at)] + more).served, org, |log|)
  {
    RunOk(c, log);
    RunMore(c, log, Invalidate(org, at));
    var s := Run(c, log);
    forall j | 0 <= j < |s.served| ensures s.served[j].start < |log| {
      assert ServedOk(c, log, s.served[j]);
    }
    FreshRun(c, log + [Invalidate(org, at)], more, org, |log|);
  }

  // The call in flight puts its older value back, and the next call is served it.
  lemma StaleAfterInvalidate<O(!new), K(!new), V(!new)>(
    c: Config<K, V>, log: seq<Event<O, K, V>>, org: O, at: int, id: nat)
    requires Ordered(log) && c.ttlMs > 0
    requires id in Run(c, log).flights && Run(c, log).flights[id].org == org && Run(c, log).flights[id].snap.Some?
    ensures !AllFresh(
      Run(c, log + [Invalidate(org, at)] + [Finish(id, at), Start(org, at)]).served, org, |log|)
  {
    var s := Run(c, log);
    RunOk(c, log);
    assert FlightOk(c, log, id, s.flights[id]);
    var log1 := log + [Invalidate(org, at)];
    var log2 := log1 + [Finish(id, at)];
    RunMore(c, log, Invalidate(org, at));
    RunMore(c, log1, Finish(id, at));
    RunMore(c, log2, Start(org, at));
    assert log1 + [Finish(id, at), Start(org, at)] == log2 + [Start(org, at)];
    var served := Run(c, log2 + [Start(org, at)]).served;
    assert served[|served| - 1] == Served(org, |log2|, at, s.flights[id].snap.value, at);
  }

  // After an invalidation every later call, whatever else happens, is served something read
  // after it iff no call of that organisation has its answer in hand when it happens.
  lemma FreshAfterInvalidateIff<O(!new), K(!new), V(!new)>(
    c: Config<K, V>, log: seq<Event<O, K, V>>, org: O, at: int)
    requires Ordered(log + [Invalidate(org, at)]) && c.ttlMs > 0
    ensures Quiet(Run(c, log), org) <==> forall more: seq<Event<O, K, V>> ::
      Ordered(log + [Invalidate(org, at)] + more) ==>
        AllFresh(Run(c, log + [Invalidate(org, at)] + more).served, org, |log|)
  {
    var log1 := log + [Invalidate(org, at)];
    forall i, j | 0 <= i < j < |log| ensures log[i].at <= log[j].at {
      assert log1[i].at <= log1[j].at;
    }
    if Quiet(Run(c, log), org) {
      forall more: seq<Event<O, K, V>> | Ordered(log1 + more)
        ensures AllFresh(Run(c, log1 + more).served, org, |log|)
      {
        QuietInvalidateIsFresh(c, log, org, at, more);
      }
    } else {
      var id :| id in Run(c, log).flights && Run(c, log).flights[id].org == org && Run(c, log).flights[id].snap.Some?;
      StaleAfterInvalidate(c, log, org, at, id);
      StillOrdered(log1, at, [Finish(id, at), Start(org, at)]);
    }
  }

  lemma StillOrdered<O, K, V>(log: seq<Event<O, K, V>>, at: int, more: seq<Event<O, K, V>>)
    requires Ordered(log) && log != [] && log[|log| - 1].at == at
    requires forall i :: 0 <= i < |more| ==> more[i].at == at
    ensures Ordered(log + more)
  {
    var all := log + more;
    forall i, j | 0 <= i < j < |all| ensures all[i].at <= all[j].at {
      assert i < |log| - 1 ==> log[i].at <= log[|log| - 1].at;
    }
  }

  // ---------------------------------------------------------------- the service

  datatype CacheEntry<S> = CacheEntry(value: S, expiresAt: int)

  // A call of resolve waiting for its read, or for its turn after the read.
  datatype Pending<O, S> = Pending(org: O, value: Option<S>)

  class SettingsService<O(==, !new), K(==, !new), V(!new)> {
    const config: Config<K, V>
    var cache: map<O, CacheEntry<map<K, V>>>
    var pending: map<nat, Pending<O, map<K, V>>>
    var steps: nat
    ghost var log: seq<Event<O, K, V>>

    ghost predicate Valid()
      reads this
    {
      var s := Run(config, log);
      && steps == |log|
      && cache.Keys == s.cache.Keys
      && (forall org :: org in cache ==> cache[org] == CacheEntry(s.cache[org].snap.value, s.cache[org].expiresAt))
      && pending.Keys == s.flights.Keys
      && (forall id :: id in pending ==>
            && pending[id].org == s.flights[id].org
            && pending[id].value.Some? == s.flights[id].snap.Some?
            && (pending[id].value.Some? ==> pending[id].value.value == s.flights[id].snap.value.value))
    }

    constructor (config: Config<K, V>)
      ensures Valid() && log == [] && this.config == config
    {
      this.config := config;
      cache, pending, steps, log := map[], map[], 0, [];
    }

    // What the run so far has served.
    ghost function ServedSoFar(): seq<Served<O, map<K, V>>>
      reads this
    {
      Run(config, log).served
    }

    // Up to the await: a cached value that has not expired, or a read begun under an id.
    method BeginResolve(org: O, now: int) returns (cached: Option<map<K, V>>, id: nat)
      requires Valid()
      modifies this
      ensures Valid() && log == old(log) + [Start(org, now)] && id == |old(log)|
      ensures cached.None? ==> ServedSoFar() == old(ServedSoFar()) && id in pending
      ensures cached.Some? ==>
        && |ServedSoFar()| == |old(ServedSoFar())| + 1
        && var r := ServedSoFar()[|ServedSoFar()| - 1];
           r.org == org && r.start == id && r.at == now && r.snap.value == cached.value
    {
      RunMore(config, log, Start(org, now));
      log := log + [Start(org, now)];
      id := steps;
      steps := steps + 1;
      if org in cache && cache[org].expiresAt > now {
        cached := Some(cache[org].value);
      } else {
        cached := None;
        pending := pending[id := Pending(org, None)];
      }
    }

    // The read of a pending call answers: its value is settled.
    method ReadAnswers(id: nat, now: int, lookup: Lookup<K, V>)
      requires Valid() && id in pending && pending[id].value.None?
      modifies this
      ensures Valid() && log == old(log) + [Answer(id, now, lookup)]
      ensures cache == old(cache) && ServedSoFar() == old(ServedSoFar())
    {
      RunMore(config, log, Answer(id, now, lookup));
      log := log + [Answer(id, now, lookup)];
      steps := steps + 1;
      pending := pending[id := pending[id].(value := Some(Resolved(config.defaults, lookup)))];
    }

    // After the await: the value is cached from now on, and returned.
    method FinishResolve(id: nat, now: int) returns (value: map<K, V>)
      requires Valid() && id in pending && pending[id].value.Some?
      modifies this
      ensures Valid() && log == old(log) + [Finish(id, now)]
      ensures |ServedSoFar()| == |old(ServedSoFar())| + 1
      ensures
        var r := ServedSoFar()[|ServedSoFar()| - 1];
        r.org == old(pending)[id].org && r.start == id && r.at == now && r.snap.value == value
    {
      RunMore(config, log, Finish(id, now));
      log := log + [Finish(id, now)];
      steps := steps + 1;
      var org := pending[id].org;
      value := pending[id].value.value;
      cache := cache[org := CacheEntry(value, now + config.ttlMs)];
      pending := pending - {id};
    }

    method Invalidate(org: O, now: int)
      requires Valid()
      modifies this
      ensures Valid() && log == old(log) + [Event.Invalidate(org, now)]
      ensures org !in cache && ServedSoFar() == old(ServedSoFar())
    {
      RunMore(config, log, Event.Invalidate(org, now));
      log := log + [Event.Invalidate(org, now)];
      steps := steps + 1;
      cache := cache - {org};
    }
  }
}
