// Model of the fixed-window limiter of apps/server/src/mcp/mcp-client-pool.ts: one counter
// and window start per server, checked at the head of every invoke.
module RateLimiter {
  datatype Window = Window(count: int, windowStart: int)

  // One check: which server, when, and whether the call was let through.
  datatype Call<S> = Call(server: S, at: int, accepted: bool)

  // The state and verdict of one check.
  function Check<S(==)>(state: map<S, Window>, server: S, t: int, maxCalls: int, windowMs: int)
    : (map<S, Window>, bool)
  {
    if server !in state || t - state[server].windowStart >= windowMs then
      (state[server := Window(1, t)], true)
    else if state[server].count >= maxCalls then (state, false)
    else (state[server := state[server].(count := state[server].count + 1)], true)
  }

  function StateAfter<S(==)>(log: seq<Call<S>>, maxCalls: int, windowMs: int): map<S, Window> {
    if log == [] then map[]
    else
      var last := log[|log| - 1];
      Check(StateAfter(log[..|log| - 1], maxCalls, windowMs), last.server, last.at, maxCalls, windowMs).0
  }

  // The log is a run of the limiter on a clock that never goes back.
  ghost predicate IsRun<S>(log: seq<Call<S>>, maxCalls: int, windowMs: int) {
    log != [] ==>
      var front, last := log[..|log| - 1], log[|log| - 1];
      && IsRun(front, maxCalls, windowMs)
      && (front != [] ==> front[|front| - 1].at <= last.at)
      && last.accepted == Check(StateAfter(front, maxCalls, windowMs), last.server, last.at, maxCalls, windowMs).1
  }

  // Accepted calls of a server with from <= at < to.
  ghost function Accepted<S>(log: seq<Call<S>>, server: S, from: int, to: int): nat {
    if log == [] then 0
    else
      var last := log[|log| - 1];
      Accepted(log[..|log| - 1], server, from, to)
      + if last.server == server && last.accepted && from <= last.at < to then 1 else 0
  }

  ghost function Limit(maxCalls: int): int {
    if maxCalls < 1 then 1 else maxCalls
  }

  lemma {:induction false} AcceptedSplit<S>(log: seq<Call<S>>, server: S, a: int, b: int, c: int)
    requires a <= b <= c
    ensures Accepted(log, server, a, c) == Accepted(log, server, a, b) + Accepted(log, server, b, c)
  {
    if log != [] {
      AcceptedSplit(log[..|log| - 1], server, a, b, c);
    }
  }

  lemma {:induction false} AcceptedWithin<S>(log: seq<Call<S>>, server: S, a: int, b: int, c: int, d: int)
    requires a <= b && c <= d
    ensures Accepted(log, server, b, c) <= Accepted(log, server, a, d)
  {
    if log != [] {
      AcceptedWithin(log[..|log| - 1], server, a, b, c, d);
    }
  }

  lemma AcceptedOneMore<S>(log: seq<Call<S>>, c: Call<S>, server: S, a: int, b: int)
    ensures Accepted(log + [c], server, a, b) ==
      Accepted(log, server, a, b) + if c.server == server && c.accepted && a <= c.at < b then 1 else 0
  {
    assert (log + [c])[..|log|] == log;
  }

  // What every run keeps about one server, up to time `now`: the counter is the number of
  // calls accepted since the window opened, all of them inside the window; just before the
  // window, and over any stretch of one window length, the counts are bounded.
  ghost predicate Kept<S>(log: seq<Call<S>>, server: S, state: map<S, Window>, now: int, limit: int, windowMs: int) {
    if server !in state then
      forall a, b :: Accepted(log, server, a, b) == 0
    else
      var ws := state[server].windowStart;
      && ws <= now
      && 1 <= state[server].count <= limit
      && (forall b :: b > now ==> Accepted(log, server, ws, b) == state[server].count)
      && (forall a, b :: a >= ws + windowMs ==> Accepted(log, server, a, b) == 0)
      && Accepted(log, server, ws, ws + 1) >= 1
      && (forall a :: a > ws - windowMs ==> Accepted(log, server, a, ws) <= limit - 1)
      && (forall a, b :: b - a <= windowMs ==> Accepted(log, server, a, b) <= 2 * limit - 1)
  }

  // A check of another server, or a refusal, leaves the counts of this server alone.
  lemma KeptWhenNotCounted<S>(
    log: seq<Call<S>>, c: Call<S>, server: S, state: map<S, Window>, next: map<S, Window>, now: int, limit: int,
    windowMs: int)
    requires Kept(log, server, state, now, limit, windowMs)
    requires c.server != server || !c.accepted
    requires server in next <==> server in state
    requires server in state ==> next[server] == state[server]
    requires now <= c.at
    ensures Kept(log + [c], server, next, c.at, limit, windowMs)
  {
    forall a, b ensures Accepted(log + [c], server, a, b) == Accepted(log, server, a, b) {
      AcceptedOneMore(log, c, server, a, b);
    }
  }

  // A call counted in the current window.
  lemma KeptInWindow<S>(
    log: seq<Call<S>>, c: Call<S>, state: map<S, Window>, next: map<S, Window>, now: int, limit: int, windowMs: int)
    requires c.accepted && c.server in state && now <= c.at
    requires Kept(log, c.server, state, now, limit, windowMs)
    requires c.at - state[c.server].windowStart < windowMs && state[c.server].count < limit
    requires c.server in next &&
      next[c.server] == Window(state[c.server].count + 1, state[c.server].windowStart)
    ensures Kept(log + [c], c.server, next, c.at, limit, windowMs)
  {
    var s, ws := c.server, state[c.server].windowStart;
    forall a, b
      ensures Accepted(log + [c], s, a, b) == Accepted(log, s, a, b) + if a <= c.at < b then 1 else 0
    {
      AcceptedOneMore(log, c, s, a, b);
    }
    forall a, b | b - a <= windowMs && a <= c.at < b ensures Accepted(log, s, a, b) <= 2 * limit - 2 {
      if a <= ws {
        AcceptedSplit(log, s, a, ws, b);
      } else {
        AcceptedWithin(log, s, ws, a, b, b);
      }
    }
  }

  // A call that opens a new window.
  lemma KeptInNewWindow<S>(
    log: seq<Call<S>>, c: Call<S>, state: map<S, Window>, next: map<S, Window>, now: int, limit: int, windowMs: int)
    requires c.accepted && limit >= 1 && windowMs >= 1 && now <= c.at
    requires Kept(log, c.server, state, now, limit, windowMs)
    requires c.server in state ==> c.at - state[c.server].windowStart >= windowMs
    requires c.server in next && next[c.server] == Window(1, c.at)
    ensures Kept(log + [c], c.server, next, c.at, limit, windowMs)
  {
    var s, t := c.server, c.at;
    forall a, b
      ensures Accepted(log + [c], s, a, b) == Accepted(log, s, a, b) + if a <= t < b then 1 else 0
    {
      AcceptedOneMore(log, c, s, a, b);
    }
    forall a, b | a > t - windowMs ensures Accepted(log, s, a, b) <= limit - 1 {
      if s in state {
        var ws := state[s].windowStart;
        var end := if b > t then b else t + 1;
        AcceptedSplit(log, s, ws, ws + 1, end);
        AcceptedWithin(log, s, ws + 1, a, b, end);
      }
    }
  }

  lemma {:induction false} RunKeeps<S>(log: seq<Call<S>>, server: S, maxCalls: int, windowMs: int)
    requires IsRun(log, maxCalls, windowMs) && windowMs >= 1 && log != []
    ensures Kept(log, server, StateAfter(log, maxCalls, windowMs), log[|log| - 1].at, Limit(maxCalls), windowMs)
  {
    var front, c := log[..|log| - 1], log[|log| - 1];
    var state := StateAfter(front, maxCalls, windowMs);
    var next := StateAfter(log, maxCalls, windowMs);
    var now := if front == [] then c.at else front[|front| - 1].at;
    assert log == front + [c];
    if front != [] {
      RunKeeps(front, server, maxCalls, windowMs);
    } else {
      assert Kept(front, server, state, now, Limit(maxCalls), windowMs);
    }
    if c.server != server || !c.accepted {
      KeptWhenNotCounted(front, c, server, state, next, now, Limit(maxCalls), windowMs);
    } else if server in state && c.at - state[server].windowStart < windowMs {
      KeptInWindow(front, c, state, next, now, Limit(maxCalls), windowMs);
    } else {
      KeptInNewWindow(front, c, state, next, now, Limit(maxCalls), windowMs);
    }
  }

  // Over any run, no half-open interval of one window length holds twice the limit of
  // accepted calls to a server, wherever the interval starts: the most is one less.
  lemma SlidingBound<S>(log: seq<Call<S>>, server: S, maxCalls: int, windowMs: int, from: int)
    requires IsRun(log, maxCalls, windowMs)
    ensures Accepted(log, server, from, from + windowMs) <= 2 * Limit(maxCalls) - 1
  {
    if windowMs < 1 {
      EmptyInterval(log, server, from, from + windowMs);
    } else if log != [] {
      RunKeeps(log, server, maxCalls, windowMs);
    }
  }

  lemma {:induction false} EmptyInterval<S>(log: seq<Call<S>>, server: S, from: int, to: int)
    requires to <= from
    ensures Accepted(log, server, from, to) == 0
  {
    if log != [] {
      EmptyInterval(log[..|log| - 1], server, from, to);
    }
  }

  // A call is refused only if the limit was reached by calls accepted in the window length
  // that ends with it.
  lemma RefusedOnlyWhenFull<S>(log: seq<Call<S>>, c: Call<S>, maxCalls: int, windowMs: int)
    requires IsRun(log + [c], maxCalls, windowMs) && !c.accepted
    ensures Accepted(log, c.server, c.at - windowMs + 1, c.at + 1) >= Limit(maxCalls)
  {
    assert (log + [c])[..|log|] == log;
    var state := StateAfter(log, maxCalls, windowMs);
    assert log != [];
    if windowMs >= 1 {
      RunKeeps(log, c.server, maxCalls, windowMs);
      AcceptedWithin(log, c.server, c.at - windowMs + 1, state[c.server].windowStart, c.at + 1, c.at + 1);
    } else {
      NeverBackwards(log, c.server, maxCalls, windowMs);
    }
  }

  lemma {:induction false} NeverBackwards<S>(log: seq<Call<S>>, server: S, maxCalls: int, windowMs: int)
    requires IsRun(log, maxCalls, windowMs)
    ensures server in StateAfter(log, maxCalls, windowMs) ==>
      log != [] && StateAfter(log, maxCalls, windowMs)[server].windowStart <= log[|log| - 1].at
  {
    if log != [] {
      NeverBackwards(log[..|log| - 1], server, maxCalls, windowMs);
    }
  }

  // One more check of a run, given the state before it.
  lemma RunOneMore<S>(log: seq<Call<S>>, c: Call<S>, maxCalls: int, windowMs: int)
    requires IsRun(log, maxCalls, windowMs)
    requires EndsBy(log, c.at)
    requires c.accepted == Check(StateAfter(log, maxCalls, windowMs), c.server, c.at, maxCalls, windowMs).1
    ensures IsRun(log + [c], maxCalls, windowMs)
    ensures StateAfter(log + [c], maxCalls, windowMs) ==
      Check(StateAfter(log, maxCalls, windowMs), c.server, c.at, maxCalls, windowMs).0
  {
    assert (log + [c])[..|log|] == log;
  }

  // ---------------------------------------------------------------- the bound is attained

  ghost predicate Attains<S>(log: seq<Call<S>>, server: S, maxCalls: int, windowMs: int, from: int) {
    && IsRun(log, maxCalls, windowMs)
    && Accepted(log, server, from, from + windowMs) == 2 * Limit(maxCalls) - 1
  }

  // A run by time t whose window of this server opened at ws and has let `count` calls through.
  ghost predicate Opened<S>(
    log: seq<Call<S>>, server: S, maxCalls: int, windowMs: int, t: int, count: int, ws: int)
  {
    && IsRun(log, maxCalls, windowMs) && EndsBy(log, t)
    && var state := StateAfter(log, maxCalls, windowMs);
       server in state && state[server] == Window(count, ws)
  }

  lemma OpenWindow<S>(log: seq<Call<S>>, c: Call<S>, maxCalls: int, windowMs: int)
    requires IsRun(log, maxCalls, windowMs) && EndsBy(log, c.at) && c.accepted
    requires
      var state := StateAfter(log, maxCalls, windowMs);
      c.server in state ==> c.at - state[c.server].windowStart >= windowMs
    ensures Opened(log + [c], c.server, maxCalls, windowMs, c.at, 1, c.at)
  {
    RunOneMore(log, c, maxCalls, windowMs);
  }

  lemma OneMoreOpened<S>(log: seq<Call<S>>, c: Call<S>, maxCalls: int, windowMs: int, count: int, ws: int)
    requires Opened(log, c.server, maxCalls, windowMs, c.at, count, ws) && c.accepted
    requires c.at - ws < windowMs && count < maxCalls
    ensures Opened(log + [c], c.server, maxCalls, windowMs, c.at, count + 1, ws)
  {
    RunOneMore(log, c, maxCalls, windowMs);
  }

  ghost function Burst<S>(log: seq<Call<S>>, c: Call<S>, n: nat): seq<Call<S>>
    decreases n
  {
    if n == 0 then log else Burst(log + [c], c, n - 1)
  }

  lemma {:induction false} BurstRuns<S>(
    log: seq<Call<S>>, c: Call<S>, n: nat, maxCalls: int, windowMs: int, count: int, ws: int)
    requires Opened(log, c.server, maxCalls, windowMs, c.at, count, ws) && c.accepted
    requires c.at - ws < windowMs && count + n <= maxCalls
    ensures Opened(Burst(log, c, n), c.server, maxCalls, windowMs, c.at, count + n, ws)
    decreases n
  {
    if n > 0 {
      OneMoreOpened(log, c, maxCalls, windowMs, count, ws);
      BurstRuns(log + [c], c, n - 1, maxCalls, windowMs, count + 1, ws);
    }
  }

  lemma {:induction false} BurstCounts<S>(log: seq<Call<S>>, c: Call<S>, n: nat, a: int, b: int)
    requires c.accepted
    ensures Accepted(Burst(log, c, n), c.server, a, b) ==
      Accepted(log, c.server, a, b) + if a <= c.at < b then n else 0
    decreases n
  {
    if n > 0 {
      AcceptedOneMore(log, c, c.server, a, b);
      BurstCounts(log + [c], c, n - 1, a, b);
    }
  }

  // One call at 0, the rest of the limit in the last moment of that window, and the whole
  // limit as the next one opens.
  ghost function TwoBursts<S>(server: S, limit: nat, windowMs: int): seq<Call<S>>
    requires limit >= 1
  {
    var late, next := Call(server, windowMs - 1, true), Call(server, windowMs, true);
    Burst(Burst([Call(server, 0, true)], late, limit - 1) + [next], next, limit - 1)
  }

  lemma TwoBurstsRun<S>(server: S, maxCalls: int, windowMs: int)
    requires windowMs >= 2
    ensures IsRun(TwoBursts(server, Limit(maxCalls), windowMs), maxCalls, windowMs)
  {
    var limit := Limit(maxCalls);
    var first, late := Call(server, 0, true), Call(server, windowMs - 1, true);
    var next := Call(server, windowMs, true);
    OpenWindow([], first, maxCalls, windowMs);
    assert [] + [first] == [first];
    if limit > 1 {
      BurstRuns([first], late, limit - 1, maxCalls, windowMs, 1, 0);
    }
    var before := Burst([first], late, limit - 1);
    assert Opened(before, server, maxCalls, windowMs, windowMs - 1, limit, 0);
    OpenWindow(before, next, maxCalls, windowMs);
    if limit > 1 {
      BurstRuns(before + [next], next, limit - 1, maxCalls, windowMs, 1, windowMs);
    }
  }

  lemma TwoBurstsCount<S>(server: S, limit: nat, windowMs: int)
    requires limit >= 1 && windowMs >= 2
    ensures Accepted(TwoBursts(server, limit, windowMs), server, windowMs - 1, windowMs - 1 + windowMs) == 2 * limit - 1
  {
    var a, b := windowMs - 1, windowMs - 1 + windowMs;
    var first, late := Call(server, 0, true), Call(server, windowMs - 1, true);
    var next := Call(server, windowMs, true);
    var before := Burst([first], late, limit - 1);
    AcceptedOneMore([], first, server, a, b);
    assert [] + [first] == [first];
    BurstCounts([first], late, limit - 1, a, b);
    AcceptedOneMore(before, next, server, a, b);
    BurstCounts(before + [next], next, limit - 1, a, b);
  }

  // In windows of one millisecond no moment holds more than the limit.
  lemma {:induction false} MomentBound<S>(log: seq<Call<S>>, server: S, maxCalls: int, a: int)
    requires IsRun(log, maxCalls, 1)
    ensures Accepted(log, server, a, a + 1) <= Limit(maxCalls)
  {
    if log != [] {
      var front, last := log[..|log| - 1], log[|log| - 1];
      if last.server == server && last.accepted && last.at == a {
        RunKeeps(log, server, maxCalls, 1);
        assert StateAfter(log, maxCalls, 1)[server].windowStart == a;
      } else {
        MomentBound(front, server, maxCalls, a);
      }
    }
  }

  // The sliding bound is attained by some run iff a window is longer than one moment, or
  // is that long and lets one call through.
  lemma BoundIsTightIff<S(!new)>(server: S, maxCalls: int, windowMs: int)
    ensures (exists log, from :: Attains(log, server, maxCalls, windowMs, from)) <==>
      windowMs >= 2 || (windowMs == 1 && maxCalls <= 1)
  {
    if windowMs >= 2 {
      TwoBurstsRun(server, maxCalls, windowMs);
      TwoBurstsCount(server, Limit(maxCalls), windowMs);
      assert Attains(TwoBursts(server, Limit(maxCalls), windowMs), server, maxCalls, windowMs, windowMs - 1);
    } else if windowMs == 1 && maxCalls <= 1 {
      OneCallAttains(server, maxCalls);
    } else {
      forall log, from ensures !Attains(log, server, maxCalls, windowMs, from) {
        NeverAttained(log, server, maxCalls, windowMs, from);
      }
    }
  }

  lemma OneCallAttains<S>(server: S, maxCalls: int)
    requires maxCalls <= 1
    ensures Attains([Call(server, 0, true)], server, maxCalls, 1, 0)
  {
    var first := Call(server, 0, true);
    assert [] + [first] == [first];
    OpenWindow([], first, maxCalls, 1);
    AcceptedOneMore([], first, server, 0, 1);
  }

  lemma NeverAttained<S>(log: seq<Call<S>>, server: S, maxCalls: int, windowMs: int, from: int)
    requires windowMs < 1 || (windowMs == 1 && maxCalls >= 2)
    ensures !Attains(log, server, maxCalls, windowMs, from)
  {
    if windowMs < 1 {
      EmptyInterval(log, server, from, from + windowMs);
    } else if IsRun(log, maxCalls, windowMs) {
      MomentBound(log, server, maxCalls, from);
    }
  }

  // ---------------------------------------------------------------- servers are independent

  ghost function Only<S>(log: seq<Call<S>>, server: S): seq<Call<S>> {
    if log == [] then []
    else
      var last := log[|log| - 1];
      if last.server == server then Only(log[..|log| - 1], server) + [last] else Only(log[..|log| - 1], server)
  }

  ghost predicate SameFor<S>(a: map<S, Window>, b: map<S, Window>, server: S) {
    (server in a <==> server in b) && (server in a ==> a[server] == b[server])
  }

  lemma CheckIsLocal<S>(a: map<S, Window>, b: map<S, Window>, server: S, t: int, maxCalls: int, windowMs: int)
    requires SameFor(a, b, server)
    ensures Check(a, server, t, maxCalls, windowMs).1 == Check(b, server, t, maxCalls, windowMs).1
    ensures SameFor(Check(a, server, t, maxCalls, windowMs).0, Check(b, server, t, maxCalls, windowMs).0, server)
  {
  }

  ghost predicate EndsBy<S>(log: seq<Call<S>>, t: int) {
    log != [] ==> log[|log| - 1].at <= t
  }

  lemma LastOfRun<S>(front: seq<Call<S>>, last: Call<S>, maxCalls: int, windowMs: int)
    requires IsRun(front + [last], maxCalls, windowMs)
    ensures IsRun(front, maxCalls, windowMs) && EndsBy(front, last.at)
    ensures last.accepted == Check(StateAfter(front, maxCalls, windowMs), last.server, last.at, maxCalls, windowMs).1
    ensures StateAfter(front + [last], maxCalls, windowMs) ==
      Check(StateAfter(front, maxCalls, windowMs), last.server, last.at, maxCalls, windowMs).0
  {
    assert (front + [last])[..|front|] == front;
  }

  // Leaving out all calls to other servers changes neither a server's state nor any verdict.
  lemma {:induction false} ServersAreIndependent<S>(log: seq<Call<S>>, server: S, maxCalls: int, windowMs: int)
    requires IsRun(log, maxCalls, windowMs)
    ensures IsRun(Only(log, server), maxCalls, windowMs)
    ensures SameFor(StateAfter(log, maxCalls, windowMs), StateAfter(Only(log, server), maxCalls, windowMs), server)
    ensures log == [] ==> Only(log, server) == []
    ensures log != [] ==> EndsBy(Only(log, server), log[|log| - 1].at)
    decreases |log|
  {
    if log != [] {
      var front, last := log[..|log| - 1], log[|log| - 1];
      assert log == front + [last];
      LastOfRun(front, last, maxCalls, windowMs);
      ServersAreIndependent(front, server, maxCalls, windowMs);
      IndependentStep(front, last, Only(front, server), server, maxCalls, windowMs);
    }
  }

  lemma IndependentStep<S>(
    front: seq<Call<S>>, last: Call<S>, own: seq<Call<S>>, server: S, maxCalls: int, windowMs: int)
    requires IsRun(front + [last], maxCalls, windowMs) && IsRun(own, maxCalls, windowMs)
    requires SameFor(StateAfter(front, maxCalls, windowMs), StateAfter(own, maxCalls, windowMs), server)
    requires if front == [] then own == [] else EndsBy(own, front[|front| - 1].at)
    ensures
      var own' := if last.server == server then own + [last] else own;
      && IsRun(own', maxCalls, windowMs) && EndsBy(own', last.at)
      && SameFor(StateAfter(front + [last], maxCalls, windowMs), StateAfter(own', maxCalls, windowMs), server)
  {
    LastOfRun(front, last, maxCalls, windowMs);
    if last.server == server {
      CheckIsLocal(StateAfter(front, maxCalls, windowMs), StateAfter(own, maxCalls, windowMs),
        server, last.at, maxCalls, windowMs);
      RunOneMore(own, last, maxCalls, windowMs);
    }
  }

  // ---------------------------------------------------------------- the object

  class Limiter<S(==)> {
    const maxCalls: int
    const windowMs: int
    var rateState: map<S, Window>
    ghost var log: seq<Call<S>>

    ghost predicate Valid()
      reads this
    {
      IsRun(log, maxCalls, windowMs) && rateState == StateAfter(log, maxCalls, windowMs)
    }

    constructor (maxCalls: int, windowMs: int)
      ensures Valid() && log == []
      ensures this.maxCalls == maxCalls && this.windowMs == windowMs
    {
      this.maxCalls := maxCalls;
      this.windowMs := windowMs;
      rateState := map[];
      log := [];
    }

    // `t` is the reading of the clock; the error of the source is `accepted == false`.
    method CheckRateLimit(server: S, t: int) returns (accepted: bool)
      requires Valid() && EndsBy(log, t)
      modifies this
      ensures Valid()
      ensures log == old(log) + [Call(server, t, accepted)]
      ensures !accepted ==> rateState == old(rateState)
      ensures !accepted ==> Accepted(old(log), server, t - windowMs + 1, t + 1) >= Limit(maxCalls)
      ensures Slides(log, server, maxCalls, windowMs)
    {
      accepted := Count(server, t);
      ghost var call := Call(server, t, accepted);
      RunOneMore(log, call, maxCalls, windowMs);
      if !accepted {
        RefusedOnlyWhenFull(log, call, maxCalls, windowMs);
      }
      log := log + [call];
      AlwaysSlides(log, server, maxCalls, windowMs);
    }

    method Count(server: S, t: int) returns (accepted: bool)
      modifies this`rateState
      ensures (rateState, accepted) == Check(old(rateState), server, t, maxCalls, windowMs)
      ensures !accepted ==> rateState == old(rateState)
    {
      if server !in rateState || t - rateState[server].windowStart >= windowMs {
        rateState := rateState[server := Window(1, t)];
        accepted := true;
      } else if rateState[server].count >= maxCalls {
        accepted := false;
      } else {
        rateState := rateState[server := rateState[server].(count := rateState[server].count + 1)];
        accepted := true;
      }
    }
  }

  // The sliding bound, wherever the interval starts.
  ghost predicate Slides<S>(log: seq<Call<S>>, server: S, maxCalls: int, windowMs: int) {
    forall from, to :: to == from + windowMs ==> Accepted(log, server, from, to) <= 2 * Limit(maxCalls) - 1
  }

  lemma AlwaysSlides<S>(log: seq<Call<S>>, server: S, maxCalls: int, windowMs: int)
    requires IsRun(log, maxCalls, windowMs)
    ensures Slides(log, server, maxCalls, windowMs)
  {
    forall from, to | to == from + windowMs ensures Accepted(log, server, from, to) <= 2 * Limit(maxCalls) - 1 {
      SlidingBound(log, server, maxCalls, windowMs, from);
    }
  }
}
