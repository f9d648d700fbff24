// Model of apps/server/src/orchestrator/llm-failover.ts: a provider that buffers a
// candidate's stream until its first content event and moves to the next candidate on any
// failure before that, with a per-candidate cooldown that persists across calls.
module LlmFailover {
  import opened Wrappers

  datatype LlmError = LlmError(code: string, category: string, message: string, retryable: bool)

  datatype Event =
    | TextDelta(text: string)
    | ToolUse(toolCallId: string, name: string)
    | ErrorEvent(error: LlmError)
    | Stop(reason: string)
    | Other(kind: string, payload: string)

  // What a candidate's chat() does: a finite run of events that may end in a throw.
  datatype Stream = Stream(events: seq<Event>, thrown: Option<string>)

  datatype ChatInput = ChatInput(model: string, body: string)

  predicate IsContent(e: Event) {
    e.TextDelta? || e.ToolUse?
  }

  function ToErrorEvent(message: string): Event {
    ErrorEvent(LlmError("LLM_FAILOVER_STREAM_ERROR", "external-api", message, false))
  }

  // ---------------------------------------------------------------- specification

  ghost predicate HasContent(events: seq<Event>) {
    exists i :: 0 <= i < |events| && IsContent(events[i])
  }

  ghost predicate HasError(events: seq<Event>) {
    exists i :: 0 <= i < |events| && events[i].ErrorEvent?
  }

  // The part of a stream before its first error event.
  ghost function BeforeError(events: seq<Event>): (r: seq<Event>)
    ensures r <= events && !HasError(r)
    ensures |r| < |events| ==> events[|r|].ErrorEvent?
  {
    if events == [] || events[0].ErrorEvent? then [] else
      var rest := BeforeError(events[1..]);
      assert forall i :: 0 <= i < |rest| ==> !rest[i].ErrorEvent?;
      [events[0]] + rest
  }

  ghost predicate Fails(s: Stream) {
    |BeforeError(s.events)| < |s.events| || s.thrown.Some?
  }

  // The error a failing stream ends in: its first error event or its converted throw.
  ghost function FailureOf(s: Stream): Event
    requires Fails(s)
  {
    var n := |BeforeError(s.events)|;
    if n < |s.events| then s.events[n] else ToErrorEvent(s.thrown.value)
  }

  ghost predicate FailsEarly(s: Stream) {
    Fails(s) && !HasContent(BeforeError(s.events))
  }

  // The stream up to and including its first error.
  ghost function Visible(s: Stream): seq<Event> {
    BeforeError(s.events) + if Fails(s) then [FailureOf(s)] else []
  }

  // First attempt that ends the call: an observed abort, or a stream that does not fail early.
  ghost function Decisive(attempts: seq<Stream>, aborted: nat -> bool): (k: nat)
    ensures k <= |attempts|
    ensures forall j :: 0 <= j < k ==> !aborted(j) && FailsEarly(attempts[j])
    ensures k < |attempts| ==> aborted(k) || !FailsEarly(attempts[k])
  {
    DecisiveFrom(attempts, aborted, 0)
  }

  ghost function DecisiveFrom(attempts: seq<Stream>, aborted: nat -> bool, i: nat): (k: nat)
    requires i <= |attempts|
    ensures i <= k <= |attempts|
    ensures forall j :: i <= j < k ==> !aborted(j) && FailsEarly(attempts[j])
    ensures k < |attempts| ==> aborted(k) || !FailsEarly(attempts[k])
    decreases |attempts| - i
  {
    if i == |attempts| || aborted(i) || !FailsEarly(attempts[i]) then i
    else DecisiveFrom(attempts, aborted, i + 1)
  }

  // What the caller of chat() receives.
  ghost function Output(attempts: seq<Stream>, aborted: nat -> bool): seq<Event> {
    var k := Decisive(attempts, aborted);
    if k < |attempts| then
      if aborted(k) then [Stop("aborted")] else Visible(attempts[k])
    else if attempts == [] then []
    else [FailureOf(attempts[|attempts| - 1])]
  }

  lemma DecisiveIs(attempts: seq<Stream>, aborted: nat -> bool, k: nat)
    requires k <= |attempts|
    requires forall j :: 0 <= j < k ==> !aborted(j) && FailsEarly(attempts[j])
    requires k < |attempts| ==> aborted(k) || !FailsEarly(attempts[k])
    ensures Decisive(attempts, aborted) == k
  {
  }

  // Without an abort the caller sees exactly the first stream that does not fail early, up to
  // and including its first error: nothing of the candidates before it, nothing after it.
  lemma OutputIsFirstSurvivor(early: seq<Stream>, survivor: Stream, later: seq<Stream>, aborted: nat -> bool)
    requires forall j: nat :: !aborted(j)
    requires forall s :: s in early ==> FailsEarly(s)
    requires !FailsEarly(survivor)
    ensures Output(early + [survivor] + later, aborted) == Visible(survivor)
  {
    DecisiveIs(early + [survivor] + later, aborted, |early|);
  }

  // If every candidate fails early the caller sees the last early error alone.
  lemma OutputOfAllEarly(early: seq<Stream>, aborted: nat -> bool)
    requires forall j: nat :: !aborted(j)
    requires early != [] && forall s :: s in early ==> FailsEarly(s)
    ensures Fails(early[|early| - 1])
    ensures Output(early, aborted) == [FailureOf(early[|early| - 1])]
  {
    DecisiveIs(early, aborted, |early|);
  }

  // An abort seen before an attempt ends the call with a stop, whatever candidates are left.
  lemma OutputOfAborted(early: seq<Stream>, later: seq<Stream>, aborted: nat -> bool)
    requires aborted(|early|) && forall j :: 0 <= j < |early| ==> !aborted(j)
    requires later != [] && forall s :: s in early ==> FailsEarly(s)
    ensures Output(early + later, aborted) == [Stop("aborted")]
  {
    DecisiveIs(early + later, aborted, |early|);
  }

  // The same in terms of the events: where a stream fails, and what the caller sees of it.

  // The stream fails at event k, or by a throw at its end, with no text and no tool use before.
  ghost predicate FailsBeforeContent(s: Stream, k: int) {
    && 0 <= k <= |s.events|
    && (if k < |s.events| then s.events[k].ErrorEvent? else s.thrown.Some?)
    && forall j :: 0 <= j < k ==> !s.events[j].ErrorEvent? && !s.events[j].TextDelta? && !s.events[j].ToolUse?
  }

  lemma FailsEarlyIff(s: Stream)
    ensures FailsEarly(s) <==> exists k :: FailsBeforeContent(s, k)
  {
    if k :| FailsBeforeContent(s, k) {
      assert forall i :: 0 <= i < |s.events[..k]| ==> s.events[..k][i] == s.events[i];
      BeforeErrorIs(s.events, k);
    }
    if FailsEarly(s) {
      var n := |BeforeError(s.events)|;
      assert forall j :: 0 <= j < n ==> s.events[j] == BeforeError(s.events)[j];
      assert FailsBeforeContent(s, n);
    }
  }

  // Up to and including the first error event; without one, all events and the throw as an
  // error event of this provider.
  lemma VisibleIs(s: Stream, k: nat)
    requires k <= |s.events| && forall j :: 0 <= j < k ==> !s.events[j].ErrorEvent?
    requires k < |s.events| ==> s.events[k].ErrorEvent?
    ensures k < |s.events| ==> Visible(s) == s.events[..k + 1]
    ensures k == |s.events| ==>
      Visible(s) == s.events +
        match s.thrown
        case None => []
        case Some(m) => [ErrorEvent(LlmError("LLM_FAILOVER_STREAM_ERROR", "external-api", m, false))]
  {
    BeforeErrorIs(s.events, k);
    assert k == |s.events| ==> s.events[..k] == s.events;
    assert k < |s.events| ==> s.events[..k + 1] == s.events[..k] + [s.events[k]];
  }

  // ---------------------------------------------------------------- cooldown accounting

  datatype Candidate = Candidate(model: Option<string>)

  datatype FailureState = FailureState(failures: int, cooldownUntil: int)

  // How one attempt of a candidate ended, with the clock at that moment.
  datatype Outcome =
    | Early(index: nat, at: int)
    | MidStream(index: nat)
    | Clean(index: nat)

  // Early failures of a candidate since its last error-free completion.
  ghost function Streak(log: seq<Outcome>, index: nat): nat {
    if log == [] then 0 else
      var front, last := log[..|log| - 1], log[|log| - 1];
      match last
      case Early(i, _) => Streak(front, index) + (if i == index then 1 else 0)
      case MidStream(_) => Streak(front, index)
      case Clean(i) => if i == index then 0 else Streak(front, index)
  }

  // When the latest of them happened.
  ghost function LatestEarly(log: seq<Outcome>, index: nat): int
    requires Streak(log, index) > 0
  {
    var front, last := log[..|log| - 1], log[|log| - 1];
    if last.Early? && last.index == index then last.at else LatestEarly(front, index)
  }

  ghost predicate Cooling(log: seq<Outcome>, index: nat, limit: int, cooldownMs: int, t: int) {
    && Streak(log, index) > 0
    && Streak(log, index) >= limit
    && t < LatestEarly(log, index) + cooldownMs
  }

  // The map entry of one candidate after one more outcome, as chat() computes it.
  function Record(state: map<nat, FailureState>, o: Outcome, limit: int, cooldownMs: int): map<nat, FailureState> {
    match o
    case Early(i, at) =>
      var s := if i in state then state[i] else FailureState(0, 0);
      state[i := FailureState(
        s.failures + 1,
        if s.failures + 1 >= limit then at + cooldownMs else s.cooldownUntil)]
    case MidStream(_) => state
    case Clean(i) => state[i := FailureState(0, 0)]
  }

  // The map after any sequence of outcomes, from any interleaving of calls.
  ghost function Replay(log: seq<Outcome>, limit: int, cooldownMs: int): map<nat, FailureState> {
    if log == [] then map[]
    else Record(Replay(log[..|log| - 1], limit, cooldownMs), log[|log| - 1], limit, cooldownMs)
  }

  lemma ReplayOneMore(log: seq<Outcome>, o: Outcome, limit: int, cooldownMs: int)
    ensures Replay(log + [o], limit, cooldownMs) == Record(Replay(log, limit, cooldownMs), o, limit, cooldownMs)
  {
    assert (log + [o])[..|log|] == log;
  }

  // The counter is the streak; the cooldown runs from the latest early failure, and only
  // once the streak has reached the limit.
  lemma {:induction false} ReplayAccounts(log: seq<Outcome>, limit: int, cooldownMs: int, index: nat)
    ensures index in Replay(log, limit, cooldownMs) ==>
      Replay(log, limit, cooldownMs)[index] == FailureState(
        Streak(log, index),
        if Streak(log, index) > 0 && Streak(log, index) >= limit then LatestEarly(log, index) + cooldownMs else 0)
    ensures index !in Replay(log, limit, cooldownMs) ==> Streak(log, index) == 0
  {
    if log != [] {
      ReplayAccounts(log[..|log| - 1], limit, cooldownMs, index);
    }
  }

  // The filter of chat(): a candidate is passed over exactly while it is cooling.
  lemma SkippedIffCooling(log: seq<Outcome>, limit: int, cooldownMs: int, index: nat, t: int)
    requires t >= 0
    ensures (index in Replay(log, limit, cooldownMs) && Replay(log, limit, cooldownMs)[index].cooldownUntil > t)
      <==> Cooling(log, index, limit, cooldownMs, t)
  {
    ReplayAccounts(log, limit, cooldownMs, index);
  }

  // One error-free completion clears the candidate: it is not passed over again until it has
  // failed early `limit` more times.
  lemma {:induction false} CleanForgives(
    log: seq<Outcome>, more: seq<Outcome>, index: nat, limit: int, cooldownMs: int, t: int)
    requires |more| < limit
    ensures !Cooling(log + [Clean(index)] + more, index, limit, cooldownMs, t)
  {
    StreakAfterClean(log, more, index);
  }

  lemma {:induction false} StreakAfterClean(log: seq<Outcome>, more: seq<Outcome>, index: nat)
    ensures Streak(log + [Clean(index)] + more, index) <= |more|
  {
    var whole := log + [Clean(index)] + more;
    if more == [] {
      assert whole[..|whole| - 1] == log;
    } else {
      StreakAfterClean(log, more[..|more| - 1], index);
      assert whole[..|whole| - 1] == log + [Clean(index)] + more[..|more| - 1];
    }
  }

  // The candidate fails early at each of these times, one after the other.
  ghost function FailAt(log: seq<Outcome>, index: nat, times: seq<int>): seq<Outcome> {
    if times == [] then log else FailAt(log, index, times[..|times| - 1]) + [Early(index, times[|times| - 1])]
  }

  lemma {:induction false} StreakOfFailures(log: seq<Outcome>, index: nat, times: seq<int>)
    requires log == [] || log[|log| - 1] == Clean(index)
    ensures Streak(FailAt(log, index, times), index) == |times|
    ensures times != [] ==> LatestEarly(FailAt(log, index, times), index) == times[|times| - 1]
  {
    if times != [] {
      var before := FailAt(log, index, times[..|times| - 1]);
      StreakOfFailures(log, index, times[..|times| - 1]);
      assert FailAt(log, index, times)[..|before|] == before;
    }
  }

  // Of a candidate that has never been tried, or has just ended without error, it takes `limit`
  // early failures in a row; it then cools for cooldownMs from the latest of them.
  lemma FailuresCool(log: seq<Outcome>, index: nat, times: seq<int>, limit: int, cooldownMs: int, t: int)
    requires log == [] || log[|log| - 1] == Clean(index)
    ensures Cooling(FailAt(log, index, times), index, limit, cooldownMs, t) <==>
      times != [] && |times| >= limit && t < times[|times| - 1] + cooldownMs
  {
    StreakOfFailures(log, index, times);
  }

  // What becomes of other candidates, and errors after the first content, make no difference.
  lemma OthersDoNotCool(log: seq<Outcome>, o: Outcome, index: nat, limit: int, cooldownMs: int, t: int)
    requires o.index != index || o.MidStream?
    ensures Cooling(log + [o], index, limit, cooldownMs, t) <==> Cooling(log, index, limit, cooldownMs, t)
  {
    assert (log + [o])[..|log|] == log;
  }

  // ---------------------------------------------------------------- attempt order

  ghost function NotCooling(log: seq<Outcome>, readings: seq<int>, limit: int, cooldownMs: int, n: nat): (r: seq<nat>)
    requires n <= |readings|
    ensures forall i :: i in r <==> 0 <= i < n && !Cooling(log, i, limit, cooldownMs, readings[i])
    ensures forall a, b :: 0 <= a < b < |r| ==> r[a] < r[b]
  {
    if n == 0 then [] else
      var r := NotCooling(log, readings, limit, cooldownMs, n - 1);
      assert forall a :: 0 <= a < |r| ==> r[a] in r;
      if Cooling(log, n - 1, limit, cooldownMs, readings[n - 1]) then r else r + [n - 1]
  }

  function Indices(n: nat): (r: seq<nat>)
    ensures |r| == n && forall i :: 0 <= i < n ==> r[i] == i
  {
    seq(n, i => i)
  }

  // Candidates not cooling when consulted, in list order; all of them if every one is cooling.
  ghost function AttemptOrder(log: seq<Outcome>, readings: seq<int>, limit: int, cooldownMs: int): seq<nat> {
    var available := NotCooling(log, readings, limit, cooldownMs, |readings|);
    if available != [] then available else Indices(|readings|)
  }

  ghost predicate AllCooling(log: seq<Outcome>, readings: seq<int>, limit: int, cooldownMs: int) {
    forall i :: 0 <= i < |readings| ==> Cooling(log, i, limit, cooldownMs, readings[i])
  }

  // Strictly increasing; all candidates if every one is cooling, and otherwise exactly those
  // that are not.
  lemma AttemptOrderIs(log: seq<Outcome>, readings: seq<int>, limit: int, cooldownMs: int)
    requires readings != []
    ensures
      var order := AttemptOrder(log, readings, limit, cooldownMs);
      && order != []
      && (forall a, b :: 0 <= a < b < |order| ==> order[a] < order[b])
      && (forall i :: i in order ==> 0 <= i < |readings|)
      && (AllCooling(log, readings, limit, cooldownMs) ==>
            |order| == |readings| && forall i :: 0 <= i < |readings| ==> order[i] == i)
      && (!AllCooling(log, readings, limit, cooldownMs) ==>
            forall i :: 0 <= i < |readings| ==> (i in order <==> !Cooling(log, i, limit, cooldownMs, readings[i])))
  {
    var available := NotCooling(log, readings, limit, cooldownMs, |readings|);
    if available != [] {
      assert available[0] in available;
    }
  }

  // ---------------------------------------------------------------- one attempt

  // The loop over one candidate's stream with its catch clause.
  method Attempt(stream: Stream)
    returns (emitted: seq<Event>, buffer: seq<Event>, terminalError: Option<Event>, preTokenError: Option<Event>)
    ensures FailsEarly(stream) ==>
      emitted == [] && terminalError.None? && preTokenError == Some(FailureOf(stream))
    ensures Fails(stream) && !FailsEarly(stream) ==>
      preTokenError.None? && terminalError.Some? && emitted + [terminalError.value] == Visible(stream)
    ensures !Fails(stream) ==>
      preTokenError.None? && terminalError.None? && emitted + buffer == Visible(stream)
  {
    var started := false;
    emitted, buffer, terminalError, preTokenError := [], [], None, None;
    var i := 0;
    while i < |stream.events|
      invariant 0 <= i <= |stream.events|
      invariant emitted + buffer == stream.events[..i]
      invariant !HasError(stream.events[..i])
      invariant started <==> HasContent(stream.events[..i])
      invariant if started then buffer == [] else emitted == []
      invariant terminalError.None? && preTokenError.None?
    {
      var event := stream.events[i];
      PrefixGrows(stream.events, i);
      if IsContent(event) {
        started := true;
        emitted := emitted + buffer + [event];
        buffer := [];
      } else if event.ErrorEvent? {
        BeforeErrorIs(stream.events, i);
        if started {
          terminalError := Some(event);
        } else {
          preTokenError := Some(event);
        }
        return;
      } else if started {
        emitted := emitted + [event];
      } else {
        buffer := buffer + [event];
      }
      i := i + 1;
    }
    BeforeErrorIs(stream.events, i);
    if stream.thrown.Some? {
      if started {
        terminalError := Some(ToErrorEvent(stream.thrown.value));
      } else {
        preTokenError := Some(ToErrorEvent(stream.thrown.value));
      }
    }
  }

  lemma PrefixGrows(events: seq<Event>, i: nat)
    requires i < |events|
    ensures events[..i + 1] == events[..i] + [events[i]]
    ensures HasContent(events[..i + 1]) <==> HasContent(events[..i]) || IsContent(events[i])
    ensures HasError(events[..i + 1]) <==> HasError(events[..i]) || events[i].ErrorEvent?
  {
    var p, q := events[..i], events[..i + 1];
    if HasContent(p) {
      var j :| 0 <= j < |p| && IsContent(p[j]);
      assert IsContent(q[j]);
    }
    if HasError(p) {
      var j :| 0 <= j < |p| && p[j].ErrorEvent?;
      assert q[j].ErrorEvent?;
    }
    assert q[i] == events[i];
  }

  lemma {:induction false} BeforeErrorIs(events: seq<Event>, i: nat)
    requires i <= |events| && !HasError(events[..i])
    requires i < |events| ==> events[i].ErrorEvent?
    ensures BeforeError(events) == events[..i]
  {
    if i > 0 {
      assert !events[..i][0].ErrorEvent?;
      var rest := events[1..];
      assert rest[..i - 1] == events[..i][1..];
      assert forall j :: 0 <= j < i - 1 ==> events[..i][1..][j] == events[j + 1];
      BeforeErrorIs(rest, i - 1);
    }
  }

  // ---------------------------------------------------------------- the provider

  class FailoverProvider {
    const candidates: seq<Candidate>
    const cooldownMs: int
    const maxConsecutiveFailures: int
    // now() as successive readings of a clock
    const clock: nat -> int
    var readings: nat
    var failureState: map<nat, FailureState>
    ghost var log: seq<Outcome>

    ghost predicate Valid()
      reads this
    {
      && candidates != []
      && (forall n: nat :: clock(n) >= 0)
      && failureState == Replay(log, maxConsecutiveFailures, cooldownMs)
    }

    constructor (candidates: seq<Candidate>, cooldownMs: int, maxConsecutiveFailures: int, clock: nat -> int)
      requires candidates != [] && forall n: nat :: clock(n) >= 0
      ensures Valid() && log == []
      ensures this.candidates == candidates && this.cooldownMs == cooldownMs && this.clock == clock
      ensures this.maxConsecutiveFailures == maxConsecutiveFailures
    {
      this.candidates := candidates;
      this.cooldownMs := cooldownMs;
      this.maxConsecutiveFailures := maxConsecutiveFailures;
      this.clock := clock;
      readings := 0;
      failureState := map[];
      log := [];
    }

    method Now() returns (t: int)
      modifies this`readings
      ensures t == clock(old(readings)) && readings == old(readings) + 1
    {
      t := clock(readings);
      readings := readings + 1;
    }

    // Whether candidate i may be tried now: it has no cooldown, or the clock has reached its end.
    method Consult(i: nat) returns (ok: bool)
      requires Valid()
      modifies this`readings
      ensures readings >= old(readings)
      ensures ok <==> !Cooling(log, i, maxConsecutiveFailures, cooldownMs, clock(old(readings)))
    {
      SkippedIffCooling(log, maxConsecutiveFailures, cooldownMs, i, clock(readings));
      if i !in failureState {
        return true;
      }
      var t := Now();
      return failureState[i].cooldownUntil <= t;
    }

    // Candidate i of the filter at the head of chat(); `seen` records the clock as each
    // candidate is judged.
    method Judge(i: nat, available: seq<nat>, ghost seen: seq<int>, ghost from: nat)
      returns (nowAvailable: seq<nat>, ghost nowSeen: seq<int>)
      requires Valid() && i == |seen| && from <= readings && ReadSince(seen, from, readings)
      requires available == NotCooling(log, seen, maxConsecutiveFailures, cooldownMs, i)
      modifies this`readings
      ensures Valid() && |nowSeen| == i + 1 && from <= readings && ReadSince(nowSeen, from, readings)
      ensures nowAvailable == NotCooling(log, nowSeen, maxConsecutiveFailures, cooldownMs, i + 1)
    {
      NotCoolingMore(log, seen, clock(readings), maxConsecutiveFailures, cooldownMs);
      ReadMore(seen, from, readings);
      nowSeen := seen + [clock(readings)];
      ghost var before := readings;
      var ok := Consult(i);
      ReadLater(nowSeen, from, before, readings);
      nowAvailable := if ok then available + [i] else available;
    }

    method Order() returns (order: seq<nat>, ghost seen: seq<int>)
      requires Valid()
      modifies this`readings
      ensures Valid() && Consulted(seen, old(readings))
      ensures order == AttemptOrder(log, seen, maxConsecutiveFailures, cooldownMs)
    {
      var available: seq<nat> := [];
      seen := [];
      for i := 0 to |candidates|
        invariant Valid() && |seen| == i && old(readings) <= readings
        invariant ReadSince(seen, old(readings), readings)
        invariant available == NotCooling(log, seen, maxConsecutiveFailures, cooldownMs, i)
      {
        available, seen := Judge(i, available, seen, old(readings));
      }
      order := if |available| > 0 then available else Indices(|candidates|);
    }

    ghost function InputFor(index: nat, input: ChatInput): ChatInput
      requires index < |candidates|
    {
      match candidates[index].model
      case Some(m) => if m != "" then input.(model := m) else input
      case None => input
    }

    // What each candidate does in this call, asked with its own model if it names one.
    ghost function Streams(provider: (nat, ChatInput) -> Stream, input: ChatInput): (s: seq<Stream>)
      ensures |s| == |candidates|
    {
      seq(|candidates|, i requires 0 <= i < |candidates| =>
        var own := candidates[i].model.GetOr("");
        provider(i, ChatInput(if own == "" then input.model else own, input.body)))
    }

    lemma InputIs(i: nat, input: ChatInput)
      requires i < |candidates|
      ensures
        var own := candidates[i].model.GetOr("");
        InputFor(i, input) == ChatInput(if own == "" then input.model else own, input.body)
    {
    }

    ghost function Attempts(order: seq<nat>, provider: (nat, ChatInput) -> Stream, input: ChatInput): (s: seq<Stream>)
      requires forall k :: 0 <= k < |order| ==> order[k] < |candidates|
      ensures |s| == |order|
      ensures forall k :: 0 <= k < |s| ==> s[k] == provider(order[k], InputFor(order[k], input))
    {
      seq(|order|, k requires 0 <= k < |order| => provider(order[k], InputFor(order[k], input)))
    }

    // The candidate failed early: bump its counter, and start its cooldown at the limit.
    method RecordEarly(index: nat)
      requires Valid()
      modifies this
      ensures Valid() && readings >= old(readings)
      ensures log == old(log) + [Early(index, clock(old(readings)))]
    {
      var state := if index in failureState then failureState[index] else FailureState(0, 0);
      state := state.(failures := state.failures + 1);
      ReplayOneMore(log, Early(index, clock(readings)), maxConsecutiveFailures, cooldownMs);
      log := log + [Early(index, clock(readings))];
      if state.failures >= maxConsecutiveFailures {
        var t := Now();
        state := state.(cooldownUntil := t + cooldownMs);
      }
      failureState := failureState[index := state];
    }

    method RecordClean(index: nat)
      requires Valid()
      modifies this`failureState, this`log
      ensures Valid()
      ensures log == old(log) + [Clean(index)]
    {
      ghost var more := log + [Clean(index)];
      ReplayOneMore(log, Clean(index), maxConsecutiveFailures, cooldownMs);
      failureState := failureState[index := FailureState(0, 0)];
      assert failureState == Replay(more, maxConsecutiveFailures, cooldownMs);
      log := more;
    }

    ghost method RecordMidStream(index: nat)
      requires Valid()
      modifies this`log
      ensures Valid()
      ensures log == old(log) + [MidStream(index)]
    {
      ReplayOneMore(log, MidStream(index), maxConsecutiveFailures, cooldownMs);
      log := log + [MidStream(index)];
    }

    // One attempt of the loop: run the candidate, then settle its failure state.
    method TryCandidate(index: nat, input: ChatInput, provider: (nat, ChatInput) -> Stream)
      returns (emitted: seq<Event>, preTokenError: Option<Event>)
      requires Valid() && index < |candidates|
      modifies this
      ensures Valid() && readings >= old(readings)
      ensures
        var stream := provider(index, InputFor(index, input));
        if FailsEarly(stream) then
          && emitted == [] && preTokenError == Some(FailureOf(stream))
          && log == old(log) + [Early(index, clock(old(readings)))]
        else
          && preTokenError.None? && emitted == Visible(stream)
          && log == old(log) + [if Fails(stream) then MidStream(index) else Clean(index)]
    {
      var candidateInput := input;
      if candidates[index].model.Some? && candidates[index].model.value != "" {
        candidateInput := input.(model := candidates[index].model.value);
      }
      var buffer, terminalError;
      emitted, buffer, terminalError, preTokenError := Attempt(provider(index, candidateInput));
      if terminalError.Some? {
        emitted := emitted + [terminalError.value];
        RecordMidStream(index);
      } else if preTokenError.Some? {
        RecordEarly(index);
      } else {
        RecordClean(index);
        emitted := emitted + buffer;
      }
    }

    // Attempt k of a call whose earlier attempts all failed early. `emitted` is what the caller
    // receives on its account, also when the call goes on to the next candidate.
    method TryNext(
      order: seq<nat>, k: nat, input: ChatInput, provider: (nat, ChatInput) -> Stream, aborted: nat -> bool,
      last: Option<Event>, ghost before: seq<Outcome>, ghost early: seq<Outcome>, ghost attempts: seq<Stream>)
      returns (emitted: seq<Event>, preTokenError: Option<Event>, ghost more: seq<Outcome>)
      requires Valid() && k < |order| && forall i :: 0 <= i < |order| ==> order[i] < |candidates|
      requires attempts == Attempts(order, provider, input)
      requires StillTrying(before, log, early, order, attempts, aborted, k, last, [])
      modifies this
      ensures Valid() && readings >= old(readings)
      ensures preTokenError.None? ==> IsCall(before, log, order, attempts, aborted, emitted)
      ensures preTokenError.Some? ==>
        StillTrying(before, log, more, order, attempts, aborted, k + 1, preTokenError, emitted)
    {
      more := early;
      if aborted(k) {
        EndsAborted(before, early, order, attempts, aborted, k, last);
        return [Stop("aborted")], None, early;
      }
      ghost var t := clock(readings);
      emitted, preTokenError := TryCandidate(order[k], input, provider);
      if preTokenError.None? {
        EndsDecided(before, early, order, attempts, aborted, k, last);
      } else {
        AnotherFailure(early, order, attempts, aborted, k, last, t);
        more := early + [Early(order[k], t)];
      }
    }

    // The attempt loop of chat() over a given order: it ends the call, or every attempt fails.
    method TryEach(order: seq<nat>, input: ChatInput, provider: (nat, ChatInput) -> Stream, aborted: nat -> bool)
      returns (out: seq<Event>, ended: bool, lastPreTokenError: Option<Event>, ghost early: seq<Outcome>)
      requires Valid() && forall k :: 0 <= k < |order| ==> order[k] < |candidates|
      modifies this
      ensures Valid() && readings >= old(readings)
      ensures ended ==> IsCall(old(log), log, order, Attempts(order, provider, input), aborted, out)
      ensures !ended ==>
        StillTrying(
          old(log), log, early, order, Attempts(order, provider, input), aborted, |order|, lastPreTokenError, out)
    {
      out, ended, lastPreTokenError, early := [], false, None, [];
      ghost var before, attempts := log, Attempts(order, provider, input);
      NothingTried(before, order, attempts, aborted);
      var attempt := 0;
      while attempt < |order|
        invariant attempt <= |order| && Valid() && readings >= old(readings) && !ended
        invariant StillTrying(before, log, early, order, attempts, aborted, attempt, lastPreTokenError, out)
      {
        var emitted, preTokenError;
        NothingBefore(before, log, early, order, attempts, aborted, attempt, lastPreTokenError, out);
        emitted, preTokenError, early :=
          TryNext(order, attempt, input, provider, aborted, lastPreTokenError, before, early, attempts);
        out := out + emitted;
        if preTokenError.None? {
          ended := true;
          return;
        }
        lastPreTokenError := preTokenError;
        attempt := attempt + 1;
      }
    }

    // The loop, and after it the last early error if there was nothing else to yield.
    method TryInOrder(order: seq<nat>, input: ChatInput, provider: (nat, ChatInput) -> Stream, aborted: nat -> bool)
      returns (out: seq<Event>)
      requires Valid() && order != []
      requires forall k :: 0 <= k < |order| ==> order[k] < |candidates|
      modifies this
      ensures Valid() && readings >= old(readings)
      ensures IsCall(old(log), log, order, Attempts(order, provider, input), aborted, out)
    {
      ghost var before, early := log, [];
      var ended, lastPreTokenError;
      out, ended, lastPreTokenError, early := TryEach(order, input, provider, aborted);
      if !ended {
        RunsOut(before, early, order, Attempts(order, provider, input), aborted, lastPreTokenError);
        if lastPreTokenError.Some? {
          out := out + [lastPreTokenError.value];
        }
      }
    }

    // One call of chat(). `provider(i, input)` is the stream candidate i produces in this
    // call; `aborted(k)` is the abort flag as polled before attempt k.
    method Chat(input: ChatInput, provider: (nat, ChatInput) -> Stream, aborted: nat -> bool)
      returns (out: seq<Event>, ghost order: seq<nat>, ghost seen: seq<int>)
      requires Valid()
      modifies this
      ensures Valid()
      ensures Consulted(seen, old(readings))
      ensures order == AttemptOrder(old(log), seen, maxConsecutiveFailures, cooldownMs)
      ensures forall k :: 0 <= k < |order| ==> order[k] < |candidates|
      ensures IsCall(old(log), log, order, Attempts(order, provider, input), aborted, out)
      ensures NeverAborted(aborted) ==>
        && IsAnswer(Picked(order, Streams(provider, input)), out)
        && (AllCooling(old(log), seen, maxConsecutiveFailures, cooldownMs) ==> IsAnswer(Streams(provider, input), out))
    {
      var attemptOrder;
      attemptOrder, seen := Order();
      order := attemptOrder;
      AttemptOrderIs(log, seen, maxConsecutiveFailures, cooldownMs);
      assert forall k :: 0 <= k < |order| ==> order[k] in order;
      out := TryInOrder(attemptOrder, input, provider, aborted);
      AnswerOfOrder(order, provider, input, aborted, out);
    }

    // The streams of these candidates.
    ghost function Picked(order: seq<nat>, streams: seq<Stream>): (s: seq<Stream>)
      requires forall k :: 0 <= k < |order| ==> order[k] < |streams|
      ensures |s| == |order|
    {
      seq(|order|, k requires 0 <= k < |order| => streams[order[k]])
    }

    lemma AttemptsArePicked(order: seq<nat>, provider: (nat, ChatInput) -> Stream, input: ChatInput)
      requires forall k :: 0 <= k < |order| ==> order[k] < |candidates|
      ensures Attempts(order, provider, input) == Picked(order, Streams(provider, input))
    {
      forall k | 0 <= k < |order|
        ensures Attempts(order, provider, input)[k] == Streams(provider, input)[order[k]]
      {
        InputIs(order[k], input);
      }
    }

    // An order that lists all candidates gives the answer of the candidates in their order.
    lemma AnswerOfOrder(
      order: seq<nat>, provider: (nat, ChatInput) -> Stream, input: ChatInput, aborted: nat -> bool, out: seq<Event>)
      requires order != [] && forall k :: 0 <= k < |order| ==> order[k] < |candidates|
      requires out == Output(Attempts(order, provider, input), aborted)
      ensures
        NeverAborted(aborted) ==>
          && IsAnswer(Picked(order, Streams(provider, input)), out)
          && (|order| == |candidates| && (forall i :: 0 <= i < |order| ==> order[i] == i) ==>
                IsAnswer(Streams(provider, input), out))
    {
      AttemptsArePicked(order, provider, input);
      if NeverAborted(aborted) {
        OutputIsAnswer(Attempts(order, provider, input), aborted);
        if |order| == |candidates| && forall i :: 0 <= i < |order| ==> order[i] == i {
          assert Picked(order, Streams(provider, input)) == Streams(provider, input);
        }
      }
    }

    // Each entry of `seen` is a reading of the clock taken since reading number `from`.
    ghost predicate Consulted(seen: seq<int>, from: nat)
      reads this
    {
      |seen| == |candidates| && from <= readings && ReadSince(seen, from, readings)
    }

    ghost predicate ReadSince(seen: seq<int>, from: nat, to: nat) {
      forall i :: 0 <= i < |seen| ==> ReadBetween(seen[i], from, to)
    }

    lemma ReadMore(seen: seq<int>, from: nat, to: nat)
      requires ReadSince(seen, from, to) && from <= to
      ensures ReadSince(seen + [clock(to)], from, to)
    {
      assert ReadBetween(clock(to), from, to);
    }

    lemma ReadLater(seen: seq<int>, from: nat, to: nat, later: nat)
      requires ReadSince(seen, from, to) && to <= later
      ensures ReadSince(seen, from, later)
    {
      forall i | 0 <= i < |seen| ensures ReadBetween(seen[i], from, later) {
        assert ReadBetween(seen[i], from, to);
      }
    }

    ghost predicate ReadBetween(t: int, from: nat, to: nat) {
      exists n: nat :: from <= n <= to && t == clock(n)
    }
  }

  ghost predicate NeverAborted(aborted: nat -> bool) {
    forall j: nat :: !aborted(j)
  }

  // What the caller is to get of these streams: the first that does not fail early, or, if all
  // do, the error of the last.
  ghost predicate IsAnswer(streams: seq<Stream>, out: seq<Event>) {
    || (exists k :: IsFirstToSurvive(streams, k) && out == Visible(streams[k]))
    || (streams != [] && AllFailEarly(streams) && out == [FailureOf(streams[|streams| - 1])])
  }

  ghost predicate AllFailEarly(streams: seq<Stream>) {
    forall k :: 0 <= k < |streams| ==> FailsEarly(streams[k])
  }

  ghost predicate IsFirstToSurvive(streams: seq<Stream>, k: int) {
    0 <= k < |streams| && !FailsEarly(streams[k]) && forall j :: 0 <= j < k ==> FailsEarly(streams[j])
  }

  lemma OutputIsAnswer(streams: seq<Stream>, aborted: nat -> bool)
    requires NeverAborted(aborted) && streams != []
    ensures IsAnswer(streams, Output(streams, aborted))
  {
    var k := Decisive(streams, aborted);
    if k < |streams| {
      assert IsFirstToSurvive(streams, k);
    }
  }

  // The log of attempts that all failed early.
  ghost predicate EarlyOf(early: seq<Outcome>, order: seq<nat>) {
    && |early| <= |order|
    && forall j :: 0 <= j < |early| ==> early[j].Early? && early[j].index == order[j]
  }

  // What a whole call adds to the log: its early failures, then how the deciding attempt ended.
  ghost predicate LoggedCall(
    before: seq<Outcome>, log: seq<Outcome>, order: seq<nat>, attempts: seq<Stream>, aborted: nat -> bool)
    requires |attempts| == |order|
  {
    var k := Decisive(attempts, aborted);
    && |log| >= |before| + k && log[..|before|] == before
    && EarlyOf(log[|before|..|before| + k], order)
    && log[|before| + k..] == Ending(order, attempts, aborted, k)
  }

  ghost function Ending(order: seq<nat>, attempts: seq<Stream>, aborted: nat -> bool, k: nat): seq<Outcome>
    requires |attempts| == |order| && k <= |order|
  {
    if k == |order| || aborted(k) then []
    else if Fails(attempts[k]) then [MidStream(order[k])]
    else [Clean(order[k])]
  }

  ghost predicate AllEarly(attempts: seq<Stream>, aborted: nat -> bool, n: nat) {
    n <= |attempts| && forall j :: 0 <= j < n ==> !aborted(j) && FailsEarly(attempts[j])
  }

  // What a call does: its output, and what it adds to the log.
  ghost predicate IsCall(
    before: seq<Outcome>, log: seq<Outcome>, order: seq<nat>, attempts: seq<Stream>, aborted: nat -> bool,
    out: seq<Event>)
  {
    |attempts| == |order| && out == Output(attempts, aborted) && LoggedCall(before, log, order, attempts, aborted)
  }

  // The state of a call after k attempts that all failed early.
  ghost predicate AllFailedEarly(
    early: seq<Outcome>, order: seq<nat>, attempts: seq<Stream>, aborted: nat -> bool, k: nat, last: Option<Event>)
  {
    && |attempts| == |order| && |early| == k && EarlyOf(early, order) && AllEarly(attempts, aborted, k)
    && last == if k == 0 then None else Some(FailureOf(attempts[k - 1]))
  }

  // The same with what the caller has received, which is nothing, and the log.
  ghost predicate StillTrying(
    before: seq<Outcome>, log: seq<Outcome>, early: seq<Outcome>, order: seq<nat>, attempts: seq<Stream>,
    aborted: nat -> bool, k: nat, last: Option<Event>, out: seq<Event>)
  {
    out == [] && log == before + early && AllFailedEarly(early, order, attempts, aborted, k, last)
  }

  lemma NothingTried(before: seq<Outcome>, order: seq<nat>, attempts: seq<Stream>, aborted: nat -> bool)
    requires |attempts| == |order|
    ensures StillTrying(before, before, [], order, attempts, aborted, 0, None, [])
  {
  }

  lemma NothingBefore(
    before: seq<Outcome>, log: seq<Outcome>, early: seq<Outcome>, order: seq<nat>, attempts: seq<Stream>,
    aborted: nat -> bool, k: nat, last: Option<Event>, out: seq<Event>)
    requires StillTrying(before, log, early, order, attempts, aborted, k, last, out)
    ensures StillTrying(before, log, early, order, attempts, aborted, k, last, [])
    ensures forall more: seq<Event> :: out + more == more
  {
    forall more: seq<Event> ensures [] + more == more {
    }
  }

  lemma AnotherFailure(
    early: seq<Outcome>, order: seq<nat>, attempts: seq<Stream>, aborted: nat -> bool, k: nat, last: Option<Event>,
    t: int)
    requires AllFailedEarly(early, order, attempts, aborted, k, last)
    requires k < |order| && !aborted(k) && FailsEarly(attempts[k])
    ensures AllFailedEarly(
      early + [Early(order[k], t)], order, attempts, aborted, k + 1, Some(FailureOf(attempts[k])))
  {
  }

  lemma LoggedIs(
    before: seq<Outcome>, early: seq<Outcome>, ending: seq<Outcome>, order: seq<nat>, attempts: seq<Stream>,
    aborted: nat -> bool)
    requires |attempts| == |order| && |early| == Decisive(attempts, aborted) && EarlyOf(early, order)
    requires ending == Ending(order, attempts, aborted, |early|)
    ensures LoggedCall(before, before + early + ending, order, attempts, aborted)
  {
    var log := before + early + ending;
    assert log[..|before|] == before;
    assert log[|before|..|before| + |early|] == early;
    assert log[|before| + |early|..] == ending;
  }

  // An abort seen before attempt k ends the call there.
  lemma EndsAborted(
    before: seq<Outcome>, early: seq<Outcome>, order: seq<nat>, attempts: seq<Stream>, aborted: nat -> bool, k: nat,
    last: Option<Event>)
    requires AllFailedEarly(early, order, attempts, aborted, k, last) && k < |order| && aborted(k)
    ensures IsCall(before, before + early, order, attempts, aborted, [Stop("aborted")])
  {
    DecisiveIs(attempts, aborted, k);
    LoggedIs(before, early, [], order, attempts, aborted);
    assert before + early + [] == before + early;
  }

  // So does an attempt that does not fail early.
  lemma EndsDecided(
    before: seq<Outcome>, early: seq<Outcome>, order: seq<nat>, attempts: seq<Stream>, aborted: nat -> bool, k: nat,
    last: Option<Event>)
    requires AllFailedEarly(early, order, attempts, aborted, k, last)
    requires k < |order| && !aborted(k) && !FailsEarly(attempts[k])
    ensures IsCall(
      before, before + early + [if Fails(attempts[k]) then MidStream(order[k]) else Clean(order[k])],
      order, attempts, aborted, Visible(attempts[k]))
  {
    DecisiveIs(attempts, aborted, k);
    LoggedIs(before, early, [if Fails(attempts[k]) then MidStream(order[k]) else Clean(order[k])],
      order, attempts, aborted);
  }

  lemma RunsOut(
    before: seq<Outcome>, early: seq<Outcome>, order: seq<nat>, attempts: seq<Stream>, aborted: nat -> bool,
    last: Option<Event>)
    requires order != [] && AllFailedEarly(early, order, attempts, aborted, |order|, last)
    ensures last.Some? && IsCall(before, before + early, order, attempts, aborted, [last.value])
  {
    DecisiveIs(attempts, aborted, |order|);
    LoggedIs(before, early, [], order, attempts, aborted);
    assert before + early + [] == before + early;
  }

  lemma {:induction false} NotCoolingPrefix(
    log: seq<Outcome>, readings: seq<int>, t: int, limit: int, cooldownMs: int, n: nat)
    requires n <= |readings|
    ensures NotCooling(log, readings + [t], limit, cooldownMs, n) == NotCooling(log, readings, limit, cooldownMs, n)
  {
    if n > 0 {
      NotCoolingPrefix(log, readings, t, limit, cooldownMs, n - 1);
    }
  }

  // One more candidate judged at clock reading t.
  lemma NotCoolingMore(log: seq<Outcome>, readings: seq<int>, t: int, limit: int, cooldownMs: int)
    ensures
      var n, judged := |readings|, NotCooling(log, readings, limit, cooldownMs, |readings|);
      NotCooling(log, readings + [t], limit, cooldownMs, n + 1)
        == if Cooling(log, n, limit, cooldownMs, t) then judged else judged + [n]
  {
    NotCoolingPrefix(log, readings, t, limit, cooldownMs, |readings|);
    assert (readings + [t])[|readings|] == t;
  }
}
