// Model of the execution half of apps/server/src/orchestrator/dag-planner.ts:
// placeholder substitution and the level-by-level run, with the proof that the answers
// do not depend on the order in which independent nodes run or finish.
module DagExecution {
  import opened Wrappers
  import opened DagPlanner

  // ---------------------------------------------------------------- placeholders

  // The class [\w-] of the placeholder pattern.
  predicate IsNameChar(c: char) {
    'a' <= c <= 'z' || 'A' <= c <= 'Z' || '0' <= c <= '9' || c == '_' || c == '-'
  }

  function NameLength(s: string): (n: nat)
    ensures n <= |s|
    ensures forall i :: 0 <= i < n ==> IsNameChar(s[i])
    ensures n < |s| ==> !IsNameChar(s[n])
  {
    if s == "" || !IsNameChar(s[0]) then 0 else 1 + NameLength(s[1..])
  }

  // The name of the placeholder {{name}} at the very start of the text, if there is one.
  function PlaceholderAt(s: string): (name: Option<string>)
    ensures name.Some? ==> |name.value| > 0 && |s| >= |name.value| + 4
  {
    if |s| < 2 || s[..2] != "{{" then None else
      var n := NameLength(s[2..]);
      if n == 0 || |s| < n + 4 || s[n + 2..n + 4] != "}}" then None else Some(s[2..n + 2])
  }

  function ResolvePlaceholders(task: string, results: map<string, string>): string
    decreases |task|
  {
    if task == "" then ""
    else match PlaceholderAt(task)
      case Some(name) =>
        var n := |name| + 4;
        (if name in results then results[name] else task[..n]) + ResolvePlaceholders(task[n..], results)
      case None => [task[0]] + ResolvePlaceholders(task[1..], results)
  }

  // The names a task refers to.
  function Placeholders(task: string): set<string>
    decreases |task|
  {
    if task == "" then {}
    else match PlaceholderAt(task)
      case Some(name) => {name} + Placeholders(task[|name| + 4..])
      case None => Placeholders(task[1..])
  }

  ghost predicate AgreeOn(a: map<string, string>, b: map<string, string>, names: set<string>) {
    forall x :: x in names ==> (x in a <==> x in b) && (x in a ==> a[x] == b[x])
  }

  lemma {:induction false} ResolveDependsOnPlaceholders(task: string, a: map<string, string>, b: map<string, string>)
    requires AgreeOn(a, b, Placeholders(task))
    ensures ResolvePlaceholders(task, a) == ResolvePlaceholders(task, b)
    decreases |task|
  {
    if task != "" {
      var name := PlaceholderAt(task);
      var rest := if name.Some? then task[|name.value| + 4..] else task[1..];
      assert Placeholders(task) == Placeholders(rest) + if name.Some? then {name.value} else {};
      ResolveDependsOnPlaceholders(rest, a, b);
    }
  }

  // ---- the pattern itself, and what replacing all its matches means

  // The text starts with two braces, a name of letters, digits, underscores and hyphens, and
  // two braces.
  ghost predicate StartsWithReference(s: string, name: string) {
    IsName(name) && "{{" + name + "}}" <= s
  }

  ghost predicate IsName(name: string) {
    && name != ""
    && forall i :: 0 <= i < |name| ==>
         || 'a' <= name[i] <= 'z' || 'A' <= name[i] <= 'Z' || '0' <= name[i] <= '9'
         || name[i] == '_' || name[i] == '-'
  }

  // No match begins within the text, followed by the rest.
  ghost predicate NoneStarts(text: string, rest: string) {
    forall i, name :: 0 <= i < |text| ==> !StartsWithReference((text + rest)[i..], name)
  }

  // A task text as literal stretches and references.
  datatype Piece = Literal(text: string) | Ref(name: string)

  // The literals may hold braces, as long as no match begins in one of them, not even one that
  // reaches into the pieces behind it.
  ghost predicate WellSplit(pieces: seq<Piece>) {
    pieces != [] ==>
      && WellSplit(pieces[1..])
      && match pieces[0]
         case Literal(text) => NoneStarts(text, Render(pieces[1..]))
         case Ref(name) => IsName(name)
  }

  function Render(pieces: seq<Piece>): string {
    if pieces == [] then ""
    else (match pieces[0] case Literal(t) => t case Ref(n) => "{{" + n + "}}") + Render(pieces[1..])
  }

  function Substitute(pieces: seq<Piece>, results: map<string, string>): string {
    if pieces == [] then ""
    else
      (match pieces[0]
       case Literal(t) => t
       case Ref(n) => if n in results then results[n] else "{{" + n + "}}")
      + Substitute(pieces[1..], results)
  }

  ghost predicate Mentions(pieces: seq<Piece>, name: string) {
    exists i :: 0 <= i < |pieces| && pieces[i] == Ref(name)
  }

  lemma {:induction false} NameLengthOf(name: string, rest: string)
    requires forall i :: 0 <= i < |name| ==> IsNameChar(name[i])
    requires rest == "" || !IsNameChar(rest[0])
    ensures NameLength(name + rest) == |name|
  {
    if name == "" {
      assert name + rest == rest;
    } else {
      assert (name + rest)[1..] == name[1..] + rest;
      NameLengthOf(name[1..], rest);
    }
  }

  lemma ReferenceText(name: string, rest: string)
    ensures var s := "{{" + name + "}}" + rest;
      && s[..2] == "{{" && s[2..] == name + ("}}" + rest) && s[|name| + 2..|name| + 4] == "}}"
      && s[2..|name| + 2] == name && s[..|name| + 4] == "{{" + name + "}}" && s[|name| + 4..] == rest
  {
  }

  lemma PlaceholderOf(name: string, rest: string)
    requires IsName(name)
    ensures PlaceholderAt("{{" + name + "}}" + rest) == Some(name)
  {
    ReferenceText(name, rest);
    NameLengthOf(name, "}}" + rest);
  }

  lemma FrontOf(s: string, n: nat)
    requires n + 4 <= |s| && s[..2] == "{{" && s[n + 2..n + 4] == "}}"
    ensures "{{" + s[2..n + 2] + "}}" <= s
  {
    assert s[..n + 4] == s[..2] + s[2..n + 2] + s[n + 2..n + 4];
  }

  // The scan for a placeholder finds exactly the matches.
  lemma PlaceholderIff(s: string, name: string)
    ensures PlaceholderAt(s) == Some(name) <==> StartsWithReference(s, name)
  {
    if StartsWithReference(s, name) {
      var n := |name| + 4;
      assert s == "{{" + name + "}}" + s[n..];
      PlaceholderOf(name, s[n..]);
    }
    if PlaceholderAt(s) == Some(name) {
      FrontOf(s, |name|);
    }
  }

  lemma NoPlaceholder(s: string)
    requires forall name :: !StartsWithReference(s, name)
    ensures PlaceholderAt(s).None?
  {
    if PlaceholderAt(s).Some? {
      PlaceholderIff(s, PlaceholderAt(s).value);
    }
  }

  lemma FirstOfTwo(text: string, rest: string)
    requires text != ""
    ensures text + rest != "" && (text + rest)[0] == text[0] && (text + rest)[1..] == text[1..] + rest
    ensures [text[0]] + (text[1..] + rest) == text + rest
  {
  }

  lemma NoneStartsLater(text: string, rest: string)
    requires text != "" && NoneStarts(text, rest)
    ensures PlaceholderAt(text + rest).None? && NoneStarts(text[1..], rest)
  {
    var whole := text + rest;
    assert whole[0..] == whole;
    NoPlaceholder(whole);
    FirstOfTwo(text, rest);
    forall i, name | 0 <= i < |text[1..]| ensures !StartsWithReference((text[1..] + rest)[i..], name) {
      assert whole[1..][i..] == whole[i + 1..];
    }
  }

  lemma {:induction false} ResolveSkipsLiteral(text: string, rest: string, results: map<string, string>)
    requires NoneStarts(text, rest)
    ensures ResolvePlaceholders(text + rest, results) == text + ResolvePlaceholders(rest, results)
    ensures Placeholders(text + rest) == Placeholders(rest)
  {
    if text == "" {
      assert text + rest == rest;
    } else {
      NoneStartsLater(text, rest);
      FirstOfTwo(text, rest);
      ResolveSkipsLiteral(text[1..], rest, results);
      FirstOfTwo(text, ResolvePlaceholders(rest, results));
    }
  }

  lemma ResolveTakesRef(name: string, rest: string, results: map<string, string>)
    requires IsName(name)
    ensures ResolvePlaceholders("{{" + name + "}}" + rest, results) ==
      (if name in results then results[name] else "{{" + name + "}}") + ResolvePlaceholders(rest, results)
    ensures Placeholders("{{" + name + "}}" + rest) == {name} + Placeholders(rest)
  {
    PlaceholderOf(name, rest);
    ReferenceText(name, rest);
  }

  // Substitution on text is substitution on pieces: every reference with a result is replaced
  // once, everything else, unknown references and stray braces included, stays as written, and
  // inserted answers are not scanned again. The names found are those of the references.
  lemma {:induction false} ResolveIsSubstitution(pieces: seq<Piece>, results: map<string, string>)
    requires WellSplit(pieces)
    ensures ResolvePlaceholders(Render(pieces), results) == Substitute(pieces, results)
    ensures forall name :: name in Placeholders(Render(pieces)) <==> Mentions(pieces, name)
  {
    if pieces != [] {
      var rest := pieces[1..];
      ResolveIsSubstitution(rest, results);
      match pieces[0]
      case Literal(text) => ResolveSkipsLiteral(text, Render(rest), results);
      case Ref(name) => ResolveTakesRef(name, Render(rest), results);
      forall name ensures Mentions(pieces, name) <==> pieces[0] == Ref(name) || Mentions(rest, name) {
        MentionsFirst(pieces, name);
      }
    }
  }

  lemma MentionsFirst(pieces: seq<Piece>, name: string)
    requires pieces != []
    ensures Mentions(pieces, name) <==> pieces[0] == Ref(name) || Mentions(pieces[1..], name)
  {
    if Mentions(pieces[1..], name) {
      var i :| 0 <= i < |pieces[1..]| && pieces[1..][i] == Ref(name);
      assert pieces[i + 1] == Ref(name);
    }
    if Mentions(pieces, name) && pieces[0] != Ref(name) {
      var i :| 0 <= i < |pieces| && pieces[i] == Ref(name);
      assert pieces[1..][i - 1] == Ref(name);
    }
  }

  // Every text can be split so.
  lemma {:induction false} EveryTaskSplits(task: string) returns (pieces: seq<Piece>)
    ensures WellSplit(pieces) && Render(pieces) == task
    decreases |task|
  {
    if task == "" {
      pieces := [];
    } else {
      var name := PlaceholderAt(task);
      var n := if name.Some? then |name.value| + 4 else 1;
      var rest := EveryTaskSplits(task[n..]);
      if name.Some? {
        PlaceholderIff(task, name.value);
        pieces := [Ref(name.value)] + rest;
        assert task == "{{" + name.value + "}}" + task[n..];
      } else {
        pieces := [Literal([task[0]])] + rest;
        OneThatStartsNone(task);
      }
      assert pieces[1..] == rest;
    }
  }

  lemma OneThatStartsNone(task: string)
    requires task != "" && PlaceholderAt(task).None?
    ensures [task[0]] + task[1..] == task && NoneStarts([task[0]], task[1..])
  {
    var whole := [task[0]] + task[1..];
    assert whole == task && whole[0..] == task;
    forall name ensures !StartsWithReference(task, name) {
      PlaceholderIff(task, name);
    }
  }

  // A task none of whose names has a result is run as it is written.
  lemma {:induction false} NothingToResolve(task: string, results: map<string, string>)
    requires forall name :: name in Placeholders(task) ==> name !in results
    ensures ResolvePlaceholders(task, results) == task
    decreases |task|
  {
    if task != "" {
      var name := PlaceholderAt(task);
      var n := if name.Some? then |name.value| + 4 else 1;
      NothingToResolve(task[n..], results);
      assert task[..n] + task[n..] == task;
    }
  }

  // ---------------------------------------------------------------- schedules

  type Answers = map<string, string>

  // A batch reads the answers known before it, then stores its own in list order.
  function StoreBatch(into: Answers, batch: seq<DagNode>, before: Answers, run: string -> string): Answers
    decreases |batch|
  {
    if batch == [] then into else
      var n := batch[0];
      StoreBatch(into[n.id := run(ResolvePlaceholders(n.task, before))], batch[1..], before, run)
  }

  function RunSchedule(s: seq<seq<DagNode>>, run: string -> string): Answers
    decreases |s|
  {
    if s == [] then map[] else
      var before := RunSchedule(s[..|s| - 1], run);
      StoreBatch(before, s[|s| - 1], before, run)
  }

  // The reference: one node after the other.
  function RunSequential(order: seq<DagNode>, run: string -> string): Answers
    decreases |order|
  {
    if order == [] then map[] else
      var before := RunSequential(order[..|order| - 1], run);
      var n := order[|order| - 1];
      before[n.id := run(ResolvePlaceholders(n.task, before))]
  }

  ghost function Placed(s: seq<seq<DagNode>>): set<string>
    decreases |s|
  {
    if s == [] then {} else Placed(s[..|s| - 1]) + Ids(s[|s| - 1])
  }

  // The batch runs nodes of the plan, none placed before, all of whose dependencies are.
  ghost predicate FitsAfter(plan: seq<DagNode>, batch: seq<DagNode>, placed: set<string>) {
    && DistinctIds(batch)
    && (forall n :: n in batch ==> n in plan && n.id !in placed)
    && (forall n, dep :: n in batch && dep in n.dependsOn ==> dep in placed)
  }

  ghost predicate Ordered(plan: seq<DagNode>, s: seq<seq<DagNode>>)
    decreases |s|
  {
    s != [] ==> Ordered(plan, s[..|s| - 1]) && FitsAfter(plan, s[|s| - 1], Placed(s[..|s| - 1]))
  }

  ghost predicate ValidSchedule(plan: seq<DagNode>, s: seq<seq<DagNode>>) {
    Ordered(plan, s) && Placed(s) == Ids(plan)
  }

  ghost predicate Reaches(plan: seq<DagNode>, a: string, b: string) {
    exists p :: IsChain(plan, p) && p[0] == a && p[|p| - 1] == b
  }

  // Every placeholder naming a node of the plan names a (transitive) dependency of the
  // task's own node, or a node that (transitively) depends on it, or that node itself.
  ghost predicate Scoped(plan: seq<DagNode>) {
    forall n, name :: n in plan && name in Placeholders(n.task) && name in Ids(plan) ==>
      name == n.id || Reaches(plan, n.id, name) || Reaches(plan, name, n.id)
  }

  lemma {:induction false} StoreBatchSpec(into: Answers, batch: seq<DagNode>, before: Answers, run: string -> string)
    requires DistinctIds(batch)
    ensures StoreBatch(into, batch, before, run).Keys == into.Keys + Ids(batch)
    ensures forall n :: n in batch ==>
      StoreBatch(into, batch, before, run)[n.id] == run(ResolvePlaceholders(n.task, before))
    ensures forall k :: k in into && k !in Ids(batch) ==> StoreBatch(into, batch, before, run)[k] == into[k]
    decreases |batch|
  {
    if batch != [] {
      var n, rest := batch[0], batch[1..];
      var next := into[n.id := run(ResolvePlaceholders(n.task, before))];
      StoreBatchSpec(next, rest, before, run);
      assert forall m :: m in batch <==> m == n || m in rest;
      assert n.id !in Ids(rest);
    }
  }

  lemma {:induction false} ScheduleKeys(plan: seq<DagNode>, s: seq<seq<DagNode>>, run: string -> string)
    requires Ordered(plan, s)
    ensures RunSchedule(s, run).Keys == Placed(s)
    decreases |s|
  {
    if s != [] {
      var front := s[..|s| - 1];
      ScheduleKeys(plan, front, run);
      StoreBatchSpec(RunSchedule(front, run), s[|s| - 1], RunSchedule(front, run), run);
    }
  }

  // Batch i runs this node, and its answer and those before it stay.
  ghost predicate RunsIn(plan: seq<DagNode>, s: seq<seq<DagNode>>, n: DagNode, run: string -> string, i: nat) {
    && i < |s| && n in s[i] && Ordered(plan, s[..i]) && n.id !in Placed(s[..i])
    && Placed(s[..i]) <= Placed(s)
    && RunSchedule(s, run).Keys == Placed(s) && RunSchedule(s[..i], run).Keys == Placed(s[..i])
    && n.id in Placed(s)
    && RunSchedule(s, run)[n.id] == run(ResolvePlaceholders(n.task, RunSchedule(s[..i], run)))
    && forall k :: k in Placed(s[..i]) ==> RunSchedule(s, run)[k] == RunSchedule(s[..i], run)[k]
  }

  lemma RunsLast(plan: seq<DagNode>, s: seq<seq<DagNode>>, n: DagNode, run: string -> string)
    requires Ordered(plan, s) && s != [] && n in s[|s| - 1]
    ensures RunsIn(plan, s, n, run, |s| - 1)
  {
    var front, last := s[..|s| - 1], s[|s| - 1];
    ScheduleKeys(plan, s, run);
    ScheduleKeys(plan, front, run);
    StoreBatchSpec(RunSchedule(front, run), last, RunSchedule(front, run), run);
  }

  lemma RunsBefore(plan: seq<DagNode>, s: seq<seq<DagNode>>, n: DagNode, run: string -> string, i: nat)
    requires Ordered(plan, s) && s != [] && RunsIn(plan, s[..|s| - 1], n, run, i)
    ensures RunsIn(plan, s, n, run, i)
  {
    var front, last := s[..|s| - 1], s[|s| - 1];
    assert front[..i] == s[..i];
    ScheduleKeys(plan, s, run);
    StoreBatchSpec(RunSchedule(front, run), last, RunSchedule(front, run), run);
    PlacedStays(plan, front, last);
  }

  lemma PlacedStays(plan: seq<DagNode>, front: seq<seq<DagNode>>, batch: seq<DagNode>)
    requires FitsAfter(plan, batch, Placed(front))
    ensures forall id :: id in Placed(front) ==> id !in Ids(batch)
  {
  }

  // The batch a placed node runs in, and what it reads there.
  lemma {:induction false} AnswerOf(plan: seq<DagNode>, s: seq<seq<DagNode>>, n: DagNode, run: string -> string)
    returns (i: nat)
    requires DistinctIds(plan) && Ordered(plan, s) && n in plan && n.id in Placed(s)
    ensures RunsIn(plan, s, n, run, i)
    decreases |s|
  {
    var front, last := s[..|s| - 1], s[|s| - 1];
    if n.id in Ids(last) {
      var m :| m in last && m.id == n.id;
      SameNode(plan, m, n);
      i := |s| - 1;
      RunsLast(plan, s, n, run);
    } else {
      i := AnswerOf(plan, front, n, run);
      RunsBefore(plan, s, n, run, i);
    }
  }

  lemma {:induction false} PlacedIsClosed(plan: seq<DagNode>, s: seq<seq<DagNode>>, a: string, b: string)
    requires DistinctIds(plan) && Ordered(plan, s) && a in Placed(s) && DependsOn(plan, a, b)
    ensures b in Placed(s)
    decreases |s|
  {
    var front, last := s[..|s| - 1], s[|s| - 1];
    if a in Ids(last) {
      var m :| m in last && m.id == a;
      var n :| n in plan && n.id == a && b in n.dependsOn;
      SameNode(plan, m, n);
    } else {
      PlacedIsClosed(plan, front, a, b);
    }
  }

  lemma {:induction false} ReachIsPlaced(plan: seq<DagNode>, s: seq<seq<DagNode>>, p: seq<string>)
    requires DistinctIds(plan) && Ordered(plan, s) && IsChain(plan, p) && p[0] in Placed(s)
    ensures p[|p| - 1] in Placed(s)
    decreases |p|
  {
    if |p| > 1 {
      PlacedIsClosed(plan, s, p[0], p[1]);
      ReachIsPlaced(plan, s, p[1..]);
    }
  }

  // A node other than n itself that n reaches is placed wherever n's dependencies are.
  lemma DependenciesPlaced(plan: seq<DagNode>, s: seq<seq<DagNode>>, n: DagNode, name: string)
    requires DistinctIds(plan) && Ordered(plan, s) && n in plan && name != n.id && Reaches(plan, n.id, name)
    requires forall dep :: dep in n.dependsOn ==> dep in Placed(s)
    ensures name in Placed(s)
  {
    var p :| IsChain(plan, p) && p[0] == n.id && p[|p| - 1] == name;
    var m :| m in plan && m.id == p[0] && p[1] in m.dependsOn;
    SameNode(plan, m, n);
    ReachIsPlaced(plan, s, p[1..]);
  }

  // Which placeholders of a task are filled in when its node runs does not depend on the schedule.
  lemma VisibleNames(plan: seq<DagNode>, s: seq<seq<DagNode>>, n: DagNode, name: string)
    requires DistinctIds(plan) && Scoped(plan) && Ordered(plan, s) && n in plan && n.id !in Placed(s)
    requires forall dep :: dep in n.dependsOn ==> dep in Placed(s)
    requires name in Placeholders(n.task) && Placed(s) <= Ids(plan)
    ensures name in Placed(s) <==> name in Ids(plan) && name != n.id && Reaches(plan, n.id, name)
  {
    if name in Placed(s) {
      if Reaches(plan, name, n.id) {
        var p :| IsChain(plan, p) && p[0] == name && p[|p| - 1] == n.id;
        ReachIsPlaced(plan, s, p);
      }
    } else if name in Ids(plan) && name != n.id && Reaches(plan, n.id, name) {
      DependenciesPlaced(plan, s, n, name);
    }
  }

  lemma {:induction false} PlacedInPlan(plan: seq<DagNode>, s: seq<seq<DagNode>>)
    requires Ordered(plan, s)
    ensures Placed(s) <= Ids(plan)
    decreases |s|
  {
    if s != [] {
      PlacedInPlan(plan, s[..|s| - 1]);
    }
  }

  lemma BatchFits(plan: seq<DagNode>, s: seq<seq<DagNode>>, i: nat)
    requires Ordered(plan, s) && i < |s|
    ensures Ordered(plan, s[..i]) && FitsAfter(plan, s[i], Placed(s[..i]))
    decreases |s|
  {
    if i < |s| - 1 {
      BatchFits(plan, s[..|s| - 1], i);
      assert s[..|s| - 1][..i] == s[..i];
    }
  }

  // Any answer produced by a partial schedule is the one a complete schedule produces.
  lemma {:induction false} SchedulesAgree(
    plan: seq<DagNode>, s: seq<seq<DagNode>>, t: seq<seq<DagNode>>, run: string -> string)
    requires DistinctIds(plan) && Scoped(plan) && Ordered(plan, s) && ValidSchedule(plan, t)
    ensures RunSchedule(s, run).Keys == Placed(s) <= RunSchedule(t, run).Keys
    ensures forall id :: id in Placed(s) ==> RunSchedule(s, run)[id] == RunSchedule(t, run)[id]
    decreases |s|
  {
    ScheduleKeys(plan, s, run);
    ScheduleKeys(plan, t, run);
    PlacedInPlan(plan, s);
    if s != [] {
      SchedulesAgree(plan, s[..|s| - 1], t, run);
      forall id | id in Placed(s) ensures RunSchedule(s, run)[id] == RunSchedule(t, run)[id] {
        var n :| n in plan && n.id == id;
        AnswersAgree(plan, s, t, n, run);
      }
    }
  }

  lemma AnswersAgree(
    plan: seq<DagNode>, s: seq<seq<DagNode>>, t: seq<seq<DagNode>>, n: DagNode, run: string -> string)
    requires DistinctIds(plan) && Scoped(plan) && Ordered(plan, s) && ValidSchedule(plan, t)
    requires s != [] && n in plan && n.id in Placed(s)
    requires Ordered(plan, s[..|s| - 1]) && RunSchedule(s[..|s| - 1], run).Keys == Placed(s[..|s| - 1])
    requires RunSchedule(t, run).Keys == Ids(plan) && RunSchedule(s, run).Keys == Placed(s)
    requires forall id :: id in Placed(s[..|s| - 1]) ==>
      id in Ids(plan) && RunSchedule(s[..|s| - 1], run)[id] == RunSchedule(t, run)[id]
    ensures RunSchedule(s, run)[n.id] == RunSchedule(t, run)[n.id]
  {
    var front, last := s[..|s| - 1], s[|s| - 1];
    var before := RunSchedule(front, run);
    StoreBatchSpec(before, last, before, run);
    if n.id in Ids(last) {
      var m :| m in last && m.id == n.id;
      SameNode(plan, m, n);
      var i := AnswerOf(plan, t, n, run);
      BatchFits(plan, t, i);
      PlacedInPlan(plan, front);
      PlacedInPlan(plan, t[..i]);
      forall name | name in Placeholders(n.task)
        ensures (name in before <==> name in RunSchedule(t[..i], run))
        ensures name in before ==> before[name] == RunSchedule(t[..i], run)[name]
      {
        VisibleNames(plan, front, n, name);
        VisibleNames(plan, t[..i], n, name);
      }
      ResolveDependsOnPlaceholders(n.task, before, RunSchedule(t[..i], run));
    }
  }

  // All valid schedules of a plan give every node the same answer.
  lemma ScheduleIndependence(plan: seq<DagNode>, s: seq<seq<DagNode>>, t: seq<seq<DagNode>>, run: string -> string)
    requires DistinctIds(plan) && Scoped(plan) && ValidSchedule(plan, s) && ValidSchedule(plan, t)
    ensures RunSchedule(s, run) == RunSchedule(t, run)
  {
    SchedulesAgree(plan, s, t, run);
    ScheduleKeys(plan, t, run);
  }

  // ---------------------------------------------------------------- topological orders

  ghost predicate TopologicalOrder(plan: seq<DagNode>, order: seq<DagNode>) {
    && DistinctIds(order)
    && Ids(order) == Ids(plan)
    && (forall n :: n in order ==> n in plan)
    && (forall i, dep :: 0 <= i < |order| && dep in order[i].dependsOn ==> dep in Ids(order[..i]))
  }

  function Singletons(order: seq<DagNode>): (s: seq<seq<DagNode>>)
    ensures |s| == |order| && forall i :: 0 <= i < |s| ==> s[i] == [order[i]]
  {
    seq(|order|, i requires 0 <= i < |order| => [order[i]])
  }

  lemma {:induction false} SequentialIsSchedule(order: seq<DagNode>, run: string -> string)
    ensures RunSequential(order, run) == RunSchedule(Singletons(order), run)
    ensures Placed(Singletons(order)) == Ids(order)
    decreases |order|
  {
    if order != [] {
      var front, n := order[..|order| - 1], order[|order| - 1];
      SequentialIsSchedule(front, run);
      var s := Singletons(order);
      assert s[..|s| - 1] == Singletons(front);
      assert forall m :: m in order <==> m in front || m == n;
      var before := RunSchedule(Singletons(front), run);
      assert [n][1..] == [];
      assert StoreBatch(before, [n], before, run) == before[n.id := run(ResolvePlaceholders(n.task, before))];
    }
  }

  lemma {:induction false} PrefixOrdered(plan: seq<DagNode>, order: seq<DagNode>, run: string -> string)
    requires DistinctIds(order) && forall n :: n in order ==> n in plan
    requires forall i, dep :: 0 <= i < |order| && dep in order[i].dependsOn ==> dep in Ids(order[..i])
    ensures Ordered(plan, Singletons(order))
    decreases |order|
  {
    if order != [] {
      var front, n := order[..|order| - 1], order[|order| - 1];
      forall i, dep | 0 <= i < |front| && dep in front[i].dependsOn ensures dep in Ids(front[..i]) {
        assert front[..i] == order[..i];
      }
      PrefixOrdered(plan, front, run);
      var s := Singletons(order);
      assert s[..|s| - 1] == Singletons(front);
      SequentialIsSchedule(front, run);
      assert FitsAfter(plan, [n], Ids(front));
    }
  }

  // ---------------------------------------------------------------- levels

  lemma EdgeLowersRank(plan: seq<DagNode>, rank: map<string, nat>, n: DagNode, dep: string, k: nat)
    requires rank.Keys == Ids(plan) && RanksExact(plan, rank, k) && n in plan && dep in n.dependsOn && dep in rank
    ensures rank[dep] < rank[n.id]
  {
    assert DependsOn(plan, n.id, dep);
    ExtendChain(plan, n.id, dep, rank[dep]);
  }

  lemma {:induction false} DistinctAtRank(plan: seq<DagNode>, rank: map<string, nat>, k: nat)
    requires DistinctIds(plan)
    ensures DistinctIds(AtRank(plan, rank, k))
  {
    if plan != [] {
      DistinctAtRank(plan[1..], rank, k);
    }
  }

  lemma LevelFits(plan: seq<DagNode>, rank: map<string, nat>, levels: seq<seq<DagNode>>, k: nat, placed: set<string>)
    requires DistinctIds(plan) && DepsPresent(plan) && ExactLevels(plan, rank, levels) && k < |levels|
    requires forall id :: id in placed <==> id in rank && rank[id] < k
    ensures FitsAfter(plan, levels[k], placed)
    ensures forall id :: id in Ids(levels[k]) <==> id in rank && rank[id] == k
  {
    var level := levels[k];
    assert level == AtRank(plan, rank, k);
    DistinctAtRank(plan, rank, k);
    forall n, dep | n in level && dep in n.dependsOn ensures dep in placed {
      EdgeLowersRank(plan, rank, n, dep, |levels|);
    }
    forall id | id in rank && rank[id] == k ensures id in Ids(level) {
      var n :| n in plan && n.id == id;
      assert n in level;
    }
  }

  lemma {:induction false} LevelsOrdered(plan: seq<DagNode>, rank: map<string, nat>, levels: seq<seq<DagNode>>, k: nat)
    requires DistinctIds(plan) && DepsPresent(plan) && ExactLevels(plan, rank, levels) && k <= |levels|
    ensures Ordered(plan, levels[..k])
    ensures forall id :: id in Placed(levels[..k]) <==> id in rank && rank[id] < k
    decreases k
  {
    if k > 0 {
      LevelsOrdered(plan, rank, levels, k - 1);
      assert levels[..k][..k - 1] == levels[..k - 1];
      LevelFits(plan, rank, levels, k - 1, Placed(levels[..k - 1]));
    }
  }

  // Running level by level gives the same answers as running one node at a time in any
  // topological order.
  lemma OrderIndependence(
    plan: seq<DagNode>, rank: map<string, nat>, levels: seq<seq<DagNode>>, order: seq<DagNode>, run: string -> string)
    requires DistinctIds(plan) && DepsPresent(plan) && Scoped(plan)
    requires ExactLevels(plan, rank, levels) && TopologicalOrder(plan, order)
    ensures RunSchedule(levels, run) == RunSequential(order, run)
  {
    LevelsOrdered(plan, rank, levels, |levels|);
    assert levels[..|levels|] == levels;
    PrefixOrdered(plan, order, run);
    SequentialIsSchedule(order, run);
    ScheduleIndependence(plan, levels, Singletons(order), run);
  }

  lemma QuotingTask()
    ensures PlaceholderAt("{{a}}") == Some("a")
    ensures Placeholders("{{a}}") == {"a"}
    ensures forall m: Answers :: ResolvePlaceholders("{{a}}", m) == if "a" in m then m["a"] else "{{a}}"
  {
    NameLengthOf("a", "}}");
    assert "a" + "}}" == "a}}" == "{{a}}"[2..];
    assert "{{a}}"[3..5] == "}}" && "{{a}}"[2..3] == "a";
    assert "{{a}}"[5..] == "" && "{{a}}"[..5] == "{{a}}";
    forall m: Answers
      ensures ResolvePlaceholders("{{a}}", m) == if "a" in m then m["a"] else "{{a}}"
    {
      assert ResolvePlaceholders("", m) == "";
    }
  }

  lemma NoEdgesNoReach(plan: seq<DagNode>, a: string, b: string)
    requires a != b && forall n :: n in plan ==> n.dependsOn == []
    ensures !Reaches(plan, a, b)
  {
  }

  lemma UnscopedPair(a: DagNode, b: DagNode)
    requires a == DagNode("a", "x", []) && b == DagNode("b", "{{a}}", [])
    ensures !Scoped([a, b])
  {
    QuotingTask();
    var plan := [a, b];
    assert a in plan && b in plan;
    NoEdgesNoReach(plan, "a", "b");
    NoEdgesNoReach(plan, "b", "a");
    assert "a" in Placeholders(b.task) && "a" in Ids(plan);
  }

  lemma EitherOrder(x: DagNode, y: DagNode)
    requires x.dependsOn == y.dependsOn == [] && x.id != y.id
    ensures TopologicalOrder([x, y], [x, y]) && TopologicalOrder([x, y], [y, x])
  {
    assert forall n :: n in [x, y] <==> n == x || n == y;
    assert forall n :: n in [y, x] <==> n == x || n == y;
  }

  lemma RunPair(x: DagNode, y: DagNode, run: string -> string)
    ensures RunSequential([x, y], run) ==
      map[x.id := run(ResolvePlaceholders(x.task, map[]))]
        [y.id := run(ResolvePlaceholders(y.task, map[x.id := run(ResolvePlaceholders(x.task, map[]))]))]
  {
    assert [x, y][..1] == [x] && [x][..0] == [];
    assert RunSequential([x], run) == map[x.id := run(ResolvePlaceholders(x.task, map[]))];
  }

  lemma QuotedAnswers(a: DagNode, b: DagNode, run: string -> string)
    requires a == DagNode("a", "x", []) && b == DagNode("b", "{{a}}", [])
    requires run("x") == "x" && run("{{a}}") == "{{a}}"
    ensures RunSequential([a, b], run) == map["a" := "x", "b" := "x"]
    ensures RunSequential([b, a], run) == map["a" := "x", "b" := "{{a}}"]
    ensures RunSequential([a, b], run) != RunSequential([b, a], run)
  {
    QuotingTask();
    RunPair(a, b, run);
    RunPair(b, a, run);
    forall m: Answers ensures ResolvePlaceholders("x", m) == "x" {
      ResolveSkipsLiteral("x", "", m);
      assert "x" + "" == "x" && ResolvePlaceholders("", m) == "";
    }
    assert map["a" := "x", "b" := "x"]["b"] == "x";
    assert map["a" := "x", "b" := "{{a}}"]["b"] == "{{a}}";
  }

  // The smallest unscoped plan: two independent nodes, one of which quotes the other.
  lemma QuotedPairDependsOnOrder(a: DagNode, b: DagNode, run: string -> string)
    requires a == DagNode("a", "x", []) && b == DagNode("b", "{{a}}", [])
    requires run("x") == "x" && run("{{a}}") == "{{a}}"
    ensures !Scoped([a, b])
    ensures TopologicalOrder([a, b], [a, b]) && TopologicalOrder([a, b], [b, a])
    ensures RunSequential([a, b], run) != RunSequential([b, a], run)
  {
    UnscopedPair(a, b);
    EitherOrder(a, b);
    QuotedAnswers(a, b, run);
  }

  // The level loop with its Promise.all: the nodes of a level start from the same answers
  // and finish in an arbitrary order; each answer lands in its own slot.
  method RunLevels(levels: seq<seq<DagNode>>, run: string -> string) returns (results: Answers)
    ensures results == RunSchedule(levels, run)
  {
    results := map[];
    for k := 0 to |levels|
      invariant results == RunSchedule(levels[..k], run)
    {
      var level := levels[k];
      var texts := RunLevel(level, results, run);
      results := StoreLevel(results, level, texts, run);
      assert levels[..k + 1][..k] == levels[..k];
    }
    assert levels[..|levels|] == levels;
  }

  // The answers of a level are stored under their ids once all of them are there.
  method StoreLevel(before: Answers, level: seq<DagNode>, texts: seq<string>, ghost run: string -> string)
    returns (results: Answers)
    requires |texts| == |level|
    requires forall i :: 0 <= i < |level| ==> texts[i] == run(ResolvePlaceholders(level[i].task, before))
    ensures results == StoreBatch(before, level, before, run)
  {
    results := before;
    for i := 0 to |level|
      invariant StoreBatch(results, level[i..], before, run) == StoreBatch(before, level, before, run)
    {
      results := results[level[i].id := texts[i]];
      assert level[i..][1..] == level[i + 1..];
    }
  }

  method RunDag(nodes: seq<DagNode>, run: string -> string)
    returns (r: Result<Answers, DagError>, ghost rank: map<string, nat>, ghost levels: seq<seq<DagNode>>)
    ensures (r.Err? && r.error.DagInvalid?) <==> !DepsPresent(nodes)
    ensures DepsPresent(nodes) ==> (r.Ok? <==> Acyclic(ById(nodes)))
    ensures r.Ok? ==> ExactLevels(ById(nodes), rank, levels) && r.value == RunSchedule(levels, run)
    ensures r.Ok? && DistinctIds(nodes) && Scoped(nodes) ==>
      forall order :: TopologicalOrder(nodes, order) ==> r.value == RunSequential(order, run)
  {
    var planned;
    planned, rank := TopologicalLevels(nodes);
    levels := [];
    if planned.Err? {
      return Err(planned.error), rank, levels;
    }
    levels := planned.value;
    var results := RunLevels(planned.value, run);
    r := Ok(results);
    if DistinctIds(nodes) && Scoped(nodes) {
      AnyOrder(nodes, rank, levels, run);
    }
  }

  lemma AnyOrder(nodes: seq<DagNode>, rank: map<string, nat>, levels: seq<seq<DagNode>>, run: string -> string)
    requires DistinctIds(nodes) && DepsPresent(nodes) && Scoped(nodes) && ExactLevels(ById(nodes), rank, levels)
    ensures forall order :: TopologicalOrder(nodes, order) ==> RunSchedule(levels, run) == RunSequential(order, run)
  {
    ByIdOfDistinct(nodes);
    forall order | TopologicalOrder(nodes, order) ensures RunSchedule(levels, run) == RunSequential(order, run) {
      OrderIndependence(nodes, rank, levels, order, run);
    }
  }

  function Indices(n: nat): (r: set<nat>)
    ensures forall i: nat :: i in r <==> i < n
  {
    if n == 0 then {} else Indices(n - 1) + {n - 1}
  }

  method RunLevel(level: seq<DagNode>, results: Answers, run: string -> string) returns (texts: seq<string>)
    ensures |texts| == |level|
    ensures forall i :: 0 <= i < |level| ==> texts[i] == run(ResolvePlaceholders(level[i].task, results))
  {
    var slots := new string[|level|];
    var pending := Indices(|level|);
    while pending != {}
      invariant pending <= Indices(|level|)
      invariant forall i :: 0 <= i < |level| && i !in pending ==>
        slots[i] == run(ResolvePlaceholders(level[i].task, results))
    {
      var i :| i in pending;
      slots[i] := run(ResolvePlaceholders(level[i].task, results));
      pending := pending - {i};
    }
    texts := slots[..];
  }
}
