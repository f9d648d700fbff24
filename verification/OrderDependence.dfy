// When the answers of a plan depend on the order its nodes run in: exactly when some task
// quotes a node of the plan that neither reaches its own node nor is reached by it.
module OrderDependence {
  import opened DagPlanner
  import opened DagExecution

  // ---------------------------------------------------------------- chains

  lemma ReachesThrough(plan: seq<DagNode>, a: string, b: string, c: string)
    requires Reaches(plan, a, b) && Reaches(plan, b, c)
    ensures Reaches(plan, a, c)
  {
    var p :| IsChain(plan, p) && p[0] == a && p[|p| - 1] == b;
    var q :| IsChain(plan, q) && q[0] == b && q[|q| - 1] == c;
    ChainConcat(plan, p, q);
    var r := p + q[1..];
    assert r[0] == a && r[|r| - 1] == c;
  }

  lemma ReachesDependency(plan: seq<DagNode>, n: DagNode, dep: string)
    requires n in plan && dep in n.dependsOn && dep in Ids(plan)
    ensures Reaches(plan, n.id, dep)
  {
    assert DependsOn(plan, n.id, dep);
    var p := [n.id, dep];
    assert p[1..] == [dep] && IsChain(plan, [dep]);
    assert IsChain(plan, p);
  }

  lemma ReachesItself(plan: seq<DagNode>, a: string)
    requires a in Ids(plan)
    ensures Reaches(plan, a, a)
  {
    assert IsChain(plan, [a]);
  }

  lemma NoWayBack(plan: seq<DagNode>, a: string, b: string)
    requires Acyclic(plan) && Reaches(plan, a, b) && Reaches(plan, b, a)
    ensures a == b
  {
    var p :| IsChain(plan, p) && p[0] == a && p[|p| - 1] == b;
    var q :| IsChain(plan, q) && q[0] == b && q[|q| - 1] == a;
    if a != b {
      ChainConcat(plan, p, q);
      var r := p + q[1..];
      assert |p| >= 2 && r[0] == a && r[|r| - 1] == a;
      assert IsCycle(plan, r);
    }
  }

  // ---------------------------------------------------------------- orders

  // No id twice, and every dependency before the node that has it.
  ghost predicate InOrder(order: seq<DagNode>)
    decreases |order|
  {
    order != [] ==>
      var front, n := order[..|order| - 1], order[|order| - 1];
      InOrder(front) && n.id !in Ids(front) && forall dep :: dep in n.dependsOn ==> dep in Ids(front)
  }

  lemma IdsOfConcat(a: seq<DagNode>, b: seq<DagNode>)
    ensures Ids(a + b) == Ids(a) + Ids(b)
  {
    assert forall n :: n in a + b <==> n in a || n in b;
  }

  lemma InOrderOneMore(order: seq<DagNode>, n: DagNode)
    requires InOrder(order) && n.id !in Ids(order) && forall dep :: dep in n.dependsOn ==> dep in Ids(order)
    ensures InOrder(order + [n]) && Ids(order + [n]) == Ids(order) + {n.id}
  {
    assert (order + [n])[..|order|] == order;
    IdsOfConcat(order, [n]);
  }

  lemma {:induction false} InOrderIsTopological(order: seq<DagNode>)
    requires InOrder(order)
    ensures DistinctIds(order)
    ensures forall i, dep :: 0 <= i < |order| && dep in order[i].dependsOn ==> dep in Ids(order[..i])
    decreases |order|
  {
    if order != [] {
      var front, n := order[..|order| - 1], order[|order| - 1];
      InOrderIsTopological(front);
      forall i, dep | 0 <= i < |order| && dep in order[i].dependsOn ensures dep in Ids(order[..i]) {
        if i < |front| {
          assert front[..i] == order[..i] && order[i] == front[i];
        }
      }
      forall i | 0 <= i < |front| ensures order[i].id != n.id {
        assert order[i] == front[i] && front[i] in front;
      }
    }
  }

  // The nodes of an order whose ids are in a set.
  ghost function Within(order: seq<DagNode>, ids: set<string>): (r: seq<DagNode>)
    ensures forall n :: n in r <==> n in order && n.id in ids
    decreases |order|
  {
    if order == [] then []
    else
      var n := order[|order| - 1];
      assert order == order[..|order| - 1] + [n];
      Within(order[..|order| - 1], ids) + if n.id in ids then [n] else []
  }

  lemma WithinHolds(order: seq<DagNode>, ids: set<string>, id: string)
    requires id in Ids(order) && id in ids
    ensures id in Ids(Within(order, ids))
  {
    var m :| m in order && m.id == id;
    assert m in Within(order, ids);
  }

  lemma WithinIds(line: seq<DagNode>, ids: set<string>)
    requires ids <= Ids(line)
    ensures Ids(Within(line, ids)) == ids
  {
    forall id | id in ids ensures id in Ids(Within(line, ids)) {
      WithinHolds(line, ids, id);
    }
  }

  // Nodes that `placed` does not have, and whose dependencies it has or they bring along.
  ghost predicate MayFollow(placed: set<string>, line: seq<DagNode>, ids: set<string>) {
    && (forall n :: n in line && n.id in ids ==> n.id !in placed)
    && (forall n, dep :: n in line && n.id in ids && dep in n.dependsOn ==> dep in placed || dep in ids)
  }

  lemma LastMayFollow(base: seq<DagNode>, front: seq<DagNode>, n: DagNode, ids: set<string>)
    requires InOrder(front + [n]) && MayFollow(Ids(base), front + [n], ids)
    ensures InOrder(front) && MayFollow(Ids(base), front, ids)
    ensures n.id in ids ==> n.id !in Ids(base + Within(front, ids))
    ensures n.id in ids ==> forall dep :: dep in n.dependsOn ==> dep in Ids(base + Within(front, ids))
  {
    assert (front + [n])[..|front|] == front;
    assert n in front + [n] && forall m :: m in front ==> m in front + [n];
    IdsOfConcat(base, Within(front, ids));
    if n.id in ids {
      forall dep | dep in n.dependsOn ensures dep in Ids(base + Within(front, ids)) {
        if dep !in Ids(base) {
          WithinHolds(front, ids, dep);
        }
      }
    }
  }

  lemma WithinOneMore(front: seq<DagNode>, n: DagNode, ids: set<string>)
    ensures Within(front + [n], ids) == if n.id in ids then Within(front, ids) + [n] else Within(front, ids)
  {
    assert (front + [n])[..|front|] == front;
  }

  lemma AppendOneMore(base: seq<DagNode>, kept: seq<DagNode>, n: DagNode)
    requires InOrder(base + kept) && n.id !in Ids(base + kept)
    requires forall dep :: dep in n.dependsOn ==> dep in Ids(base + kept)
    ensures InOrder(base + (kept + [n]))
  {
    var all := base + kept;
    InOrderOneMore(all, n);
    assert base + (kept + [n]) == all + [n];
  }

  // Part of an order may be put behind nodes that have what it depends on and does not bring.
  lemma {:induction false} AppendWithin(base: seq<DagNode>, line: seq<DagNode>, ids: set<string>)
    requires InOrder(base) && InOrder(line) && MayFollow(Ids(base), line, ids)
    ensures InOrder(base + Within(line, ids))
    decreases |line|
  {
    if line == [] {
      assert base + Within(line, ids) == base;
    } else {
      var front, n := line[..|line| - 1], line[|line| - 1];
      assert line == front + [n];
      LastMayFollow(base, front, n, ids);
      AppendWithin(base, front, ids);
      WithinOneMore(front, n, ids);
      if n.id in ids {
        AppendOneMore(base, Within(front, ids), n);
      }
    }
  }

  ghost predicate Closed(plan: seq<DagNode>, ids: set<string>) {
    forall n, dep :: n in plan && n.id in ids && dep in n.dependsOn ==> dep in ids
  }

  // Node n right after the nodes of a closed set that holds its dependencies, then the others.
  ghost function RightAfter(line: seq<DagNode>, ids: set<string>, n: DagNode): seq<DagNode> {
    Within(line, ids) + [n] + Within(line, Ids(line) - ids - {n.id})
  }

  ghost predicate FitsRightAfter(line: seq<DagNode>, ids: set<string>, n: DagNode) {
    && ids <= Ids(line) && n in line && n.id !in ids
    && Closed(line, ids) && forall dep :: dep in n.dependsOn ==> dep in ids
  }

  lemma NodeRightAfter(line: seq<DagNode>, ids: set<string>, n: DagNode)
    requires InOrder(line) && FitsRightAfter(line, ids, n)
    ensures InOrder(Within(line, ids) + [n]) && Ids(Within(line, ids) + [n]) == ids + {n.id}
  {
    AppendWithin([], line, ids);
    assert [] + Within(line, ids) == Within(line, ids);
    WithinIds(line, ids);
    InOrderOneMore(Within(line, ids), n);
  }

  lemma {:induction false} DependenciesAreThere(line: seq<DagNode>, n: DagNode, dep: string)
    requires InOrder(line) && n in line && dep in n.dependsOn
    ensures dep in Ids(line)
    decreases |line|
  {
    var front, last := line[..|line| - 1], line[|line| - 1];
    assert line == front + [last];
    IdsOfConcat(front, [last]);
    if n in front {
      DependenciesAreThere(front, n, dep);
    }
  }

  lemma RestMayFollow(line: seq<DagNode>, placed: set<string>)
    requires InOrder(line)
    ensures MayFollow(placed, line, Ids(line) - placed)
  {
    forall n, dep | n in line && dep in n.dependsOn ensures dep in Ids(line) {
      DependenciesAreThere(line, n, dep);
    }
  }

  lemma RightAfterInOrder(line: seq<DagNode>, ids: set<string>, n: DagNode)
    requires InOrder(line) && FitsRightAfter(line, ids, n)
    ensures InOrder(RightAfter(line, ids, n)) && Ids(RightAfter(line, ids, n)) == Ids(line)
    ensures forall m :: m in RightAfter(line, ids, n) ==> m in line
  {
    var first, rest := Within(line, ids) + [n], Ids(line) - ids - {n.id};
    NodeRightAfter(line, ids, n);
    assert rest == Ids(line) - Ids(first);
    RestMayFollow(line, Ids(first));
    AppendWithin(first, line, rest);
    WithinIds(line, rest);
    IdsOfConcat(first, Within(line, rest));
  }

  lemma RightAfterIsOrder(plan: seq<DagNode>, line: seq<DagNode>, ids: set<string>, n: DagNode)
    requires TopologicalOrder(plan, line) && InOrder(line) && FitsRightAfter(line, ids, n)
    ensures InOrder(RightAfter(line, ids, n)) && TopologicalOrder(plan, RightAfter(line, ids, n))
  {
    RightAfterInOrder(line, ids, n);
    InOrderIsTopological(RightAfter(line, ids, n));
  }

  // ---------------------------------------------------------------- answers

  lemma {:induction false} SequentialKeys(order: seq<DagNode>, run: string -> string)
    ensures RunSequential(order, run).Keys == Ids(order)
    decreases |order|
  {
    if order != [] {
      var front, n := order[..|order| - 1], order[|order| - 1];
      SequentialKeys(front, run);
      assert order == front + [n];
      IdsOfConcat(front, [n]);
    }
  }

  // The node's answer is what it computes from the answers given.
  ghost predicate AnswersFrom(order: seq<DagNode>, n: DagNode, given: Answers, run: string -> string) {
    var all := RunSequential(order, run);
    n.id in all && all[n.id] == run(ResolvePlaceholders(n.task, given))
  }

  lemma AnswersLast(front: seq<DagNode>, n: DagNode, run: string -> string)
    ensures AnswersFrom(front + [n], n, RunSequential(front, run), run)
  {
    assert (front + [n])[..|front|] == front;
  }

  lemma AnswersBefore(order: seq<DagNode>, last: DagNode, n: DagNode, given: Answers, run: string -> string)
    requires InOrder(order + [last]) && n in order && AnswersFrom(order, n, given, run)
    ensures AnswersFrom(order + [last], n, given, run)
  {
    assert (order + [last])[..|order|] == order;
  }

  lemma FrontInOrder(order: seq<DagNode>, last: DagNode)
    requires InOrder(order + [last])
    ensures InOrder(order)
  {
    assert (order + [last])[..|order|] == order;
  }

  // A node's answer is settled when it runs.
  lemma {:induction false} AnswerStays(front: seq<DagNode>, n: DagNode, tail: seq<DagNode>, run: string -> string)
    requires InOrder(front + [n] + tail)
    ensures AnswersFrom(front + [n] + tail, n, RunSequential(front, run), run)
    decreases |tail|
  {
    var base := front + [n];
    if tail == [] {
      assert base + tail == base;
      AnswersLast(front, n, run);
    } else {
      var less, last := tail[..|tail| - 1], tail[|tail| - 1];
      assert base + tail == base + less + [last];
      FrontInOrder(base + less, last);
      AnswerStays(front, n, less, run);
      assert (base + less)[|front|] == n;
      AnswersBefore(base + less, last, n, RunSequential(front, run), run);
    }
  }

  ghost predicate OneCharacter(results: Answers) {
    forall id :: id in results ==> |results[id]| == 1
  }

  lemma {:induction false} AnswersOfOneCharacter(order: seq<DagNode>, run: string -> string)
    requires forall x :: |run(x)| == 1
    ensures OneCharacter(RunSequential(order, run))
    decreases |order|
  {
    if order != [] {
      AnswersOfOneCharacter(order[..|order| - 1], run);
    }
  }

  // Length of a task once these names have answers of one character.
  ghost function ResolvedLength(task: string, names: set<string>): nat
    decreases |task|
  {
    if task == "" then 0
    else match PlaceholderAt(task)
      case Some(name) => (if name in names then 1 else |name| + 4) + ResolvedLength(task[|name| + 4..], names)
      case None => 1 + ResolvedLength(task[1..], names)
  }

  // Where the reading of a task goes on after its first character or placeholder.
  function Rest(task: string): (rest: string)
    requires task != ""
    ensures |rest| < |task|
  {
    match PlaceholderAt(task)
    case Some(name) => task[|name| + 4..]
    case None => task[1..]
  }

  lemma {:induction false} LengthOfResolved(task: string, results: Answers)
    requires OneCharacter(results)
    ensures |ResolvePlaceholders(task, results)| == ResolvedLength(task, results.Keys)
    decreases |task|
  {
    if task != "" {
      LengthOfResolved(Rest(task), results);
    }
  }

  // Every name that gets an answer makes the text shorter if the task quotes it.
  lemma {:induction false} MoreAnswersAreShorter(task: string, few: set<string>, more: set<string>, name: string)
    requires few <= more && name in more && name !in few
    ensures ResolvedLength(task, more) <= ResolvedLength(task, few)
    ensures name in Placeholders(task) ==> ResolvedLength(task, more) < ResolvedLength(task, few)
    decreases |task|
  {
    if task != "" {
      MoreAnswersAreShorter(Rest(task), few, more, name);
    }
  }

  // Tells short texts from long ones.
  ghost function LengthTest(limit: nat): string -> string {
    x => if |x| <= limit then "1" else "0"
  }

  lemma AnswerByLength(front: seq<DagNode>, n: DagNode, tail: seq<DagNode>, limit: nat)
    requires InOrder(front + [n] + tail)
    ensures n.id in RunSequential(front + [n] + tail, LengthTest(limit))
    ensures RunSequential(front + [n] + tail, LengthTest(limit))[n.id]
      == if ResolvedLength(n.task, Ids(front)) <= limit then "1" else "0"
  {
    var run := LengthTest(limit);
    AnswerStays(front, n, tail, run);
    AnswersOfOneCharacter(front, run);
    LengthOfResolved(n.task, RunSequential(front, run));
    SequentialKeys(front, run);
  }

  // ---------------------------------------------------------------- the unscoped name

  ghost predicate Unscoped(plan: seq<DagNode>, n: DagNode, name: string) {
    && n in plan && name in Placeholders(n.task) && name in Ids(plan)
    && name != n.id && !Reaches(plan, n.id, name) && !Reaches(plan, name, n.id)
  }

  // What n depends on, directly or not.
  ghost function Below(plan: seq<DagNode>, n: DagNode): set<string> {
    set x | x in Ids(plan) && x != n.id && Reaches(plan, n.id, x)
  }

  // What does not depend on n.
  ghost function Beside(plan: seq<DagNode>, n: DagNode): set<string> {
    set x | x in Ids(plan) && !Reaches(plan, x, n.id)
  }

  lemma BelowIsClosed(plan: seq<DagNode>, n: DagNode)
    requires Acyclic(plan) && DepsPresent(plan) && n in plan
    ensures Closed(plan, Below(plan, n)) && forall dep :: dep in n.dependsOn ==> dep in Below(plan, n)
  {
    forall m, dep | m in plan && m.id in Below(plan, n) && dep in m.dependsOn ensures dep in Below(plan, n) {
      ReachesDependency(plan, m, dep);
      ReachesThrough(plan, n.id, m.id, dep);
      if dep == n.id {
        NoWayBack(plan, n.id, m.id);
      }
    }
    forall dep | dep in n.dependsOn ensures dep in Below(plan, n) {
      ReachesDependency(plan, n, dep);
      if dep == n.id {
        assert IsChain(plan, [n.id]) && [n.id, n.id][1..] == [n.id];
        assert DependsOn(plan, n.id, n.id);
        assert IsCycle(plan, [n.id, n.id]);
      }
    }
  }

  lemma BesideIsClosed(plan: seq<DagNode>, n: DagNode)
    requires Acyclic(plan) && DepsPresent(plan) && n in plan
    ensures Closed(plan, Beside(plan, n)) && n.id !in Beside(plan, n) && Below(plan, n) <= Beside(plan, n)
  {
    ReachesItself(plan, n.id);
    forall m, dep | m in plan && m.id in Beside(plan, n) && dep in m.dependsOn ensures dep in Beside(plan, n) {
      ReachesDependency(plan, m, dep);
      if Reaches(plan, dep, n.id) {
        ReachesThrough(plan, m.id, dep, n.id);
      }
    }
    forall x | x in Below(plan, n) ensures x in Beside(plan, n) {
      if Reaches(plan, x, n.id) {
        NoWayBack(plan, x, n.id);
      }
    }
  }

  ghost predicate SameNodes(a: seq<DagNode>, b: seq<DagNode>) {
    forall n :: n in a <==> n in b
  }

  lemma WholePlan(plan: seq<DagNode>, line: seq<DagNode>)
    requires SameNodes(line, plan)
    ensures Ids(line) == Ids(plan)
    ensures forall ids :: Closed(plan, ids) ==> Closed(line, ids)
  {
  }

  // An unscoped name tells two topological orders apart.
  lemma UnscopedOrdersDiffer(plan: seq<DagNode>, line: seq<DagNode>, n: DagNode, name: string)
    returns (run: string -> string, first: seq<DagNode>, second: seq<DagNode>)
    requires Acyclic(plan) && DepsPresent(plan) && Unscoped(plan, n, name)
    requires TopologicalOrder(plan, line) && InOrder(line) && SameNodes(line, plan)
    ensures TopologicalOrder(plan, first) && TopologicalOrder(plan, second)
    ensures RunSequential(first, run) != RunSequential(second, run)
  {
    var below, beside := Below(plan, n), Beside(plan, n);
    BelowIsClosed(plan, n);
    BesideIsClosed(plan, n);
    WholePlan(plan, line);
    RightAfterIsOrder(plan, line, below, n);
    RightAfterIsOrder(plan, line, beside, n);
    first, second := RightAfter(line, below, n), RightAfter(line, beside, n);
    WithinIds(line, below);
    WithinIds(line, beside);
    var limit := ResolvedLength(n.task, beside);
    run := LengthTest(limit);
    AnswerByLength(Within(line, below), n, Within(line, Ids(line) - below - {n.id}), limit);
    AnswerByLength(Within(line, beside), n, Within(line, Ids(line) - beside - {n.id}), limit);
    MoreAnswersAreShorter(n.task, below, beside, name);
  }

  // ---------------------------------------------------------------- levels as one order

  ghost function Flatten(s: seq<seq<DagNode>>): seq<DagNode>
    decreases |s|
  {
    if s == [] then [] else Flatten(s[..|s| - 1]) + s[|s| - 1]
  }

  lemma FrontFits(plan: seq<DagNode>, batch: seq<DagNode>, placed: set<string>)
    requires FitsAfter(plan, batch, placed) && batch != []
    ensures FitsAfter(plan, batch[..|batch| - 1], placed)
    ensures batch[|batch| - 1].id !in Ids(batch[..|batch| - 1]) + placed
    ensures forall dep :: dep in batch[|batch| - 1].dependsOn ==> dep in placed
  {
    var n := batch[|batch| - 1];
    assert n in batch;
  }

  lemma BatchOneMore(plan: seq<DagNode>, base: seq<DagNode>, front: seq<DagNode>, n: DagNode)
    requires FitsAfter(plan, front + [n], Ids(base)) && InOrder(base + front)
    ensures InOrder(base + (front + [n]))
  {
    LastFits(plan, front, n, Ids(base));
    IdsOfConcat(base, front);
    AppendOneMore(base, front, n);
  }

  lemma LastFits(plan: seq<DagNode>, front: seq<DagNode>, n: DagNode, placed: set<string>)
    requires FitsAfter(plan, front + [n], placed)
    ensures n.id !in Ids(front) + placed && forall dep :: dep in n.dependsOn ==> dep in placed
  {
    assert (front + [n])[..|front|] == front;
    FrontFits(plan, front + [n], placed);
  }

  lemma FrontAndLast<T>(s: seq<T>)
    requires s != []
    ensures s[..|s| - 1] + [s[|s| - 1]] == s
  {
  }

  lemma {:induction false} BatchInOrder(plan: seq<DagNode>, base: seq<DagNode>, batch: seq<DagNode>)
    requires InOrder(base) && FitsAfter(plan, batch, Ids(base))
    ensures InOrder(base + batch)
    decreases |batch|
  {
    if batch == [] {
      assert base + batch == base;
    } else {
      FrontFits(plan, batch, Ids(base));
      BatchInOrder(plan, base, batch[..|batch| - 1]);
      FrontAndLast(batch);
      BatchOneMore(plan, base, batch[..|batch| - 1], batch[|batch| - 1]);
    }
  }

  lemma {:induction false} FlattenInOrder(plan: seq<DagNode>, s: seq<seq<DagNode>>)
    requires Ordered(plan, s)
    ensures InOrder(Flatten(s)) && Ids(Flatten(s)) == Placed(s) && forall n :: n in Flatten(s) ==> n in plan
    decreases |s|
  {
    if s != [] {
      FlattenInOrder(plan, s[..|s| - 1]);
      BatchInOrder(plan, Flatten(s[..|s| - 1]), s[|s| - 1]);
      IdsOfConcat(Flatten(s[..|s| - 1]), s[|s| - 1]);
    }
  }

  lemma LevelsAsOrder(plan: seq<DagNode>, rank: map<string, nat>, levels: seq<seq<DagNode>>)
    requires DistinctIds(plan) && DepsPresent(plan) && ExactLevels(plan, rank, levels)
    ensures InOrder(Flatten(levels)) && TopologicalOrder(plan, Flatten(levels))
    ensures SameNodes(Flatten(levels), plan)
  {
    LevelsOrdered(plan, rank, levels, |levels|);
    assert levels[..|levels|] == levels;
    FlattenInOrder(plan, levels);
    InOrderIsTopological(Flatten(levels));
    forall n | n in plan ensures n in Flatten(levels) {
      assert n.id in Ids(Flatten(levels));
      var m :| m in Flatten(levels) && m.id == n.id;
      SameNode(plan, m, n);
    }
  }

  lemma UnscopedName(plan: seq<DagNode>) returns (n: DagNode, name: string)
    requires !Scoped(plan)
    ensures Unscoped(plan, n, name)
  {
    if forall m, x :: !Unscoped(plan, m, x) {
      forall m, x | m in plan && x in Placeholders(m.task) && x in Ids(plan)
        ensures x == m.id || Reaches(plan, m.id, x) || Reaches(plan, x, m.id)
      {
        assert !Unscoped(plan, m, x);
      }
    }
    n, name :| Unscoped(plan, n, name);
  }

  // A plan that is not scoped has two topological orders and a way to answer tasks for which
  // some node gets different answers.
  lemma UnscopedDependsOnOrder(plan: seq<DagNode>, rank: map<string, nat>, levels: seq<seq<DagNode>>)
    returns (run: string -> string, first: seq<DagNode>, second: seq<DagNode>)
    requires DistinctIds(plan) && DepsPresent(plan) && ExactLevels(plan, rank, levels) && !Scoped(plan)
    ensures TopologicalOrder(plan, first) && TopologicalOrder(plan, second)
    ensures RunSequential(first, run) != RunSequential(second, run)
  {
    var n, name := UnscopedName(plan);
    RankedIsAcyclic(plan, rank);
    LevelsAsOrder(plan, rank, levels);
    run, first, second := UnscopedOrdersDiffer(plan, Flatten(levels), n, name);
  }

  // Whatever a node computes, the level-parallel run gives the answers of this order.
  ghost predicate AgreesWithOrder(levels: seq<seq<DagNode>>, order: seq<DagNode>) {
    forall run: string -> string :: RunSchedule(levels, run) == RunSequential(order, run)
  }

  // The level-parallel run equals the one-at-a-time run in every topological order, whatever a
  // node computes, iff every quoted node of the plan reaches the quoting one or is reached by it.
  lemma OrderIndependentIffScoped(plan: seq<DagNode>, rank: map<string, nat>, levels: seq<seq<DagNode>>)
    requires DistinctIds(plan) && DepsPresent(plan) && ExactLevels(plan, rank, levels)
    ensures Scoped(plan) <==> forall order :: TopologicalOrder(plan, order) ==> AgreesWithOrder(levels, order)
  {
    if Scoped(plan) {
      forall order | TopologicalOrder(plan, order) ensures AgreesWithOrder(levels, order) {
        ScopedAgrees(plan, rank, levels, order);
      }
    } else {
      var run, first, second := UnscopedDependsOnOrder(plan, rank, levels);
      BothAgree(levels, first, second, run);
    }
  }

  lemma ScopedAgrees(plan: seq<DagNode>, rank: map<string, nat>, levels: seq<seq<DagNode>>, order: seq<DagNode>)
    requires DistinctIds(plan) && DepsPresent(plan) && ExactLevels(plan, rank, levels) && Scoped(plan)
    requires TopologicalOrder(plan, order)
    ensures AgreesWithOrder(levels, order)
  {
    forall run: string -> string ensures RunSchedule(levels, run) == RunSequential(order, run) {
      OrderIndependence(plan, rank, levels, order, run);
    }
  }

  lemma BothAgree(levels: seq<seq<DagNode>>, first: seq<DagNode>, second: seq<DagNode>, run: string -> string)
    requires RunSequential(first, run) != RunSequential(second, run)
    ensures !AgreesWithOrder(levels, first) || !AgreesWithOrder(levels, second)
  {
    var together := RunSchedule(levels, run);
    assert together != RunSequential(first, run) || together != RunSequential(second, run);
  }

  ghost predicate AgreeOnAll(s: seq<seq<DagNode>>, t: seq<seq<DagNode>>) {
    forall run: string -> string :: RunSchedule(s, run) == RunSchedule(t, run)
  }

  lemma OrderIsSchedule(plan: seq<DagNode>, order: seq<DagNode>, run: string -> string)
    requires TopologicalOrder(plan, order)
    ensures ValidSchedule(plan, Singletons(order))
    ensures RunSchedule(Singletons(order), run) == RunSequential(order, run)
  {
    PrefixOrdered(plan, order, run);
    SequentialIsSchedule(order, run);
  }

  // The same for any two schedules that respect the dependencies, however they batch the nodes.
  lemma SchedulesAgreeIffScoped(plan: seq<DagNode>, rank: map<string, nat>, levels: seq<seq<DagNode>>)
    requires DistinctIds(plan) && DepsPresent(plan) && ExactLevels(plan, rank, levels)
    ensures Scoped(plan) <==>
      forall s, t :: ValidSchedule(plan, s) && ValidSchedule(plan, t) ==> AgreeOnAll(s, t)
  {
    if Scoped(plan) {
      forall s, t | ValidSchedule(plan, s) && ValidSchedule(plan, t) ensures AgreeOnAll(s, t) {
        forall run: string -> string ensures RunSchedule(s, run) == RunSchedule(t, run) {
          ScheduleIndependence(plan, s, t, run);
        }
      }
    } else {
      var run, first, second := UnscopedDependsOnOrder(plan, rank, levels);
      OrderIsSchedule(plan, first, run);
      OrderIsSchedule(plan, second, run);
      assert !AgreeOnAll(Singletons(first), Singletons(second));
    }
  }
}
