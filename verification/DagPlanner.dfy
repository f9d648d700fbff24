// Model of the planning half of apps/server/src/orchestrator/dag-planner.ts: Kahn levelling
// by repeated scanning, the missing-dependency check and the detection of cycles.
module DagPlanner {
  import opened Wrappers
  import opened Finite

  datatype DagNode = DagNode(id: string, task: string, dependsOn: seq<string>)

  datatype DagError =
    | DagInvalid(node: string, dep: string)
    | DagCycle(remaining: seq<string>)

  // ---------------------------------------------------------------- dependency graph

  ghost predicate DistinctIds(nodes: seq<DagNode>) {
    forall i, j :: 0 <= i < j < |nodes| ==> nodes[i].id != nodes[j].id
  }

  function Ids(nodes: seq<DagNode>): set<string> {
    set n | n in nodes :: n.id
  }

  // Position of the entry with this id, or the length when there is none.
  function Find(entries: seq<DagNode>, id: string): (k: nat)
    ensures k <= |entries|
    ensures k < |entries| ==> entries[k].id == id
    ensures forall i :: 0 <= i < k ==> entries[i].id != id
  {
    if entries == [] || entries[0].id == id then 0 else 1 + Find(entries[1..], id)
  }

  // Setting an entry of an insertion-ordered map.
  function Upsert(entries: seq<DagNode>, node: DagNode): (r: seq<DagNode>)
    ensures DistinctIds(entries) ==> DistinctIds(r)
    ensures forall n :: n in r ==> n in entries || n == node
    ensures node.id !in Ids(entries) ==> r == entries + [node]
  {
    var k := Find(entries, node.id);
    if k < |entries| then
      assert entries[k] in entries;
      entries[k := node]
    else
      entries + [node]
  }

  lemma UpsertIds(entries: seq<DagNode>, node: DagNode)
    ensures Ids(Upsert(entries, node)) == Ids(entries) + {node.id}
  {
    var k, r := Find(entries, node.id), Upsert(entries, node);
    assert r[k] == node;
    forall id | id in Ids(entries) ensures id in Ids(r) {
      var i :| 0 <= i < |entries| && entries[i].id == id;
      assert r[i] in r && r[i].id == id;
    }
  }

  // The nodes by their ids, in insertion order: a repeated id
  // keeps its first position and its last value.
  function ById(nodes: seq<DagNode>): (entries: seq<DagNode>)
    ensures DistinctIds(entries)
    ensures forall n :: n in entries ==> n in nodes
  {
    if nodes == [] then [] else Upsert(ById(nodes[..|nodes| - 1]), nodes[|nodes| - 1])
  }

  lemma {:induction false} ByIdIds(nodes: seq<DagNode>)
    ensures Ids(ById(nodes)) == Ids(nodes)
  {
    if nodes != [] {
      var front, last := nodes[..|nodes| - 1], nodes[|nodes| - 1];
      ByIdIds(front);
      UpsertIds(ById(front), last);
      assert forall n :: n in nodes <==> n in front || n == last;
    }
  }

  // With distinct ids the insertion-ordered map is the node list itself.
  lemma {:induction false} ByIdOfDistinct(nodes: seq<DagNode>)
    requires DistinctIds(nodes)
    ensures ById(nodes) == nodes
  {
    if nodes != [] {
      var front := nodes[..|nodes| - 1];
      ByIdOfDistinct(front);
    }
  }

  // The last node of the list with its id.
  ghost predicate IsLastOfItsId(nodes: seq<DagNode>, n: DagNode) {
    exists i :: 0 <= i < |nodes| && nodes[i] == n && forall j :: i < j < |nodes| ==> nodes[j].id != n.id
  }

  // The id a turns up before b does.
  ghost predicate FirstSeenBefore(nodes: seq<DagNode>, a: string, b: string) {
    exists i :: 0 <= i < |nodes| && nodes[i].id == a && forall j :: 0 <= j <= i ==> nodes[j].id != b
  }

  ghost predicate IsInsertionOrdered(nodes: seq<DagNode>, entries: seq<DagNode>) {
    && (forall n :: n in entries <==> IsLastOfItsId(nodes, n))
    && (forall a, b :: 0 <= a < b < |entries| ==> FirstSeenBefore(nodes, entries[a].id, entries[b].id))
  }

  lemma UpsertMembers(entries: seq<DagNode>, node: DagNode)
    requires DistinctIds(entries)
    ensures forall n :: n in Upsert(entries, node) <==> n == node || (n in entries && n.id != node.id)
    ensures |Upsert(entries, node)| >= |entries|
    ensures forall i :: 0 <= i < |entries| ==> Upsert(entries, node)[i].id == entries[i].id
    ensures |Upsert(entries, node)| > |entries| ==>
      Upsert(entries, node) == entries + [node] && forall n :: n in entries ==> n.id != node.id
  {
    var k, r := Find(entries, node.id), Upsert(entries, node);
    forall n | n in entries && n.id != node.id ensures n in r {
      var i :| 0 <= i < |entries| && entries[i] == n;
      assert r[i] == n;
    }
    if k < |entries| {
      assert r[k] == node;
    } else {
      assert r[|entries|] == node;
    }
  }

  lemma LastOfMore(front: seq<DagNode>, last: DagNode, n: DagNode)
    ensures IsLastOfItsId(front + [last], n) <==> n == last || (IsLastOfItsId(front, n) && n.id != last.id)
  {
    var nodes := front + [last];
    if IsLastOfItsId(nodes, n) && n != last {
      var i :| 0 <= i < |nodes| && nodes[i] == n && forall j :: i < j < |nodes| ==> nodes[j].id != n.id;
      assert nodes[|front|] == last && front[i] == n;
      assert forall j :: i < j < |front| ==> nodes[j] == front[j];
    }
    if IsLastOfItsId(front, n) && n.id != last.id {
      var i :| 0 <= i < |front| && front[i] == n && forall j :: i < j < |front| ==> front[j].id != n.id;
      assert nodes[i] == n;
    }
    if n == last {
      assert nodes[|front|] == n;
    }
  }

  lemma SeenBeforeInMore(front: seq<DagNode>, last: DagNode, a: string, b: string)
    requires FirstSeenBefore(front, a, b)
    ensures FirstSeenBefore(front + [last], a, b)
  {
    var i :| 0 <= i < |front| && front[i].id == a && forall j :: 0 <= j <= i ==> front[j].id != b;
    assert (front + [last])[i].id == a;
  }

  lemma SeenBeforeTheLast(front: seq<DagNode>, last: DagNode, a: string)
    requires a in Ids(front) && last.id !in Ids(front)
    ensures FirstSeenBefore(front + [last], a, last.id)
  {
    var n :| n in front && n.id == a;
    var i :| 0 <= i < |front| && front[i] == n;
    forall j | 0 <= j <= i ensures (front + [last])[j].id != last.id {
      assert front[j] in front;
    }
    assert (front + [last])[i].id == a;
  }

  lemma UpsertKeepsOrder(front: seq<DagNode>, last: DagNode, entries: seq<DagNode>)
    requires DistinctIds(entries) && IsInsertionOrdered(front, entries) && Ids(entries) == Ids(front)
    ensures IsInsertionOrdered(front + [last], Upsert(entries, last))
  {
    var r := Upsert(entries, last);
    UpsertMembers(entries, last);
    forall n ensures n in r <==> IsLastOfItsId(front + [last], n) {
      LastOfMore(front, last, n);
    }
    forall a, b | 0 <= a < b < |r| ensures FirstSeenBefore(front + [last], r[a].id, r[b].id) {
      if b < |entries| {
        SeenBeforeInMore(front, last, entries[a].id, entries[b].id);
      } else {
        assert entries[a].id in Ids(entries) && last.id !in Ids(entries);
        SeenBeforeTheLast(front, last, r[a].id);
      }
    }
  }

  // Of the nodes with one id the map holds the last, at the place of the first.
  lemma {:induction false} ByIdKeepsFirstPlaces(nodes: seq<DagNode>)
    ensures IsInsertionOrdered(nodes, ById(nodes))
  {
    if nodes != [] {
      var front, last := nodes[..|nodes| - 1], nodes[|nodes| - 1];
      ByIdKeepsFirstPlaces(front);
      ByIdIds(front);
      UpsertKeepsOrder(front, last, ById(front));
      assert front + [last] == nodes;
    }
  }

  ghost predicate DependsOn(plan: seq<DagNode>, a: string, b: string) {
    exists n :: n in plan && n.id == a && b in n.dependsOn
  }

  // A chain walks from a node to a dependency, to a dependency of that, and so on.
  ghost predicate IsChain(plan: seq<DagNode>, p: seq<string>) {
    && p != []
    && p[0] in Ids(plan)
    && (|p| > 1 ==> DependsOn(plan, p[0], p[1]) && IsChain(plan, p[1..]))
  }

  ghost predicate IsCycle(plan: seq<DagNode>, p: seq<string>) {
    IsChain(plan, p) && |p| >= 2 && p[0] == p[|p| - 1]
  }

  ghost predicate Acyclic(plan: seq<DagNode>) {
    forall p :: !IsCycle(plan, p)
  }

  ghost predicate DepsPresentIn(nodes: seq<DagNode>, ids: set<string>) {
    forall n, dep :: n in nodes && dep in n.dependsOn ==> dep in ids
  }

  ghost predicate DepsPresent(nodes: seq<DagNode>) {
    DepsPresentIn(nodes, Ids(nodes))
  }

  ghost predicate HasChain(plan: seq<DagNode>, id: string, edges: nat) {
    exists p :: IsChain(plan, p) && p[0] == id && |p| == edges + 1
  }

  // The longest dependency chain below `id` has exactly `edges` edges.
  ghost predicate LongestChain(plan: seq<DagNode>, id: string, edges: nat) {
    && HasChain(plan, id, edges)
    && forall p :: IsChain(plan, p) && p[0] == id ==> |p| <= edges + 1
  }

  // Every ranked id is ranked by its longest chain, below `bound`.
  ghost predicate RanksExact(plan: seq<DagNode>, rank: map<string, nat>, bound: nat) {
    forall id :: id in rank ==> LongestChain(plan, id, rank[id]) && rank[id] < bound
  }

  // Level k lists, in plan order, precisely the nodes of rank k, and no level is empty.
  ghost predicate LevelsFollow(plan: seq<DagNode>, rank: map<string, nat>, levels: seq<seq<DagNode>>) {
    forall k :: 0 <= k < |levels| ==> levels[k] != [] && levels[k] == AtRank(plan, rank, k)
  }

  ghost predicate ExactLevels(plan: seq<DagNode>, rank: map<string, nat>, levels: seq<seq<DagNode>>) {
    && rank.Keys == Ids(plan)
    && RanksExact(plan, rank, |levels|)
    && LevelsFollow(plan, rank, levels)
  }

  ghost function AtRank(plan: seq<DagNode>, rank: map<string, nat>, k: nat): (level: seq<DagNode>)
    ensures forall n :: n in level <==> n in plan && n.id in rank && rank[n.id] == k
  {
    if plan == [] then [] else
      var rest := AtRank(plan[1..], rank, k);
      if plan[0].id in rank && rank[plan[0].id] == k then [plan[0]] + rest else rest
  }

  function Without(plan: seq<DagNode>, done: set<string>): (rest: seq<DagNode>)
    ensures forall n :: n in rest <==> n in plan && n.id !in done
  {
    if plan == [] then [] else
      var tail := Without(plan[1..], done);
      if plan[0].id in done then tail else [plan[0]] + tail
  }

  function Ready(nodes: seq<DagNode>, done: set<string>): (level: seq<DagNode>)
    ensures forall n :: n in level <==> n in nodes && forall dep :: dep in n.dependsOn ==> dep in done
  {
    if nodes == [] then [] else
      var tail := Ready(nodes[1..], done);
      if forall dep :: dep in nodes[0].dependsOn ==> dep in done then [nodes[0]] + tail else tail
  }

  lemma SameNode(plan: seq<DagNode>, a: DagNode, b: DagNode)
    requires DistinctIds(plan) && a in plan && b in plan && a.id == b.id
    ensures a == b
  {
    var i :| 0 <= i < |plan| && plan[i] == a;
    var j :| 0 <= j < |plan| && plan[j] == b;
  }

  // ---------------------------------------------------------------- levelling

  // One more edge on top of a chain.
  lemma ExtendChain(plan: seq<DagNode>, id: string, dep: string, edges: nat)
    requires id in Ids(plan) && DependsOn(plan, id, dep) && HasChain(plan, dep, edges)
    ensures HasChain(plan, id, edges + 1)
  {
    var p :| IsChain(plan, p) && p[0] == dep && |p| == edges + 1;
    var q := [id] + p;
    assert q[1..] == p;
    assert IsChain(plan, q);
  }

  lemma {:induction false} ChainEndsInPlan(plan: seq<DagNode>, p: seq<string>)
    requires IsChain(plan, p)
    ensures p[|p| - 1] in Ids(plan)
  {
    if |p| > 1 {
      ChainEndsInPlan(plan, p[1..]);
    }
  }

  lemma {:induction false} ChainSlice(plan: seq<DagNode>, p: seq<string>, i: nat, j: nat)
    requires IsChain(plan, p) && i < j <= |p|
    ensures IsChain(plan, p[i..j])
    decreases |p|
  {
    var q := p[i..j];
    if i > 0 {
      ChainSlice(plan, p[1..], i - 1, j - 1);
      assert p[1..][i - 1..j - 1] == q;
    } else if j > 1 {
      ChainSlice(plan, p[1..], 0, j - 1);
      assert p[1..][0..j - 1] == q[1..];
      assert q[0] == p[0] && q[1] == p[1];
    }
  }

  // A node all of whose dependencies have longest chains below k has none longer than k.
  lemma ChainBound(plan: seq<DagNode>, rank: map<string, nat>, node: DagNode, k: nat)
    requires DistinctIds(plan) && node in plan
    requires forall id :: id in rank ==> LongestChain(plan, id, rank[id]) && rank[id] < k
    requires forall dep :: dep in node.dependsOn ==> dep in rank
    ensures forall p :: IsChain(plan, p) && p[0] == node.id ==> |p| <= k + 1
  {
    forall p | IsChain(plan, p) && p[0] == node.id ensures |p| <= k + 1 {
      if |p| > 1 {
        assert DependsOn(plan, p[0], p[1]);
        var n :| n in plan && n.id == p[0] && p[1] in n.dependsOn;
        SameNode(plan, n, node);
        assert IsChain(plan, p[1..]) && p[1..][0] == p[1];
      }
    }
  }

  // Longest-chain lengths strictly decrease along a chain, so no chain closes up.
  lemma {:induction false} RankDecreases(plan: seq<DagNode>, rank: map<string, nat>, p: seq<string>)
    requires rank.Keys == Ids(plan)
    requires forall id :: id in rank ==> LongestChain(plan, id, rank[id])
    requires IsChain(plan, p) && |p| >= 2
    ensures p[|p| - 1] in rank && rank[p[|p| - 1]] < rank[p[0]]
    decreases |p|
  {
    ExtendChain(plan, p[0], p[1], rank[p[1]]);
    if |p| > 2 {
      RankDecreases(plan, rank, p[1..]);
    }
  }

  lemma RankedIsAcyclic(plan: seq<DagNode>, rank: map<string, nat>)
    requires rank.Keys == Ids(plan)
    requires forall id :: id in rank ==> LongestChain(plan, id, rank[id])
    ensures Acyclic(plan)
  {
    forall p ensures !IsCycle(plan, p) {
      if IsCycle(plan, p) {
        RankDecreases(plan, rank, p);
      }
    }
  }

  ghost predicate Blocked(plan: seq<DagNode>, stuck: set<string>, id: string) {
    exists dep :: dep in stuck && DependsOn(plan, id, dep)
  }

  ghost predicate AllBlocked(plan: seq<DagNode>, stuck: set<string>) {
    && stuck <= Ids(plan)
    && forall id {:trigger Blocked(plan, stuck, id)} :: id in stuck ==> Blocked(plan, stuck, id)
  }

  // Where every node of `stuck` depends on another one of them, chains inside `stuck`
  // can be made as long as one likes.
  lemma {:induction false} WalkInside(plan: seq<DagNode>, stuck: set<string>, start: string, edges: nat)
    returns (p: seq<string>)
    requires AllBlocked(plan, stuck) && start in stuck
    ensures IsChain(plan, p) && p[0] == start && |p| == edges + 1
    ensures forall x :: x in p ==> x in stuck
    decreases edges
  {
    if edges == 0 {
      p := [start];
    } else {
      assert Blocked(plan, stuck, start);
      var dep :| dep in stuck && DependsOn(plan, start, dep);
      var q := WalkInside(plan, stuck, dep, edges - 1);
      p := [start] + q;
      assert p[1..] == q;
    }
  }

  lemma CycleAmong(plan: seq<DagNode>, stuck: set<string>) returns (cycle: seq<string>)
    requires AllBlocked(plan, stuck) && stuck != {}
    ensures IsCycle(plan, cycle) && forall x :: x in cycle ==> x in stuck
  {
    var start :| start in stuck;
    var p := WalkInside(plan, stuck, start, |stuck|);
    var i, j := Repeats(p, stuck);
    cycle := p[i..j + 1];
    ChainSlice(plan, p, i, j + 1);
    assert cycle[0] == p[i] && cycle[|cycle| - 1] == p[j];
  }

  // Unranked nodes have chains at least as long as the number of levels already produced.
  ghost predicate RestIsDeep(plan: seq<DagNode>, rank: map<string, nat>, k: nat) {
    forall id :: id in Ids(plan) && id !in rank ==> HasChain(plan, id, k)
  }

  // What the levelling loop keeps.
  ghost predicate Levelled(plan: seq<DagNode>, rank: map<string, nat>, levels: seq<seq<DagNode>>) {
    && rank.Keys <= Ids(plan)
    && RanksExact(plan, rank, |levels|)
    && LevelsFollow(plan, rank, levels)
    && RestIsDeep(plan, rank, |levels|)
  }

  lemma {:induction false} ReadyIsNextRank(
    plan: seq<DagNode>, sub: seq<DagNode>, rank: map<string, nat>, next: map<string, nat>, k: nat)
    requires forall n :: n in sub ==> n in plan
    requires forall id :: id in rank ==> rank[id] < k
    requires forall n :: n in sub ==>
      ((n.id in next && next[n.id] == k) <==> n.id !in rank && forall dep :: dep in n.dependsOn ==> dep in rank)
    ensures Ready(Without(sub, rank.Keys), rank.Keys) == AtRank(sub, next, k)
  {
    if sub != [] {
      ReadyIsNextRank(plan, sub[1..], rank, next, k);
      var rest := Without(sub[1..], rank.Keys);
      if sub[0].id !in rank {
        assert ([sub[0]] + rest)[1..] == rest;
      }
    }
  }

  lemma {:induction false} OlderRanksKept(sub: seq<DagNode>, rank: map<string, nat>, next: map<string, nat>, j: nat)
    requires forall id :: id in rank ==> id in next && next[id] == rank[id]
    requires forall id :: id in next && id !in rank ==> next[id] != j
    ensures AtRank(sub, next, j) == AtRank(sub, rank, j)
  {
    if sub != [] {
      OlderRanksKept(sub[1..], rank, next, j);
    }
  }

  ghost function NextRank(rank: map<string, nat>, level: seq<DagNode>, k: nat): map<string, nat> {
    map id | id in rank.Keys + Ids(level) :: if id in rank then rank[id] else k
  }

  lemma NextRanksAreExact(plan: seq<DagNode>, rank: map<string, nat>, k: nat, level: seq<DagNode>)
    requires DistinctIds(plan) && RanksExact(plan, rank, k) && RestIsDeep(plan, rank, k)
    requires level == Ready(Without(plan, rank.Keys), rank.Keys)
    ensures RanksExact(plan, NextRank(rank, level, k), k + 1)
  {
    var next := NextRank(rank, level, k);
    forall id | id in next ensures LongestChain(plan, id, next[id]) && next[id] < k + 1 {
      if id !in rank {
        var node :| node in level && node.id == id;
        ChainBound(plan, rank, node, k);
      }
    }
  }

  // The nodes that are ready are those of the next rank.
  lemma NextLevelIsRank(plan: seq<DagNode>, rank: map<string, nat>, k: nat, level: seq<DagNode>)
    requires DistinctIds(plan) && forall id :: id in rank ==> rank[id] < k
    requires level == Ready(Without(plan, rank.Keys), rank.Keys)
    ensures level == AtRank(plan, NextRank(rank, level, k), k)
  {
    var next := NextRank(rank, level, k);
    forall n | n in plan
      ensures (n.id in next && next[n.id] == k)
         <==> n.id !in rank && forall dep :: dep in n.dependsOn ==> dep in rank
    {
      if n.id in Ids(level) {
        var node :| node in level && node.id == n.id;
        SameNode(plan, n, node);
      }
    }
    ReadyIsNextRank(plan, plan, rank, next, k);
  }

  lemma NextLevelsFollow(
    plan: seq<DagNode>, rank: map<string, nat>, levels: seq<seq<DagNode>>, level: seq<DagNode>)
    requires DistinctIds(plan) && LevelsFollow(plan, rank, levels)
    requires forall id :: id in rank ==> rank[id] < |levels|
    requires level == Ready(Without(plan, rank.Keys), rank.Keys) && level != []
    ensures LevelsFollow(plan, NextRank(rank, level, |levels|), levels + [level])
  {
    var k := |levels|;
    var next := NextRank(rank, level, k);
    NextLevelIsRank(plan, rank, k, level);
    forall j | 0 <= j < k ensures levels[j] == AtRank(plan, next, j) {
      OlderRanksKept(plan, rank, next, j);
    }
  }

  lemma NextRestIsDeep(plan: seq<DagNode>, rank: map<string, nat>, k: nat, level: seq<DagNode>)
    requires DepsPresent(plan) && RestIsDeep(plan, rank, k)
    requires level == Ready(Without(plan, rank.Keys), rank.Keys)
    ensures RestIsDeep(plan, NextRank(rank, level, k), k + 1)
  {
    forall id | id in Ids(plan) && id !in NextRank(rank, level, k) ensures HasChain(plan, id, k + 1) {
      var node :| node in plan && node.id == id;
      assert node !in level;
      assert node in Without(plan, rank.Keys);
      var dep :| dep in node.dependsOn && dep !in rank;
      assert DependsOn(plan, id, dep);
      ExtendChain(plan, id, dep, k);
    }
  }

  lemma LevelStep(plan: seq<DagNode>, rank: map<string, nat>, levels: seq<seq<DagNode>>, level: seq<DagNode>)
    requires DistinctIds(plan) && DepsPresent(plan) && Levelled(plan, rank, levels)
    requires level == Ready(Without(plan, rank.Keys), rank.Keys) && level != []
    ensures Levelled(plan, NextRank(rank, level, |levels|), levels + [level])
  {
    NextRanksAreExact(plan, rank, |levels|, level);
    NextLevelsFollow(plan, rank, levels, level);
    NextRestIsDeep(plan, rank, |levels|, level);
    forall id | id in Ids(level) ensures id in Ids(plan) {
      var node :| node in level && node.id == id;
    }
  }

  lemma StuckIsBlocked(plan: seq<DagNode>, done: set<string>, node: DagNode)
    requires DepsPresent(plan)
    requires Ready(Without(plan, done), done) == [] && node in Without(plan, done)
    ensures Blocked(plan, Ids(Without(plan, done)), node.id)
  {
    assert node !in Ready(Without(plan, done), done);
    var dep :| dep in node.dependsOn && dep !in done;
    assert dep in Ids(plan);
    var target :| target in plan && target.id == dep;
    assert target in Without(plan, done);
    assert dep in Ids(Without(plan, done)) && DependsOn(plan, node.id, dep);
  }

  lemma StuckHasCycle(plan: seq<DagNode>, done: set<string>) returns (cycle: seq<string>)
    requires DepsPresent(plan)
    requires Without(plan, done) != [] && Ready(Without(plan, done), done) == []
    ensures IsCycle(plan, cycle) && forall x :: x in cycle ==> x in Ids(Without(plan, done))
  {
    var rest := Without(plan, done);
    assert rest[0].id in Ids(rest);
    forall id | id in Ids(rest) ensures Blocked(plan, Ids(rest), id) && id in Ids(plan) {
      var node :| node in rest && node.id == id;
      StuckIsBlocked(plan, done, node);
    }
    cycle := CycleAmong(plan, Ids(rest));
  }

  lemma {:induction false} WithoutMore(sub: seq<DagNode>, done: set<string>, level: set<string>)
    ensures Without(Without(sub, done), level) == Without(sub, done + level)
  {
    if sub != [] {
      WithoutMore(sub[1..], done, level);
      var rest := Without(sub[1..], done);
      assert ([sub[0]] + rest)[1..] == rest;
    }
  }

  lemma {:induction false} WithoutNothing(sub: seq<DagNode>)
    ensures Without(sub, {}) == sub
  {
    if sub != [] {
      WithoutNothing(sub[1..]);
    }
  }

  lemma {:induction false} WithoutShrinks(sub: seq<DagNode>, done: set<string>)
    ensures |Without(sub, done)| <= |sub|
    ensures (exists n :: n in sub && n.id in done) ==> |Without(sub, done)| < |sub|
  {
    if sub != [] {
      WithoutShrinks(sub[1..], done);
      if n :| n in sub && n.id in done {
        assert n == sub[0] || n in sub[1..];
      }
    }
  }

  lemma LevelledToTheEnd(plan: seq<DagNode>, rank: map<string, nat>, levels: seq<seq<DagNode>>)
    requires Levelled(plan, rank, levels) && Without(plan, rank.Keys) == []
    ensures ExactLevels(plan, rank, levels) && Acyclic(plan)
  {
    forall id | id in Ids(plan) ensures id in rank {
      var n :| n in plan && n.id == id;
      assert n !in Without(plan, rank.Keys);
    }
    RankedIsAcyclic(plan, rank);
  }

  lemma LevelledAtTheStart(plan: seq<DagNode>)
    ensures Levelled(plan, map[], [])
  {
    forall id | id in Ids(plan) ensures HasChain(plan, id, 0) {
      assert IsChain(plan, [id]);
    }
  }

  function Names(nodes: seq<DagNode>): (names: seq<string>)
    ensures forall n :: n in nodes ==> n.id in names
  {
    if nodes == [] then [] else [nodes[0].id] + Names(nodes[1..])
  }

  // Dependency j of node i names no node, and everything before it is present.
  ghost predicate IsFirstMissing(nodes: seq<DagNode>, i: int, j: int, error: DagError) {
    && 0 <= i < |nodes| && 0 <= j < |nodes[i].dependsOn|
    && error == DagInvalid(nodes[i].id, nodes[i].dependsOn[j])
    && nodes[i].dependsOn[j] !in Ids(nodes)
    && DepsPresentIn(nodes[..i], Ids(nodes))
    && forall l :: 0 <= l < j ==> nodes[i].dependsOn[l] in Ids(nodes)
  }

  // The first loop: the first dependency, in node and list order, that names no node.
  method FindMissing(nodes: seq<DagNode>) returns (missing: Option<DagError>)
    ensures missing.None? <==> DepsPresent(nodes)
    ensures missing.Some? ==> exists i, j :: IsFirstMissing(nodes, i, j, missing.value)
  {
    for i := 0 to |nodes|
      invariant DepsPresentIn(nodes[..i], Ids(nodes))
    {
      for j := 0 to |nodes[i].dependsOn|
        invariant forall l :: 0 <= l < j ==> nodes[i].dependsOn[l] in Ids(nodes)
      {
        var dep := nodes[i].dependsOn[j];
        if dep !in Ids(nodes) {
          assert nodes[i] in nodes && dep in nodes[i].dependsOn;
          missing := Some(DagInvalid(nodes[i].id, dep));
          assert IsFirstMissing(nodes, i, j, missing.value);
          return missing;
        }
      }
      assert nodes[..i + 1] == nodes[..i] + [nodes[i]];
    }
    assert nodes[..|nodes|] == nodes;
    return None;
  }

  lemma {:induction false} ChainConcat(plan: seq<DagNode>, p: seq<string>, q: seq<string>)
    requires IsChain(plan, p) && IsChain(plan, q) && p[|p| - 1] == q[0]
    ensures IsChain(plan, p + q[1..])
    decreases |p|
  {
    if |p| == 1 {
      assert p + q[1..] == q;
    } else {
      ChainConcat(plan, p[1..], q);
      assert (p + q[1..])[1..] == p[1..] + q[1..];
    }
  }

  // Going down from this node one meets a node twice: it depends, at whatever distance, on a
  // cycle or lies on one.
  ghost predicate LeadsToCycle(plan: seq<DagNode>, id: string) {
    exists p, i, j :: LeadsRound(plan, id, p, i, j)
  }

  ghost predicate LeadsRound(plan: seq<DagNode>, id: string, p: seq<string>, i: int, j: int) {
    IsChain(plan, p) && p[0] == id && 0 <= i < j < |p| && p[i] == p[j]
  }

  // One more time round.
  lemma OnceRound(plan: seq<DagNode>, id: string, p: seq<string>, i: nat, j: nat) returns (q: seq<string>)
    requires LeadsRound(plan, id, p, i, j)
    ensures LeadsRound(plan, id, q, i, j) && |q| > |p|
  {
    var front, back := p[..j + 1], p[i..];
    ChainSlice(plan, p, 0, j + 1);
    ChainSlice(plan, p, i, |p|);
    assert p[0..j + 1] == front && p[i..|p|] == back;
    ChainConcat(plan, front, back);
    q := front + back[1..];
  }

  lemma {:induction false} RoundAndRound(plan: seq<DagNode>, id: string, p: seq<string>, i: nat, j: nat, n: nat)
    returns (q: seq<string>)
    requires LeadsRound(plan, id, p, i, j)
    ensures IsChain(plan, q) && q[0] == id && |q| > n
    decreases n - |p|
  {
    q := p;
    if |p| <= n {
      var longer := OnceRound(plan, id, p, i, j);
      q := RoundAndRound(plan, id, longer, i, j, n);
    }
  }

  // A node with a longest chain leads to no cycle.
  lemma RankedLeadsNowhere(plan: seq<DagNode>, id: string, edges: nat)
    requires LongestChain(plan, id, edges)
    ensures !LeadsToCycle(plan, id)
  {
    if LeadsToCycle(plan, id) {
      var p, i, j :| LeadsRound(plan, id, p, i, j);
      var q := RoundAndRound(plan, id, p, i, j, edges + 1);
    }
  }

  lemma BlockedLeadsToCycle(plan: seq<DagNode>, stuck: set<string>, id: string)
    requires AllBlocked(plan, stuck) && id in stuck
    ensures LeadsToCycle(plan, id)
  {
    var p := WalkInside(plan, stuck, id, |stuck|);
    var i, j := Repeats(p, stuck);
    assert LeadsRound(plan, id, p, i, j);
  }

  ghost predicate ListedBefore(plan: seq<DagNode>, a: string, b: string) {
    exists i, j :: 0 <= i < j < |plan| && plan[i].id == a && plan[j].id == b
  }

  ghost predicate InPlanOrder(plan: seq<DagNode>, names: seq<string>) {
    forall a, b :: 0 <= a < b < |names| ==> ListedBefore(plan, names[a], names[b])
  }

  // The names are those of all nodes that lead to a cycle and of no others, each once, in plan
  // order.
  ghost predicate NamesTheStuck(plan: seq<DagNode>, names: seq<string>) {
    && (forall id :: id in names <==> id in Ids(plan) && LeadsToCycle(plan, id))
    && InPlanOrder(plan, names)
  }

  lemma ListedBeforeLater(plan: seq<DagNode>, a: string, b: string)
    requires plan != [] && ListedBefore(plan[1..], a, b)
    ensures ListedBefore(plan, a, b)
  {
    var i, j :| 0 <= i < j < |plan[1..]| && plan[1..][i].id == a && plan[1..][j].id == b;
    assert plan[i + 1].id == a && plan[j + 1].id == b;
  }

  lemma InOrderLater(plan: seq<DagNode>, names: seq<string>)
    requires plan != [] && InPlanOrder(plan[1..], names)
    ensures InPlanOrder(plan, names)
  {
    forall a, b | 0 <= a < b < |names| ensures ListedBefore(plan, names[a], names[b]) {
      ListedBeforeLater(plan, names[a], names[b]);
    }
  }

  lemma FirstIsListed(plan: seq<DagNode>, id: string)
    requires plan != [] && id in Ids(plan[1..])
    ensures ListedBefore(plan, plan[0].id, id)
  {
    var n :| n in plan[1..] && n.id == id;
    var j :| 0 <= j < |plan[1..]| && plan[1..][j] == n;
    assert plan[j + 1].id == id;
  }

  lemma InOrderWithFirst(plan: seq<DagNode>, later: seq<string>)
    requires plan != [] && InPlanOrder(plan[1..], later) && forall id :: id in later ==> id in Ids(plan[1..])
    ensures InPlanOrder(plan, [plan[0].id] + later)
  {
    var names := [plan[0].id] + later;
    InOrderLater(plan, later);
    forall a, b | 0 <= a < b < |names| ensures ListedBefore(plan, names[a], names[b]) {
      assert names[b] == later[b - 1];
      if a == 0 {
        FirstIsListed(plan, names[b]);
      } else {
        assert names[a] == later[a - 1];
      }
    }
  }

  lemma {:induction false} NamesInOrder(plan: seq<DagNode>, done: set<string>)
    ensures InPlanOrder(plan, Names(Without(plan, done)))
  {
    if plan != [] {
      NamesInOrder(plan[1..], done);
      var rest := Without(plan[1..], done);
      if plan[0].id in done {
        InOrderLater(plan, Names(rest));
      } else {
        NamesAreIds(rest);
        assert forall n :: n in rest ==> n.id in Ids(plan[1..]);
        InOrderWithFirst(plan, Names(rest));
        NamesOfFirst(plan[0], rest);
      }
    }
  }

  lemma NamesOfFirst(node: DagNode, rest: seq<DagNode>)
    ensures Names([node] + rest) == [node.id] + Names(rest)
  {
    assert ([node] + rest)[1..] == rest;
  }

  lemma {:induction false} NamesAreIds(nodes: seq<DagNode>)
    ensures forall id :: id in Names(nodes) <==> id in Ids(nodes)
  {
    if nodes != [] {
      NamesAreIds(nodes[1..]);
      assert forall n :: n in nodes <==> n == nodes[0] || n in nodes[1..];
    }
  }

  // What the levelling loop knows of its variables.
  ghost predicate Underway(
    plan: seq<DagNode>, rank: map<string, nat>, levels: seq<seq<DagNode>>, done: set<string>, remaining: seq<DagNode>)
  {
    rank.Keys == done && remaining == Without(plan, done) && Levelled(plan, rank, levels)
  }

  ghost predicate HasCycleAmong(plan: seq<DagNode>, names: seq<string>) {
    exists p :: IsCycle(plan, p) && forall x :: x in p ==> x in names
  }

  lemma OneRound(
    plan: seq<DagNode>, rank: map<string, nat>, levels: seq<seq<DagNode>>, done: set<string>, remaining: seq<DagNode>,
    level: seq<DagNode>)
    requires DistinctIds(plan) && DepsPresent(plan) && Underway(plan, rank, levels, done, remaining)
    requires level == Ready(remaining, done) && level != []
    ensures
      Underway(
        plan, NextRank(rank, level, |levels|), levels + [level],
        done + Ids(level), Without(remaining, Ids(level)))
    ensures |Without(remaining, Ids(level))| < |remaining|
  {
    LevelStep(plan, rank, levels, level);
    WithoutMore(plan, done, Ids(level));
    assert level[0] in remaining && level[0].id in Ids(level);
    WithoutShrinks(remaining, Ids(level));
  }

  lemma NoRound(plan: seq<DagNode>, done: set<string>, remaining: seq<DagNode>)
    requires DepsPresent(plan) && remaining == Without(plan, done)
    requires remaining != [] && Ready(remaining, done) == []
    ensures HasCycleAmong(plan, Names(remaining))
  {
    var cycle := StuckHasCycle(plan, done);
    forall x | x in cycle ensures x in Names(remaining) {
      var n :| n in remaining && n.id == x;
    }
  }

  lemma StuckIsNamed(plan: seq<DagNode>, rank: map<string, nat>, k: nat)
    requires DepsPresent(plan) && RanksExact(plan, rank, k)
    requires Ready(Without(plan, rank.Keys), rank.Keys) == []
    ensures NamesTheStuck(plan, Names(Without(plan, rank.Keys)))
  {
    NamesInOrder(plan, rank.Keys);
    NamesAreIds(Without(plan, rank.Keys));
    forall id | id in Ids(plan) ensures id !in rank <==> LeadsToCycle(plan, id) {
      if id in rank {
        RankedLeadsNowhere(plan, id, rank[id]);
      } else {
        UnrankedLeadsToCycle(plan, rank.Keys, id);
      }
    }
  }

  lemma UnrankedLeadsToCycle(plan: seq<DagNode>, done: set<string>, id: string)
    requires DepsPresent(plan) && Ready(Without(plan, done), done) == []
    requires id in Ids(plan) && id !in done
    ensures LeadsToCycle(plan, id)
  {
    var rest := Without(plan, done);
    forall x | x in Ids(rest) ensures Blocked(plan, Ids(rest), x) && x in Ids(plan) {
      var node :| node in rest && node.id == x;
      StuckIsBlocked(plan, done, node);
    }
    var node :| node in plan && node.id == id;
    assert node in rest;
    BlockedLeadsToCycle(plan, Ids(rest), id);
  }

  // The levelling loop.
  method LevelsOf(byId: seq<DagNode>) returns (r: Result<seq<seq<DagNode>>, DagError>, ghost rank: map<string, nat>)
    requires DistinctIds(byId) && DepsPresent(byId)
    ensures r.Ok? ==> Acyclic(byId) && ExactLevels(byId, rank, r.value)
    ensures r.Err? ==>
      r.error.DagCycle? && HasCycleAmong(byId, r.error.remaining) && NamesTheStuck(byId, r.error.remaining)
  {
    var remaining := byId;
    var done: set<string> := {};
    var levels: seq<seq<DagNode>> := [];
    rank := map[];
    WithoutNothing(byId);
    LevelledAtTheStart(byId);
    while |remaining| > 0
      invariant Underway(byId, rank, levels, done, remaining)
      decreases |remaining|
    {
      var level := Ready(remaining, done);
      if |level| == 0 {
        NoRound(byId, done, remaining);
        StuckIsNamed(byId, rank, |levels|);
        return Err(DagCycle(Names(remaining))), rank;
      }
      OneRound(byId, rank, levels, done, remaining, level);
      rank := NextRank(rank, level, |levels|);
      var levelIds := Ids(level);
      remaining := Without(remaining, levelIds);
      done := done + levelIds;
      levels := levels + [level];
    }
    LevelledToTheEnd(byId, rank, levels);
    r := Ok(levels);
  }

  // Kahn levelling by repeated scanning: it returns exactly when the dependency graph is
  // acyclic, and then level k holds the nodes whose longest dependency chain has k edges.
  method TopologicalLevels(nodes: seq<DagNode>)
    returns (r: Result<seq<seq<DagNode>>, DagError>, ghost rank: map<string, nat>)
    ensures (r.Err? && r.error.DagInvalid?) <==> !DepsPresent(nodes)
    ensures r.Ok? ==> Acyclic(ById(nodes)) && ExactLevels(ById(nodes), rank, r.value)
    ensures r.Err? && r.error.DagCycle? ==>
      HasCycleAmong(ById(nodes), r.error.remaining) && NamesTheStuck(ById(nodes), r.error.remaining)
    ensures r.Err? && r.error.DagInvalid? ==> exists i, j :: IsFirstMissing(nodes, i, j, r.error)
    ensures DepsPresent(nodes) ==> (r.Ok? <==> Acyclic(ById(nodes)))
  {
    rank := map[];
    var missing := FindMissing(nodes);
    if missing.Some? {
      r := Err(missing.value);
    } else {
      PresentById(nodes);
      r, rank := LevelsOf(ById(nodes));
    }
  }

  lemma PresentById(nodes: seq<DagNode>)
    requires DepsPresent(nodes)
    ensures DepsPresent(ById(nodes))
  {
    ByIdIds(nodes);
  }
}
