// Model of apps/server/src/db/session-folder-data-access.ts: each owner's folders form a
// forest, kept so by the walk that precedes every change of parent. Ids stand for UUIDs.
module FolderForest {
  import opened Wrappers
  import opened ParentChains

  datatype Folder = Folder(
    orgId: nat, name: string, systemPrompt: Option<string>, parentFolderId: Option<nat>, createdBy: nat)

  datatype Patch = Patch(
    name: Option<string>, systemPrompt: Option<Option<string>>, parentFolderId: Option<Option<nat>>)

  datatype Error = CircularFolderReference | ForeignKeyViolation

  // ---------------------------------------------------------------- forests

  ghost predicate Forest<K(!new)>(parent: map<K, K>) {
    forall x :: !OnCycle(parent, x)
  }

  lemma ForestIffRooted<K(!new)>(parent: map<K, K>)
    ensures Forest(parent) <==> forall x :: Rooted(parent, x)
  {
    if Forest(parent) {
      forall x ensures Rooted(parent, x) {
        RootedIffNoCycleAbove(parent, x);
      }
    } else {
      var x :| OnCycle(parent, x);
      CycleIsUnrooted(parent, x);
    }
  }

  // The chain from x is the same under another parent for id, unless it meets id.
  lemma {:induction false} ChainAvoids<K>(parent: map<K, K>, id: K, to: K, x: K, n: nat)
    requires DepthIs(parent, x, n) && !IsAncestor(parent, id, x)
    ensures DepthIs(parent[id := to], x, n)
  {
    assert Nth(parent, x, 0) == Some(x);
    if n > 0 {
      forall k: nat ensures Nth(parent, parent[x], k) != Some(id) {
        assert Nth(parent, x, k + 1) == Nth(parent, parent[x], k);
      }
      ChainAvoids(parent, id, to, parent[x], n - 1);
    }
  }

  lemma {:induction false} StaysRooted<K>(parent: map<K, K>, id: K, to: K, x: K, n: nat)
    requires DepthIs(parent, x, n) && Rooted(parent[id := to], to)
    ensures Rooted(parent[id := to], x)
  {
    if x == id {
      DepthOfChild(parent[id := to], x);
    } else if n == 0 {
      DepthOfRoot(parent[id := to], x);
    } else {
      StaysRooted(parent, id, to, parent[x], n - 1);
      DepthOfChild(parent[id := to], x);
    }
  }

  lemma {:induction false} StillReaches<K>(parent: map<K, K>, id: K, to: K, x: K, n: nat) returns (m: nat)
    requires Nth(parent, x, n) == Some(id)
    ensures Nth(parent[id := to], x, m) == Some(id)
  {
    if x == id {
      m := 0;
    } else {
      var k := StillReaches(parent, id, to, parent[x], n - 1);
      m := k + 1;
    }
  }

  // Moving a folder keeps a forest a forest iff the folder is not above its new parent.
  lemma MoveKeepsForestIff<K(!new)>(parent: map<K, K>, id: K, to: K)
    requires Forest(parent)
    ensures Forest(parent[id := to]) <==> !IsAncestor(parent, id, to)
  {
    var moved := parent[id := to];
    ForestIffRooted(parent);
    ForestIffRooted(moved);
    if IsAncestor(parent, id, to) {
      var n: nat :| Nth(parent, to, n) == Some(id);
      var m := StillReaches(parent, id, to, to, n);
      assert Nth(moved, id, m + 1) == Some(id);
      assert OnCycle(moved, id);
    } else {
      ChainAvoids(parent, id, to, to, Depth(parent, to));
      forall x ensures Rooted(moved, x) {
        StaysRooted(parent, id, to, x, Depth(parent, x));
      }
    }
  }

  ghost predicate Submap<K(!new)>(a: map<K, K>, b: map<K, K>) {
    forall x :: x in a ==> x in b && a[x] == b[x]
  }

  lemma {:induction false} SubmapRooted<K(!new)>(a: map<K, K>, b: map<K, K>, x: K, n: nat)
    requires Submap(a, b) && DepthIs(b, x, n)
    ensures Rooted(a, x)
  {
    if x !in a {
      DepthOfRoot(a, x);
    } else {
      SubmapRooted(a, b, b[x], n - 1);
      DepthOfChild(a, x);
    }
  }

  // Taking parents away keeps a forest a forest.
  lemma SubmapForest<K(!new)>(a: map<K, K>, b: map<K, K>)
    requires Submap(a, b) && Forest(b)
    ensures Forest(a)
  {
    ForestIffRooted(a);
    ForestIffRooted(b);
    forall x ensures Rooted(a, x) {
      SubmapRooted(a, b, x, Depth(b, x));
    }
  }

  // ---------------------------------------------------------------- the walk

  // Every chain from x stays in a set that is closed under parents.
  lemma {:induction false} ClosedHoldsChain<K>(parent: map<K, K>, closed: set<K>, x: K, n: nat)
    requires x in closed && forall y :: y in closed && y in parent ==> parent[y] in closed
    ensures Nth(parent, x, n).Some? ==> Nth(parent, x, n).value in closed
  {
    if n > 0 && x in parent {
      ClosedHoldsChain(parent, closed, parent[x], n - 1);
    }
  }

  ghost function AsSet<K>(x: Option<K>): set<K> {
    if x.Some? then {x.value} else {}
  }

  lemma NotAnAncestor<K>(parent: map<K, K>, closed: set<K>, id: K, x: K)
    requires x in closed && id !in closed
    requires forall y :: y in closed && y in parent ==> parent[y] in closed
    ensures !IsAncestor(parent, id, x)
  {
    forall n: nat ensures Nth(parent, x, n) != Some(id) {
      ClosedHoldsChain(parent, closed, x, n);
    }
  }

  // ---------------------------------------------------------------- the table

  predicate Owns(folder: Folder, orgId: nat, userId: nat) {
    folder.orgId == orgId && folder.createdBy == userId
  }

  // The parents among one owner's rows.
  ghost function ParentsOf(table: map<nat, Folder>, orgId: nat, userId: nat): map<nat, nat> {
    map id |
      id in table && table[id].orgId == orgId && table[id].createdBy == userId && table[id].parentFolderId.Some?
      :: table[id].parentFolderId.value
  }

  ghost predicate Forests(table: map<nat, Folder>) {
    forall orgId, userId :: Forest(ParentsOf(table, orgId, userId))
  }

  // The foreign key: a parent is a row of the table.
  ghost predicate ParentsExist(table: map<nat, Folder>) {
    forall id :: id in table && table[id].parentFolderId.Some? ==> table[id].parentFolderId.value in table
  }

  // A new folder is nobody's parent.
  lemma InsertKeepsForests(table: map<nat, Folder>, id: nat, folder: Folder)
    requires Forests(table) && ParentsExist(table) && id !in table && folder.parentFolderId != Some(id)
    ensures Forests(table[id := folder])
  {
    var table' := table[id := folder];
    forall orgId, userId ensures Forest(ParentsOf(table', orgId, userId)) {
      var p, p' := ParentsOf(table, orgId, userId), ParentsOf(table', orgId, userId);
      if id in p' {
        var to := p'[id];
        assert p' == p[id := to];
        NobodysChild(p, id, to);
        MoveKeepsForestIff(p, id, to);
      } else {
        assert p' == p;
      }
    }
  }

  lemma NobodysChild<K(!new)>(parent: map<K, K>, id: K, to: K)
    requires to != id && forall x :: x in parent ==> parent[x] != id
    ensures !IsAncestor(parent, id, to)
  {
    forall n: nat ensures Nth(parent, to, n) != Some(id) {
      if n > 0 {
        LastStep(parent, to, n);
      }
    }
  }

  lemma {:induction false} LastStep<K(!new)>(parent: map<K, K>, x: K, n: nat)
    requires n > 0
    ensures Nth(parent, x, n).Some? ==> exists y :: y in parent && parent[y] == Nth(parent, x, n).value
  {
    if x in parent && n > 1 {
      LastStep(parent, parent[x], n - 1);
    } else if x in parent {
      assert Nth(parent, x, 1) == Nth(parent, parent[x], 0) == Some(parent[x]);
    }
  }

  // A change of one row, with the walk's answer when it gets a parent.
  lemma UpdateKeepsForests(table: map<nat, Folder>, id: nat, folder: Folder)
    requires Forests(table) && id in table && Owns(folder, table[id].orgId, table[id].createdBy)
    requires folder.parentFolderId.Some? ==>
      || folder.parentFolderId == table[id].parentFolderId
      || !IsAncestor(ParentsOf(table, folder.orgId, folder.createdBy), id, folder.parentFolderId.value)
    ensures Forests(table[id := folder])
  {
    var table' := table[id := folder];
    forall orgId, userId ensures Forest(ParentsOf(table', orgId, userId)) {
      var p, p' := ParentsOf(table, orgId, userId), ParentsOf(table', orgId, userId);
      if id !in p' {
        SubmapForest<nat>(p', p);
      } else {
        assert orgId == folder.orgId && userId == folder.createdBy;
        assert p' == p[id := p'[id]];
        if folder.parentFolderId == table[id].parentFolderId {
          assert p' == p;
        } else {
          MoveKeepsForestIff(p, id, p'[id]);
        }
      }
    }
  }

  // The foreign key sets the parent to null on deletion: the children of a deleted folder become roots.
  function WithoutFolder(table: map<nat, Folder>, id: nat): map<nat, Folder> {
    map x | x in table && x != id ::
      if table[x].parentFolderId == Some(id) then table[x].(parentFolderId := None) else table[x]
  }

  lemma DeleteKeepsForests(table: map<nat, Folder>, id: nat)
    requires Forests(table)
    ensures Forests(WithoutFolder(table, id))
  {
    forall orgId, userId ensures Forest(ParentsOf(WithoutFolder(table, id), orgId, userId)) {
      SubmapForest(ParentsOf(WithoutFolder(table, id), orgId, userId), ParentsOf(table, orgId, userId));
    }
  }

  function Patched(folder: Folder, patch: Patch): Folder {
    folder.(
      name := patch.name.GetOr(folder.name),
      systemPrompt := patch.systemPrompt.GetOr(folder.systemPrompt),
      parentFolderId := patch.parentFolderId.GetOr(folder.parentFolderId))
  }

  // What the patch names is as the patch says, and all else is as it was.
  ghost predicate IsPatched(was: Folder, patch: Patch, now: Folder) {
    && now.orgId == was.orgId && now.createdBy == was.createdBy
    && (patch.name.Some? ==> now.name == patch.name.value) && (patch.name.None? ==> now.name == was.name)
    && (patch.systemPrompt.Some? ==> now.systemPrompt == patch.systemPrompt.value)
    && (patch.systemPrompt.None? ==> now.systemPrompt == was.systemPrompt)
    && (patch.parentFolderId.Some? ==> now.parentFolderId == patch.parentFolderId.value)
    && (patch.parentFolderId.None? ==> now.parentFolderId == was.parentFolderId)
  }

  // The patch names a parent that the folder is, or is above of.
  ghost predicate ClosesCycle(table: map<nat, Folder>, orgId: nat, userId: nat, id: nat, patch: Patch) {
    && patch.parentFolderId.Some? && patch.parentFolderId.value.Some?
    && IsAncestor(ParentsOf(table, orgId, userId), id, patch.parentFolderId.value.value)
  }

  class FolderStore {
    var table: map<nat, Folder>
    var nextId: nat

    ghost predicate Valid()
      reads this
    {
      && Forests(table) && ParentsExist(table)
      && forall id :: id in table ==> id < nextId
    }

    constructor ()
      ensures Valid() && table == map[]
    {
      table, nextId := map[], 0;
      new;
      forall orgId, userId ensures Forest(ParentsOf(table, orgId, userId)) {
        var p := ParentsOf(table, orgId, userId);
        forall x ensures Rooted(p, x) {
          DepthOfRoot(p, x);
        }
        ForestIffRooted(p);
      }
    }

    // The chain of rows from the new parent up, stopped by a row of another owner and by the
    // set of visited rows, so it ends on any table. No precondition: the answer is exact even
    // when the rows contain cycles.
    method WouldCreateCycle(orgId: nat, userId: nat, folderId: nat, newParentId: nat) returns (cycle: bool)
      ensures cycle <==> IsAncestor(ParentsOf(table, orgId, userId), folderId, newParentId)
    {
      ghost var p := ParentsOf(table, orgId, userId);
      assert Nth(p, newParentId, 0) == Some(newParentId);
      if folderId == newParentId {
        return true;
      }
      var current := Some(newParentId);
      var visited: set<nat> := {};
      ghost var n: nat := 0;
      while current.Some?
        invariant current.Some? ==> Nth(p, newParentId, n) == current
        invariant folderId !in visited && visited <= table.Keys
        invariant newParentId in visited + AsSet(current)
        invariant forall v :: v in visited && v in p ==> p[v] in visited + AsSet(current)
        decreases table.Keys - visited, current.Some?
      {
        var id := current.value;
        if id == folderId {
          return true;
        }
        if id in visited {
          NotAnAncestor(p, visited, folderId, newParentId);
          return false;
        }
        if id !in table || !Owns(table[id], orgId, userId) {
          NotAnAncestor(p, visited + {id}, folderId, newParentId);
          return false;
        }
        visited := visited + {id};
        current := table[id].parentFolderId;
        if current.Some? {
          NthPlus(p, newParentId, id, n, 1);
          assert Nth(p, id, 1) == Nth(p, p[id], 0);
        }
        n := n + 1;
      }
      NotAnAncestor(p, visited, folderId, newParentId);
      cycle := false;
    }

    // The row is checked only by the foreign key.
    method Create(orgId: nat, userId: nat, name: string, systemPrompt: Option<string>, parentFolderId: Option<nat>)
      returns (res: Result<nat, Error>)
      requires Valid()
      modifies this
      ensures Valid()
      ensures parentFolderId.Some? && parentFolderId.value !in old(table) ==>
        res == Err(ForeignKeyViolation) && table == old(table)
      ensures parentFolderId.None? || parentFolderId.value in old(table) ==>
        && res == Ok(old(nextId)) && old(nextId) !in old(table)
        && table == old(table)[old(nextId) := Folder(orgId, name, systemPrompt, parentFolderId, userId)]
    {
      if parentFolderId.Some? && parentFolderId.value !in table {
        return Err(ForeignKeyViolation);
      }
      InsertKeepsForests(table, nextId, Folder(orgId, name, systemPrompt, parentFolderId, userId));
      table := table[nextId := Folder(orgId, name, systemPrompt, parentFolderId, userId)];
      res := Ok(nextId);
      nextId := nextId + 1;
    }

    // The row as a patch leaves it, for its owner only.
    method UpdateForOwner(orgId: nat, userId: nat, id: nat, patch: Patch) returns (res: Result<Option<Folder>, Error>)
      requires Valid()
      modifies this`table
      ensures Valid()
      ensures res == Err(CircularFolderReference) <==> ClosesCycle(old(table), orgId, userId, id, patch)
      ensures res == Err(ForeignKeyViolation) <==>
        && !ClosesCycle(old(table), orgId, userId, id, patch)
        && id in old(table) && old(table)[id].orgId == orgId && old(table)[id].createdBy == userId
        && patch.parentFolderId.Some? && patch.parentFolderId.value.Some?
        && patch.parentFolderId.value.value !in old(table)
      ensures res.Err? ==> table == old(table)
      ensures res.Ok? && !(id in old(table) && old(table)[id].orgId == orgId && old(table)[id].createdBy == userId) ==>
        table == old(table) && res.value == None
      ensures res.Ok? && id in old(table) && old(table)[id].orgId == orgId && old(table)[id].createdBy == userId ==>
        && table.Keys == old(table).Keys && res.value == Some(table[id])
        && (forall x :: x in table && x != id ==> table[x] == old(table)[x])
        && IsPatched(old(table)[id], patch, table[id])
    {
      if patch.parentFolderId.Some? && patch.parentFolderId.value.Some? {
        var cycle := WouldCreateCycle(orgId, userId, id, patch.parentFolderId.value.value);
        if cycle {
          return Err(CircularFolderReference);
        }
      }
      if id !in table || !Owns(table[id], orgId, userId) {
        return Ok(None);
      }
      var folder := Patched(table[id], patch);
      if folder.parentFolderId.Some? && folder.parentFolderId.value !in table {
        return Err(ForeignKeyViolation);
      }
      UpdateKeepsForests(table, id, folder);
      table := table[id := folder];
      res := Ok(Some(folder));
    }

    method DeleteForOwner(orgId: nat, userId: nat, id: nat) returns (deleted: bool)
      requires Valid()
      modifies this`table
      ensures Valid()
      ensures deleted <==> id in old(table) && old(table)[id].orgId == orgId && old(table)[id].createdBy == userId
      ensures !deleted ==> table == old(table)
      ensures deleted ==>
        && table.Keys == old(table).Keys - {id}
        && (forall x :: x in table && old(table)[x].parentFolderId != Some(id) ==> table[x] == old(table)[x])
        && (forall x :: x in table && old(table)[x].parentFolderId == Some(id) ==>
              table[x] == old(table)[x].(parentFolderId := None))
    {
      deleted := id in table && Owns(table[id], orgId, userId);
      if deleted {
        DeleteKeepsForests(table, id);
        table := WithoutFolder(table, id);
      }
    }
  }
}
