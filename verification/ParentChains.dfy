// Parent pointers as a finite map: a key with an entry has a parent, any other key is a
// root. Nothing rules out cycles. Used by the conversation import and the folder tree.
module ParentChains {
  import opened Wrappers
  import opened Finite

  // The n-th ancestor, if the chain is that long.
  ghost function Nth<K>(parent: map<K, K>, x: K, n: nat): Option<K> {
    if n == 0 then Some(x)
    else if x in parent then Nth(parent, parent[x], n - 1)
    else None
  }

  // The chain from x reaches a root after exactly n steps.
  ghost predicate DepthIs<K>(parent: map<K, K>, x: K, n: nat) {
    if n == 0 then x !in parent else x in parent && DepthIs(parent, parent[x], n - 1)
  }

  ghost predicate Rooted<K>(parent: map<K, K>, x: K) {
    exists n: nat :: DepthIs(parent, x, n)
  }

  ghost predicate OnCycle<K>(parent: map<K, K>, x: K) {
    exists n: nat :: n > 0 && Nth(parent, x, n) == Some(x)
  }

  ghost predicate IsAncestor<K>(parent: map<K, K>, anc: K, x: K) {
    exists n: nat :: Nth(parent, x, n) == Some(anc)
  }

  lemma {:induction false} DepthUnique<K>(parent: map<K, K>, x: K, m: nat, n: nat)
    requires DepthIs(parent, x, m) && DepthIs(parent, x, n)
    ensures m == n
  {
    if m > 0 {
      DepthUnique(parent, parent[x], m - 1, n - 1);
    }
  }

  ghost function Depth<K>(parent: map<K, K>, x: K): (n: nat)
    requires Rooted(parent, x)
    ensures DepthIs(parent, x, n)
  {
    var n: nat :| DepthIs(parent, x, n);
    n
  }

  // A child is rooted exactly when its parent is, one level deeper.
  lemma DepthOfChild<K>(parent: map<K, K>, x: K)
    requires x in parent
    ensures Rooted(parent, x) <==> Rooted(parent, parent[x])
    ensures Rooted(parent, x) ==> Depth(parent, x) == Depth(parent, parent[x]) + 1
  {
    if Rooted(parent, parent[x]) {
      var n := Depth(parent, parent[x]);
      assert DepthIs(parent, x, n + 1);
      DepthUnique(parent, x, n + 1, Depth(parent, x));
    }
    if Rooted(parent, x) {
      var n := Depth(parent, x);
      assert DepthIs(parent, parent[x], n - 1);
    }
  }

  lemma DepthOfRoot<K>(parent: map<K, K>, x: K)
    requires x !in parent
    ensures Rooted(parent, x) && Depth(parent, x) == 0
  {
    assert DepthIs(parent, x, 0);
    DepthUnique(parent, x, 0, Depth(parent, x));
  }

  lemma {:induction false} NthPlus<K>(parent: map<K, K>, x: K, y: K, m: nat, n: nat)
    requires Nth(parent, x, m) == Some(y)
    ensures Nth(parent, x, m + n) == Nth(parent, y, n)
  {
    if m > 0 {
      NthPlus(parent, parent[x], y, m - 1, n);
    }
  }

  // Walking n steps up either stays inside the map or hits a root on the way.
  lemma {:induction false} WalkUp<K>(parent: map<K, K>, x: K, n: nat) returns (walk: seq<K>)
    requires !Rooted(parent, x)
    ensures |walk| == n + 1
    ensures forall i :: 0 <= i <= n ==> Nth(parent, x, i) == Some(walk[i]) && walk[i] in parent
  {
    assert x in parent by {
      if x !in parent {
        DepthOfRoot(parent, x);
      }
    }
    if n == 0 {
      walk := [x];
    } else {
      DepthOfChild(parent, x);
      var rest := WalkUp(parent, parent[x], n - 1);
      walk := [x] + rest;
      forall i | 0 <= i <= n ensures Nth(parent, x, i) == Some(walk[i]) && walk[i] in parent {
        if i > 0 {
          assert walk[i] == rest[i - 1];
        }
      }
    }
  }

  // A key without a root above it sits on or below a cycle.
  lemma UnrootedMeetsCycle<K>(parent: map<K, K>, x: K) returns (y: K)
    requires !Rooted(parent, x)
    ensures IsAncestor(parent, y, x) && OnCycle(parent, y)
  {
    var walk := WalkUp(parent, x, |parent.Keys|);
    forall k | k in walk ensures k in parent.Keys {
      var i :| 0 <= i < |walk| && walk[i] == k;
      assert Nth(parent, x, i) == Some(walk[i]);
    }
    var i, j := Repeats(walk, parent.Keys);
    y := walk[i];
    assert Nth(parent, x, i) == Some(y) && Nth(parent, x, j) == Some(y);
    NthPlus(parent, x, y, i, j - i);
    assert Nth(parent, y, j - i) == Some(y);
  }

  lemma {:induction false} AncestorRooted<K>(parent: map<K, K>, x: K, y: K, n: nat)
    requires Nth(parent, x, n) == Some(y)
    ensures Rooted(parent, x) <==> Rooted(parent, y)
    ensures Rooted(parent, x) ==> Depth(parent, x) == Depth(parent, y) + n
  {
    if n > 0 {
      DepthOfChild(parent, x);
      AncestorRooted(parent, parent[x], y, n - 1);
    }
  }

  lemma CycleIsUnrooted<K>(parent: map<K, K>, y: K)
    requires OnCycle(parent, y)
    ensures !Rooted(parent, y)
  {
    var n: nat :| n > 0 && Nth(parent, y, n) == Some(y);
    AncestorRooted(parent, y, y, n);
  }

  // The keys without a root above them are exactly those on or below a cycle.
  lemma RootedIffNoCycleAbove<K>(parent: map<K, K>, x: K)
    ensures Rooted(parent, x) <==> !exists y :: IsAncestor(parent, y, x) && OnCycle(parent, y)
  {
    if !Rooted(parent, x) {
      var y := UnrootedMeetsCycle(parent, x);
    } else {
      forall y | IsAncestor(parent, y, x) ensures !OnCycle(parent, y) {
        var n: nat :| Nth(parent, x, n) == Some(y);
        AncestorRooted(parent, x, y, n);
        if OnCycle(parent, y) {
          CycleIsUnrooted(parent, y);
        }
      }
    }
  }

  // Depth never exceeds the number of entries.
  lemma {:induction false} DepthBound<K>(parent: map<K, K>, x: K)
    requires Rooted(parent, x)
    ensures Depth(parent, x) <= |parent.Keys|
  {
    var d := Depth(parent, x);
    var path := PathToRoot(parent, x, d);
    assert NoDuplicates(path) by {
      forall i, j | 0 <= i < j < |path| ensures path[i] != path[j] {
        assert Nth(parent, x, i) == Some(path[i]) && Nth(parent, x, j) == Some(path[j]);
        AncestorRooted(parent, x, path[i], i);
        AncestorRooted(parent, x, path[j], j);
      }
    }
    PigeonHole(path, parent.Keys);
  }

  lemma {:induction false} PathToRoot<K>(parent: map<K, K>, x: K, d: nat) returns (path: seq<K>)
    requires DepthIs(parent, x, d)
    ensures |path| == d
    ensures forall i :: 0 <= i < d ==> Nth(parent, x, i) == Some(path[i])
    ensures forall k :: k in path ==> k in parent.Keys
  {
    if d == 0 {
      path := [];
    } else {
      var rest := PathToRoot(parent, parent[x], d - 1);
      path := [x] + rest;
    }
  }
}
