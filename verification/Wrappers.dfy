// Result and option types shared by the modelled components, and the counting
// facts about finite sets that the termination and cycle arguments rest on.
module Wrappers {

  datatype Option<+T> = None | Some(value: T) {

    function GetOr(default: T): T {
      if Some? then value else default
    }
  }

  datatype Result<+T, +E> = Ok(value: T) | Err(error: E)
}

module Finite {

  ghost predicate NoDuplicates<T>(s: seq<T>) {
    forall i, j :: 0 <= i < j < |s| ==> s[i] != s[j]
  }

  // A duplicate-free sequence drawn from a set is no longer than the set is large.
  lemma {:induction false} PigeonHole<T>(s: seq<T>, domain: set<T>)
    requires NoDuplicates(s)
    requires forall x :: x in s ==> x in domain
    ensures |s| <= |domain|
  {
    if s != [] {
      var front := s[..|s| - 1];
      forall x | x in front ensures x in domain - {s[|s| - 1]} {
      }
      PigeonHole(front, domain - {s[|s| - 1]});
    }
  }

  lemma NoDuplicatesConcat<T>(a: seq<T>, b: seq<T>)
    requires NoDuplicates(a) && NoDuplicates(b)
    requires forall x :: x in a ==> x !in b
    ensures NoDuplicates(a + b)
  {
    forall i, j | 0 <= i < j < |a + b| ensures (a + b)[i] != (a + b)[j] {
      if i < |a| <= j {
        assert a[i] in a && b[j - |a|] in b;
      }
    }
  }

  // A sequence longer than the set it is drawn from visits some element twice.
  lemma Repeats<T>(s: seq<T>, domain: set<T>) returns (i: nat, j: nat)
    requires forall x :: x in s ==> x in domain
    requires |s| > |domain|
    ensures i < j < |s| && s[i] == s[j]
  {
    if NoDuplicates(s) {
      PigeonHole(s, domain);
    }
    i, j :| 0 <= i < j < |s| && s[i] == s[j];
  }
}
