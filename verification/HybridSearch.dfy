// Model of apps/server/src/knowledge/search-service.ts over exact reals: cosine
// similarity, ranking, reciprocal rank fusion and the top-K cut.
module HybridSearch {
  import opened Wrappers
  import opened Finite

  // ---------------------------------------------------------------- cosine

  // A component, zero beyond the end.
  function At(v: seq<real>, i: nat): real {
    if i < |v| then v[i] else 0.0
  }

  ghost function Dot(a: seq<real>, b: seq<real>, n: nat): real {
    if n == 0 then 0.0 else Dot(a, b, n - 1) + At(a, n - 1) * At(b, n - 1)
  }

  lemma SquareIsNonNegative(x: real)
    ensures x * x >= 0.0
  {
  }

  lemma SquareOfSum(p: real, q: real, x: real)
    ensures (p * x + q) * (p * x + q) == p * p * (x * x) + 2.0 * (p * q) * x + q * q
  {
  }

  // The sum of the squares (a[i] * x + b[i])^2, multiplied out.
  lemma {:induction false} QuadraticIsNonNegative(a: seq<real>, b: seq<real>, n: nat, x: real)
    ensures Dot(a, a, n) * (x * x) + 2.0 * Dot(a, b, n) * x + Dot(b, b, n) >= 0.0
  {
    if n > 0 {
      QuadraticIsNonNegative(a, b, n - 1, x);
      var p, q := At(a, n - 1), At(b, n - 1);
      SquareOfSum(p, q, x);
      SquareIsNonNegative(p * x + q);
      Expand(Dot(a, a, n - 1), p * p, x * x);
      Expand(2.0 * Dot(a, b, n - 1), 2.0 * (p * q), x);
    }
  }

  lemma Expand(u: real, v: real, x: real)
    ensures (u + v) * x == u * x + v * x
  {
  }

  lemma {:induction false} NormIsNonNegative(a: seq<real>, n: nat)
    ensures Dot(a, a, n) >= 0.0
  {
    if n > 0 {
      NormIsNonNegative(a, n - 1);
      SquareIsNonNegative(At(a, n - 1));
    }
  }

  lemma {:induction false} ZeroNormZeroDot(a: seq<real>, b: seq<real>, n: nat)
    requires Dot(a, a, n) == 0.0
    ensures Dot(a, b, n) == 0.0
  {
    if n > 0 {
      NormIsNonNegative(a, n - 1);
      SquareIsNonNegative(At(a, n - 1));
      if At(a, n - 1) != 0.0 {
        SquareIsPositive(At(a, n - 1));
      }
      ZeroNormZeroDot(a, b, n - 1);
    }
  }

  lemma PositiveProduct(x: real, y: real)
    requires x > 0.0 && y > 0.0
    ensures x * y > 0.0
  {
  }

  lemma SquareIsPositive(p: real)
    requires p != 0.0
    ensures p * p > 0.0
  {
    var m := -p;
    assert m * m == p * p;
    if p > 0.0 {
      PositiveProduct(p, p);
    } else {
      PositiveProduct(m, m);
    }
  }

  lemma Quotient(d: real, a: real) returns (q: real)
    requires a > 0.0
    ensures q * a == d
  {
    q := d / a;
  }

  // Cauchy-Schwarz for the accumulated sums.
  lemma DotIsBounded(a: seq<real>, b: seq<real>, n: nat)
    ensures Dot(a, b, n) * Dot(a, b, n) <= Dot(a, a, n) * Dot(b, b, n)
  {
    var A, D, B := Dot(a, a, n), Dot(a, b, n), Dot(b, b, n);
    NormIsNonNegative(a, n);
    if A == 0.0 {
      ZeroNormZeroDot(a, b, n);
    } else {
      var q := Quotient(D, A);
      QuadraticIsNonNegative(a, b, n, -q);
      AtTheMinimum(A, D, B, q);
    }
  }

  lemma AtTheMinimum(A: real, D: real, B: real, q: real)
    requires A > 0.0 && q * A == D
    requires A * ((-q) * (-q)) + 2.0 * D * (-q) + B >= 0.0
    ensures D * D <= A * B
  {
    assert A * ((-q) * (-q)) == D * q;
    assert 2.0 * D * (-q) == -2.0 * (D * q);
    assert D * q <= B;
    assert A * (D * q) <= A * B;
    assert A * (D * q) == D * D;
  }

  // The accumulation loop. Entries past the end of either vector count as zero, and entries
  // of b past the end of a are not looked at.
  method CosineSums(a: seq<real>, b: seq<real>) returns (dot: real, normA: real, normB: real)
    ensures dot == Dot(a, b, |a|) && normA == Dot(a, a, |a|) && normB == Dot(b, b, |a|)
    ensures dot * dot <= normA * normB
    ensures normA >= 0.0 && normB >= 0.0
  {
    dot, normA, normB := 0.0, 0.0, 0.0;
    for i := 0 to |a|
      invariant dot == Dot(a, b, i) && normA == Dot(a, a, i) && normB == Dot(b, b, i)
    {
      var ai, bi := At(a, i), At(b, i);
      dot := dot + ai * bi;
      normA := normA + ai * ai;
      normB := normB + bi * bi;
    }
    DotIsBounded(a, b, |a|);
    NormIsNonNegative(a, |a|);
    NormIsNonNegative(b, |a|);
  }

  // The value returned, given the two square roots.
  function CosineOf(dot: real, normA: real, normB: real, rootA: real, rootB: real): real
    requires normA > 0.0 && normB > 0.0 ==> rootA > 0.0 && rootB > 0.0
    requires normA >= 0.0 && normB >= 0.0
  {
    if normA == 0.0 || normB == 0.0 then 0.0
    else
      assert rootA * rootB > 0.0;
      dot / (rootA * rootB)
  }

  // The similarity of any two vectors, of equal length or not, lies in [-1, 1].
  lemma CosineInRange(a: seq<real>, b: seq<real>, rootA: real, rootB: real)
    requires rootA >= 0.0 && rootA * rootA == Dot(a, a, |a|)
    requires rootB >= 0.0 && rootB * rootB == Dot(b, b, |a|)
    ensures Dot(a, a, |a|) >= 0.0 && Dot(b, b, |a|) >= 0.0
    ensures -1.0 <= CosineOf(Dot(a, b, |a|), Dot(a, a, |a|), Dot(b, b, |a|), rootA, rootB) <= 1.0
  {
    var A, D, B := Dot(a, a, |a|), Dot(a, b, |a|), Dot(b, b, |a|);
    DotIsBounded(a, b, |a|);
    NormIsNonNegative(a, |a|);
    NormIsNonNegative(b, |a|);
    if A > 0.0 && B > 0.0 {
      var r := rootA * rootB;
      assert r > 0.0;
      assert r * r == A * B by {
        assert r * r == (rootA * rootA) * (rootB * rootB);
      }
      RootBounds(D, r);
      QuotientBounds(D, r);
    }
  }

  // The quotient times the product of the two lengths is the dot product; zero if one of the
  // lengths is.
  lemma CosineIs(a: seq<real>, b: seq<real>, rootA: real, rootB: real)
    requires rootA >= 0.0 && rootA * rootA == Dot(a, a, |a|)
    requires rootB >= 0.0 && rootB * rootB == Dot(b, b, |a|)
    ensures Dot(a, a, |a|) >= 0.0 && Dot(b, b, |a|) >= 0.0
    ensures
      var cosine := CosineOf(Dot(a, b, |a|), Dot(a, a, |a|), Dot(b, b, |a|), rootA, rootB);
      && cosine * (rootA * rootB) == Dot(a, b, |a|)
      && (rootA == 0.0 || rootB == 0.0 ==> cosine == 0.0)
  {
    NormIsNonNegative(a, |a|);
    NormIsNonNegative(b, |a|);
    if rootA == 0.0 {
      ZeroNormZeroDot(a, b, |a|);
    } else if rootB == 0.0 {
      ZeroNormZeroDot(b, a, |a|);
      DotIsSymmetric(a, b, |a|);
    } else {
      QuotientTimes(Dot(a, b, |a|), rootA * rootB);
    }
  }

  lemma {:induction false} DotIsSymmetric(a: seq<real>, b: seq<real>, n: nat)
    ensures Dot(a, b, n) == Dot(b, a, n)
  {
    if n > 0 {
      DotIsSymmetric(a, b, n - 1);
    }
  }

  lemma QuotientOfSame(r: real)
    requires r > 0.0
    ensures r / r == 1.0
  {
  }

  lemma QuotientTimes(d: real, r: real)
    requires r != 0.0
    ensures d / r * r == d
  {
  }

  // A vector is as similar to itself as can be.
  lemma CosineOfSame(a: seq<real>, root: real)
    requires Dot(a, a, |a|) > 0.0 && root > 0.0 && root * root == Dot(a, a, |a|)
    ensures CosineOf(Dot(a, a, |a|), Dot(a, a, |a|), Dot(a, a, |a|), root, root) == 1.0
  {
    QuotientOfSame(Dot(a, a, |a|));
  }

  // The sums run over the products of the components at the same place.
  lemma {:induction false} DotOfPrefix(a: seq<real>, b: seq<real>, c: seq<real>, d: seq<real>, n: nat)
    requires n <= |a| && n <= |b|
    ensures Dot(a + c, b + d, n) == Dot(a, b, n)
  {
    if n > 0 {
      DotOfPrefix(a, b, c, d, n - 1);
    }
  }

  lemma DotAppends(a: seq<real>, b: seq<real>, x: real, y: real)
    requires |a| == |b|
    ensures Dot(a + [x], b + [y], |a| + 1) == Dot(a, b, |a|) + x * y
  {
    DotOfPrefix(a, b, [x], [y], |a|);
  }

  // What the longer vector has beyond the end of the shorter one does not count.
  lemma {:induction false} DotBeyondTheEnd(a: seq<real>, b: seq<real>, n: nat)
    requires n >= |b|
    ensures Dot(a, b, n) == Dot(a, b, |b|)
  {
    if n > |b| {
      DotBeyondTheEnd(a, b, n - 1);
    }
  }

  lemma NegativeProduct(x: real, y: real)
    requires x < 0.0 < y
    ensures x * y < 0.0
  {
  }

  lemma RootBounds(d: real, r: real)
    requires r > 0.0 && d * d <= r * r
    ensures -r <= d <= r
  {
    assert (r - d) * (r + d) == r * r - d * d;
    if d > r {
      NegativeProduct(r - d, r + d);
    }
    if d < -r {
      NegativeProduct(r + d, r - d);
    }
  }

  lemma QuotientBounds(d: real, r: real)
    requires r > 0.0 && -r <= d <= r
    ensures -1.0 <= d / r <= 1.0
  {
  }

  // ---------------------------------------------------------------- sorting

  // A scored candidate and its position in the input list.
  datatype Entry<C> = Entry(item: C, score: real, idx: nat)

  // The comparator: higher score first, earlier position on a tie.
  predicate Before<C>(x: Entry<C>, y: Entry<C>) {
    x.score > y.score || (x.score == y.score && x.idx < y.idx)
  }

  ghost predicate Sorted<C>(s: seq<Entry<C>>) {
    forall p, q :: 0 <= p < q < |s| ==> Before(s[p], s[q])
  }

  // Insertion before the first entry of no higher score: later entries go behind equal ones.
  function Insert<C>(x: Entry<C>, s: seq<Entry<C>>): (r: seq<Entry<C>>)
    ensures multiset(r) == multiset(s) + multiset{x}
    ensures |r| == |s| + 1
  {
    if s == [] || s[0].score <= x.score then [x] + s
    else
      assert s == [s[0]] + s[1..];
      [s[0]] + Insert(x, s[1..])
  }

  // A stable sort by descending score.
  function SortByScore<C>(s: seq<Entry<C>>): (r: seq<Entry<C>>)
    ensures multiset(r) == multiset(s)
    ensures |r| == |s|
  {
    if s == [] then []
    else
      assert s == [s[0]] + s[1..];
      Insert(s[0], SortByScore(s[1..]))
  }

  lemma {:induction false} InsertKeepsSorted<C(!new)>(x: Entry<C>, s: seq<Entry<C>>)
    requires Sorted(s) && forall y :: y in s ==> x.idx < y.idx
    ensures Sorted(Insert(x, s))
    ensures forall y :: y in Insert(x, s) <==> y == x || y in s
  {
    if s == [] || s[0].score <= x.score {
      forall q | 0 <= q < |s| ensures Before(x, s[q]) {
        assert s[q] in s && s[0] in s;
        if q > 0 {
          assert Before(s[0], s[q]);
        }
      }
    } else {
      var rest := s[1..];
      assert forall y :: y in rest ==> y in s;
      InsertKeepsSorted(x, rest);
      forall y | y in Insert(x, rest) ensures Before(s[0], y) {
        if y != x {
          assert y in rest;
          var q :| 0 <= q < |rest| && rest[q] == y;
          assert Before(s[0], s[q + 1]);
        }
      }
    }
  }

  ghost predicate InListOrder<C>(s: seq<Entry<C>>) {
    forall p, q :: 0 <= p < q < |s| ==> s[p].idx < s[q].idx
  }

  // On entries listed by position the stable sort realises the comparator.
  lemma {:induction false} SortIsSorted<C(!new)>(s: seq<Entry<C>>)
    requires InListOrder(s)
    ensures Sorted(SortByScore(s))
    ensures forall y :: y in SortByScore(s) <==> y in s
  {
    if s != [] {
      var rest := s[1..];
      SortIsSorted(rest);
      forall y | y in SortByScore(rest) ensures s[0].idx < y.idx {
        assert y in rest;
        var q :| 0 <= q < |rest| && rest[q] == y;
        assert rest[q] == s[q + 1];
      }
      InsertKeepsSorted(s[0], SortByScore(rest));
    }
  }

  lemma HeadsAgree<C(!new)>(a: seq<Entry<C>>, b: seq<Entry<C>>)
    requires Sorted(a) && Sorted(b) && a != [] && b != []
    requires a[0] in b && b[0] in a
    ensures a[0] == b[0]
  {
    var q :| 0 <= q < |b| && b[q] == a[0];
    var p :| 0 <= p < |a| && a[p] == b[0];
    assert p > 0 ==> Before(a[0], a[p]);
    assert q > 0 ==> Before(b[0], b[q]);
  }

  lemma TailOf<C>(s: seq<Entry<C>>)
    requires s != []
    ensures s == [s[0]] + s[1..] && s[0] in multiset(s)
    ensures multiset(s[1..]) == multiset(s) - multiset{s[0]}
  {
    assert s == [s[0]] + s[1..];
    assert multiset(s) == multiset{s[0]} + multiset(s[1..]);
  }

  // The comparator leaves no choice: any sorted arrangement of the entries is the same.
  lemma {:induction false} SortedIsUnique<C(!new)>(a: seq<Entry<C>>, b: seq<Entry<C>>)
    requires Sorted(a) && Sorted(b) && multiset(a) == multiset(b)
    ensures a == b
    decreases |a|
  {
    assert |multiset(a)| == |a| && |multiset(b)| == |b|;
    if a != [] {
      TailOf(a);
      TailOf(b);
      HeadsAgree(a, b);
      SortedIsUnique(a[1..], b[1..]);
    }
  }

  // ---------------------------------------------------------------- ranking

  function Entries<C>(candidates: seq<C>, scoreOf: C -> real): (s: seq<Entry<C>>)
    ensures |s| == |candidates|
    ensures forall i :: 0 <= i < |s| ==> s[i] == Entry(candidates[i], scoreOf(candidates[i]), i)
    ensures InListOrder(s)
  {
    seq(|candidates|, i requires 0 <= i < |candidates| => Entry(candidates[i], scoreOf(candidates[i]), i))
  }

  // Candidate i stands before candidate j in the order of a score.
  ghost predicate Ahead<C>(candidates: seq<C>, scoreOf: C -> real, i: nat, j: nat)
    requires i < |candidates| && j < |candidates|
  {
    || scoreOf(candidates[i]) > scoreOf(candidates[j])
    || (scoreOf(candidates[i]) == scoreOf(candidates[j]) && i < j)
  }

  ghost predicate IsTaken<C(!new)>(ranks: map<C, nat>, r: int) {
    exists c :: c in ranks && ranks[c] == r
  }

  // A bijection of the candidates onto 1..n that follows the score, ties in list order.
  ghost predicate IsRanking<C(!new)>(candidates: seq<C>, scoreOf: C -> real, ranks: map<C, nat>) {
    && (forall c :: c in ranks <==> c in candidates)
    && (forall c :: c in ranks ==> 1 <= ranks[c] <= |candidates|)
    && (forall r :: 1 <= r <= |candidates| ==> IsTaken(ranks, r))
    && (forall i, j | 0 <= i < |candidates| && 0 <= j < |candidates| ::
          ranks[candidates[i]] < ranks[candidates[j]] <==> Ahead(candidates, scoreOf, i, j))
  }

  // `sorted` lists the entries of the candidates, each once.
  ghost predicate Arranges<C>(candidates: seq<C>, scoreOf: C -> real, sorted: seq<Entry<C>>) {
    && |sorted| == |candidates| && Sorted(sorted)
    && (forall k :: 0 <= k < |sorted| ==>
          && sorted[k].idx < |candidates|
          && sorted[k] == Entries(candidates, scoreOf)[sorted[k].idx])
    && (forall i :: 0 <= i < |candidates| ==> Entries(candidates, scoreOf)[i] in sorted)
  }

  lemma SortArranges<C(!new)>(candidates: seq<C>, scoreOf: C -> real)
    ensures Arranges(candidates, scoreOf, SortByScore(Entries(candidates, scoreOf)))
  {
    var entries := Entries(candidates, scoreOf);
    var sorted := SortByScore(entries);
    SortIsSorted(entries);
    forall k | 0 <= k < |sorted|
      ensures sorted[k].idx < |candidates| && sorted[k] == entries[sorted[k].idx]
    {
      assert sorted[k] in sorted;
      var i :| 0 <= i < |entries| && entries[i] == sorted[k];
    }
  }

  // Position i of the candidates, found in the arrangement.
  lemma PlaceOf<C(!new)>(candidates: seq<C>, scoreOf: C -> real, sorted: seq<Entry<C>>, i: nat) returns (k: nat)
    requires Arranges(candidates, scoreOf, sorted) && i < |candidates|
    ensures k < |sorted| && sorted[k].idx == i && sorted[k].item == candidates[i]
    ensures sorted[k].score == scoreOf(candidates[i])
  {
    assert Entries(candidates, scoreOf)[i] in sorted;
    k :| 0 <= k < |sorted| && sorted[k] == Entries(candidates, scoreOf)[i];
  }

  lemma ItemsDistinct<C(!new)>(candidates: seq<C>, scoreOf: C -> real, sorted: seq<Entry<C>>)
    requires NoDuplicates(candidates) && Arranges(candidates, scoreOf, sorted)
    ensures DistinctItems(sorted)
  {
    forall p, q | 0 <= p < q < |sorted| ensures sorted[p].item != sorted[q].item {
      assert Before(sorted[p], sorted[q]);
    }
  }

  ghost predicate NumbersInOrder<C(!new)>(sorted: seq<Entry<C>>, ranks: map<C, nat>) {
    && (forall c :: c in ranks <==> exists k :: 0 <= k < |sorted| && sorted[k].item == c)
    && (forall k :: 0 <= k < |sorted| ==> sorted[k].item in ranks && ranks[sorted[k].item] == k + 1)
  }

  // Of two candidates the one ahead is numbered lower.
  lemma RankedPair<C(!new)>(
    candidates: seq<C>, scoreOf: C -> real, sorted: seq<Entry<C>>, ranks: map<C, nat>, i: nat, j: nat)
    requires NoDuplicates(candidates) && Arranges(candidates, scoreOf, sorted) && NumbersInOrder(sorted, ranks)
    requires i < |candidates| && j < |candidates| && candidates[i] in ranks && candidates[j] in ranks
    ensures ranks[candidates[i]] < ranks[candidates[j]] <==> Ahead(candidates, scoreOf, i, j)
  {
    var p := PlaceOf(candidates, scoreOf, sorted, i);
    var q := PlaceOf(candidates, scoreOf, sorted, j);
    assert ranks[sorted[p].item] == p + 1 && ranks[sorted[q].item] == q + 1;
    if p < q {
      assert Before(sorted[p], sorted[q]);
    } else if q < p {
      assert Before(sorted[q], sorted[p]);
    }
  }

  lemma RankingFromOrder<C(!new)>(
    candidates: seq<C>, scoreOf: C -> real, sorted: seq<Entry<C>>, ranks: map<C, nat>)
    requires NoDuplicates(candidates) && Arranges(candidates, scoreOf, sorted)
    requires NumbersInOrder(sorted, ranks)
    ensures IsRanking(candidates, scoreOf, ranks)
  {
    RankedKeys(candidates, scoreOf, sorted, ranks);
    forall r | 1 <= r <= |candidates| ensures IsTaken(ranks, r) {
      assert ranks[sorted[r - 1].item] == r;
    }
    forall i, j | 0 <= i < |candidates| && 0 <= j < |candidates|
      ensures ranks[candidates[i]] < ranks[candidates[j]] <==> Ahead(candidates, scoreOf, i, j)
    {
      RankedPair(candidates, scoreOf, sorted, ranks, i, j);
    }
  }

  lemma RankedKeys<C(!new)>(candidates: seq<C>, scoreOf: C -> real, sorted: seq<Entry<C>>, ranks: map<C, nat>)
    requires Arranges(candidates, scoreOf, sorted) && NumbersInOrder(sorted, ranks)
    ensures forall c :: c in ranks <==> c in candidates
    ensures forall c :: c in ranks ==> 1 <= ranks[c] <= |candidates|
  {
    forall c | c in candidates ensures c in ranks {
      var i :| 0 <= i < |candidates| && candidates[i] == c;
      var k := PlaceOf(candidates, scoreOf, sorted, i);
    }
    forall c | c in ranks ensures c in candidates && 1 <= ranks[c] <= |candidates| {
      var k :| 0 <= k < |sorted| && sorted[k].item == c;
      assert candidates[sorted[k].idx] == c;
    }
  }

  lemma NumberOneMore<C(!new)>(sorted: seq<Entry<C>>, ranks: map<C, nat>, x: Entry<C>)
    requires NumbersInOrder(sorted, ranks)
    requires forall k :: 0 <= k < |sorted| ==> sorted[k].item != x.item
    ensures NumbersInOrder(sorted + [x], ranks[x.item := |sorted| + 1])
  {
    var more, next := sorted + [x], ranks[x.item := |sorted| + 1];
    assert more[|sorted|] == x;
    forall c ensures c in next <==> exists k :: 0 <= k < |more| && more[k].item == c {
      if c in ranks {
        var k :| 0 <= k < |sorted| && sorted[k].item == c;
        assert more[k].item == c;
      }
    }
  }

  ghost predicate DistinctItems<C(!new)>(sorted: seq<Entry<C>>) {
    forall p, q :: 0 <= p < q < |sorted| ==> sorted[p].item != sorted[q].item
  }

  // The entries are numbered from one, in order.
  method NumberOff<C(==,!new)>(sorted: seq<Entry<C>>) returns (ranks: map<C, nat>)
    requires DistinctItems(sorted)
    ensures NumbersInOrder(sorted, ranks)
  {
    ranks := map[];
    for i := 0 to |sorted|
      invariant NumbersInOrder(sorted[..i], ranks)
    {
      NumberOneMore(sorted[..i], ranks, sorted[i]);
      ranks := ranks[sorted[i].item := i + 1];
      assert sorted[..i + 1] == sorted[..i] + [sorted[i]];
    }
    assert sorted[..|sorted|] == sorted;
  }

  method RankOf<C(==,!new)>(candidates: seq<C>, scoreOf: C -> real) returns (ranks: map<C, nat>)
    requires NoDuplicates(candidates)
    ensures IsRanking(candidates, scoreOf, ranks)
  {
    var sorted := SortByScore(Entries(candidates, scoreOf));
    SortArranges(candidates, scoreOf);
    ItemsDistinct(candidates, scoreOf, sorted);
    ranks := NumberOff(sorted);
    RankingFromOrder(candidates, scoreOf, sorted, ranks);
  }

  // ---------------------------------------------------------------- fusion

  datatype Hit<C> = Hit(chunk: C, vectorScore: real, bm25Score: real, rrfScore: real, rank: nat)

  function Fused(rrfK: real, vectorRank: nat, bm25Rank: nat): real
    requires rrfK > -1.0 && vectorRank >= 1 && bm25Rank >= 1
  {
    1.0 / (rrfK + vectorRank as real) + 1.0 / (rrfK + bm25Rank as real)
  }

  lemma ReciprocalFalls(k: real, r: nat, s: nat)
    requires k > -1.0 && 1 <= r < s
    ensures 1.0 / (k + r as real) > 1.0 / (k + s as real)
  {
    var x, y := k + r as real, k + s as real;
    assert 0.0 < x < y;
    ReciprocalOrder(x, y);
  }

  lemma ScaledOrder(w: real, x: real, y: real)
    requires w > 0.0 && x < y
    ensures w * x < w * y
  {
  }

  lemma ReciprocalOrder(x: real, y: real)
    requires 0.0 < x < y
    ensures 1.0 / x > 1.0 / y
  {
    var u, v := 1.0 / x, 1.0 / y;
    assert u > 0.0 && v > 0.0 && u * x == 1.0 && v * y == 1.0;
    ScaledOrder(u * v, x, y);
    assert (u * v) * y == u * (v * y) && (u * v) * x == v * (u * x);
  }

  // Ahead in both rankings means a strictly higher fused score.
  lemma AheadInBoth(rrfK: real, v1: nat, b1: nat, v2: nat, b2: nat)
    requires rrfK > -1.0 && 1 <= v1 < v2 && 1 <= b1 < b2
    ensures Fused(rrfK, v1, b1) > Fused(rrfK, v2, b2)
  {
    ReciprocalFalls(rrfK, v1, v2);
    ReciprocalFalls(rrfK, b1, b2);
  }

  // ---------------------------------------------------------------- the cut

  predicate Passes(threshold: Option<real>, vectorScore: real) {
    threshold.None? || threshold.value <= 0.0 || vectorScore >= threshold.value
  }

  function Keep<C>(s: seq<Entry<C>>, pass: C -> bool): (r: seq<Entry<C>>)
    ensures |r| <= |s|
  {
    if s == [] then [] else if pass(s[0].item) then [s[0]] + Keep(s[1..], pass) else Keep(s[1..], pass)
  }

  lemma {:induction false} KeepIsFilter<C(!new)>(s: seq<Entry<C>>, pass: C -> bool)
    requires Sorted(s)
    ensures Sorted(Keep(s, pass))
    ensures forall y :: y in Keep(s, pass) <==> y in s && pass(y.item)
  {
    if s != [] {
      var rest := s[1..];
      KeepIsFilter(rest, pass);
      forall y | y in Keep(rest, pass) ensures Before(s[0], y) {
        var q :| 0 <= q < |rest| && rest[q] == y;
        assert Before(s[0], s[q + 1]);
      }
    }
  }

  // Where a cut to the first topK ends: a negative bound counts from the end.
  function SliceEnd(topK: int, n: nat): (k: nat)
    ensures k <= n
    ensures topK >= 0 ==> k == if topK < n then topK else n
  {
    if topK >= 0 then (if topK < n then topK else n)
    else if n + topK > 0 then n + topK else 0
  }

  // The positions from k on whose candidate passes.
  ghost function PassingFrom<C>(candidates: seq<C>, pass: C -> bool, k: nat): set<int> {
    set i | k <= i < |candidates| && pass(candidates[i])
  }

  lemma {:induction false} KeepInsert<C>(x: Entry<C>, s: seq<Entry<C>>, pass: C -> bool)
    ensures |Keep(Insert(x, s), pass)| == |Keep(s, pass)| + if pass(x.item) then 1 else 0
  {
    if s == [] || s[0].score <= x.score {
      assert ([x] + s)[1..] == s;
    } else {
      KeepInsert(x, s[1..], pass);
      assert ([s[0]] + Insert(x, s[1..]))[1..] == Insert(x, s[1..]);
    }
  }

  lemma {:induction false} KeepOfSorted<C>(s: seq<Entry<C>>, pass: C -> bool)
    ensures |Keep(SortByScore(s), pass)| == |Keep(s, pass)|
  {
    if s != [] {
      KeepOfSorted(s[1..], pass);
      KeepInsert(s[0], SortByScore(s[1..]), pass);
    }
  }

  lemma {:induction false} KeepCounts<C>(candidates: seq<C>, scoreOf: C -> real, pass: C -> bool, k: nat)
    requires k <= |candidates|
    ensures |Keep(Entries(candidates, scoreOf)[k..], pass)| == |PassingFrom(candidates, pass, k)|
    decreases |candidates| - k
  {
    if k < |candidates| {
      KeepCounts(candidates, scoreOf, pass, k + 1);
      var entries := Entries(candidates, scoreOf);
      assert entries[k..][1..] == entries[k + 1..];
      var rest := PassingFrom(candidates, pass, k + 1);
      assert PassingFrom(candidates, pass, k) == if pass(candidates[k]) then {k} + rest else rest;
    } else {
      assert PassingFrom(candidates, pass, k) == {};
    }
  }

  // As many entries are kept as candidates pass, whatever order the sort put them in.
  lemma KeptAreThePassing<C>(candidates: seq<C>, scoreOf: C -> real, pass: C -> bool)
    ensures |Keep(SortByScore(Entries(candidates, scoreOf)), pass)| == |PassingFrom(candidates, pass, 0)|
  {
    var entries := Entries(candidates, scoreOf);
    KeepOfSorted(entries, pass);
    KeepCounts(candidates, scoreOf, pass, 0);
    assert entries[0..] == entries;
  }

  // The first k of the passing candidates in fused order: they are distinct members of the
  // input, and no passing candidate left out comes before any of them.
  ghost predicate IsTopOf<C(!new)>(candidates: seq<C>, fused: C -> real, pass: C -> bool, top: seq<Entry<C>>, k: nat) {
    && |top| == k && Sorted(top)
    && (forall e :: e in top ==>
          e.idx < |candidates| && e == Entries(candidates, fused)[e.idx] && pass(e.item))
    && (forall i :: 0 <= i < |candidates| && pass(candidates[i]) && Entries(candidates, fused)[i] !in top ==>
          forall e :: e in top ==> Before(e, Entries(candidates, fused)[i]))
  }

  // The kept entries: the passing candidates in fused order.
  ghost predicate IsKept<C(!new)>(candidates: seq<C>, fused: C -> real, pass: C -> bool, kept: seq<Entry<C>>) {
    && Sorted(kept)
    && (forall e :: e in kept ==> e.idx < |candidates| && e == Entries(candidates, fused)[e.idx] && pass(e.item))
    && (forall i :: 0 <= i < |candidates| && pass(candidates[i]) ==> Entries(candidates, fused)[i] in kept)
  }

  lemma KeptOfSorted<C(!new)>(candidates: seq<C>, fused: C -> real, pass: C -> bool)
    ensures IsKept(candidates, fused, pass, Keep(SortByScore(Entries(candidates, fused)), pass))
  {
    var sorted := SortByScore(Entries(candidates, fused));
    SortArranges(candidates, fused);
    KeepIsFilter(sorted, pass);
  }

  lemma CutIsTop<C(!new)>(candidates: seq<C>, fused: C -> real, pass: C -> bool, kept: seq<Entry<C>>, k: nat)
    requires IsKept(candidates, fused, pass, kept) && k <= |kept|
    ensures IsTopOf(candidates, fused, pass, kept[..k], k)
  {
    var entries, top := Entries(candidates, fused), kept[..k];
    forall e | e in top ensures e in kept {
    }
    forall i, e | 0 <= i < |candidates| && pass(candidates[i]) && entries[i] !in top && e in top
      ensures Before(e, entries[i])
    {
      var q :| 0 <= q < |kept| && kept[q] == entries[i];
      var p :| 0 <= p < |top| && top[p] == e;
      assert forall j :: 0 <= j < k ==> kept[j] == top[j];
      assert k <= q;
      assert Before(kept[p], kept[q]);
    }
  }

  lemma TopOfSorted<C(!new)>(candidates: seq<C>, fused: C -> real, pass: C -> bool, topK: int)
    ensures
      var kept := Keep(SortByScore(Entries(candidates, fused)), pass);
      IsTopOf(candidates, fused, pass, kept[..SliceEnd(topK, |kept|)], SliceEnd(topK, |kept|))
  {
    var kept := Keep(SortByScore(Entries(candidates, fused)), pass);
    KeptOfSorted(candidates, fused, pass);
    CutIsTop(candidates, fused, pass, kept, SliceEnd(topK, |kept|));
  }

  // ---------------------------------------------------------------- the whole search

  // Scores, ranks, fused score and flag of each candidate, and the hits of the cut. The two
  // scores of a candidate are parameters: the cosine (0 without an embedding) and the
  // keyword count.
  method Search<C(==,!new)>(
    candidates: seq<C>, vectorScore: C -> real, bm25Score: C -> real, topK: int, rrfK: real, threshold: Option<real>)
    returns (hits: seq<Hit<C>>)
    requires NoDuplicates(candidates) && rrfK > -1.0
    ensures exists vectorRanks, bm25Ranks, top ::
      && IsFusion(candidates, vectorScore, bm25Score, topK, rrfK, threshold, vectorRanks, bm25Ranks, top)
      && AreHits(hits, top, vectorScore, bm25Score)
      && IsResult(candidates, vectorScore, bm25Score, topK, rrfK, threshold, vectorRanks, bm25Ranks, hits)
  {
    var vectorRanks := RankOf(candidates, vectorScore);
    var bm25Ranks := RankOf(candidates, bm25Score);
    var fused := FusedScore(rrfK, vectorRanks, bm25Ranks);
    var pass := (c: C) => Passes(threshold, vectorScore(c));
    var filtered := Keep(SortByScore(Entries(candidates, fused)), pass);
    var top := filtered[..SliceEnd(topK, |filtered|)];
    TopOfSorted(candidates, fused, pass, topK);
    KeptAreThePassing(candidates, fused, pass);
    hits := ToHits(top, vectorScore, bm25Score);
    assert IsFusion(candidates, vectorScore, bm25Score, topK, rrfK, threshold, vectorRanks, bm25Ranks, top);
    HitsAreResult(candidates, vectorScore, bm25Score, topK, rrfK, threshold, vectorRanks, bm25Ranks, top, hits);
  }

  // ---- the result in terms of scores, ranks and threshold

  // A threshold above zero asks for at least that vector score.
  ghost predicate Clears(threshold: Option<real>, score: real) {
    threshold.Some? && threshold.value > 0.0 ==> score >= threshold.value
  }

  ghost predicate IsHit<C(!new)>(
    h: Hit<C>, p: nat, candidates: seq<C>, vectorScore: C -> real, bm25Score: C -> real, rrfK: real,
    threshold: Option<real>, vectorRanks: map<C, nat>, bm25Ranks: map<C, nat>)
    requires rrfK > -1.0
    requires IsRanking(candidates, vectorScore, vectorRanks) && IsRanking(candidates, bm25Score, bm25Ranks)
  {
    && h.chunk in candidates && h.rank == p + 1
    && h.vectorScore == vectorScore(h.chunk) && h.bm25Score == bm25Score(h.chunk)
    && h.rrfScore == 1.0 / (rrfK + vectorRanks[h.chunk] as real) + 1.0 / (rrfK + bm25Ranks[h.chunk] as real)
    && Clears(threshold, h.vectorScore)
  }

  // No hit has a lower score than a candidate that clears the threshold and is no hit.
  ghost predicate LeavesOutNone<C(!new)>(
    hits: seq<Hit<C>>, candidates: seq<C>, vectorScore: C -> real, bm25Score: C -> real, rrfK: real,
    threshold: Option<real>, vectorRanks: map<C, nat>, bm25Ranks: map<C, nat>)
    requires rrfK > -1.0
    requires IsRanking(candidates, vectorScore, vectorRanks) && IsRanking(candidates, bm25Score, bm25Ranks)
  {
    forall c, p ::
      c in candidates && Clears(threshold, vectorScore(c)) && 0 <= p < |hits|
      && (forall q :: 0 <= q < |hits| ==> hits[q].chunk != c) ==>
        hits[p].rrfScore >= 1.0 / (rrfK + vectorRanks[c] as real) + 1.0 / (rrfK + bm25Ranks[c] as real)
  }

  ghost function Clearing<C>(candidates: seq<C>, vectorScore: C -> real, threshold: Option<real>): set<int> {
    set i | 0 <= i < |candidates| && Clears(threshold, vectorScore(candidates[i]))
  }

  // As many as clear the threshold, at most topK of them; a negative topK takes that many off.
  ghost predicate IsCount(k: nat, topK: int, n: nat) {
    if topK < 0 then k == (if n < -topK then 0 else n + topK) else k <= n && k <= topK && (k == n || k == topK)
  }

  ghost predicate IsResult<C(!new)>(
    candidates: seq<C>, vectorScore: C -> real, bm25Score: C -> real, topK: int, rrfK: real, threshold: Option<real>,
    vectorRanks: map<C, nat>, bm25Ranks: map<C, nat>, hits: seq<Hit<C>>)
    requires rrfK > -1.0
  {
    && IsRanking(candidates, vectorScore, vectorRanks) && IsRanking(candidates, bm25Score, bm25Ranks)
    && IsCount(|hits|, topK, |Clearing(candidates, vectorScore, threshold)|)
    && (forall p {:trigger hits[p]} :: 0 <= p < |hits| ==>
          IsHit(hits[p], p, candidates, vectorScore, bm25Score, rrfK, threshold, vectorRanks, bm25Ranks))
    && (forall p, q :: 0 <= p < q < |hits| ==>
          hits[p].chunk != hits[q].chunk && hits[p].rrfScore >= hits[q].rrfScore)
    && LeavesOutNone(hits, candidates, vectorScore, bm25Score, rrfK, threshold, vectorRanks, bm25Ranks)
  }

  lemma FusedScoreIs<C(!new)>(
    candidates: seq<C>, vectorScore: C -> real, bm25Score: C -> real, rrfK: real, vectorRanks: map<C, nat>,
    bm25Ranks: map<C, nat>, c: C)
    requires rrfK > -1.0 && c in candidates
    requires IsRanking(candidates, vectorScore, vectorRanks) && IsRanking(candidates, bm25Score, bm25Ranks)
    ensures FusedScore(rrfK, vectorRanks, bm25Ranks)(c) ==
      1.0 / (rrfK + vectorRanks[c] as real) + 1.0 / (rrfK + bm25Ranks[c] as real)
  {
  }

  lemma PassesIffClears(threshold: Option<real>, score: real)
    ensures Passes(threshold, score) <==> Clears(threshold, score)
  {
  }

  lemma ClearingIsPassing<C>(candidates: seq<C>, vectorScore: C -> real, threshold: Option<real>)
    ensures Clearing(candidates, vectorScore, threshold) ==
      PassingFrom(candidates, (c: C) => Passes(threshold, vectorScore(c)), 0)
  {
  }

  lemma CountOfSlice(topK: int, n: nat)
    ensures IsCount(SliceEnd(topK, n), topK, n)
  {
  }

  lemma TopEntryIs<C(!new)>(
    candidates: seq<C>, fused: C -> real, pass: C -> bool, top: seq<Entry<C>>, k: nat, p: nat)
    requires IsTopOf(candidates, fused, pass, top, k) && p < |top|
    ensures top[p].item in candidates && top[p].score == fused(top[p].item) && pass(top[p].item)
  {
    assert top[p] in top;
  }

  lemma HitIs<C(!new)>(
    candidates: seq<C>, vectorScore: C -> real, bm25Score: C -> real, rrfK: real, threshold: Option<real>,
    vectorRanks: map<C, nat>, bm25Ranks: map<C, nat>, c: C, p: nat)
    requires rrfK > -1.0 && c in candidates && Passes(threshold, vectorScore(c))
    requires IsRanking(candidates, vectorScore, vectorRanks) && IsRanking(candidates, bm25Score, bm25Ranks)
    ensures
      var h := Hit(c, vectorScore(c), bm25Score(c), FusedScore(rrfK, vectorRanks, bm25Ranks)(c), p + 1);
      IsHit(h, p, candidates, vectorScore, bm25Score, rrfK, threshold, vectorRanks, bm25Ranks)
  {
    FusedScoreIs(candidates, vectorScore, bm25Score, rrfK, vectorRanks, bm25Ranks, c);
    PassesIffClears(threshold, vectorScore(c));
  }

  lemma NoneLeftOut<C(!new)>(
    candidates: seq<C>, vectorScore: C -> real, bm25Score: C -> real, topK: int, rrfK: real, threshold: Option<real>,
    vectorRanks: map<C, nat>, bm25Ranks: map<C, nat>, top: seq<Entry<C>>, hits: seq<Hit<C>>, c: C, p: nat)
    requires rrfK > -1.0 && p < |hits|
    requires IsFusion(candidates, vectorScore, bm25Score, topK, rrfK, threshold, vectorRanks, bm25Ranks, top)
    requires AreHits(hits, top, vectorScore, bm25Score)
    requires c in candidates && Clears(threshold, vectorScore(c))
    requires forall q :: 0 <= q < |hits| ==> hits[q].chunk != c
    ensures hits[p].rrfScore >= 1.0 / (rrfK + vectorRanks[c] as real) + 1.0 / (rrfK + bm25Ranks[c] as real)
  {
    var fused := FusedScore(rrfK, vectorRanks, bm25Ranks);
    var i :| 0 <= i < |candidates| && candidates[i] == c;
    var e := Entries(candidates, fused)[i];
    forall q | 0 <= q < |top| ensures top[q] != e {
      assert hits[q].chunk == top[q].item;
    }
    PassesIffClears(threshold, vectorScore(c));
    assert top[p] in top && Before(top[p], e);
    FusedScoreIs(candidates, vectorScore, bm25Score, rrfK, vectorRanks, bm25Ranks, c);
  }

  lemma HitsInOrder<C(!new)>(
    candidates: seq<C>, vectorScore: C -> real, bm25Score: C -> real, topK: int, rrfK: real, threshold: Option<real>,
    vectorRanks: map<C, nat>, bm25Ranks: map<C, nat>, top: seq<Entry<C>>, hits: seq<Hit<C>>, p: nat, q: nat)
    requires rrfK > -1.0 && p < q < |hits| && NoDuplicates(candidates)
    requires IsFusion(candidates, vectorScore, bm25Score, topK, rrfK, threshold, vectorRanks, bm25Ranks, top)
    requires AreHits(hits, top, vectorScore, bm25Score)
    ensures hits[p].chunk != hits[q].chunk && hits[p].rrfScore >= hits[q].rrfScore
  {
    assert top[p] in top && top[q] in top && Before(top[p], top[q]);
    assert top[p].item == candidates[top[p].idx] && top[q].item == candidates[top[q].idx];
  }

  lemma HitsAreResult<C(!new)>(
    candidates: seq<C>, vectorScore: C -> real, bm25Score: C -> real, topK: int, rrfK: real, threshold: Option<real>,
    vectorRanks: map<C, nat>, bm25Ranks: map<C, nat>, top: seq<Entry<C>>, hits: seq<Hit<C>>)
    requires rrfK > -1.0 && NoDuplicates(candidates)
    requires IsFusion(candidates, vectorScore, bm25Score, topK, rrfK, threshold, vectorRanks, bm25Ranks, top)
    requires AreHits(hits, top, vectorScore, bm25Score)
    ensures IsResult(candidates, vectorScore, bm25Score, topK, rrfK, threshold, vectorRanks, bm25Ranks, hits)
  {
    ClearingIsPassing(candidates, vectorScore, threshold);
    CountOfSlice(topK, |Clearing(candidates, vectorScore, threshold)|);
    forall p | 0 <= p < |hits|
      ensures IsHit(hits[p], p, candidates, vectorScore, bm25Score, rrfK, threshold, vectorRanks, bm25Ranks)
    {
      TopEntryIs(candidates, FusedScore(rrfK, vectorRanks, bm25Ranks), c => Passes(threshold, vectorScore(c)), top,
        |hits|, p);
      HitIs(candidates, vectorScore, bm25Score, rrfK, threshold, vectorRanks, bm25Ranks, top[p].item, p);
    }
    forall p, q | 0 <= p < q < |hits|
      ensures hits[p].chunk != hits[q].chunk && hits[p].rrfScore >= hits[q].rrfScore
    {
      HitsInOrder(candidates, vectorScore, bm25Score, topK, rrfK, threshold, vectorRanks, bm25Ranks, top, hits, p, q);
    }
    forall c, p |
      c in candidates && Clears(threshold, vectorScore(c)) && 0 <= p < |hits|
      && (forall q :: 0 <= q < |hits| ==> hits[q].chunk != c)
      ensures hits[p].rrfScore >= 1.0 / (rrfK + vectorRanks[c] as real) + 1.0 / (rrfK + bm25Ranks[c] as real)
    {
      NoneLeftOut(candidates, vectorScore, bm25Score, topK, rrfK, threshold, vectorRanks, bm25Ranks, top, hits, c, p);
    }
  }

  // `top` is the cut of the passing candidates by the score fused from the two rankings; as
  // many as topK asks for and as pass the threshold.
  ghost predicate IsFusion<C(!new)>(
    candidates: seq<C>, vectorScore: C -> real, bm25Score: C -> real, topK: int, rrfK: real, threshold: Option<real>,
    vectorRanks: map<C, nat>, bm25Ranks: map<C, nat>, top: seq<Entry<C>>)
    requires rrfK > -1.0
  {
    var pass := (c: C) => Passes(threshold, vectorScore(c));
    && IsRanking(candidates, vectorScore, vectorRanks) && IsRanking(candidates, bm25Score, bm25Ranks)
    && IsTopOf(candidates, FusedScore(rrfK, vectorRanks, bm25Ranks), pass, top,
         SliceEnd(topK, |PassingFrom(candidates, pass, 0)|))
  }

  ghost predicate AreHits<C>(
    hits: seq<Hit<C>>, top: seq<Entry<C>>, vectorScore: C -> real, bm25Score: C -> real)
  {
    && |hits| == |top|
    && (forall p :: 0 <= p < |hits| ==>
          hits[p] == Hit(top[p].item, vectorScore(top[p].item), bm25Score(top[p].item), top[p].score, p + 1))
  }

  // The results get their final ranks, from one in order.
  method ToHits<C>(cut: seq<Entry<C>>, vectorScore: C -> real, bm25Score: C -> real) returns (hits: seq<Hit<C>>)
    ensures AreHits(hits, cut, vectorScore, bm25Score)
  {
    hits := [];
    for p := 0 to |cut|
      invariant AreHits(hits, cut[..p], vectorScore, bm25Score)
    {
      var c := cut[p].item;
      hits := hits + [Hit(c, vectorScore(c), bm25Score(c), cut[p].score, p + 1)];
      assert cut[..p + 1] == cut[..p] + [cut[p]];
    }
    assert cut[..|cut|] == cut;
  }

  // The fused score of a candidate; a candidate without a rank cannot occur.
  function FusedScore<C(==)>(rrfK: real, vectorRanks: map<C, nat>, bm25Ranks: map<C, nat>): C -> real
    requires rrfK > -1.0
  {
    c => Fused(rrfK, RankIn(vectorRanks, c), RankIn(bm25Ranks, c))
  }

  function RankIn<C(==)>(ranks: map<C, nat>, c: C): (r: nat)
    ensures r >= 1
  {
    if c in ranks && ranks[c] >= 1 then ranks[c] else 1
  }

  // A candidate that is ahead of a hit in both rankings is itself a hit, and an earlier one.
  lemma AheadInBothIsEarlier<C(!new)>(
    candidates: seq<C>, vectorScore: C -> real, bm25Score: C -> real, topK: int, rrfK: real, threshold: Option<real>,
    vectorRanks: map<C, nat>, bm25Ranks: map<C, nat>, top: seq<Entry<C>>, i: nat, q: nat)
    returns (p: nat)
    requires NoDuplicates(candidates) && rrfK > -1.0 && i < |candidates| && q < |top|
    requires IsFusion(candidates, vectorScore, bm25Score, topK, rrfK, threshold, vectorRanks, bm25Ranks, top)
    requires RankIn(vectorRanks, candidates[i]) < RankIn(vectorRanks, top[q].item)
    requires RankIn(bm25Ranks, candidates[i]) < RankIn(bm25Ranks, top[q].item)
    ensures p < q && top[p].item == candidates[i]
  {
    var fused := FusedScore(rrfK, vectorRanks, bm25Ranks);
    var entries := Entries(candidates, fused);
    assert top[q] in top;
    var j := top[q].idx;
    assert top[q].item == candidates[j] && candidates[i] in candidates && candidates[j] in candidates;
    assert vectorRanks[candidates[i]] < vectorRanks[candidates[j]];
    assert Ahead(candidates, vectorScore, i, j);
    AheadInBoth(rrfK, vectorRanks[candidates[i]], bm25Ranks[candidates[i]],
      vectorRanks[candidates[j]], bm25Ranks[candidates[j]]);
    assert entries[i].score > top[q].score;
    assert !Before(top[q], entries[i]);
    assert entries[i] in top;
    p :| 0 <= p < |top| && top[p] == entries[i];
    assert !Before(top[q], top[p]);
  }
}
