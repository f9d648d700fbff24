// Shifts and bitwise or on natural numbers of any size, as JavaScript's BigInt has them, and
// what folding digits with them computes.
module BigBits {

  ghost function Pow2(n: nat): (p: nat)
    ensures p >= 1
  {
    if n == 0 then 1 else 2 * Pow2(n - 1)
  }

  function Shl(a: nat, n: nat): nat {
    if n == 0 then a else 2 * Shl(a, n - 1)
  }

  function Shr(a: nat, n: nat): nat {
    if n == 0 then a else Shr(a / 2, n - 1)
  }

  // A shift by a negative count goes the other way.
  function ShiftRight(a: nat, n: int): nat {
    if n >= 0 then Shr(a, n) else Shl(a, -n)
  }

  function Or(a: nat, b: nat): nat
    decreases a + b
  {
    if a == 0 && b == 0 then 0
    else 2 * Or(a / 2, b / 2) + if a % 2 == 1 || b % 2 == 1 then 1 else 0
  }

  lemma {:induction false} ShlIsProduct(a: nat, n: nat)
    ensures Shl(a, n) == a * Pow2(n)
  {
    if n > 0 {
      ShlIsProduct(a, n - 1);
    }
  }

  lemma {:induction false} OrWithZero(b: nat)
    ensures Or(0, b) == b
  {
    if b != 0 {
      OrWithZero(b / 2);
    }
  }

  // The low n bits of a shifted number are free, so `or` adds there.
  lemma {:induction false} OrFillsShifted(a: nat, b: nat, n: nat)
    requires b < Pow2(n)
    ensures Or(Shl(a, n), b) == Shl(a, n) + b
    decreases n
  {
    if n == 0 {
      OrOfZero(a);
    } else {
      OrFillsShifted(a, b / 2, n - 1);
      var s := Shl(a, n - 1);
      assert Shl(a, n) == 2 * s && (2 * s) / 2 == s && (2 * s) % 2 == 0;
      if s == 0 && b == 0 {
      } else {
        assert Or(2 * s, b) == 2 * Or(s, b / 2) + b % 2;
      }
    }
  }

  lemma {:induction false} OrOfZero(a: nat)
    ensures Or(a, 0) == a
  {
    if a != 0 {
      OrOfZero(a / 2);
    }
  }

  lemma HalfQuotient(a: nat, p: nat, q: nat)
    requires p >= 1 && q * p <= a / 2 < q * p + p
    ensures q * (2 * p) <= a < q * (2 * p) + 2 * p
  {
    assert q * (2 * p) == 2 * (q * p);
  }

  // A right shift is the number of the block the value lies in.
  lemma {:induction false} ShrIsBlock(a: nat, n: nat)
    ensures Shr(a, n) * Pow2(n) <= a < Shr(a, n) * Pow2(n) + Pow2(n)
    decreases n
  {
    if n > 0 {
      ShrIsBlock(a / 2, n - 1);
      HalfQuotient(a, Pow2(n - 1), Shr(a, n));
    }
  }

  lemma BlockIsUnique(a: nat, p: nat, q: nat, r: nat)
    requires p >= 1 && q * p <= a < q * p + p && r * p <= a < r * p + p
    ensures q == r
  {
    if q < r {
      BlocksApart(p, q, r);
    } else if r < q {
      BlocksApart(p, r, q);
    }
  }

  lemma BlocksApart(p: nat, q: nat, r: nat)
    requires q < r
    ensures q * p + p <= r * p
  {
    var d := r - q - 1;
    assert r * p == q * p + p + d * p;
  }

  // Both values lie in the same aligned block of 2^n.
  ghost predicate SameBlock(a: nat, b: nat, n: nat) {
    exists q: nat :: InBlock(a, q, n) && InBlock(b, q, n)
  }

  ghost predicate InBlock(a: nat, q: nat, n: nat) {
    q * Pow2(n) <= a < q * Pow2(n) + Pow2(n)
  }

  lemma ShrIs(a: nat, q: nat, n: nat)
    requires InBlock(a, q, n)
    ensures Shr(a, n) == q
  {
    ShrIsBlock(a, n);
    BlockIsUnique(a, Pow2(n), q, Shr(a, n));
  }

  lemma EqualShiftsIffSameBlock(a: nat, b: nat, n: nat)
    ensures Shr(a, n) == Shr(b, n) <==> SameBlock(a, b, n)
  {
    ShrIsBlock(a, n);
    ShrIsBlock(b, n);
    if Shr(a, n) == Shr(b, n) {
      assert InBlock(a, Shr(a, n), n) && InBlock(b, Shr(a, n), n);
    }
    if SameBlock(a, b, n) {
      var q: nat :| InBlock(a, q, n) && InBlock(b, q, n);
      ShrIs(a, q, n);
      ShrIs(b, q, n);
    }
  }

  lemma {:induction false} ShlIsInjective(a: nat, b: nat, n: nat)
    requires Shl(a, n) == Shl(b, n)
    ensures a == b
  {
    if n > 0 {
      ShlIsInjective(a, b, n - 1);
    }
  }

  // ---------------------------------------------------------------- digits

  // Left to right, each digit filling the bits that a shift by one digit has freed.
  function Fold(digits: seq<nat>, width: nat): nat {
    if digits == [] then 0
    else Or(Shl(Fold(digits[..|digits| - 1], width), width), digits[|digits| - 1])
  }

  // The number with these digits to the base 2^width.
  ghost function Value(digits: seq<nat>, width: nat): nat {
    if digits == [] then 0
    else Value(digits[..|digits| - 1], width) * Pow2(width) + digits[|digits| - 1]
  }

  ghost predicate Fit(digits: seq<nat>, width: nat) {
    forall i :: 0 <= i < |digits| ==> digits[i] < Pow2(width)
  }

  lemma {:induction false} FoldIsValue(digits: seq<nat>, width: nat)
    requires Fit(digits, width)
    ensures Fold(digits, width) == Value(digits, width)
  {
    if digits != [] {
      var front := digits[..|digits| - 1];
      FoldIsValue(front, width);
      OrFillsShifted(Fold(front, width), digits[|digits| - 1], width);
      ShlIsProduct(Fold(front, width), width);
    }
  }

  lemma DigitIsUnique(u: nat, x: nat, v: nat, y: nat, p: nat)
    requires u * p + x == v * p + y && x < p && y < p
    ensures u == v && x == y
  {
    BlockIsUnique(u * p + x, p, u, v);
  }

  lemma LastDigits(a: seq<nat>, b: seq<nat>, width: nat)
    requires a != [] && b != [] && Fit(a, width) && Fit(b, width) && Value(a, width) == Value(b, width)
    ensures a[|a| - 1] == b[|b| - 1] && Value(a[..|a| - 1], width) == Value(b[..|b| - 1], width)
  {
    var u, v := Value(a[..|a| - 1], width), Value(b[..|b| - 1], width);
    DigitIsUnique(u, a[|a| - 1], v, b[|b| - 1], Pow2(width));
  }

  lemma FrontAndLast(a: seq<nat>)
    requires a != []
    ensures a == a[..|a| - 1] + [a[|a| - 1]]
  {
  }

  // Different digits make different numbers.
  lemma {:induction false} ValueIsInjective(a: seq<nat>, b: seq<nat>, width: nat)
    requires Fit(a, width) && Fit(b, width) && |a| == |b| && Value(a, width) == Value(b, width)
    ensures a == b
    decreases |a|
  {
    if a != [] {
      LastDigits(a, b, width);
      ValueIsInjective(a[..|a| - 1], b[..|b| - 1], width);
      FrontAndLast(a);
      FrontAndLast(b);
    }
  }
}
