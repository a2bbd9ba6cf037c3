/**
 Colours are natural numbers. This module holds the small facts about finite
 sets of colours that the colouring algorithms rely on: the least colour
 missing from a set (the "mex"), the largest and smallest member of a set
 and the fact that a subset is no larger than its superset.
 */
module Colors {

  /** The colours 0, 1, ..., n-1. */
  function Range(n: nat): (r: set<nat>)
    ensures forall k: nat :: k in r <==> k < n
  {
    if n == 0 then {} else Range(n - 1) + {n - 1}
  }

  lemma {:induction false} RangeSize(n: nat)
    ensures |Range(n)| == n
  {
    if n > 0 {
      RangeSize(n - 1);
    }
  }

  /** A set that holds every colour below n has at least n members. */
  lemma PrefixBound(s: set<nat>, n: nat)
    requires forall k: nat :: k < n ==> k in s
    ensures n <= |s|
  {
    RangeSize(n);
    assert Range(n) <= s;
    SubsetSize(Range(n), s);
  }

  lemma {:induction false} SubsetSize<T>(a: set<T>, b: set<T>)
    requires a <= b
    ensures |a| <= |b|
    decreases |b|
  {
    if a != {} {
      var x :| x in a;
      SubsetSize(a - {x}, b - {x});
    }
  }

  /** Some member of a non-empty set. */
  lemma Pick<T>(s: set<T>) returns (x: T)
    requires s != {}
    ensures x in s
  {
    x :| x in s;
  }

  /** Least colour that is at least k and not in s, given that every colour below k is in s. */
  function MexFrom(s: set<nat>, k: nat): (r: nat)
    requires forall j: nat :: j < k ==> j in s
    ensures k <= r && r !in s
    ensures forall j: nat :: j < r ==> j in s
    decreases |s| - k
  {
    if k !in s then k
    else
      PrefixBound(s, k + 1);
      MexFrom(s, k + 1)
  }

  /** The least colour not in s. */
  function Mex(s: set<nat>): (r: nat)
    ensures r !in s
    ensures forall j: nat :: j < r ==> j in s
    ensures r <= |s|
  {
    var r := MexFrom(s, 0);
    PrefixBound(s, r);
    r
  }

  /** Mex is determined by its two defining properties. */
  lemma MexUnique(s: set<nat>, c: nat)
    requires c !in s
    requires forall j: nat :: j < c ==> j in s
    ensures Mex(s) == c
  {
  }

  /** A largest member of a non-empty set, found by peeling off one member at a time. */
  lemma {:induction false} MaxWitness(s: set<nat>) returns (m: nat)
    requires s != {}
    ensures m in s && forall x | x in s :: x <= m
    decreases |s|
  {
    var y := Pick(s);
    if s == {y} {
      m := y;
    } else {
      var rest := MaxWitness(s - {y});
      m := if rest < y then y else rest;
      forall x | x in s
        ensures x <= m
      {
        if x != y {
          assert x in s - {y};
        }
      }
    }
  }

  /** A smallest member of a non-empty set, found by peeling off one member at a time. */
  lemma {:induction false} MinWitness(s: set<nat>) returns (m: nat)
    requires s != {}
    ensures m in s && forall x | x in s :: m <= x
    decreases |s|
  {
    var y := Pick(s);
    if s == {y} {
      m := y;
    } else {
      var rest := MinWitness(s - {y});
      m := if y < rest then y else rest;
      forall x | x in s
        ensures m <= x
      {
        if x != y {
          assert x in s - {y};
        }
      }
    }
  }

  lemma MaxExists(s: set<nat>)
    requires s != {}
    ensures exists m :: m in s && forall x | x in s :: x <= m
  {
    var m := MaxWitness(s);
  }

  lemma MinExists(s: set<nat>)
    requires s != {}
    ensures exists m :: m in s && forall x | x in s :: m <= x
  {
    var m := MinWitness(s);
  }

  /** The largest member of a non-empty set of colours. */
  function SetMax(s: set<nat>): (m: nat)
    requires s != {}
    ensures m in s
    ensures forall x | x in s :: x <= m
  {
    MaxExists(s);
    var m :| m in s && forall x | x in s :: x <= m;
    m
  }

  /** The smallest member of a non-empty set of colours. */
  function SetMin(s: set<nat>): (m: nat)
    requires s != {}
    ensures m in s
    ensures forall x | x in s :: m <= x
  {
    MinExists(s);
    var m :| m in s && forall x | x in s :: m <= x;
    m
  }
}
