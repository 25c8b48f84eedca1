/**
 * The ranking step of the decision: the fetched targets sorted by `value`,
 * highest first, with targets of equal value kept in their fetched order
 * (`Array.prototype.sort` is stable).
 */
module Ranking {
  import opened Types

  /** Values never increase along `s`. */
  ghost predicate Descending(s: seq<Target>)
  {
    forall i, j :: 0 <= i < j < |s| ==> s[i].value >= s[j].value
  }

  /** The targets of `s` whose value is `v`, in their order in `s`. */
  function WithValue(s: seq<Target>, v: real): (r: seq<Target>)
  {
    if s == [] then []
    else (if s[0].value == v then [s[0]] else []) + WithValue(s[1..], v)
  }

  /**
   * `x` placed into the descending `s` after every target whose value is at
   * least `x.value`.
   */
  function Insert(s: seq<Target>, x: Target): (r: seq<Target>)
    ensures |r| == |s| + 1
  {
    if s == [] || s[|s| - 1].value >= x.value then s + [x]
    else Insert(s[..|s| - 1], x) + [s[|s| - 1]]
  }

  /** The sorted order of `s`: descending by value, stable. */
  function SortByValue(s: seq<Target>): (r: seq<Target>)
    ensures |r| == |s|
  {
    if s == [] then [] else Insert(SortByValue(s[..|s| - 1]), s[|s| - 1])
  }

  lemma {:induction false} WithValueAppend(a: seq<Target>, b: seq<Target>, v: real)
    ensures WithValue(a + b, v) == WithValue(a, v) + WithValue(b, v)
    decreases |a|
  {
    if a == [] {
      assert a + b == b;
    } else {
      assert (a + b)[1..] == a[1..] + b;
      WithValueAppend(a[1..], b, v);
    }
  }

  lemma {:induction false} InsertPermutes(s: seq<Target>, x: Target)
    ensures multiset(Insert(s, x)) == multiset(s) + multiset{x}
    decreases |s|
  {
    if s != [] && s[|s| - 1].value < x.value {
      var p := s[..|s| - 1];
      assert s == p + [s[|s| - 1]];
      InsertPermutes(p, x);
    }
  }

  /** A lower bound on the values of `s` and of `x` bounds `Insert(s, x)` too. */
  lemma {:induction false} InsertBounded(s: seq<Target>, x: Target, b: real)
    requires forall m :: 0 <= m < |s| ==> s[m].value >= b
    requires x.value >= b
    ensures forall m :: 0 <= m < |Insert(s, x)| ==> Insert(s, x)[m].value >= b
    decreases |s|
  {
    if s != [] && s[|s| - 1].value < x.value {
      InsertBounded(s[..|s| - 1], x, b);
    }
  }

  lemma {:induction false} InsertKeepsDescending(s: seq<Target>, x: Target)
    requires Descending(s)
    ensures Descending(Insert(s, x))
    decreases |s|
  {
    if s != [] && s[|s| - 1].value < x.value {
      var last := s[|s| - 1];
      var p := s[..|s| - 1];
      InsertKeepsDescending(p, x);
      InsertBounded(p, x, last.value);
      var q := Insert(p, x);
      var r := q + [last];
      forall i, j | 0 <= i < j < |r| ensures r[i].value >= r[j].value {
        if j < |r| - 1 {
          assert r[i] == q[i] && r[j] == q[j];
        }
      }
    }
  }

  lemma WithValueSingle(x: Target, v: real)
    ensures WithValue([x], v) == if x.value == v then [x] else []
  {
    assert [x][1..] == [];
  }

  /** Inserting keeps the order of the targets of each value, `x` after its equals. */
  lemma {:induction false} InsertStable(s: seq<Target>, x: Target, v: real)
    ensures WithValue(Insert(s, x), v) == WithValue(s, v) + WithValue([x], v)
    decreases |s|
  {
    if s == [] || s[|s| - 1].value >= x.value {
      WithValueAppend(s, [x], v);
    } else {
      var last := s[|s| - 1];
      var p := s[..|s| - 1];
      assert s == p + [last];
      InsertStable(p, x, v);
      WithValueSingle(x, v);
      WithValueSingle(last, v);
      calc {
        WithValue(Insert(s, x), v);
        WithValue(Insert(p, x) + [last], v);
        { WithValueAppend(Insert(p, x), [last], v); }
        WithValue(Insert(p, x), v) + WithValue([last], v);
        WithValue(p, v) + WithValue([x], v) + WithValue([last], v);
        { assert WithValue([x], v) == [] || WithValue([last], v) == []; }
        WithValue(p, v) + WithValue([last], v) + WithValue([x], v);
        { WithValueAppend(p, [last], v); }
        WithValue(s, v) + WithValue([x], v);
      }
    }
  }

  /** The sorted order holds exactly the fetched targets. */
  lemma {:induction false} SortIsPermutation(s: seq<Target>)
    ensures multiset(SortByValue(s)) == multiset(s)
    decreases |s|
  {
    if s != [] {
      var p := s[..|s| - 1];
      assert s == p + [s[|s| - 1]];
      SortIsPermutation(p);
      InsertPermutes(SortByValue(p), s[|s| - 1]);
    }
  }

  /** In the sorted order a higher value always comes first. */
  lemma {:induction false} SortIsDescending(s: seq<Target>)
    ensures Descending(SortByValue(s))
    decreases |s|
  {
    if s != [] {
      SortIsDescending(s[..|s| - 1]);
      InsertKeepsDescending(SortByValue(s[..|s| - 1]), s[|s| - 1]);
    }
  }

  /** Targets of equal value keep their fetched relative order. */
  lemma {:induction false} SortIsStable(s: seq<Target>, v: real)
    ensures WithValue(SortByValue(s), v) == WithValue(s, v)
    decreases |s|
  {
    if s != [] {
      var p := s[..|s| - 1];
      assert s == p + [s[|s| - 1]];
      SortIsStable(p, v);
      InsertStable(SortByValue(p), s[|s| - 1], v);
      WithValueAppend(p, [s[|s| - 1]], v);
    }
  }

  /**
   * When every target of `s` from `j` on has a value below `x.value`, `x`
   * lands at or before `j` and the tail moves up unchanged.
   */
  lemma {:induction false} InsertPastSmaller(s: seq<Target>, x: Target, j: nat)
    requires j <= |s|
    requires forall m :: j <= m < |s| ==> s[m].value < x.value
    ensures Insert(s, x) == Insert(s[..j], x) + s[j..]
    decreases |s| - j
  {
    if j < |s| {
      var p := s[..|s| - 1];
      InsertPastSmaller(p, x, j);
      assert p[..j] == s[..j];
      assert p[j..] + [s[|s| - 1]] == s[j..];
    } else {
      assert s[..j] == s;
    }
  }

  /**
   * The outcome of one insertion step: `sorted` with `x` put at `j`, where
   * everything from `j` on has a smaller value, is `Insert(sorted, x)`.
   */
  lemma InsertAt(r: seq<Target>, sorted: seq<Target>, x: Target, j: nat)
    requires j <= |sorted| && |r| == |sorted| + 1
    requires j == 0 || sorted[j - 1].value >= x.value
    requires forall m :: j <= m < |sorted| ==> sorted[m].value < x.value
    requires forall m :: 0 <= m < j ==> r[m] == sorted[m]
    requires r[j] == x
    requires forall m :: j < m < |r| ==> r[m] == sorted[m - 1]
    ensures r == Insert(sorted, x)
  {
    InsertPastSmaller(sorted, x, j);
    assert Insert(sorted[..j], x) == sorted[..j] + [x];
    assert r == sorted[..j] + [x] + sorted[j..];
  }

  /**
   * Moves `a[i]` left past the targets of strictly smaller value just before
   * it, shifting them one place right: one step of insertion sort.
   */
  method InsertInPlace(a: array<Target>, i: nat)
    requires i < a.Length
    modifies a
    ensures a[..i + 1] == Insert(old(a[..i]), old(a[i]))
    ensures a[i + 1..] == old(a[i + 1..])
  {
    ghost var sorted := a[..i];
    var x := a[i];
    var j := i;
    while j > 0 && a[j - 1].value < x.value
      invariant 0 <= j <= i
      invariant forall m :: 0 <= m < j ==> a[m] == sorted[m]
      invariant forall m :: j < m <= i ==> a[m] == sorted[m - 1]
      invariant forall m :: i < m < a.Length ==> a[m] == old(a[m])
      invariant forall m :: j <= m < i ==> sorted[m].value < x.value
    {
      a[j] := a[j - 1];
      j := j - 1;
    }
    a[j] := x;
    InsertAt(a[..i + 1], sorted, x, j);
    assert a[i + 1..] == old(a[i + 1..]);
  }

  /** Sorting one more target of `s` inserts it into the sorted prefix. */
  lemma SortByValueSnoc(s: seq<Target>, i: nat)
    requires i < |s|
    ensures SortByValue(s[..i + 1]) == Insert(SortByValue(s[..i]), s[i])
  {
    assert s[..i + 1][..i] == s[..i];
  }

  /**
   * Sorts `a` in place into the order `SortByValue` describes, by insertion.
   */
  method SortByValueInPlace(a: array<Target>)
    modifies a
    ensures a[..] == SortByValue(old(a[..]))
  {
    ghost var original := a[..];
    var i := 0;
    while i < a.Length
      invariant 0 <= i <= a.Length
      invariant a[..i] == SortByValue(original[..i])
      invariant a[i..] == original[i..]
    {
      assert a[i] == original[i] && a[i + 1..] == original[i + 1..];
      InsertInPlace(a, i);
      SortByValueSnoc(original, i);
      i := i + 1;
    }
    assert a[..] == a[..a.Length];
    assert original == original[..a.Length];
  }

  /**
   * The fetched targets copied into a fresh array and sorted there, as
   * `makeDecision` sorts the array `getTargets` returned.
   */
  method RankTargets(listed: seq<Target>) returns (sortedTargets: array<Target>)
    ensures fresh(sortedTargets)
    ensures sortedTargets[..] == SortByValue(listed)
  {
    sortedTargets := new Target[|listed|];
    forall i | 0 <= i < |listed| {
      sortedTargets[i] := listed[i];
    }
    assert sortedTargets[..] == listed;
    SortByValueInPlace(sortedTargets);
  }
}
