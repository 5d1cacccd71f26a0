/** Combinations and k-permutations of `0..n-1`, in the lexicographic order in
    which Python's `itertools.combinations` and `itertools.permutations`
    produce them. */
module Combinatorics {

  predicate StrictlyIncreasing(xs: seq<int>) {
    forall a, b :: 0 <= a < b < |xs| ==> xs[a] < xs[b]
  }

  predicate Distinct(xs: seq<int>) {
    forall a, b :: 0 <= a < b < |xs| ==> xs[a] != xs[b]
  }

  predicate Within(xs: seq<int>, lo: int, hi: int) {
    forall a :: 0 <= a < |xs| ==> lo <= xs[a] < hi
  }

  /** `range(n)`: the integers `0..n-1` (empty when `n <= 0`). */
  function Range(n: int): seq<int> {
    seq(if n < 0 then 0 else n, i => i)
  }

  /** Puts `x` in front of every sequence of `ss`. */
  function Prepend(x: int, ss: seq<seq<int>>): seq<seq<int>> {
    seq(|ss|, j requires 0 <= j < |ss| => [x] + ss[j])
  }

  /** Strict lexicographic order on sequences of integers. */
  predicate LexLess(a: seq<int>, b: seq<int>)
    decreases |a|
  {
    |a| > 0 && |b| > 0 && (a[0] < b[0] || (a[0] == b[0] && LexLess(a[1..], b[1..])))
  }

  /** Every earlier element is lexicographically below every later one. */
  predicate LexSorted(ss: seq<seq<int>>) {
    forall a, b :: 0 <= a < b < |ss| ==> LexLess(ss[a], ss[b])
  }

  lemma PrependMembers(x: int, ss: seq<seq<int>>, ys: seq<int>)
    ensures ys in Prepend(x, ss) <==> |ys| > 0 && ys[0] == x && ys[1..] in ss
  {
    if ys in Prepend(x, ss) {
      var j :| 0 <= j < |ss| && Prepend(x, ss)[j] == ys;
      assert ys[1..] == ss[j];
    }
    if |ys| > 0 && ys[0] == x && ys[1..] in ss {
      var j :| 0 <= j < |ss| && ss[j] == ys[1..];
      assert Prepend(x, ss)[j] == ys;
    }
  }

  lemma LexSortedPrepend(x: int, ss: seq<seq<int>>)
    requires LexSorted(ss)
    ensures LexSorted(Prepend(x, ss))
  {
    var ps := Prepend(x, ss);
    forall a, b | 0 <= a < b < |ps|
      ensures LexLess(ps[a], ps[b])
    {
      assert ps[a][1..] == ss[a] && ps[b][1..] == ss[b];
    }
  }

  /** No sequence is lexicographically below itself. */
  lemma {:induction false} LexLessIrreflexive(a: seq<int>)
    ensures !LexLess(a, a)
    decreases |a|
  {
    if |a| > 0 {
      LexLessIrreflexive(a[1..]);
    }
  }

  /** A lexicographically sorted list has no repeated element. */
  lemma LexSortedNoDuplicates(ss: seq<seq<int>>)
    requires LexSorted(ss)
    ensures forall a, b :: 0 <= a < b < |ss| ==> ss[a] != ss[b]
  {
    forall a, b | 0 <= a < b < |ss|
      ensures ss[a] != ss[b]
    {
      LexLessIrreflexive(ss[a]);
    }
  }

  // ---------------------------------------------------------------------------
  // Combinations

  /** The `k`-element increasing sequences drawn from `lo..n-1`, in
      lexicographic order. */
  function Combos(lo: int, n: int, k: nat): seq<seq<int>>
    decreases n - lo
  {
    if k == 0 then [[]]
    else if lo >= n then []
    else Prepend(lo, Combos(lo + 1, n, k - 1)) + Combos(lo + 1, n, k)
  }

  /** `itertools.combinations(range(n), k)`. */
  function Combinations(n: int, k: nat): seq<seq<int>> {
    Combos(0, n, k)
  }

  /** Every combination has `k` elements, increasing, all in `lo..n-1`. */
  lemma {:induction false} CombosSound(lo: int, n: int, k: nat, c: seq<int>)
    requires c in Combos(lo, n, k)
    ensures |c| == k && StrictlyIncreasing(c) && Within(c, lo, n)
    decreases n - lo
  {
    if k > 0 && lo < n {
      if c in Prepend(lo, Combos(lo + 1, n, k - 1)) {
        PrependMembers(lo, Combos(lo + 1, n, k - 1), c);
        CombosSound(lo + 1, n, k - 1, c[1..]);
        assert forall a :: 0 < a < |c| ==> c[a] == c[1..][a - 1];
      } else {
        CombosSound(lo + 1, n, k, c);
      }
    }
  }

  /** Every increasing `k`-element sequence within `lo..n-1` is listed. */
  lemma {:induction false} CombosComplete(lo: int, n: int, k: nat, c: seq<int>)
    requires |c| == k && StrictlyIncreasing(c) && Within(c, lo, n)
    ensures c in Combos(lo, n, k)
    decreases n - lo
  {
    if k == 0 {
      assert c == [];
    } else {
      assert lo <= c[0] < n;
      if c[0] == lo {
        assert forall a :: 0 <= a < |c[1..]| ==> c[1..][a] == c[a + 1];
        CombosComplete(lo + 1, n, k - 1, c[1..]);
        PrependMembers(lo, Combos(lo + 1, n, k - 1), c);
      } else {
        CombosComplete(lo + 1, n, k, c);
      }
    }
  }

  /** Combinations come in strictly increasing lexicographic order. */
  lemma {:induction false} CombosLexSorted(lo: int, n: int, k: nat)
    ensures LexSorted(Combos(lo, n, k))
    decreases n - lo
  {
    if k > 0 && lo < n {
      var left, right := Combos(lo + 1, n, k - 1), Combos(lo + 1, n, k);
      CombosLexSorted(lo + 1, n, k - 1);
      CombosLexSorted(lo + 1, n, k);
      LexSortedPrepend(lo, left);
      var a := Prepend(lo, left);
      forall x, y | 0 <= x < |a| && 0 <= y < |right|
        ensures LexLess(a[x], right[y])
      {
        CombosSound(lo + 1, n, k, right[y]);
      }
    }
  }

  // ---------------------------------------------------------------------------
  // Permutations

  /** `xs` without its element at index `j`. */
  function Remove(xs: seq<int>, j: nat): seq<int>
    requires j < |xs|
  {
    xs[..j] + xs[j + 1..]
  }

  lemma RemoveFacts(xs: seq<int>, j: nat)
    requires j < |xs| && Distinct(xs)
    ensures Distinct(Remove(xs, j))
    ensures forall y :: y in Remove(xs, j) <==> y in xs && y != xs[j]
    ensures StrictlyIncreasing(xs) ==> StrictlyIncreasing(Remove(xs, j))
  {
    var r := Remove(xs, j);
    assert forall a :: 0 <= a < |r| ==> r[a] == xs[if a < j then a else a + 1];
    forall y | y in xs && y != xs[j]
      ensures y in r
    {
      var a :| 0 <= a < |xs| && xs[a] == y;
      assert r[if a < j then a else a - 1] == y;
    }
  }

  /** The `k`-element sequences of distinct elements of `avail`, in the order
      of `avail` at every position. */
  function Perms(avail: seq<int>, k: nat): seq<seq<int>>
    decreases k, |avail| + 1
  {
    if k == 0 then [[]] else PermsFrom(avail, 0, k)
  }

  /** Those permutations whose first element is `avail[j]` or after it. */
  function PermsFrom(avail: seq<int>, j: nat, k: nat): seq<seq<int>>
    requires j <= |avail| && k >= 1
    decreases k, |avail| - j
  {
    if j == |avail| then []
    else Prepend(avail[j], Perms(Remove(avail, j), k - 1)) + PermsFrom(avail, j + 1, k)
  }

  /** `itertools.permutations(range(n), k)`. */
  function Permutations(n: int, k: nat): seq<seq<int>> {
    Perms(Range(n), k)
  }

  /** Every permutation has `k` distinct elements, all drawn from `avail`. */
  lemma {:induction false} PermsSound(avail: seq<int>, k: nat, p: seq<int>)
    requires Distinct(avail) && p in Perms(avail, k)
    ensures |p| == k && Distinct(p) && forall a :: 0 <= a < |p| ==> p[a] in avail
    decreases k, |avail| + 1
  {
    if k > 0 {
      PermsFromSound(avail, 0, k, p);
    }
  }

  lemma {:induction false} PermsFromSound(avail: seq<int>, j: nat, k: nat, p: seq<int>)
    requires Distinct(avail) && j <= |avail| && k >= 1 && p in PermsFrom(avail, j, k)
    ensures |p| == k && Distinct(p) && forall a :: 0 <= a < |p| ==> p[a] in avail
    decreases k, |avail| - j
  {
    var rest := Perms(Remove(avail, j), k - 1);
    if p in Prepend(avail[j], rest) {
      PrependMembers(avail[j], rest, p);
      RemoveFacts(avail, j);
      PermsSound(Remove(avail, j), k - 1, p[1..]);
      assert forall a :: 0 < a < |p| ==> p[a] == p[1..][a - 1];
    } else {
      PermsFromSound(avail, j + 1, k, p);
    }
  }

  /** The first element of a permutation listed from index `j` on is an
      element of `avail` at index `j` or later. */
  lemma {:induction false} PermsFromHeads(avail: seq<int>, j: nat, k: nat, p: seq<int>)
    requires j <= |avail| && k >= 1 && p in PermsFrom(avail, j, k)
    ensures |p| > 0 && exists j' :: j <= j' < |avail| && p[0] == avail[j']
    decreases |avail| - j
  {
    var rest := Perms(Remove(avail, j), k - 1);
    if p in Prepend(avail[j], rest) {
      PrependMembers(avail[j], rest, p);
    } else {
      PermsFromHeads(avail, j + 1, k, p);
    }
  }

  lemma {:induction false} PermsFromContains(avail: seq<int>, j0: nat, j: nat, k: nat, p: seq<int>)
    requires j0 <= j < |avail| && k >= 1
    requires p in Prepend(avail[j], Perms(Remove(avail, j), k - 1))
    ensures p in PermsFrom(avail, j0, k)
    decreases j - j0
  {
    if j0 < j {
      PermsFromContains(avail, j0 + 1, j, k, p);
    }
  }

  /** Every sequence of `k` distinct elements of `avail` is listed. */
  lemma {:induction false} PermsComplete(avail: seq<int>, k: nat, p: seq<int>)
    requires Distinct(avail) && |p| == k && Distinct(p)
    requires forall a :: 0 <= a < |p| ==> p[a] in avail
    ensures p in Perms(avail, k)
    decreases k
  {
    if k == 0 {
      assert p == [];
    } else {
      var j :| 0 <= j < |avail| && avail[j] == p[0];
      var t := p[1..];
      RemoveFacts(avail, j);
      forall a | 0 <= a < |t|
        ensures t[a] in Remove(avail, j)
      {
        assert t[a] == p[a + 1] && p[a + 1] != p[0];
      }
      assert forall a, b :: 0 <= a < b < |t| ==> t[a] == p[a + 1] && t[b] == p[b + 1];
      PermsComplete(Remove(avail, j), k - 1, t);
      PrependMembers(avail[j], Perms(Remove(avail, j), k - 1), p);
      PermsFromContains(avail, 0, j, k, p);
    }
  }

  /** Over an increasing pool, permutations come in strictly increasing
      lexicographic order. */
  lemma {:induction false} PermsLexSorted(avail: seq<int>, k: nat)
    requires StrictlyIncreasing(avail)
    ensures LexSorted(Perms(avail, k))
    decreases k, |avail| + 1
  {
    if k > 0 {
      PermsFromLexSorted(avail, 0, k);
    }
  }

  lemma {:induction false} PermsFromLexSorted(avail: seq<int>, j: nat, k: nat)
    requires StrictlyIncreasing(avail) && j <= |avail| && k >= 1
    ensures LexSorted(PermsFrom(avail, j, k))
    decreases k, |avail| - j
  {
    if j < |avail| {
      var rest := Perms(Remove(avail, j), k - 1);
      RemoveFacts(avail, j);
      PermsLexSorted(Remove(avail, j), k - 1);
      LexSortedPrepend(avail[j], rest);
      PermsFromLexSorted(avail, j + 1, k);
      var left, right := Prepend(avail[j], rest), PermsFrom(avail, j + 1, k);
      forall x, y | 0 <= x < |left| && 0 <= y < |right|
        ensures LexLess(left[x], right[y])
      {
        PermsFromHeads(avail, j + 1, k, right[y]);
      }
    }
  }

  lemma RangeFacts(n: int)
    ensures StrictlyIncreasing(Range(n)) && Distinct(Range(n))
    ensures forall x :: x in Range(n) <==> 0 <= x < n
  {
    var r := Range(n);
    forall x | 0 <= x < n
      ensures x in r
    {
      assert r[x] == x;
    }
  }

  /** The row sets: every `itertools.combinations(range(n), k)` entry is an
      increasing `k`-sequence within `0..n-1`, every such sequence is listed,
      and the list is in strict lexicographic order. */
  lemma CombinationsSpec(n: int, k: nat, c: seq<int>)
    ensures c in Combinations(n, k) <==> |c| == k && StrictlyIncreasing(c) && Within(c, 0, n)
    ensures LexSorted(Combinations(n, k))
  {
    if c in Combinations(n, k) {
      CombosSound(0, n, k, c);
    }
    if |c| == k && StrictlyIncreasing(c) && Within(c, 0, n) {
      CombosComplete(0, n, k, c);
    }
    CombosLexSorted(0, n, k);
  }

  /** The column assignments: every `itertools.permutations(range(n), k)`
      entry is a `k`-sequence of distinct elements of `0..n-1`, every such
      sequence is listed, and the list is in strict lexicographic order. */
  lemma PermutationsSpec(n: int, k: nat, p: seq<int>)
    ensures p in Permutations(n, k) <==> |p| == k && Distinct(p) && Within(p, 0, n)
    ensures LexSorted(Permutations(n, k))
  {
    RangeFacts(n);
    if p in Permutations(n, k) {
      PermsSound(Range(n), k, p);
    }
    if |p| == k && Distinct(p) && Within(p, 0, n) {
      PermsComplete(Range(n), k, p);
    }
    PermsLexSorted(Range(n), k);
  }
}
