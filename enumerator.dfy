/** The placement enumerator: `k` rooks on distinct rows (an increasing row
    combination) and distinct columns (a column k-permutation), keeping only
    placements whose first rook stands in the left half of the board. */
module Enumerator {
  import opened Board
  import opened Combinatorics

  /** Python's `zip` of rows and columns into squares, as long as the shorter
      of the two. */
  function Zip(vs: seq<int>, hs: seq<int>): seq<Pos> {
    seq(if |vs| < |hs| then |vs| else |hs|,
        j requires 0 <= j < |vs| && j < |hs| => Pos(vs[j], hs[j]))
  }

  /** `(n - 1) >> 1`. Dafny's `/` by a positive divisor rounds down, as the
      arithmetic shift does, also for `n - 1 < 0`. */
  function MaxFirstIndex(n: int): int {
    (n - 1) / 2
  }

  predicate NonEmptyAll(ps: seq<seq<int>>) {
    forall b :: 0 <= b < |ps| ==> |ps[b]| > 0
  }

  predicate HeadsNonDecreasing(ps: seq<seq<int>>)
    requires NonEmptyAll(ps)
  {
    forall a, b :: 0 <= a < b < |ps| ==> ps[a][0] <= ps[b][0]
  }

  /** What the column loop yields for the rows `vs`, were it run over the
      whole of `ps` with a filter instead of a `break`: one placement for each
      column sequence whose first column is at most `m`, in the order of `ps`. */
  function RowPlacements(vs: seq<int>, ps: seq<seq<int>>, m: int): seq<seq<Pos>>
    requires NonEmptyAll(ps)
  {
    if ps == [] then []
    else RowPlacements(vs, ps[..|ps| - 1], m) +
         (if ps[|ps| - 1][0] <= m then [Zip(vs, ps[|ps| - 1])] else [])
  }

  /** The row loop around the column loop, over the row sets `cs`. */
  function AllPlacements(cs: seq<seq<int>>, ps: seq<seq<int>>, m: int): seq<seq<Pos>>
    requires NonEmptyAll(ps)
  {
    if cs == [] then []
    else AllPlacements(cs[..|cs| - 1], ps, m) + RowPlacements(cs[|cs| - 1], ps, m)
  }

  lemma PermutationsNonEmpty(n: int, k: nat)
    requires k >= 1
    ensures NonEmptyAll(Permutations(n, k))
    ensures HeadsNonDecreasing(Permutations(n, k))
  {
    var ps := Permutations(n, k);
    forall b | 0 <= b < |ps|
      ensures |ps[b]| == k
    {
      PermutationsSpec(n, k, ps[b]);
    }
    PermutationsSpec(n, k, []);
  }

  /** The placements the enumerator yields for an n-by-n board and `k` rooks,
      in order: row combinations outside, column permutations inside, filtered
      by the first column. */
  function Placements(n: int, k: nat): seq<seq<Pos>>
    requires k >= 1
  {
    PermutationsNonEmpty(n, k);
    AllPlacements(Combinations(n, k), Permutations(n, k), MaxFirstIndex(n))
  }

  /** `k` rooks in the board, none attacking another: rows strictly increase
      along the tuple and no two columns are equal. */
  predicate IsRookPlacement(p: seq<Pos>, n: int, k: nat) {
    && |p| == k
    && (forall a :: 0 <= a < |p| ==> IsInside(p[a], n))
    && (forall a, b :: 0 <= a < b < |p| ==> p[a].v < p[b].v)
    && (forall a, b :: 0 <= a < b < |p| ==> p[a].h != p[b].h)
  }

  lemma {:induction false} RowPlacementsMembers(vs: seq<int>, ps: seq<seq<int>>, m: int, p: seq<Pos>)
    requires NonEmptyAll(ps)
    ensures p in RowPlacements(vs, ps, m) <==>
      exists b :: 0 <= b < |ps| && ps[b][0] <= m && p == Zip(vs, ps[b])
    decreases |ps|
  {
    if ps != [] {
      var init := ps[..|ps| - 1];
      RowPlacementsMembers(vs, init, m, p);
      assert forall b :: 0 <= b < |init| ==> init[b] == ps[b];
    }
  }

  lemma {:induction false} AllPlacementsMembers(cs: seq<seq<int>>, ps: seq<seq<int>>, m: int, p: seq<Pos>)
    requires NonEmptyAll(ps)
    ensures p in AllPlacements(cs, ps, m) <==>
      exists a, b :: 0 <= a < |cs| && 0 <= b < |ps| && ps[b][0] <= m && p == Zip(cs[a], ps[b])
    decreases |cs|
  {
    if cs != [] {
      var init := cs[..|cs| - 1];
      AllPlacementsMembers(init, ps, m, p);
      RowPlacementsMembers(cs[|cs| - 1], ps, m, p);
      assert forall a :: 0 <= a < |init| ==> init[a] == cs[a];
    }
  }

  /** Once a column sequence with first column above `m` is reached, no later
      one passes the filter: the `break` yields what the filter yields. */
  lemma {:induction false} BreakIsFilter(vs: seq<int>, ps: seq<seq<int>>, m: int, b: nat)
    requires NonEmptyAll(ps) && HeadsNonDecreasing(ps)
    requires b < |ps| && ps[b][0] > m
    ensures RowPlacements(vs, ps, m) == RowPlacements(vs, ps[..b], m)
    decreases |ps|
  {
    var init := ps[..|ps| - 1];
    if b < |ps| - 1 {
      assert init[..b] == ps[..b];
      BreakIsFilter(vs, init, m, b);
    } else {
      assert init == ps[..b];
    }
  }

  /** Every enumerated placement has `k` in-board rooks, rows strictly
      increasing, columns distinct and the first rook in the left half. */
  lemma PlacementsSound(n: int, k: nat, p: seq<Pos>)
    requires k >= 1 && p in Placements(n, k)
    ensures IsRookPlacement(p, n, k) && p[0].h <= MaxFirstIndex(n)
  {
    var cs, ps, m := Combinations(n, k), Permutations(n, k), MaxFirstIndex(n);
    PermutationsNonEmpty(n, k);
    AllPlacementsMembers(cs, ps, m, p);
    var a, b :| 0 <= a < |cs| && 0 <= b < |ps| && ps[b][0] <= m && p == Zip(cs[a], ps[b]);
    var vs, hs := cs[a], ps[b];
    CombinationsSpec(n, k, vs);
    PermutationsSpec(n, k, hs);
    assert |p| == k;
    assert forall j :: 0 <= j < k ==> p[j] == Pos(vs[j], hs[j]);
  }

  /** Every such placement is enumerated. */
  lemma PlacementsComplete(n: int, k: nat, p: seq<Pos>)
    requires k >= 1 && IsRookPlacement(p, n, k) && p[0].h <= MaxFirstIndex(n)
    ensures p in Placements(n, k)
  {
    var cs, ps, m := Combinations(n, k), Permutations(n, k), MaxFirstIndex(n);
    PermutationsNonEmpty(n, k);
    var vs := seq(k, j requires 0 <= j < k => p[j].v);
    var hs := seq(k, j requires 0 <= j < k => p[j].h);
    CombinationsSpec(n, k, vs);
    PermutationsSpec(n, k, hs);
    assert p == Zip(vs, hs);
    var a :| 0 <= a < |cs| && cs[a] == vs;
    var b :| 0 <= b < |ps| && ps[b] == hs;
    AllPlacementsMembers(cs, ps, m, p);
  }

  /** Shape and completeness: the enumerated placements are exactly the
      non-attacking placements of `k` rooks with rows increasing along the
      tuple and the first rook in column `(n - 1) >> 1` or to its left. */
  lemma PlacementsSpec(n: int, k: nat, p: seq<Pos>)
    requires k >= 1
    ensures p in Placements(n, k) <==>
      IsRookPlacement(p, n, k) && p[0].h <= MaxFirstIndex(n)
  {
    if p in Placements(n, k) {
      PlacementsSound(n, k, p);
    }
    if IsRookPlacement(p, n, k) && p[0].h <= MaxFirstIndex(n) {
      PlacementsComplete(n, k, p);
    }
  }

  /** Rooks of a placement do not attack one another. */
  lemma RookPlacementNonAttacking(p: seq<Pos>, n: int, k: nat, a: nat, b: nat)
    requires IsRookPlacement(p, n, k) && a < |p| && b < |p| && a != b
    ensures !Attacks(p[a], p[b])
  {
  }

  /** Writes rook `i` of the buffer at `(vs[i], hs[i])` for every `i`. */
  method Fill(rooks: array<Pos>, vs: seq<int>, hs: seq<int>)
    requires |vs| == |hs| == rooks.Length
    modifies rooks
    ensures rooks[..] == Zip(vs, hs)
  {
    for i := 0 to rooks.Length
      invariant forall j :: 0 <= j < i ==> rooks[j] == Pos(vs[j], hs[j])
    {
      rooks[i] := Pos(vs[i], hs[i]);
    }
  }

  lemma RowStep(vs: seq<int>, ps: seq<seq<int>>, m: int, b: nat)
    requires NonEmptyAll(ps) && b < |ps| && ps[b][0] <= m
    ensures RowPlacements(vs, ps[..b + 1], m) == RowPlacements(vs, ps[..b], m) + [Zip(vs, ps[b])]
  {
    assert ps[..b + 1][..b] == ps[..b];
  }

  lemma AllStep(cs: seq<seq<int>>, ps: seq<seq<int>>, m: int, a: nat)
    requires NonEmptyAll(ps) && a < |cs|
    ensures AllPlacements(cs[..a + 1], ps, m) == AllPlacements(cs[..a], ps, m) + RowPlacements(cs[a], ps, m)
  {
    assert cs[..a + 1][..a] == cs[..a];
  }

  /** Every square the enumerator yields, in order. One buffer of `k`
      squares is refilled field by field for each placement; the result holds
      the buffer's contents at each yield. The column loop stops at the first
      permutation whose first column exceeds `(n - 1) >> 1`. */
  method RookPlacements(n: int, k: nat) returns (yielded: seq<seq<Pos>>)
    requires k >= 1
    ensures yielded == Placements(n, k)
  {
    var combos, perms := Combinations(n, k), Permutations(n, k);
    PermutationsNonEmpty(n, k);
    var rooks := new Pos[k](_ => Pos(0, 0));
    yielded := [];
    for a := 0 to |combos|
      invariant yielded == AllPlacements(combos[..a], perms, MaxFirstIndex(n))
    {
      var vs := combos[a];
      CombinationsSpec(n, k, vs);
      var maxFirstIndex := (n - 1) / 2;
      ghost var before := yielded;
      var b := 0;
      while b < |perms|
        invariant 0 <= b <= |perms|
        invariant yielded == before + RowPlacements(vs, perms[..b], maxFirstIndex)
      {
        var hs := perms[b];
        if hs[0] > maxFirstIndex {
          break;
        }
        PermutationsSpec(n, k, hs);
        Fill(rooks, vs, hs);
        yielded := yielded + [rooks[..]];
        RowStep(vs, perms, maxFirstIndex, b);
        b := b + 1;
      }
      if b < |perms| {
        BreakIsFilter(vs, perms, maxFirstIndex, b);
      } else {
        assert perms[..b] == perms;
      }
      AllStep(combos, perms, maxFirstIndex, a);
    }
    assert combos[..|combos|] == combos;
  }
}
