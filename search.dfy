/** The driver: feeds every enumerated placement to the relocation checker and
    returns the first one that fails, or nothing when all pass. */
module Search {
  import opened Board
  import opened Combinatorics
  import opened Relocation
  import opened Enumerator

  datatype Option<T> = None | Some(value: T)

  /** Placement `a` of `ps` is the first one that cannot be relocated. */
  ghost predicate FirstBadAt(ps: seq<seq<Pos>>, n: int, a: nat) {
    && a < |ps|
    && !Relocatable(ps[a], n, 0)
    && forall b :: 0 <= b < a ==> Relocatable(ps[b], n, 0)
  }

  /** The mirror reduction loses nothing: when every enumerated placement can
      be relocated, so can every placement of `k` rooks with rows increasing
      along the tuple, whichever half its first rook stands in. */
  lemma SymmetryReduction(n: int, k: nat)
    requires k >= 1
    requires forall p :: p in Placements(n, k) ==> Relocatable(p, n, 0)
    ensures forall p :: IsRookPlacement(p, n, k) ==> Relocatable(p, n, 0)
  {
    forall p: seq<Pos> | IsRookPlacement(p, n, k)
      ensures Relocatable(p, n, 0)
    {
      if p[0].h <= MaxFirstIndex(n) {
        PlacementsSpec(n, k, p);
      } else {
        var q := MirrorAll(p, n);
        forall a, b | 0 <= a < |p| && 0 <= b < |p|
          ensures IsInside(q[a], n) && (a != b ==> !Attacks(q[a], q[b]))
        {
          MirrorMove(p[a], p[b], n);
        }
        assert IsRookPlacement(q, n, k);
        PlacementsSpec(n, k, q);
        MirrorRelocatable(p, n, 0);
      }
    }
  }

  /** `search_bad_perm`: the first enumerated placement from which the rooks
      cannot all be relocated, or `None` exactly when every placement of `k`
      rooks (rows increasing along the tuple) can be relocated. */
  method SearchBadPerm(n: int, k: nat) returns (bad: Option<seq<Pos>>)
    requires k >= 1 && n <= k
    ensures bad.Some? ==> exists a: nat :: FirstBadAt(Placements(n, k), n, a) && bad.value == Placements(n, k)[a]
    ensures bad.Some? ==> IsRookPlacement(bad.value, n, k) && !Relocatable(bad.value, n, 0)
    ensures bad.None? <==> forall p :: p in Placements(n, k) ==> Relocatable(p, n, 0)
    ensures bad.None? <==> forall p :: IsRookPlacement(p, n, k) ==> Relocatable(p, n, 0)
  {
    var placements := RookPlacements(n, k);
    for a := 0 to |placements|
      invariant forall b :: 0 <= b < a ==> Relocatable(placements[b], n, 0)
    {
      var p := placements[a];
      PlacementsSpec(n, k, p);
      var rooks := new Pos[k](j requires 0 <= j < k => p[j]);
      assert rooks[..] == p;
      var ok := Check(rooks, n, 0);
      if !ok {
        assert FirstBadAt(placements, n, a);
        return Some(rooks[..]);
      }
    }
    forall p | p in placements
      ensures Relocatable(p, n, 0)
    {
      var b :| 0 <= b < |placements| && placements[b] == p;
    }
    SymmetryReduction(n, k);
    return None;
  }
}
