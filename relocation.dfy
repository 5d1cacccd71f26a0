/** The relocation checker: can every rook from index `i` on make one knight
    move so that no relocated rook shares a row or a column with any rook
    before it in the tuple? */
module Relocation {
  import opened Board

  /** `r` is a successful relocation of the rooks `s` from index `i` up to
      `n - 1`: every such rook moved by one knight move onto the board, and
      none of them attacks a rook before it (an untouched one below `i` or an
      already relocated one); all other rooks stay where they are. */
  ghost predicate IsRelocation(s: seq<Pos>, n: int, i: nat, r: seq<Pos>) {
    && i <= n <= |s|
    && |r| == |s|
    && (forall k :: 0 <= k < |s| && !(i <= k < n) ==> r[k] == s[k])
    && (forall k :: i <= k < n ==> IsInside(r[k], n) && IsHorseMove(s[k], r[k]))
    && (forall k, j :: i <= k < n && 0 <= j < k ==> !Attacks(r[k], r[j]))
  }

  /** Some successful relocation of rooks `i..n-1` exists. */
  ghost predicate Relocatable(s: seq<Pos>, n: int, i: nat) {
    exists r :: IsRelocation(s, n, i, r)
  }

  /** Some successful relocation moves rook `i` to `c`. */
  ghost predicate RelocatableVia(s: seq<Pos>, n: int, i: nat, c: Pos) {
    exists r :: IsRelocation(s, n, i, r) && i < |r| && r[i] == c
  }

  /** A candidate square `c` for rook `i`, followed by a relocation of the
      rest, is a relocation from `i`. */
  lemma Extend(s: seq<Pos>, n: int, i: nat, c: Pos, r: seq<Pos>)
    requires i < n <= |s|
    requires IsInside(c, n) && IsHorseMove(s[i], c)
    requires forall j :: 0 <= j < i ==> !Attacks(c, s[j])
    requires if i == n - 1 then r == s[i := c] else IsRelocation(s[i := c], n, i + 1, r)
    ensures IsRelocation(s, n, i, r) && r[i] == c
  {
    var s' := s[i := c];
    assert r[i] == c;
    forall k, j | i <= k < n && 0 <= j < k
      ensures !Attacks(r[k], r[j])
    {
      if k == i {
        assert r[j] == s'[j] == s[j];
      }
    }
  }

  /** A relocation from `i` consists of a legal square for rook `i` and a
      relocation of the rest from the tuple with rook `i` moved. */
  lemma Restrict(s: seq<Pos>, n: int, i: nat, r: seq<Pos>)
    requires IsRelocation(s, n, i, r) && i < n
    ensures IsInside(r[i], n) && IsHorseMove(s[i], r[i])
    ensures forall j :: 0 <= j < i ==> !Attacks(r[i], s[j])
    ensures i + 1 < n ==> IsRelocation(s[i := r[i]], n, i + 1, r)
    ensures i + 1 == n ==> r == s[i := r[i]]
  {
    forall j | 0 <= j < i
      ensures !Attacks(r[i], s[j])
    {
      assert r[j] == s[j];
    }
    if i + 1 == n {
      assert forall k :: 0 <= k < |s| ==> r[k] == s[i := r[i]][k];
    }
  }

  /** The existential specification satisfies the search recursion: rooks
      `i..n-1` can be relocated exactly when some in-board knight move of rook
      `i` attacks no earlier rook and, unless `i` is the last index, leaves
      the rest relocatable. */
  lemma RelocatableStep(s: seq<Pos>, n: int, i: nat)
    requires i < n <= |s|
    ensures Relocatable(s, n, i) <==>
      exists d :: 0 <= d < 8 && StepOk(s, n, i, Move(s[i], d))
  {
    if Relocatable(s, n, i) {
      var r :| IsRelocation(s, n, i, r);
      Restrict(s, n, i, r);
      var d :| 0 <= d < 8 && r[i] == Move(s[i], d);
      assert StepOk(s, n, i, Move(s[i], d));
    }
    if exists d :: 0 <= d < 8 && StepOk(s, n, i, Move(s[i], d)) {
      var d :| 0 <= d < 8 && StepOk(s, n, i, Move(s[i], d));
      var c := Move(s[i], d);
      if i == n - 1 {
        Extend(s, n, i, c, s[i := c]);
      } else {
        var r :| IsRelocation(s[i := c], n, i + 1, r);
        Extend(s, n, i, c, r);
      }
    }
  }

  /** Moving rook `i` to `c` is a step the search accepts and from which it
      can finish. */
  ghost predicate StepOk(s: seq<Pos>, n: int, i: nat, c: Pos)
    requires i < n <= |s|
  {
    && IsInside(c, n)
    && (forall j :: 0 <= j < i ==> !Attacks(c, s[j]))
    && (i == n - 1 || Relocatable(s[i := c], n, i + 1))
  }

  /** Rook `i` attacks some rook with a smaller index. */
  method AttacksEarlier(rooks: array<Pos>, i: nat) returns (bad: bool)
    requires i < rooks.Length
    ensures bad <==> exists j :: 0 <= j < i && Attacks(rooks[i], rooks[j])
  {
    bad := false;
    for j := 0 to i
      invariant forall j' :: 0 <= j' < j ==> !Attacks(rooks[i], rooks[j'])
    {
      if Attacks(rooks[i], rooks[j]) {
        bad := true;
        break;
      }
    }
  }

  /** Depth-first search for a relocation of rooks `i..n-1`, editing the
      tuple in place. Rook `i` is moved to each table destination in turn;
      an in-board one that attacks no earlier rook is kept and the search goes
      on with `i + 1`. On success the tuple holds the relocation found; on
      failure every rook is back where it was. */
  method Check(rooks: array<Pos>, n: int, i: nat) returns (ok: bool)
    requires i < n <= rooks.Length
    modifies rooks
    decreases n - i
    ensures ok <==> Relocatable(old(rooks[..]), n, i)
    ensures ok ==> IsRelocation(old(rooks[..]), n, i, rooks[..])
    ensures !ok ==> rooks[..] == old(rooks[..])
  {
    ghost var s := rooks[..];
    var v, h := rooks[i].v, rooks[i].h;
    for d := 0 to 8
      invariant rooks[..] == s[i := rooks[i]]
      invariant forall e :: 0 <= e < d ==> !RelocatableVia(s, n, i, Move(s[i], e))
    {
      rooks[i] := Pos(v + MovesV[d], h + MovesH[d]);
      ghost var c := Move(s[i], d);
      assert rooks[..] == s[i := c];
      if IsInside(rooks[i], n) {
        var bad := AttacksEarlier(rooks, i);
        Earlier(s, rooks[..], i, c);
        if !bad {
          if i == n - 1 {
            Accept(s, n, i, c, rooks[..]);
            return true;
          }
          ok := Check(rooks, n, i + 1);
          if ok {
            Accept(s, n, i, c, rooks[..]);
            return true;
          }
          Rejected(s, n, i, c);
        } else {
          Rejected(s, n, i, c);
        }
      } else {
        Rejected(s, n, i, c);
      }
      assert !RelocatableVia(s, n, i, Move(s[i], d));
    }
    rooks[i] := Pos(v, h);
    assert rooks[..] == s;
    ok := false;
    SomeVia(s, n, i);
  }

  /** With rook `i` moved to `c` and the rest untouched, comparing rook `i`
      with the rooks before it is comparing `c` with them. */
  lemma Earlier(s: seq<Pos>, t: seq<Pos>, i: nat, c: Pos)
    requires i < |s| && t == s[i := c]
    ensures t[i] == c
    ensures (exists j :: 0 <= j < i && Attacks(t[i], t[j])) <==>
            (exists j :: 0 <= j < i && Attacks(c, s[j]))
  {
    assert forall j :: 0 <= j < i ==> t[j] == s[j];
  }

  /** An accepted square followed by a relocation of the rest witnesses that
      rooks `i..n-1` can be relocated. */
  lemma Accept(s: seq<Pos>, n: int, i: nat, c: Pos, r: seq<Pos>)
    requires i < n <= |s|
    requires exists d :: 0 <= d < 8 && c == Move(s[i], d)
    requires IsInside(c, n) && forall j :: 0 <= j < i ==> !Attacks(c, s[j])
    requires if i == n - 1 then r == s[i := c] else IsRelocation(s[i := c], n, i + 1, r)
    ensures IsRelocation(s, n, i, r) && Relocatable(s, n, i)
  {
    Extend(s, n, i, c, r);
  }

  /** A candidate the search rejects, or one from which the rest fails, is
      used by no relocation. */
  lemma Rejected(s: seq<Pos>, n: int, i: nat, c: Pos)
    requires i < n <= |s| && !StepOk(s, n, i, c)
    ensures !RelocatableVia(s, n, i, c)
  {
    ViaIsStep(s, n, i, c);
  }

  /** Every candidate used by a relocation is one the search accepts and can
      finish from. */
  lemma ViaIsStep(s: seq<Pos>, n: int, i: nat, c: Pos)
    requires i < n <= |s|
    ensures RelocatableVia(s, n, i, c) ==> StepOk(s, n, i, c)
  {
    if RelocatableVia(s, n, i, c) {
      var r :| IsRelocation(s, n, i, r) && i < |r| && r[i] == c;
      Restrict(s, n, i, r);
      if i + 1 < n {
        assert Relocatable(s[i := c], n, i + 1);
      }
    }
  }

  /** Every relocation moves rook `i` to one of its table destinations. */
  lemma SomeVia(s: seq<Pos>, n: int, i: nat)
    requires i < n <= |s|
    ensures Relocatable(s, n, i) ==>
      exists e :: 0 <= e < 8 && RelocatableVia(s, n, i, Move(s[i], e))
  {
    if Relocatable(s, n, i) {
      var r :| IsRelocation(s, n, i, r);
      Restrict(s, n, i, r);
      var e :| 0 <= e < 8 && r[i] == Move(s[i], e);
      assert RelocatableVia(s, n, i, Move(s[i], e));
    }
  }

  /** The left-right mirror image of a relocation is a relocation of the
      mirrored tuple. */
  lemma MirrorRelocation(s: seq<Pos>, n: int, i: nat, r: seq<Pos>)
    requires IsRelocation(s, n, i, r)
    ensures IsRelocation(MirrorAll(s, n), n, i, MirrorAll(r, n))
  {
    var ms, mr := MirrorAll(s, n), MirrorAll(r, n);
    forall k | i <= k < n
      ensures IsInside(mr[k], n) && IsHorseMove(ms[k], mr[k])
    {
      MirrorMove(s[k], r[k], n);
    }
    forall k, j | i <= k < n && 0 <= j < k
      ensures !Attacks(mr[k], mr[j])
    {
      MirrorMove(r[k], r[j], n);
    }
  }

  /** Relocatability does not change under the left-right mirror. */
  lemma MirrorRelocatable(s: seq<Pos>, n: int, i: nat)
    ensures Relocatable(MirrorAll(s, n), n, i) <==> Relocatable(s, n, i)
  {
    var ms := MirrorAll(s, n);
    assert MirrorAll(ms, n) == s by {
      forall k | 0 <= k < |s|
        ensures MirrorAll(ms, n)[k] == s[k]
      {
        MirrorMove(s[k], s[k], n);
      }
    }
    if Relocatable(s, n, i) {
      var r :| IsRelocation(s, n, i, r);
      MirrorRelocation(s, n, i, r);
    }
    if Relocatable(ms, n, i) {
      var r :| IsRelocation(ms, n, i, r);
      MirrorRelocation(ms, n, i, r);
    }
  }

  /** A rook none of whose table destinations is on the board makes the
      search fail. */
  lemma NoMoveNoRelocation(s: seq<Pos>, n: int, i: nat)
    requires i < n <= |s|
    requires forall d :: 0 <= d < 8 ==> !IsInside(Move(s[i], d), n)
    ensures HorseMoves(s[i], n) == []
    ensures !Relocatable(s, n, i)
  {
    HorseMovesNone(s[i], n, 8);
    RelocatableStep(s, n, i);
  }

  /** On a board of side 1 or 2 no knight move from a square of the board
      stays on it, so no placement there can be relocated. */
  lemma SmallBoardFails(s: seq<Pos>, n: int, i: nat)
    requires i < n <= |s| && n <= 2 && IsInside(s[i], n)
    ensures HorseMoves(s[i], n) == []
    ensures !Relocatable(s, n, i)
  {
    forall d | 0 <= d < 8
      ensures !IsInside(Move(s[i], d), n)
    {
      HorseMoveShape(s[i], Move(s[i], d));
    }
    NoMoveNoRelocation(s, n, i);
  }

  /** Every knight move from the centre of a 3-by-3 board leaves it. */
  lemma CentreOfThreeFails(s: seq<Pos>, i: nat)
    requires i < 3 <= |s| && s[i] == Pos(1, 1)
    ensures HorseMoves(s[i], 3) == []
    ensures !Relocatable(s, 3, i)
  {
    forall d | 0 <= d < 8
      ensures !IsInside(Move(s[i], d), 3)
    {
      HorseMoveShape(s[i], Move(s[i], d));
    }
    NoMoveNoRelocation(s, 3, i);
  }
}
