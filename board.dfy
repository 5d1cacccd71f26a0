/** Board geometry: squares, the rook attack relation, the knight-move table,
    and a mutable square that steps through its knight moves. */
module Board {

  /** A square of the board: row `v` and column `h`. */
  datatype Pos = Pos(v: int, h: int)

  /** The eight knight offsets, row part and column part, in table order. */
  const MovesV: seq<int> := [-2, -2, -1, -1, 1, 1, 2, 2]
  const MovesH: seq<int> := [-1, 1, -2, 2, -2, 2, -1, 1]

  /** Two squares attack each other (for rooks) when they share a row or a column. */
  predicate Attacks(p: Pos, q: Pos) {
    p.v == q.v || p.h == q.h
  }

  /** The square lies on the n-by-n board. */
  predicate IsInside(p: Pos, n: int) {
    0 <= p.v < n && 0 <= p.h < n
  }

  /** The destination of table entry `d` from `p`. */
  function Move(p: Pos, d: nat): Pos
    requires d < 8
  {
    Pos(p.v + MovesV[d], p.h + MovesH[d])
  }

  /** `q` is one knight move (some table entry) away from `p`. */
  predicate IsHorseMove(p: Pos, q: Pos) {
    exists d :: 0 <= d < 8 && q == Move(p, d)
  }

  function Abs(x: int): nat {
    if x < 0 then -x else x
  }

  /** Left-right mirror image of a square on the n-by-n board. */
  function Mirror(p: Pos, n: int): Pos {
    Pos(p.v, n - 1 - p.h)
  }

  /** Mirror image of every square of a tuple. */
  function MirrorAll(s: seq<Pos>, n: int): seq<Pos> {
    seq(|s|, k requires 0 <= k < |s| => Mirror(s[k], n))
  }

  /** The table entry with the same row offset and the opposite column offset. */
  function Flip(d: nat): (e: nat)
    requires d < 8
    ensures e < 8 && MovesV[e] == MovesV[d] && MovesH[e] == -MovesH[d]
  {
    if d % 2 == 0 then d + 1 else d - 1
  }

  /** The attack relation is symmetric, and every square attacks itself. */
  lemma AttacksSymmetric(p: Pos, q: Pos)
    ensures Attacks(p, q) <==> Attacks(q, p)
    ensures Attacks(p, p)
  {
  }

  /** The table holds exactly the knight moves: one axis changes by 1 and the
      other by 2. */
  lemma HorseMoveShape(p: Pos, q: Pos)
    ensures IsHorseMove(p, q) <==>
      (Abs(q.v - p.v) == 1 && Abs(q.h - p.h) == 2) ||
      (Abs(q.v - p.v) == 2 && Abs(q.h - p.h) == 1)
  {
    var dv, dh := q.v - p.v, q.h - p.h;
    if (Abs(dv) == 1 && Abs(dh) == 2) || (Abs(dv) == 2 && Abs(dh) == 1) {
      var d :=
        if dv == -2 && dh == -1 then 0
        else if dv == -2 && dh == 1 then 1
        else if dv == -1 && dh == -2 then 2
        else if dv == -1 && dh == 2 then 3
        else if dv == 1 && dh == -2 then 4
        else if dv == 1 && dh == 2 then 5
        else if dv == 2 && dh == -1 then 6
        else 7;
      assert q == Move(p, d);
    }
    if IsHorseMove(p, q) {
      var d :| 0 <= d < 8 && q == Move(p, d);
      assert d in {0, 1, 2, 3, 4, 5, 6, 7};
    }
  }

  /** Mirroring commutes with the knight moves (the table is symmetric under a
      change of sign of the column offset), keeps squares on the board and
      keeps the attack relation. */
  lemma MirrorMove(p: Pos, q: Pos, n: int)
    ensures Mirror(Mirror(p, n), n) == p
    ensures IsInside(Mirror(p, n), n) <==> IsInside(p, n)
    ensures Attacks(Mirror(p, n), Mirror(q, n)) <==> Attacks(p, q)
    ensures IsHorseMove(p, q) ==> IsHorseMove(Mirror(p, n), Mirror(q, n))
  {
    if IsHorseMove(p, q) {
      var d :| 0 <= d < 8 && q == Move(p, d);
      assert Mirror(q, n) == Move(Mirror(p, n), Flip(d));
    }
  }

  /** The in-board destinations among the first `d` table entries from `p`,
      in table order. */
  function HorseMovesUpTo(p: Pos, n: int, d: nat): seq<Pos>
    requires d <= 8
  {
    if d == 0 then []
    else HorseMovesUpTo(p, n, d - 1) +
         (if IsInside(Move(p, d - 1), n) then [Move(p, d - 1)] else [])
  }

  /** All in-board knight destinations from `p`, in table order. */
  function HorseMoves(p: Pos, n: int): seq<Pos> {
    HorseMovesUpTo(p, n, 8)
  }

  lemma {:induction false} HorseMovesUpToMembers(p: Pos, n: int, d: nat, q: Pos)
    requires d <= 8
    ensures |HorseMovesUpTo(p, n, d)| <= d
    ensures q in HorseMovesUpTo(p, n, d) <==>
      IsInside(q, n) && exists e :: 0 <= e < d && q == Move(p, e)
  {
    if d > 0 {
      HorseMovesUpToMembers(p, n, d - 1, q);
    }
  }

  lemma {:induction false} HorseMovesNone(p: Pos, n: int, d: nat)
    requires d <= 8
    requires forall e :: 0 <= e < d ==> !IsInside(Move(p, e), n)
    ensures HorseMovesUpTo(p, n, d) == []
  {
    if d > 0 {
      HorseMovesNone(p, n, d - 1);
    }
  }

  /** The visited squares are exactly the in-board knight destinations. */
  lemma HorseMovesMembers(p: Pos, n: int, q: Pos)
    ensures |HorseMoves(p, n)| <= 8
    ensures q in HorseMoves(p, n) <==> IsInside(q, n) && IsHorseMove(p, q)
  {
    HorseMovesUpToMembers(p, n, 8, q);
  }

  /** A square whose coordinates are updated in place. */
  class Position {
    var v: int
    var h: int

    constructor (v: int, h: int)
      ensures this.v == v && this.h == h
    {
      this.v := v;
      this.h := h;
    }

    function At(): Pos
      reads this
    {
      Pos(v, h)
    }

    /** Steps this square through the knight table, recording each in-board
        square it takes, and puts it back where it started. */
    method AllHorseMoves(n: int) returns (visited: seq<Pos>)
      modifies this
      ensures visited == HorseMoves(old(At()), n)
      ensures v == old(v) && h == old(h)
    {
      var v0, h0 := v, h;
      visited := [];
      for d := 0 to 8
        invariant visited == HorseMovesUpTo(Pos(v0, h0), n, d)
      {
        v, h := v0 + MovesV[d], h0 + MovesH[d];
        if IsInside(At(), n) {
          visited := visited + [At()];
        }
      }
      v, h := v0, h0;
    }
  }
}
