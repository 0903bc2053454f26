/** Mine sweeper: the recursive reveal of empty ground. */
module Flood {

  /** Column and row. */
  type Pos = (int, int)

  datatype Tile = Tile(mine: bool, flagged: bool, revealed: bool, count: nat)

  type Board = map<Pos, Tile>

  function Covered(b: Board): set<Pos> {
    set p | p in b && !b[p].revealed && !b[p].flagged
  }

  predicate Adjacent(p: Pos, q: Pos) {
    p != q && -1 <= p.0 - q.0 <= 1 && -1 <= p.1 - q.1 <= 1
  }

  /** The mines around p. */
  function MinesAround(b: Board, p: Pos): set<Pos> {
    set q | q in b && b[q].mine && Adjacent(p, q)
  }

  predicate Mined(b: Board, q: Pos) { q in b && b[q].mine }

  /** Every step of the path goes to a covered neighbour of a tile without mines around it. */
  ghost predicate Path(b: Board, ps: seq<Pos>) {
    && ps != []
    && (forall i :: 0 <= i < |ps| ==> ps[i] in Covered(b))
    && forall i :: 0 <= i < |ps| - 1 ==> Adjacent(ps[i], ps[i + 1]) && MinesAround(b, ps[i]) == {}
  }

  ghost predicate PathFrom(b: Board, ps: seq<Pos>, p: Pos, q: Pos) {
    Path(b, ps) && ps[0] == p && ps[|ps| - 1] == q
  }

  /** q is connected to p by covered tiles, all empty but perhaps q. */
  ghost predicate Reach(b: Board, p: Pos, q: Pos) {
    exists ps :: PathFrom(b, ps, p, q)
  }

  predicate Newly(b0: Board, b1: Board, q: Pos) {
    q in Covered(b0) && q !in Covered(b1)
  }

  /** Tile q of b1 is as in b0, or newly revealed: it was no mine, shows the number of mines
      around it and is connected to p. */
  ghost predicate TileOk(b0: Board, b1: Board, p: Pos, q: Pos)
    requires q in b0 && q in b1
  {
    if Newly(b0, b1, q) then
      && !b0[q].mine && b1[q] == Tile(false, false, true, |MinesAround(b0, q)|)
      && Reach(b0, p, q)
    else b1[q] == b0[q]
  }

  /** No neighbour of the newly revealed empty tile q is still covered. */
  ghost predicate Closed(b0: Board, b1: Board, q: Pos) {
    Newly(b0, b1, q) && MinesAround(b0, q) == {} ==>
      forall n :: n in b0 && Adjacent(q, n) ==> n !in Covered(b1)
  }

  /** What touching tile p does to the board. */
  ghost predicate Flooded(b0: Board, b1: Board, p: Pos) {
    && b1.Keys == b0.Keys
    && (forall q :: q in b0 ==> TileOk(b0, b1, p, q))
    && (forall q :: Closed(b0, b1, q))
    && p !in Covered(b1)
  }

  /** Touching p reveals exactly the tiles connected to it, whatever the order of the visits. */
  lemma RevealIsExact(b0: Board, b1: Board, p: Pos)
    requires Flooded(b0, b1, p) && p in Covered(b0)
    ensures forall q :: Newly(b0, b1, q) <==> Reach(b0, p, q)
  {
    forall q ensures Newly(b0, b1, q) <==> Reach(b0, p, q) {
      if Newly(b0, b1, q) { assert TileOk(b0, b1, p, q); }
      if Reach(b0, p, q) {
        var ps :| PathFrom(b0, ps, p, q);
        PathRevealed(b0, b1, p, ps, |ps| - 1);
      }
    }
  }

  lemma {:induction false} PathRevealed(b0: Board, b1: Board, p: Pos, ps: seq<Pos>, i: nat)
    requires Flooded(b0, b1, p) && Path(b0, ps) && ps[0] == p && i < |ps|
    ensures Newly(b0, b1, ps[i])
    decreases i
  {
    assert ps[i] in Covered(b0);
    if i > 0 {
      PathRevealed(b0, b1, p, ps, i - 1);
      assert Adjacent(ps[i - 1], ps[i - 1 + 1]) && MinesAround(b0, ps[i - 1]) == {};
      assert Closed(b0, b1, ps[i - 1]);
    }
  }

  /** A reveal never touches a mine, so what it stores is the true neighbour count for good. */
  lemma MinesStay(b0: Board, b1: Board, p: Pos)
    requires Flooded(b0, b1, p)
    ensures forall q :: Mined(b1, q) <==> Mined(b0, q)
    ensures forall q :: MinesAround(b1, q) == MinesAround(b0, q)
  {
    forall q ensures Mined(b1, q) <==> Mined(b0, q) {
      if q in b0 { assert TileOk(b0, b1, p, q); }
    }
    SameMines(b0, b1);
  }

  lemma SameMines(b0: Board, b1: Board)
    requires forall q :: Mined(b1, q) <==> Mined(b0, q)
    ensures forall q :: MinesAround(b1, q) == MinesAround(b0, q)
  {
    forall q ensures MinesAround(b1, q) == MinesAround(b0, q) {
      forall n ensures n in MinesAround(b1, q) <==> n in MinesAround(b0, q) {
        assert Mined(b1, n) <==> Mined(b0, n);
      }
    }
  }

  // ---------------------------------------------------------------- one visit after another

  /** The state in the middle of the visit of the empty tile p, of whose neighbours those in
      `done` have been touched. */
  ghost predicate Partial(b0: Board, b: Board, p: Pos, done: set<Pos>) {
    && b.Keys == b0.Keys
    && (forall q :: q in b0 ==> TileOk(b0, b, p, q))
    && (forall q :: q != p ==> Closed(b0, b, q))
    && p !in Covered(b)
    && forall n :: n in done ==> n !in Covered(b)
  }

  lemma CoveredShrinks(b0: Board, b: Board, p: Pos)
    requires b.Keys == b0.Keys && forall q :: q in b0 ==> TileOk(b0, b, p, q)
    ensures Covered(b) <= Covered(b0)
    ensures forall q :: Mined(b, q) <==> Mined(b0, q)
  {
    forall q | q in b0 ensures (q in Covered(b) ==> q in Covered(b0)) && (b[q].mine <==> b0[q].mine) {
      assert TileOk(b0, b, p, q);
    }
  }

  /** A tile connected to a neighbour of the empty tile p later in the visit was connected to p
      at its start. */
  lemma ReachThrough(b0: Board, b: Board, p: Pos, n: Pos, q: Pos)
    requires Covered(b) <= Covered(b0) && (forall r :: Mined(b, r) <==> Mined(b0, r))
    requires p in Covered(b0) && MinesAround(b0, p) == {} && Adjacent(p, n)
    requires Reach(b, n, q)
    ensures Reach(b0, p, q)
  {
    SameMines(b0, b);
    var ps :| PathFrom(b, ps, n, q);
    var l := [p] + ps;
    forall i | 0 <= i < |l| - 1 ensures Adjacent(l[i], l[i + 1]) && MinesAround(b0, l[i]) == {} {
      if i > 0 { assert Adjacent(ps[i - 1], ps[i - 1 + 1]) && MinesAround(b, ps[i - 1]) == {}; }
    }
    forall i | 0 <= i < |l| ensures l[i] in Covered(b0) {
      if i > 0 { assert ps[i - 1] in Covered(b); }
    }
    assert PathFrom(b0, l, p, q);
  }

  /** One more neighbour is touched. */
  lemma Extend(b0: Board, b: Board, b1: Board, p: Pos, done: set<Pos>, n: Pos)
    requires p in Covered(b0) && MinesAround(b0, p) == {} && Adjacent(p, n)
    requires Partial(b0, b, p, done) && Flooded(b, b1, n)
    ensures Partial(b0, b1, p, done + {n})
  {
    CoveredShrinks(b0, b, p);
    CoveredShrinks(b, b1, n);
    SameMines(b0, b);
    forall q | q in b0 ensures TileOk(b0, b1, p, q) {
      assert TileOk(b0, b, p, q) && TileOk(b, b1, n, q);
      if Newly(b, b1, q) { ReachThrough(b0, b, p, n, q); }
    }
    forall q | q != p ensures Closed(b0, b1, q) {
      assert Closed(b0, b, q) && Closed(b, b1, q);
    }
  }

  /** The eight neighbouring positions, in the order of the visits. */
  function Ring(p: Pos): (l: seq<Pos>)
    ensures |l| == 8
  {
    [(p.0 - 1, p.1), (p.0 - 1, p.1 - 1), (p.0 - 1, p.1 + 1), (p.0, p.1 - 1),
     (p.0, p.1 + 1), (p.0 + 1, p.1 - 1), (p.0 + 1, p.1), (p.0 + 1, p.1 + 1)]
  }

  /** Where in the ring a neighbour stands. */
  function RingIndex(p: Pos, n: Pos): (i: nat)
    requires Adjacent(p, n)
    ensures i < 8 && Ring(p)[i] == n
  {
    assert n == (n.0, n.1);
    if n.0 < p.0 then (if n.1 == p.1 then 0 else if n.1 < p.1 then 1 else 2)
    else if n.0 == p.0 then (if n.1 < p.1 then 3 else 4)
    else if n.1 < p.1 then 5 else if n.1 == p.1 then 6 else 7
  }

  lemma RingAdjacent(p: Pos, i: nat)
    requires i < 8
    ensures Adjacent(p, Ring(p)[i])
  {
  }

  lemma RingInside(x: int, y: int, done: set<Pos>)
    requires {(x - 1, y), (x - 1, y - 1), (x - 1, y + 1), (x, y - 1)} <= done
    requires {(x, y + 1), (x + 1, y - 1), (x + 1, y), (x + 1, y + 1)} <= done
    ensures forall i :: 0 <= i < 8 ==> Ring((x, y))[i] in done
  {
    assert (x - 1, y) in done && (x - 1, y - 1) in done && (x - 1, y + 1) in done && (x, y - 1) in done;
    assert (x, y + 1) in done && (x + 1, y - 1) in done && (x + 1, y) in done && (x + 1, y + 1) in done;
  }

  /** The visit is over once all neighbours of p have been touched. */
  lemma VisitComplete(b0: Board, b: Board, p: Pos, done: set<Pos>)
    requires Partial(b0, b, p, done) && forall i :: 0 <= i < 8 ==> Ring(p)[i] in done
    ensures Flooded(b0, b, p)
  {
    forall n | Adjacent(p, n) ensures n in done { assert Ring(p)[RingIndex(p, n)] in done; }
    assert Closed(b0, b, p);
  }

  /** The visit starts by revealing p with its count. */
  lemma VisitStarts(b0: Board, p: Pos)
    requires p in Covered(b0) && !b0[p].mine
    ensures
      var b := b0[p := Tile(false, false, true, |MinesAround(b0, p)|)];
      Partial(b0, b, p, {}) && (MinesAround(b0, p) != {} ==> Flooded(b0, b, p))
  {
    var b := b0[p := Tile(false, false, true, |MinesAround(b0, p)|)];
    assert PathFrom(b0, [p], p, p);
    forall q | q in b0 ensures TileOk(b0, b, p, q) { }
    assert Closed(b0, b, p) || MinesAround(b0, p) == {};
  }

  /** One neighbour more in the count. */
  function Mine01(b: Board, q: Pos): nat {
    if Mined(b, q) then 1 else 0
  }

  lemma CardAdd(s: set<Pos>, q: Pos, b: Board)
    requires q !in s
    ensures |s + (if Mined(b, q) then {q} else {})| == |s| + Mine01(b, q)
  {
  }

  /** The number of mines around p is the sum over the eight neighbours. */
  lemma CountBySum(b: Board, p: Pos)
    ensures
      var (x, y) := p;
      |MinesAround(b, p)| ==
        Mine01(b, (x - 1, y)) + Mine01(b, (x - 1, y - 1)) + Mine01(b, (x - 1, y + 1)) + Mine01(b, (x, y - 1))
        + Mine01(b, (x, y + 1)) + Mine01(b, (x + 1, y - 1)) + Mine01(b, (x + 1, y)) + Mine01(b, (x + 1, y + 1))
  {
    var l := Ring(p);
    forall i, j | 0 <= i < j < 8 ensures l[i] != l[j] { RingApart(p, i, j); }
    CardUpto(b, l, 8);
    forall n ensures n in MinesAround(b, p) <==> n in Upto(b, l, 8) {
      if n in MinesAround(b, p) { assert l[RingIndex(p, n)] == n; }
      if n in Upto(b, l, 8) { var i :| 0 <= i < 8 && l[i] == n; RingAdjacent(p, i); }
    }
    assert MinesAround(b, p) == Upto(b, l, 8);
    SumUnroll(b, l);
  }

  lemma RingApart(p: Pos, i: nat, j: nat)
    requires i < j < 8
    ensures Ring(p)[i] != Ring(p)[j]
  {
    RingAdjacent(p, i);
    RingAdjacent(p, j);
    assert RingIndex(p, Ring(p)[i]) == i && RingIndex(p, Ring(p)[j]) == j;
  }

  function Upto(b: Board, l: seq<Pos>, n: nat): set<Pos>
    requires n <= |l|
  {
    set i | 0 <= i < n && Mined(b, l[i]) :: l[i]
  }

  function Sum(b: Board, l: seq<Pos>, n: nat): nat
    requires n <= |l|
  {
    if n == 0 then 0 else Sum(b, l, n - 1) + Mine01(b, l[n - 1])
  }

  lemma {:induction false} CardUpto(b: Board, l: seq<Pos>, n: nat)
    requires n <= |l| && forall i, j :: 0 <= i < j < |l| ==> l[i] != l[j]
    ensures |Upto(b, l, n)| == Sum(b, l, n)
  {
    if n > 0 {
      CardUpto(b, l, n - 1);
      var q := l[n - 1];
      CardAdd(Upto(b, l, n - 1), q, b);
      assert Upto(b, l, n) == Upto(b, l, n - 1) + (if Mined(b, q) then {q} else {});
    } else {
      assert Upto(b, l, 0) == {};
    }
  }

  lemma SumUnroll(b: Board, l: seq<Pos>)
    requires |l| == 8
    ensures Sum(b, l, 8) == Mine01(b, l[0]) + Mine01(b, l[1]) + Mine01(b, l[2]) + Mine01(b, l[3])
                          + Mine01(b, l[4]) + Mine01(b, l[5]) + Mine01(b, l[6]) + Mine01(b, l[7])
  {
    assert Sum(b, l, 4) == Sum(b, l, 2) + Mine01(b, l[2]) + Mine01(b, l[3]) by {
      assert Sum(b, l, 3) == Sum(b, l, 2) + Mine01(b, l[2]);
    }
    assert Sum(b, l, 6) == Sum(b, l, 4) + Mine01(b, l[4]) + Mine01(b, l[5]) by {
      assert Sum(b, l, 5) == Sum(b, l, 4) + Mine01(b, l[4]);
    }
    assert Sum(b, l, 2) == Mine01(b, l[0]) + Mine01(b, l[1]) by { assert Sum(b, l, 1) == Mine01(b, l[0]); }
    assert Sum(b, l, 7) == Sum(b, l, 6) + Mine01(b, l[6]);
  }

  // ---------------------------------------------------------------- the play field

  class PlayField {
    const cells: array2<Tile>
    ghost var board: Board

    ghost predicate Valid()
      reads this, cells
    {
      forall x, y :: if 0 <= y < cells.Length0 && 0 <= x < cells.Length1
                     then (x, y) in board && board[(x, y)] == cells[y, x]
                     else (x, y) !in board
    }

    predicate OnField(x: int, y: int) {
      0 <= y < cells.Length0 && 0 <= x < cells.Length1
    }

    method Put(x: int, y: int, t: Tile)
      requires Valid() && OnField(x, y)
      modifies cells, this`board
      ensures Valid() && board == old(board)[(x, y) := t]
    {
      cells[y, x] := t;
      board := board[(x, y) := t];
    }

    /** The eight tests of touch_tile that count the mines around a tile. */
    method CountMines(px: int, py: int) returns (n: nat)
      requires Valid() && OnField(px, py)
      ensures n == |MinesAround(board, (px, py))|
    {
      n := 0;
      var w, h := cells.Length1, cells.Length0;
      ghost var b, x, y := board, px, py;
      CountBySum(b, (x, y));
      if px > 0 && cells[py, px - 1].mine { n := n + 1; }
      ghost var t := Mine01(b, (x - 1, y));
      assert n == t;
      if px > 0 && py > 0 && cells[py - 1, px - 1].mine { n := n + 1; }
      t := t + Mine01(b, (x - 1, y - 1));
      assert n == t;
      if px > 0 && py < h - 1 && cells[py + 1, px - 1].mine { n := n + 1; }
      t := t + Mine01(b, (x - 1, y + 1));
      assert n == t;
      if py > 0 && cells[py - 1, px].mine { n := n + 1; }
      t := t + Mine01(b, (x, y - 1));
      assert n == t;
      if py < h - 1 && cells[py + 1, px].mine { n := n + 1; }
      t := t + Mine01(b, (x, y + 1));
      assert n == t;
      if px < w - 1 && py > 0 && cells[py - 1, px + 1].mine { n := n + 1; }
      t := t + Mine01(b, (x + 1, y - 1));
      assert n == t;
      if px < w - 1 && cells[py, px + 1].mine { n := n + 1; }
      t := t + Mine01(b, (x + 1, y));
      assert n == t;
      if px < w - 1 && py < h - 1 && cells[py + 1, px + 1].mine { n := n + 1; }
      t := t + Mine01(b, (x + 1, y + 1));
      assert n == t;
    }

    /** touch_tile. A covered tile that is touched must hold no mine. */
    method TouchTile(px: int, py: int)
      requires Valid() && OnField(px, py)
      requires (px, py) in Covered(board) ==> !board[(px, py)].mine
      modifies cells, this`board
      ensures Valid() && Flooded(old(board), board, (px, py))
      decreases |Covered(board)|, 0
    {
      ghost var b0, p := board, (px, py);
      if cells[py, px].revealed || cells[py, px].flagged {
        forall q | q in b0 ensures TileOk(b0, b0, p, q) { }
        return;
      }
      Put(px, py, Tile(false, false, true, 0));
      var n := CountMines(px, py);
      forall q ensures Mined(board, q) <==> Mined(b0, q) { }
      SameMines(b0, board);
      Put(px, py, cells[py, px].(count := n));
      assert board == b0[p := Tile(false, false, true, n)];
      VisitStarts(b0, p);
      if n == 0 {
        assert MinesAround(b0, p) == {};
        assert Covered(board) == Covered(b0) - {p};
        TouchAround(px, py, b0);
      }
    }

    /** The eight recursive calls of touch_tile for an empty tile. */
    method TouchAround(px: int, py: int, ghost b0: Board)
      requires Valid() && OnField(px, py) && Partial(b0, board, (px, py), {})
      requires (px, py) in Covered(b0) && MinesAround(b0, (px, py)) == {}
      modifies cells, this`board
      ensures Valid() && Flooded(b0, board, (px, py))
      decreases |Covered(board)|, 4
    {
      ghost var done := TouchFirstFour(px, py, b0);
      done := TouchLastFour(px, py, b0, done);
      RingInside(px, py, done);
      VisitComplete(b0, board, (px, py), done);
    }

    method TouchFirstFour(px: int, py: int, ghost b0: Board) returns (ghost done: set<Pos>)
      requires Valid() && OnField(px, py) && Partial(b0, board, (px, py), {})
      requires (px, py) in Covered(b0) && MinesAround(b0, (px, py)) == {}
      modifies cells, this`board
      ensures Valid() && Partial(b0, board, (px, py), done)
      ensures {(px - 1, py), (px - 1, py - 1), (px - 1, py + 1), (px, py - 1)} <= done
      ensures |Covered(board)| <= |Covered(old(board))|
      decreases |Covered(board)|, 3
    {
      done := TouchTwo(px, py, (px - 1, py), (px - 1, py - 1), b0, {});
      done := TouchTwo(px, py, (px - 1, py + 1), (px, py - 1), b0, done);
    }

    method TouchLastFour(px: int, py: int, ghost b0: Board, ghost done0: set<Pos>) returns (ghost done: set<Pos>)
      requires Valid() && OnField(px, py) && Partial(b0, board, (px, py), done0)
      requires (px, py) in Covered(b0) && MinesAround(b0, (px, py)) == {}
      modifies cells, this`board
      ensures Valid() && Partial(b0, board, (px, py), done) && done0 <= done
      ensures {(px, py + 1), (px + 1, py - 1), (px + 1, py), (px + 1, py + 1)} <= done
      decreases |Covered(board)|, 3
    {
      done := TouchTwo(px, py, (px, py + 1), (px + 1, py - 1), b0, done0);
      done := TouchTwo(px, py, (px + 1, py), (px + 1, py + 1), b0, done);
    }

    /** Two of the calls. */
    method TouchTwo(px: int, py: int, n1: Pos, n2: Pos, ghost b0: Board, ghost done0: set<Pos>)
        returns (ghost done: set<Pos>)
      requires Valid() && OnField(px, py) && Partial(b0, board, (px, py), done0)
      requires (px, py) in Covered(b0) && MinesAround(b0, (px, py)) == {}
      requires Adjacent((px, py), n1) && Adjacent((px, py), n2)
      modifies cells, this`board
      ensures Valid() && Partial(b0, board, (px, py), done) && done == done0 + {n1, n2}
      ensures |Covered(board)| <= |Covered(old(board))|
      decreases |Covered(board)|, 2
    {
      done := TouchNeighbour(px, py, n1.0, n1.1, b0, done0);
      done := TouchNeighbour(px, py, n2.0, n2.1, b0, done);
      assert done == done0 + {n1, n2};
    }

    /** Touch the neighbour (x, y) of the empty tile (px, py), if it is on the field. */
    method TouchNeighbour(px: int, py: int, x: int, y: int, ghost b0: Board, ghost done: set<Pos>)
      returns (ghost done1: set<Pos>)
      requires Valid() && OnField(px, py) && Partial(b0, board, (px, py), done)
      requires (px, py) in Covered(b0) && MinesAround(b0, (px, py)) == {} && Adjacent((px, py), (x, y))
      modifies cells, this`board
      ensures Valid() && done1 == done + {(x, y)} && Partial(b0, board, (px, py), done1)
      ensures |Covered(board)| <= |Covered(old(board))|
      decreases |Covered(board)|, 1
    {
      ghost var p, n := (px, py), (x, y);
      ghost var b := board;
      done1 := done + {n};
      CoveredShrinks(b0, b, p);
      if OnField(x, y) {
        assert n in MinesAround(b0, p) <==> Mined(b0, n);
        assert Mined(b, n) <==> Mined(b0, n);
        TouchTile(x, y);
        Extend(b0, b, board, p, done, n);
        CoveredShrinks(b, board, n);
        SubsetCard(Covered(board), Covered(b));
      }
    }
  }

  lemma SubsetCard(a: set<Pos>, b: set<Pos>)
    requires a <= b
    ensures |a| <= |b|
  {
    assert b == a + (b - a);
  }
}
