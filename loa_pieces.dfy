/**
 * The small value types Board.java and loa/MachinePlayer.java work with:
 * pieces, squares of the 8x8 board, the eight directions and moves.
 * Piece.java, Square.java and Move.java are not part of this model; the
 * definitions below are the behaviour Board.java relies on.
 */
module LoaPieces {
  import opened Wrappers

  const BOARD_SIZE := 8

  /** White piece, black piece, empty square. */
  datatype Piece = WP | BP | EMP

  /** The other side; the empty square has no opposite. */
  function Opposite(p: Piece): (q: Piece)
    requires p != EMP
    ensures q != EMP && q != p
  {
    if p == WP then BP else WP
  }

  lemma OppositeTwice(p: Piece)
    requires p != EMP
    ensures Opposite(Opposite(p)) == p
  {
  }

  /** A square designated by column and row, each 0..7 when on the board. */
  datatype Square = Sq(col: int, row: int)
  {
    predicate Valid() {
      0 <= col < BOARD_SIZE && 0 <= row < BOARD_SIZE
    }

    /** Position of the square in the board array (row-major). */
    function Index(): (i: int)
      requires Valid()
      ensures 0 <= i < BOARD_SIZE * BOARD_SIZE
    {
      BOARD_SIZE * row + col
    }
  }

  lemma IndexInjective(s: Square, t: Square)
    requires s.Valid() && t.Valid() && s.Index() == t.Index()
    ensures s == t
  {
  }

  /** Entry K of ALL_SQUARES: the squares in index order. */
  function SquareAt(k: int): (s: Square)
    requires 0 <= k < BOARD_SIZE * BOARD_SIZE
    ensures s.Valid() && s.Index() == k
  {
    Sq(k % BOARD_SIZE, k / BOARD_SIZE)
  }

  /** Every square of the board. */
  ghost const AllSquares: set<Square> := set c, r | 0 <= c < BOARD_SIZE && 0 <= r < BOARD_SIZE :: Sq(c, r)

  lemma InAllSquares(s: Square)
    ensures s in AllSquares <==> s.Valid()
  {
    if s.Valid() {
      assert s == Sq(s.col, s.row);
    }
  }

  /** Column offset of K steps in direction DIR (0 = north, then clockwise). */
  function DCol(dir: int, k: int): int {
    if dir == 0 || dir == 4 then 0
    else if 1 <= dir <= 3 then k
    else -k
  }

  /** Row offset of K steps in direction DIR. */
  function DRow(dir: int, k: int): int {
    if dir == 2 || dir == 6 then 0
    else if dir == 0 || dir == 1 || dir == 7 then k
    else -k
  }

  /** moveDest: the square K steps from S in direction DIR, null when off the board. */
  function MoveDest(s: Square, dir: int, k: int): (t: Option<Square>)
    ensures t.Some? ==> t.value.Valid()
  {
    var t := Sq(s.col + DCol(dir, k), s.row + DRow(dir, k));
    if t.Valid() then Some(t) else None
  }

  function Abs(x: int): nat {
    if x < 0 then -x else x
  }

  /** direction: the direction 0..7 leading from S to T, or -1 when T is not on a line through S. */
  function Direction(s: Square, t: Square): (d: int)
    ensures -1 <= d < 8
    ensures d >= 0 ==> s != t
  {
    var dc, dr := t.col - s.col, t.row - s.row;
    if dc == 0 && dr > 0 then 0
    else if dc > 0 && dr == dc then 1
    else if dc > 0 && dr == 0 then 2
    else if dc > 0 && dr == -dc then 3
    else if dc == 0 && dr < 0 then 4
    else if dc < 0 && dr == dc then 5
    else if dc < 0 && dr == 0 then 6
    else if dc < 0 && dr == -dc then 7
    else -1
  }

  /** distance: the number of king steps between S and T. */
  function Distance(s: Square, t: Square): nat {
    var dc, dr := Abs(t.col - s.col), Abs(t.row - s.row);
    if dc < dr then dr else dc
  }

  /** Walking the distance in the direction from S lands on T. */
  lemma DestOfDirection(s: Square, t: Square)
    requires Direction(s, t) >= 0
    ensures Distance(s, t) > 0
    ensures Sq(s.col + DCol(Direction(s, t), Distance(s, t)), s.row + DRow(Direction(s, t), Distance(s, t))) == t
  {
  }

  /** A move of the piece on FROM to TO (never a capture-flagged move here). */
  datatype Move = Move(from: Square, to: Square)
  {
    function Length(): nat {
      Distance(from, to)
    }
  }

  /** Move.mv: a move between two board squares on a common line, null otherwise. */
  function Mv(from: Square, to: Square): (m: Option<Move>)
    ensures m.Some? <==> from.Valid() && to.Valid() && Direction(from, to) >= 0
    ensures m.Some? ==> m.value.from == from && m.value.to == to && m.value.Length() > 0
  {
    if from.Valid() && to.Valid() && Direction(from, to) >= 0 then
      DestOfDirection(from, to);
      Some(Move(from, to))
    else None
  }

  /** Every square of the list is on the board. */
  predicate ValidSquares(ns: seq<Square>) {
    ns == [] || (ns[0].Valid() && ValidSquares(ns[1..]))
  }

  /** The non-null entries of XS, in order. */
  function Somes(xs: seq<Option<Square>>): (ns: seq<Square>)
    ensures (forall k :: 0 <= k < |xs| && xs[k].Some? ==> xs[k].value.Valid()) ==> ValidSquares(ns)
  {
    if xs == [] then []
    else
      var rest := Somes(xs[1..]);
      if xs[0].Some? then
        assert ([xs[0].value] + rest)[1..] == rest;
        [xs[0].value] + rest
      else rest
  }

  lemma {:induction false} SomesMember(xs: seq<Option<Square>>, t: Square)
    ensures t in Somes(xs) <==> Some(t) in xs
  {
    if xs != [] {
      SomesMember(xs[1..], t);
      assert xs == [xs[0]] + xs[1..];
    }
  }

  lemma {:induction false} SomesSnoc(xs: seq<Option<Square>>, x: Option<Square>)
    ensures Somes(xs + [x]) == Somes(xs) + Listed(x)
  {
    if xs != [] {
      assert (xs + [x])[1..] == xs[1..] + [x];
      SomesSnoc(xs[1..], x);
    }
  }

  /** The square, if any, as a list of zero or one squares. */
  function Listed(t: Option<Square>): seq<Square> {
    if t.Some? then [t.value] else []
  }

  /** The neighbours of S that are on the board, in direction order 0..7. */
  function Neighbors(s: Square): (ns: seq<Square>)
    ensures ValidSquares(ns)
  {
    Somes(seq(8, dir => MoveDest(s, dir, 1)))
  }

  /** Two distinct squares that touch, orthogonally or diagonally. */
  predicate Adjacent(s: Square, t: Square) {
    s != t && Abs(s.col - t.col) <= 1 && Abs(s.row - t.row) <= 1
  }

  /** The neighbour list holds exactly the adjacent board squares. */
  lemma NeighborsAdjacent(s: Square, t: Square)
    ensures t in Neighbors(s) <==> t.Valid() && Adjacent(s, t)
  {
    var dests := seq(8, dir => MoveDest(s, dir, 1));
    SomesMember(dests, t);
    if Some(t) in dests {
      var dir :| 0 <= dir < 8 && dests[dir] == Some(t);
      StepOne(s, t, dir);
    }
    if t.Valid() && Adjacent(s, t) {
      StepOne(s, t, Direction(s, t));
      assert dests[Direction(s, t)] == Some(t);
    }
  }

  /** One step in direction DIR reaches exactly the adjacent square in that direction. */
  lemma StepOne(s: Square, t: Square, dir: int)
    requires 0 <= dir < 8
    ensures MoveDest(s, dir, 1) == Some(t) <==> t.Valid() && Adjacent(s, t) && Direction(s, t) == dir
  {
    var dc, dr := t.col - s.col, t.row - s.row;
    if MoveDest(s, dir, 1) == Some(t) {
      assert dc == DCol(dir, 1) && dr == DRow(dir, 1);
    }
    if t.Valid() && Adjacent(s, t) && Direction(s, t) == dir {
      assert -1 <= dc <= 1 && -1 <= dr <= 1;
      assert dc == DCol(dir, 1) && dr == DRow(dir, 1);
    }
  }
}
