/**
 * The rules of Lines of Action as Board.java applies them, stated on
 * positions (the 64 cells and the side to move): the count of pieces on
 * a line, the blocking rule, move legality, the list of legal moves in
 * the order Board.legalMoves builds it, and making and unmaking a move.
 */
module LoaRules {
  import opened Wrappers
  import opened SetCards
  import opened LoaPieces

  /** The cells of a board (index = 8 * row + col) and the side to move. */
  datatype Position = Position(grid: seq<Piece>, turn: Piece)
  {
    predicate Valid() {
      |grid| == BOARD_SIZE * BOARD_SIZE && turn != EMP
    }

    function Get(s: Square): Piece
      requires Valid() && s.Valid()
    {
      grid[s.Index()]
    }
  }

  /** The cells that hold SIDE's pieces. */
  ghost function Pieces(g: seq<Piece>, side: Piece): set<Square>
    requires |g| == BOARD_SIZE * BOARD_SIZE
  {
    set s | s in AllSquares && g[s.Index()] == side
  }

  /* ---------------- Lines ---------------- */

  /** The four lines through a square: column, row, NE-SW and NW-SE diagonals. */
  datatype Axis = Column | Row | Rising | Falling

  /** piecesAlongDir's pairing of directions: 0/4 column, 2/6 row, 1/5 NE-SW, 3/7 NW-SE. */
  function AxisOf(dir: int): Axis
    requires 0 <= dir < 8
  {
    if dir == 0 || dir == 4 then Column
    else if dir == 2 || dir == 6 then Row
    else if dir == 1 || dir == 5 then Rising
    else Falling
  }

  /**
   * The point of the line through S along AXIS whose row (on a column) or
   * column (otherwise) is T.  Every square of the line is such a point for
   * exactly one T.
   */
  function LinePoint(s: Square, axis: Axis, t: int): Square {
    match axis
    case Column => Sq(s.col, t)
    case Row => Sq(t, s.row)
    case Rising => Sq(t, s.row + (t - s.col))
    case Falling => Sq(t, s.row - (t - s.col))
  }

  /** 1 when line point T is on the board and occupied, else 0. */
  function OccupiedAt(g: seq<Piece>, s: Square, axis: Axis, t: int): nat
    requires |g| == BOARD_SIZE * BOARD_SIZE
  {
    var q := LinePoint(s, axis, t);
    if q.Valid() && g[q.Index()] != EMP then 1 else 0
  }

  /** The occupied line points with T in [LO, HI). */
  function CountLine(g: seq<Piece>, s: Square, axis: Axis, lo: int, hi: int): (n: nat)
    requires |g| == BOARD_SIZE * BOARD_SIZE
    ensures n <= if lo <= hi then hi - lo else 0
    decreases g, hi - lo
  {
    if hi <= lo then 0 else CountLine(g, s, axis, lo, hi - 1) + OccupiedAt(g, s, axis, hi - 1)
  }

  /** The number of pieces on the whole line through S along AXIS. */
  function LineCount(g: seq<Piece>, s: Square, axis: Axis): (n: nat)
    requires |g| == BOARD_SIZE * BOARD_SIZE
    ensures n <= BOARD_SIZE
  {
    CountLine(g, s, axis, 0, BOARD_SIZE)
  }

  lemma {:induction false} CountLineSplit(g: seq<Piece>, s: Square, axis: Axis, lo: int, mid: int, hi: int)
    requires |g| == BOARD_SIZE * BOARD_SIZE && lo <= mid <= hi
    ensures CountLine(g, s, axis, lo, hi) == CountLine(g, s, axis, lo, mid) + CountLine(g, s, axis, mid, hi)
    decreases hi - mid
  {
    if mid < hi {
      CountLineSplit(g, s, axis, lo, mid, hi - 1);
    }
  }

  /** Extending the range by its next point T adds that point's piece, if any. */
  lemma CountStepUp(g: seq<Piece>, s: Square, axis: Axis, lo: int, t: int, q: Square)
    requires |g| == BOARD_SIZE * BOARD_SIZE && lo <= t && q.Valid() && LinePoint(s, axis, t) == q
    ensures CountLine(g, s, axis, lo, t + 1) == CountLine(g, s, axis, lo, t) + if g[q.Index()] != EMP then 1 else 0
  {
  }

  /** Extending the range down to point T adds that point's piece, if any. */
  lemma CountStepDown(g: seq<Piece>, s: Square, axis: Axis, t: int, hi: int, q: Square)
    requires |g| == BOARD_SIZE * BOARD_SIZE && t < hi && q.Valid() && LinePoint(s, axis, t) == q
    ensures CountLine(g, s, axis, t, hi) == CountLine(g, s, axis, t + 1, hi) + if g[q.Index()] != EMP then 1 else 0
  {
    CountLineSplit(g, s, axis, t, t + 1, hi);
  }

  /** A range of line points that are all off the board counts nothing. */
  lemma {:induction false} CountLineOff(g: seq<Piece>, s: Square, axis: Axis, lo: int, hi: int)
    requires |g| == BOARD_SIZE * BOARD_SIZE
    requires forall t :: lo <= t < hi ==> !LinePoint(s, axis, t).Valid()
    ensures CountLine(g, s, axis, lo, hi) == 0
    decreases hi - lo
  {
    if lo < hi {
      CountLineOff(g, s, axis, lo, hi - 1);
    }
  }

  /** The parameters in [LO, HI) whose line point is an occupied board square. */
  ghost function OccupiedSet(g: seq<Piece>, s: Square, axis: Axis, lo: int, hi: int): set<int>
    requires |g| == BOARD_SIZE * BOARD_SIZE
  {
    set t | lo <= t < hi && OccupiedAt(g, s, axis, t) == 1
  }

  lemma OccupiedSetStep(g: seq<Piece>, s: Square, axis: Axis, lo: int, hi: int)
    requires |g| == BOARD_SIZE * BOARD_SIZE && lo < hi
    ensures OccupiedSet(g, s, axis, lo, hi) ==
      OccupiedSet(g, s, axis, lo, hi - 1) + if OccupiedAt(g, s, axis, hi - 1) == 1 then {hi - 1} else {}
  {
  }

  /** The line count is the number of occupied squares of the line. */
  lemma {:induction false} CountLineIsCard(g: seq<Piece>, s: Square, axis: Axis, lo: int, hi: int)
    requires |g| == BOARD_SIZE * BOARD_SIZE
    ensures CountLine(g, s, axis, lo, hi) == |OccupiedSet(g, s, axis, lo, hi)|
    decreases hi - lo
  {
    if lo < hi {
      CountLineIsCard(g, s, axis, lo, hi - 1);
      OccupiedSetStep(g, s, axis, lo, hi);
    } else {
      assert OccupiedSet(g, s, axis, lo, hi) == {};
    }
  }

  /** Distinct parameters name distinct squares, so the count counts squares. */
  lemma LinePointInjective(s: Square, axis: Axis, t: int, u: int)
    requires LinePoint(s, axis, t) == LinePoint(s, axis, u)
    ensures t == u
  {
  }

  /** A square lies on the line through S along AXIS exactly when it is one of its points. */
  predicate OnLine(s: Square, axis: Axis, q: Square) {
    match axis
    case Column => q.col == s.col
    case Row => q.row == s.row
    case Rising => q.col - q.row == s.col - s.row
    case Falling => q.col + q.row == s.col + s.row
  }

  lemma LinePointOnLine(s: Square, axis: Axis, q: Square)
    ensures OnLine(s, axis, q) <==> q == LinePoint(s, axis, if axis == Column then q.row else q.col)
  {
  }

  /** Squares on one line share its count. */
  lemma {:induction false} CountLineSameLine(g: seq<Piece>, s: Square, q: Square, axis: Axis, lo: int, hi: int)
    requires |g| == BOARD_SIZE * BOARD_SIZE && OnLine(s, axis, q)
    ensures CountLine(g, s, axis, lo, hi) == CountLine(g, q, axis, lo, hi)
    decreases hi - lo
  {
    if lo < hi {
      CountLineSameLine(g, s, q, axis, lo, hi - 1);
      assert LinePoint(s, axis, hi - 1) == LinePoint(q, axis, hi - 1);
    }
  }

  /** The line along the axis of a move's direction passes through both ends. */
  lemma MoveOnLine(from: Square, to: Square)
    requires Direction(from, to) >= 0
    ensures OnLine(from, AxisOf(Direction(from, to)), from)
    ensures OnLine(from, AxisOf(Direction(from, to)), to)
  {
  }

  /* ---------------- Moves ---------------- */

  /** The square K steps from FROM towards TO (FROM itself for K = 0, TO for the full distance). */
  function PathSquare(from: Square, to: Square, k: int): (q: Square)
    requires from.Valid() && to.Valid() && Direction(from, to) >= 0 && 0 <= k <= Distance(from, to)
    ensures q.Valid()
  {
    var dir := Direction(from, to);
    Sq(from.col + DCol(dir, k), from.row + DRow(dir, k))
  }

  /** moveDest walks the path: step K of the direction from FROM is path square K. */
  lemma PathSteps(from: Square, to: Square, k: int)
    requires from.Valid() && to.Valid() && Direction(from, to) >= 0 && 0 <= k <= Distance(from, to)
    ensures MoveDest(from, Direction(from, to), k) == Some(PathSquare(from, to, k))
  {
    DestOfDirection(from, to);
    StepWithin(from, Direction(from, to), k, Distance(from, to));
  }

  /** A walk from FROM that is on the board after D steps is on the board after any K <= D steps. */
  lemma StepWithin(from: Square, dir: int, k: int, d: int)
    requires from.Valid() && 0 <= k <= d
    requires Sq(from.col + DCol(dir, d), from.row + DRow(dir, d)).Valid()
    ensures MoveDest(from, dir, k) == Some(Sq(from.col + DCol(dir, k), from.row + DRow(dir, k)))
  {
    OffsetWithin(dir, k, d);
  }

  /** On each axis, the offset of K steps lies between 0 and the offset of D >= K steps. */
  lemma OffsetWithin(dir: int, k: int, d: int)
    requires 0 <= k <= d
    ensures (0 <= DCol(dir, k) <= DCol(dir, d)) || (DCol(dir, d) <= DCol(dir, k) <= 0)
    ensures (0 <= DRow(dir, k) <= DRow(dir, d)) || (DRow(dir, d) <= DRow(dir, k) <= 0)
  {
  }

  /** The path reaches TO at its last step and only there. */
  lemma PathEnd(from: Square, to: Square, k: int)
    requires from.Valid() && to.Valid() && Direction(from, to) >= 0 && 0 <= k <= Distance(from, to)
    ensures PathSquare(from, to, k) == to <==> k == Distance(from, to)
  {
    var dir, dist := Direction(from, to), Distance(from, to);
    DestOfDirection(from, to);
    if PathSquare(from, to, k) == to {
      StepsDistinct(dir, k, dist);
    }
  }

  /**
   * The squares strictly before TO on the line from FROM, listed by step
   * count: step K of moveDest in FROM's direction to TO is entry K, and the
   * step after the last entry is TO itself.
   */
  lemma PathWalk(from: Square, to: Square) returns (path: seq<Square>)
    requires from.Valid() && to.Valid() && Direction(from, to) >= 0
    ensures 1 <= |path| < BOARD_SIZE && |path| == Distance(from, to)
    ensures forall k :: 0 < k < |path| ==> path[k] == PathSquare(from, to, k)
    ensures forall k :: 0 < k < |path| ==>
      MoveDest(from, Direction(from, to), k) == Some(path[k]) && path[k] != to
    ensures MoveDest(from, Direction(from, to), |path|) == Some(to)
  {
    var dist := Distance(from, to);
    DestOfDirection(from, to);
    path := seq(dist, k requires 0 <= k < dist => PathSquare(from, to, k));
    forall k | 0 < k < |path|
      ensures MoveDest(from, Direction(from, to), k) == Some(path[k]) && path[k] != to
    {
      PathSteps(from, to, k);
      PathEnd(from, to, k);
    }
    PathSteps(from, to, dist);
    PathEnd(from, to, dist);
  }

  /** Different step counts in one direction give different offsets. */
  lemma StepsDistinct(dir: int, k: int, j: int)
    requires 0 <= dir < 8 && DCol(dir, k) == DCol(dir, j) && DRow(dir, k) == DRow(dir, j)
    ensures k == j
  {
  }

  /**
   * The legality rule: FROM and TO on a common line, the mover's piece on
   * FROM, no friendly piece on TO, no opposing piece strictly between them,
   * and the distance equal to the number of pieces on the whole line.
   */
  predicate Legal(p: Position, from: Square, to: Square)
    requires p.Valid()
  {
    && Mv(from, to).Some?
    && p.Get(from) == p.turn
    && p.Get(to) != p.turn
    && (forall k :: 0 < k < Distance(from, to) ==> p.Get(PathSquare(from, to, k)) != Opposite(p.turn))
    && Distance(from, to) == LineCount(p.grid, from, AxisOf(Direction(from, to)))
  }

  /** makeMove on the cells and turn: FROM is emptied, TO receives the moved piece. */
  function Apply(p: Position, m: Move): (q: Position)
    requires p.Valid() && m.from.Valid() && m.to.Valid()
    ensures q.Valid() && q.turn == Opposite(p.turn)
  {
    var piece := p.Get(m.from);
    Position(p.grid[m.from.Index() := EMP][m.to.Index() := piece], Opposite(p.turn))
  }

  /** retract on the cells and turn: TO gets back REPLACED and FROM the piece found on TO. */
  function Undo(p: Position, m: Move, replaced: Piece): (q: Position)
    requires p.Valid() && m.from.Valid() && m.to.Valid()
    ensures q.Valid() && q.turn == Opposite(p.turn)
  {
    var piece := p.Get(m.to);
    Position(p.grid[m.to.Index() := replaced][m.from.Index() := piece], Opposite(p.turn))
  }

  /** A move and its retraction, with the piece it displaced, cancel out. */
  lemma UndoApply(p: Position, m: Move)
    requires p.Valid() && m.from.Valid() && m.to.Valid() && m.from != m.to
    ensures Undo(Apply(p, m), m, p.Get(m.to)) == p
  {
    var q := Undo(Apply(p, m), m, p.Get(m.to));
    if m.from.Index() == m.to.Index() {
      IndexInjective(m.from, m.to);
    }
    assert q.grid == p.grid;
  }

  /** After a move: FROM empty, TO holds the mover's piece, every other cell as before. */
  lemma ApplyCells(p: Position, m: Move, s: Square)
    requires p.Valid() && m.from.Valid() && m.to.Valid() && m.from != m.to && s.Valid()
    ensures Apply(p, m).Get(s) == if s == m.to then p.Get(m.from) else if s == m.from then EMP else p.Get(s)
  {
    if s != m.to {
      if s.Index() == m.to.Index() {
        IndexInjective(s, m.to);
      }
    }
    if s != m.from {
      if s.Index() == m.from.Index() {
        IndexInjective(s, m.from);
      }
    }
  }

  /** A legal move loses the opponent at most one piece and the mover none. */
  lemma ApplyLosesAtMostOne(p: Position, m: Move, side: Piece)
    requires p.Valid() && Legal(p, m.from, m.to)
    ensures |Pieces(Apply(p, m).grid, side)| + 1 >= |Pieces(p.grid, side)|
  {
    var q := Apply(p, m);
    var gone := if side == p.turn then m.from else m.to;
    forall s | s in Pieces(p.grid, side) - {gone}
      ensures s in Pieces(q.grid, side)
    {
      InAllSquares(s);
      ApplyCells(p, m, s);
    }
    SubsetCard(Pieces(p.grid, side) - {gone}, Pieces(q.grid, side));
  }

  /* ---------------- The legal-move list ---------------- */

  /** Legal moves from S to the first N squares of ALL_SQUARES, in that order. */
  function MovesFrom(p: Position, s: Square, n: int): seq<Move>
    requires p.Valid() && 0 <= n <= BOARD_SIZE * BOARD_SIZE
  {
    Collect(s, n, t => Mv(s, t).Some? && Legal(p, s, t))
  }

  /** The moves from S to those of the first N squares that pass KEEP, in square order. */
  function Collect(s: Square, n: int, keep: Square -> bool): seq<Move>
    requires 0 <= n <= BOARD_SIZE * BOARD_SIZE
  {
    if n == 0 then []
    else
      var t := SquareAt(n - 1);
      Collect(s, n - 1, keep) + if keep(t) then [Move(s, t)] else []
  }

  lemma {:induction false} CollectSpec(s: Square, n: int, keep: Square -> bool, m: Move)
    requires 0 <= n <= BOARD_SIZE * BOARD_SIZE
    ensures m in Collect(s, n, keep) <==> m.from == s && m.to.Valid() && m.to.Index() < n && keep(m.to)
  {
    if n > 0 {
      var t := SquareAt(n - 1);
      var last := if keep(t) then [Move(s, t)] else [];
      assert Collect(s, n, keep) == Collect(s, n - 1, keep) + last;
      CollectSpec(s, n - 1, keep, m);
      if m.to.Valid() && m.to.Index() == n - 1 {
        IndexInjective(m.to, t);
      }
    }
  }

  /** legalMoves' list after scanning the first N squares of ALL_SQUARES as sources. */
  function MovesUpTo(p: Position, n: int): seq<Move>
    requires p.Valid() && 0 <= n <= BOARD_SIZE * BOARD_SIZE
  {
    if n == 0 then []
    else
      var s := SquareAt(n - 1);
      MovesUpTo(p, n - 1) + if p.Get(s) == p.turn then MovesFrom(p, s, BOARD_SIZE * BOARD_SIZE) else []
  }

  function LegalMoves(p: Position): seq<Move>
    requires p.Valid()
  {
    MovesUpTo(p, BOARD_SIZE * BOARD_SIZE)
  }

  lemma MovesFromSpec(p: Position, s: Square, n: int, m: Move)
    requires p.Valid() && 0 <= n <= BOARD_SIZE * BOARD_SIZE
    ensures m in MovesFrom(p, s, n) <==> m.from == s && m.to.Valid() && m.to.Index() < n && Legal(p, s, m.to)
  {
    CollectSpec(s, n, t => Mv(s, t).Some? && Legal(p, s, t), m);
  }

  lemma {:induction false} MovesUpToSpec(p: Position, n: int, m: Move)
    requires p.Valid() && 0 <= n <= BOARD_SIZE * BOARD_SIZE
    ensures m in MovesUpTo(p, n) <==> m.from.Valid() && m.from.Index() < n && m.to.Valid() && Legal(p, m.from, m.to)
  {
    if n > 0 {
      var s := SquareAt(n - 1);
      var last := if p.Get(s) == p.turn then MovesFrom(p, s, BOARD_SIZE * BOARD_SIZE) else [];
      assert MovesUpTo(p, n) == MovesUpTo(p, n - 1) + last;
      MovesUpToSpec(p, n - 1, m);
      MovesFromSpec(p, s, BOARD_SIZE * BOARD_SIZE, m);
      if m.from.Valid() && m.from.Index() == n - 1 {
        IndexInjective(m.from, s);
      }
      assert m in last <==> p.Get(s) == p.turn && m in MovesFrom(p, s, BOARD_SIZE * BOARD_SIZE);
    }
  }

  /** legalMoves is sound and complete: it lists exactly the legal moves. */
  lemma LegalMovesSpec(p: Position, m: Move)
    requires p.Valid()
    ensures m in LegalMoves(p) <==> m.from.Valid() && m.to.Valid() && Legal(p, m.from, m.to)
  {
    MovesUpToSpec(p, BOARD_SIZE * BOARD_SIZE, m);
  }
}
