/**
 * The Lines of Action board of Board.java: an array of 64 cells updated in
 * place, the side to move, the list of moves made and of pieces they
 * replaced, the move limit, and two caches (the winner and the sorted
 * region-size lists) that the board keeps between calls.
 */
module LoaBoard {
  import opened Wrappers
  import opened LoaPieces
  import opened LoaRules
  import opened LoaRegions
  import opened LoaClusters

  /** Default number of moves for each side that results in a draw. */
  const DEFAULT_MOVE_LIMIT := 60

  /** The standard initial configuration, bottom row first: INITIAL_PIECES[row][col]. */
  const INITIAL_PIECES: seq<seq<Piece>> := [
    [EMP, BP, BP, BP, BP, BP, BP, EMP],
    [WP, EMP, EMP, EMP, EMP, EMP, EMP, WP],
    [WP, EMP, EMP, EMP, EMP, EMP, EMP, WP],
    [WP, EMP, EMP, EMP, EMP, EMP, EMP, WP],
    [WP, EMP, EMP, EMP, EMP, EMP, EMP, WP],
    [WP, EMP, EMP, EMP, EMP, EMP, EMP, WP],
    [WP, EMP, EMP, EMP, EMP, EMP, EMP, WP],
    [EMP, BP, BP, BP, BP, BP, BP, EMP]
  ]

  /** CONTENTS is an 8x8 array of rows. */
  predicate Square8(contents: seq<seq<Piece>>) {
    |contents| == BOARD_SIZE && forall r :: 0 <= r < BOARD_SIZE ==> |contents[r]| == BOARD_SIZE
  }

  /** The cells of a position whose cell (C, R) is CONTENTS[R][C]. */
  ghost predicate Holds(g: seq<Piece>, contents: seq<seq<Piece>>)
    requires |g| == BOARD_SIZE * BOARD_SIZE && Square8(contents)
  {
    forall c, r :: 0 <= c < BOARD_SIZE && 0 <= r < BOARD_SIZE ==> g[Sq(c, r).Index()] == contents[r][c]
  }

  /**
   * The decision of winner() once the contiguity of both sides is known:
   * a side alone contiguous wins; a board where neither is contiguous is a
   * tie (EMP) once the limit is reached; both contiguous is a win for the
   * side that just moved; otherwise the game goes on (None).
   */
  function WinnerRule(white: bool, black: bool, made: int, limit: int, turn: Piece): (w: Option<Piece>)
    requires turn != EMP
  {
    if white && !black then Some(WP)
    else if black && !white then Some(BP)
    else if made >= limit && !black && !white then Some(EMP)
    else if black && white then Some(Opposite(turn))
    else None
  }

  /** The game is over exactly when some side is contiguous or the limit is reached. */
  lemma WinnerRuleOver(white: bool, black: bool, made: int, limit: int, turn: Piece)
    requires turn != EMP
    ensures WinnerRule(white, black, made, limit, turn).None? <==> !white && !black && made < limit
    ensures WinnerRule(white, black, made, limit, turn) == Some(EMP) <==> !white && !black && made >= limit
    ensures WinnerRule(white, black, made, limit, turn) == Some(turn) <==> (turn == WP && white && !black) || (turn == BP && black && !white)
  {
  }

  /** The visited matrix (indexed [row, col]) marks exactly the board squares of V. */
  ghost predicate VisitedIs(visited: array2<bool>, v: set<Square>)
    reads visited
    requires visited.Length0 == BOARD_SIZE && visited.Length1 == BOARD_SIZE
  {
    forall c, r {:trigger visited[r, c]} :: 0 <= c < BOARD_SIZE && 0 <= r < BOARD_SIZE ==> (visited[r, c] <==> Sq(c, r) in v)
  }

  /** visited[row][col] = true: the visited set gains SQ. */
  method MarkVisited(visited: array2<bool>, sq: Square, ghost v: set<Square>)
    requires visited.Length0 == BOARD_SIZE && visited.Length1 == BOARD_SIZE
    requires sq.Valid() && VisitedIs(visited, v)
    modifies visited
    ensures VisitedIs(visited, v + {sq})
  {
    visited[sq.row, sq.col] := true;
    forall c, r | 0 <= c < BOARD_SIZE && 0 <= r < BOARD_SIZE
      ensures visited[r, c] <==> Sq(c, r) in v + {sq}
    {
      if c != sq.col || r != sq.row {
        assert Sq(c, r) != sq;
      }
    }
  }

  /** The first loop of numContig: the squares one step from SQ in directions 0..7 that are on the board. */
  method NeighborSquares(sq: Square) returns (squares: seq<Square>)
    ensures squares == Neighbors(sq)
  {
    squares := [];
    ghost var dests := seq(BOARD_SIZE, dir => MoveDest(sq, dir, 1));
    for i := 0 to BOARD_SIZE
      invariant squares == Somes(dests[..i])
    {
      var s := MoveDest(sq, i, 1);
      assert dests[..i + 1] == dests[..i] + [s];
      SomesSnoc(dests[..i], s);
      if s.Some? {
        squares := squares + [s.value];
      }
    }
    assert dests[..BOARD_SIZE] == dests;
  }

  /** A fresh visited matrix with no square marked. */
  method NewVisited() returns (visited: array2<bool>)
    ensures fresh(visited) && visited.Length0 == BOARD_SIZE && visited.Length1 == BOARD_SIZE
    ensures VisitedIs(visited, {})
  {
    visited := new bool[BOARD_SIZE, BOARD_SIZE]((_, _) => false);
  }

  class Board {
    /** The cells; square S is at grid[S.Index()]. */
    const grid: array<Piece>
    /** The moves made and not retracted, in order. */
    var moves: seq<Move>
    /** The piece each move replaced on its target square. */
    var replaced: seq<Piece>
    var turn: Piece
    var moveLimit: int
    /** The winner cache: valid only when winnerKnown. */
    var winnerKnown: bool
    var winner: Option<Piece>
    /** The region-size cache: valid only when subsetsInitialized. */
    var subsetsInitialized: bool
    var whiteSizes: seq<int>
    var blackSizes: seq<int>
    /** The cells the region-size cache was computed from. */
    ghost var regionsGrid: seq<Piece>

    ghost predicate Valid()
      reads this`turn, this`moves, this`replaced, this`winnerKnown, this`winner
    {
      && grid.Length == BOARD_SIZE * BOARD_SIZE
      && turn != EMP
      && |moves| <= |replaced|
      && (forall k :: 0 <= k < |moves| ==> moves[k].from.Valid() && moves[k].to.Valid())
      && (!winnerKnown ==> winner.None?)
    }

    /** The region-size lists are those of the cells they were computed from. */
    ghost predicate CachesAgree()
      reads this`subsetsInitialized, this`whiteSizes, this`blackSizes, this`regionsGrid
    {
      subsetsInitialized ==>
        && |regionsGrid| == BOARD_SIZE * BOARD_SIZE
        && whiteSizes == RegionSizes(regionsGrid, WP)
        && blackSizes == RegionSizes(regionsGrid, BP)
    }

    /** Neither cache holds a value: a board just built or just copied. */
    ghost predicate Fresh()
      reads this`subsetsInitialized, this`winnerKnown
    {
      !subsetsInitialized && !winnerKnown
    }

    /** The position on the board: its cells and the side to move. */
    ghost function Pos(): (p: Position)
      reads this`turn, grid
      requires grid.Length == BOARD_SIZE * BOARD_SIZE && turn != EMP
      ensures p.Valid()
    {
      Position(grid[..], turn)
    }

    /** The cells the next region computation describes. */
    ghost function RegionGrid(): (g: seq<Piece>)
      reads this`subsetsInitialized, this`regionsGrid, grid
      requires grid.Length == BOARD_SIZE * BOARD_SIZE
      requires subsetsInitialized ==> |regionsGrid| == BOARD_SIZE * BOARD_SIZE
      ensures |g| == BOARD_SIZE * BOARD_SIZE
    {
      if subsetsInitialized then regionsGrid else grid[..]
    }

    /** A board with CONTENTS (CONTENTS[row][col]) and SIDE to move. */
    constructor (contents: seq<seq<Piece>>, side: Piece)
      requires Square8(contents) && side != EMP
      ensures Valid() && CachesAgree() && Fresh() && fresh(grid)
      ensures Holds(grid[..], contents)
      ensures turn == side && moves == [] && replaced == [] && moveLimit == DEFAULT_MOVE_LIMIT
    {
      grid := new Piece[BOARD_SIZE * BOARD_SIZE](_ => EMP);
      moves, replaced := [], [];
      turn := side;
      moveLimit := 0;
      winnerKnown, winner := false, None;
      subsetsInitialized := false;
      whiteSizes, blackSizes := [], [];
      regionsGrid := [];
      new;
      Initialize(contents, side);
    }

    /** A board in the standard initial position with black to move. */
    constructor Standard()
      ensures Valid() && CachesAgree() && Fresh() && fresh(grid)
      ensures Holds(grid[..], INITIAL_PIECES) && turn == BP
      ensures moves == [] && replaced == [] && moveLimit == DEFAULT_MOVE_LIMIT
    {
      grid := new Piece[BOARD_SIZE * BOARD_SIZE](_ => EMP);
      moves, replaced := [], [];
      turn := BP;
      moveLimit := 0;
      winnerKnown, winner := false, None;
      subsetsInitialized := false;
      whiteSizes, blackSizes := [], [];
      regionsGrid := [];
      new;
      Initialize(INITIAL_PIECES, BP);
    }

    /**
     * A copy of B's cells and side to move, built as a standard board that
     * then copies B: no moves, the default limit and empty caches.
     */
    constructor Copy(b: Board)
      requires b.Valid()
      ensures Valid() && CachesAgree() && Fresh() && fresh(grid)
      ensures grid[..] == b.grid[..] && turn == b.turn
      ensures moves == [] && replaced == [] && moveLimit == DEFAULT_MOVE_LIMIT
    {
      grid := new Piece[BOARD_SIZE * BOARD_SIZE](_ => EMP);
      moves, replaced := [], [];
      turn := BP;
      moveLimit := 0;
      winnerKnown, winner := false, None;
      subsetsInitialized := false;
      whiteSizes, blackSizes := [], [];
      regionsGrid := [];
      new;
      Initialize(INITIAL_PIECES, BP);
      CopyFrom(b);
    }

    /**
     * initialize: the cells from CONTENTS, column by column, SIDE to move,
     * no moves and the default limit.  The replaced list and the caches are
     * left as they were.
     */
    method Initialize(contents: seq<seq<Piece>>, side: Piece)
      requires Valid() && Square8(contents) && side != EMP
      modifies grid, this`moves, this`turn, this`moveLimit
      ensures Valid()
      ensures Holds(grid[..], contents)
      ensures turn == side && moves == [] && moveLimit == DEFAULT_MOVE_LIMIT
    {
      moves := [];
      for i := 0 to BOARD_SIZE
        invariant Valid() && moves == []
        invariant forall c, r :: 0 <= c < i && 0 <= r < BOARD_SIZE ==> grid[Sq(c, r).Index()] == contents[r][c]
      {
        for j := 0 to BOARD_SIZE
          invariant Valid() && moves == []
          invariant forall c, r :: 0 <= c < i && 0 <= r < BOARD_SIZE ==> grid[Sq(c, r).Index()] == contents[r][c]
          invariant forall r :: 0 <= r < j ==> grid[Sq(i, r).Index()] == contents[r][i]
        {
          var s := Sq(i, j);
          var ok := Set(s, contents[j][i], None);
        }
      }
      turn := side;
      moveLimit := DEFAULT_MOVE_LIMIT;
    }

    /** clear: back to the standard initial position with black to move. */
    method Clear()
      requires Valid()
      modifies grid, this`moves, this`turn, this`moveLimit
      ensures Valid()
      ensures Holds(grid[..], INITIAL_PIECES)
      ensures turn == BP && moves == [] && moveLimit == DEFAULT_MOVE_LIMIT
    {
      Initialize(INITIAL_PIECES, BP);
    }

    /** copyFrom: B's cells and side to move; nothing when B is this board. */
    method CopyFrom(b: Board)
      requires Valid() && b.Valid()
      modifies grid, this`turn
      ensures Valid()
      ensures grid[..] == old(b.grid[..]) && turn == old(b.turn)
    {
      if b == this {
        return;
      }
      turn := b.turn;
      forall k | 0 <= k < grid.Length {
        grid[k] := b.grid[k];
      }
    }

    /** get: the piece on square S. */
    function Get(s: Square): Piece
      reads grid
      requires grid.Length == BOARD_SIZE * BOARD_SIZE && s.Valid()
    {
      grid[s.Index()]
    }

    /**
     * set: put V on S and, when NEXT is given, make it the side to move.
     * A square off the board is refused (ok is false) and changes nothing.
     */
    method Set(s: Square, v: Piece, next: Option<Piece>) returns (ok: bool)
      requires Valid() && (next.Some? ==> next.value != EMP)
      modifies grid, this`turn
      ensures Valid()
      ensures ok <==> s.Valid()
      ensures ok ==> grid[..] == old(grid[..])[s.Index() := v]
      ensures !ok ==> grid[..] == old(grid[..])
      ensures turn == if ok && next.Some? then next.value else old(turn)
    {
      if s.col < 0 || s.col > 7 || s.row < 0 || s.row > 7 {
        return false;
      }
      grid[s.Index()] := v;
      if next.Some? {
        turn := next.value;
      }
      return true;
    }

    /** setMoveLimit: each side gets LIMIT moves; refused unless 2 * LIMIT exceeds the moves made. */
    method SetMoveLimit(limit: int) returns (ok: bool)
      requires Valid()
      modifies this`moveLimit
      ensures ok <==> 2 * limit > |moves|
      ensures moveLimit == if ok then 2 * limit else old(moveLimit)
    {
      if 2 * limit <= MovesMade() {
        return false;
      }
      moveLimit := 2 * limit;
      return true;
    }

    /** movesMade: the number of moves made and not retracted. */
    function MovesMade(): (n: nat)
      reads this`moves
      ensures n == |moves|
    {
      |moves|
    }

    /**
     * makeMove of a legal move: the position becomes Apply's, the move and
     * the piece on its target are recorded, and the region cache is dropped.
     * The winner cache is left as it was.
     */
    method MakeMove(m: Move)
      requires Valid() && m.from.Valid() && m.to.Valid() && Legal(Pos(), m.from, m.to)
      modifies grid, this`moves, this`replaced, this`turn, this`subsetsInitialized
      ensures Valid() && CachesAgree()
      ensures Pos() == Apply(old(Pos()), m)
      ensures moves == old(moves) + [m] && replaced == old(replaced) + [old(Get(m.to))]
      ensures !subsetsInitialized
    {
      moves := moves + [m];
      var s0 := m.from;
      var p := Get(s0);
      var s1 := m.to;
      replaced := replaced + [Get(s1)];
      var ok0 := Set(s0, EMP, None);
      var ok1 := Set(s1, p, None);
      turn := Opposite(turn);
      subsetsInitialized := false;
    }

    /**
     * retract: undo the last move, putting back the piece it replaced.
     * Neither cache is touched.
     */
    method Retract()
      requires Valid() && |moves| > 0
      modifies grid, this`moves, this`replaced, this`turn
      ensures Valid()
      ensures Pos() == Undo(old(Pos()), old(moves[|moves| - 1]), old(replaced[|replaced| - 1]))
      ensures moves == old(moves[..|moves| - 1]) && replaced == old(replaced[..|replaced| - 1])
    {
      var m := moves[|moves| - 1];
      moves := moves[..|moves| - 1];
      var r := replaced[|replaced| - 1];
      replaced := replaced[..|replaced| - 1];
      var s1 := m.to;
      var p := Get(s1);
      var s0 := m.from;
      var ok1 := Set(s1, r, None);
      var ok0 := Set(s0, p, None);
      turn := Opposite(turn);
    }

    /** equals: same cells and same side to move. */
    predicate Equals(b: Board)
      reads this`turn, grid, b`turn, b.grid
    {
      grid[..] == b.grid[..] && turn == b.turn
    }

    /** colCount: the pieces in column C. */
    method ColCount(c: int) returns (n: int)
      requires grid.Length == BOARD_SIZE * BOARD_SIZE && 0 <= c < BOARD_SIZE
      ensures n == LineCount(grid[..], Sq(c, 0), Column)
    {
      n := 0;
      for r := 0 to BOARD_SIZE
        invariant n == CountLine(grid[..], Sq(c, 0), Column, 0, r)
      {
        var s := Sq(c, r);
        if grid[s.Index()] != EMP {
          n := n + 1;
        }
      }
    }

    /** rowCount: the pieces in row R. */
    method RowCount(r: int) returns (n: int)
      requires grid.Length == BOARD_SIZE * BOARD_SIZE && 0 <= r < BOARD_SIZE
      ensures n == LineCount(grid[..], Sq(0, r), Row)
    {
      n := 0;
      for c := 0 to BOARD_SIZE
        invariant n == CountLine(grid[..], Sq(0, r), Row, 0, c)
      {
        var s := Sq(c, r);
        if grid[s.Index()] != EMP {
          n := n + 1;
        }
      }
    }

    /**
     * positiveDiaCount: the pieces on the SW-NE diagonal through (C, R),
     * counted from (C, R) up to the board's edge, then from the square
     * below-left of it down to the edge.
     */
    method PositiveDiaCount(c: int, r: int) returns (n: int)
      requires grid.Length == BOARD_SIZE * BOARD_SIZE && 0 <= c < BOARD_SIZE && 0 <= r < BOARD_SIZE
      ensures n == LineCount(grid[..], Sq(c, r), Rising)
    {
      n := RisingUpRight(c, r);
      n := RisingDownLeft(c, r, n);
      CountLineSplit(grid[..], Sq(c, r), Rising, 0, c, BOARD_SIZE);
    }

    /** The first loop of positiveDiaCount: the pieces from (C, R) up-right to the edge. */
    method RisingUpRight(c: int, r: int) returns (n: int)
      requires grid.Length == BOARD_SIZE * BOARD_SIZE && 0 <= c < BOARD_SIZE && 0 <= r < BOARD_SIZE
      ensures n == CountLine(grid[..], Sq(c, r), Rising, c, BOARD_SIZE)
    {
      ghost var g, s := grid[..], Sq(c, r);
      n := 0;
      var x, y := c, r;
      while x < BOARD_SIZE && y < BOARD_SIZE
        invariant c <= x <= BOARD_SIZE && y == r + (x - c) && y <= BOARD_SIZE
        invariant n == CountLine(g, s, Rising, c, x)
        decreases BOARD_SIZE - x
      {
        CountStepUp(g, s, Rising, c, x, Sq(x, y));
        if grid[Sq(x, y).Index()] != EMP {
          n := n + 1;
        }
        x, y := x + 1, y + 1;
      }
      CountLineOff(g, s, Rising, x, BOARD_SIZE);
      CountLineSplit(g, s, Rising, c, x, BOARD_SIZE);
    }

    /** The second loop of positiveDiaCount: N plus the pieces below-left of (C, R) to the edge. */
    method RisingDownLeft(c: int, r: int, n0: int) returns (n: int)
      requires grid.Length == BOARD_SIZE * BOARD_SIZE && 0 <= c < BOARD_SIZE && 0 <= r < BOARD_SIZE
      ensures n == n0 + CountLine(grid[..], Sq(c, r), Rising, 0, c)
    {
      ghost var g, s := grid[..], Sq(c, r);
      n := n0;
      var x, y := c, r;
      if x >= 0 && y >= 0 {
        x, y := x - 1, y - 1;
      }
      while x >= 0 && y >= 0
        invariant -1 <= x < c && y == r + (x - c) && -1 <= y
        invariant n == n0 + CountLine(g, s, Rising, x + 1, c)
        decreases x
      {
        CountStepDown(g, s, Rising, x, c, Sq(x, y));
        if grid[Sq(x, y).Index()] != EMP {
          n := n + 1;
        }
        x, y := x - 1, y - 1;
      }
      CountLineOff(g, s, Rising, 0, x + 1);
      CountLineSplit(g, s, Rising, 0, x + 1, c);
    }

    /**
     * negativeDiaCount: the pieces on the NW-SE diagonal through (C, R),
     * counted from (C, R) up-left to the edge, then from the square
     * below-right of it to the edge.
     */
    method NegativeDiaCount(c: int, r: int) returns (n: int)
      requires grid.Length == BOARD_SIZE * BOARD_SIZE && 0 <= c < BOARD_SIZE && 0 <= r < BOARD_SIZE
      ensures n == LineCount(grid[..], Sq(c, r), Falling)
    {
      n := FallingUpLeft(c, r);
      n := FallingDownRight(c, r, n);
      CountLineSplit(grid[..], Sq(c, r), Falling, 0, c + 1, BOARD_SIZE);
    }

    /** The first loop of negativeDiaCount: the pieces from (C, R) up-left to the edge. */
    method FallingUpLeft(c: int, r: int) returns (n: int)
      requires grid.Length == BOARD_SIZE * BOARD_SIZE && 0 <= c < BOARD_SIZE && 0 <= r < BOARD_SIZE
      ensures n == CountLine(grid[..], Sq(c, r), Falling, 0, c + 1)
    {
      ghost var g, s := grid[..], Sq(c, r);
      n := 0;
      var x, y := c, r;
      while x >= 0 && y < BOARD_SIZE
        invariant -1 <= x <= c && y == r - (x - c) && y <= BOARD_SIZE
        invariant n == CountLine(g, s, Falling, x + 1, c + 1)
        decreases x
      {
        CountStepDown(g, s, Falling, x, c + 1, Sq(x, y));
        if grid[Sq(x, y).Index()] != EMP {
          n := n + 1;
        }
        x, y := x - 1, y + 1;
      }
      CountLineOff(g, s, Falling, 0, x + 1);
      CountLineSplit(g, s, Falling, 0, x + 1, c + 1);
    }

    /** The second loop of negativeDiaCount: N plus the pieces below-right of (C, R) to the edge. */
    method FallingDownRight(c: int, r: int, n0: int) returns (n: int)
      requires grid.Length == BOARD_SIZE * BOARD_SIZE && 0 <= c < BOARD_SIZE && 0 <= r < BOARD_SIZE
      ensures n == n0 + CountLine(grid[..], Sq(c, r), Falling, c + 1, BOARD_SIZE)
    {
      ghost var g, s := grid[..], Sq(c, r);
      n := n0;
      var x, y := c, r;
      if x >= 0 && y >= 0 {
        x, y := x + 1, y - 1;
      }
      while x < BOARD_SIZE && y >= 0
        invariant c < x <= BOARD_SIZE && y == r - (x - c) && -1 <= y
        invariant n == n0 + CountLine(g, s, Falling, c + 1, x)
        decreases BOARD_SIZE - x
      {
        CountStepUp(g, s, Falling, c + 1, x, Sq(x, y));
        if grid[Sq(x, y).Index()] != EMP {
          n := n + 1;
        }
        x, y := x + 1, y - 1;
      }
      CountLineOff(g, s, Falling, x, BOARD_SIZE);
      CountLineSplit(g, s, Falling, c + 1, x, BOARD_SIZE);
    }

    /**
     * piecesAlongDir: the pieces on the whole line through FROM in the
     * direction of TO; 0 when TO is on no line through FROM.
     */
    method PiecesAlongDir(from: Square, to: Square) returns (n: int)
      requires grid.Length == BOARD_SIZE * BOARD_SIZE && from.Valid() && to.Valid()
      ensures n == if Direction(from, to) >= 0 then LineCount(grid[..], from, AxisOf(Direction(from, to))) else 0
    {
      var c, r := from.col, from.row;
      var dir := Direction(from, to);
      if dir == 0 || dir == 4 {
        n := ColCount(c);
        CountLineSameLine(grid[..], Sq(c, 0), from, Column, 0, BOARD_SIZE);
      } else if dir == 2 || dir == 6 {
        n := RowCount(r);
        CountLineSameLine(grid[..], Sq(0, r), from, Row, 0, BOARD_SIZE);
      } else if dir == 1 || dir == 5 {
        n := PositiveDiaCount(c, r);
      } else if dir == 3 || dir == 7 {
        n := NegativeDiaCount(c, r);
      } else {
        n := 0;
      }
    }

    /**
     * blocked: the target holds the mover's own colour (or both squares are
     * empty), or an opposing piece stands strictly between FROM and TO.
     */
    method Blocked(from: Square, to: Square) returns (b: bool)
      requires grid.Length == BOARD_SIZE * BOARD_SIZE && from.Valid() && to.Valid() && Direction(from, to) >= 0
      requires Get(from) != EMP || Get(to) == EMP
      ensures b <==> (Get(from) == Get(to) ||
        (Get(from) != EMP && exists k :: 0 < k < Distance(from, to) && Get(PathSquare(from, to, k)) == Opposite(Get(from))))
    {
      var p0 := Get(from);
      var p1 := Get(to);
      if p0 == p1 {
        return true;
      }
      var dir := Direction(from, to);
      ghost var path := PathWalk(from, to);
      b := OpponentOnPath(from, dir, to, path, Opposite(p0));
    }

    /**
     * The loop of blocked: walk from FROM in direction DIR, stopping at TO or
     * at a piece OPP; PATH lists the squares the walk passes before TO.
     */
    method OpponentOnPath(from: Square, dir: int, to: Square, ghost path: seq<Square>, opp: Piece) returns (b: bool)
      requires grid.Length == BOARD_SIZE * BOARD_SIZE
      requires 1 <= |path| < BOARD_SIZE
      requires forall k :: 0 < k < |path| ==>
        path[k].Valid() && MoveDest(from, dir, k) == Some(path[k]) && path[k] != to
      requires MoveDest(from, dir, |path|) == Some(to)
      ensures b <==> exists k :: 0 < k < |path| && Get(path[k]) == opp
    {
      var i := 1;
      while i < BOARD_SIZE
        invariant 1 <= i <= |path|
        invariant forall k :: 0 < k < i ==> Get(path[k]) != opp
      {
        var s := MoveDest(from, dir, i);
        if s.Some? {
          if s.value == to {
            break;
          }
          if Get(s.value) == opp {
            return true;
          }
        }
        i := i + 1;
      }
      return false;
    }

    /** isLegal(FROM, TO): the legality rule on the current position. */
    method IsLegal(from: Square, to: Square) returns (r: bool)
      requires Valid() && from.Valid() && to.Valid()
      requires Get(from) != EMP || Get(to) == EMP
      ensures r == Legal(Pos(), from, to)
    {
      var m := Mv(from, to);
      var p := Get(from);
      if m.None? {
        return false;
      }
      var blocked := Blocked(from, to);
      if blocked || p != turn {
        return false;
      }
      var n := PiecesAlongDir(from, to);
      return m.value.Length() == n;
    }

    /** isLegal(MOVE). */
    method IsLegalMove(m: Move) returns (r: bool)
      requires Valid() && m.from.Valid() && m.to.Valid()
      requires Get(m.from) != EMP || Get(m.to) == EMP
      ensures r == Legal(Pos(), m.from, m.to)
    {
      r := IsLegal(m.from, m.to);
    }

    /**
     * legalMoves: for each square holding the side to move, in index order,
     * the legal moves to each square in index order.
     */
    method LegalMoves() returns (legals: seq<Move>)
      requires Valid()
      ensures legals == LoaRules.LegalMoves(Pos())
    {
      legals := [];
      for k := 0 to BOARD_SIZE * BOARD_SIZE
        invariant legals == MovesUpTo(Pos(), k)
      {
        var s := SquareAt(k);
        if Get(s) == turn {
          var more := LegalMovesFrom(s);
          legals := legals + more;
        }
      }
    }

    /** The inner loop of legalMoves: the legal moves from S to each square in index order. */
    method LegalMovesFrom(s: Square) returns (legals: seq<Move>)
      requires Valid() && s.Valid() && Get(s) == turn
      ensures legals == MovesFrom(Pos(), s, BOARD_SIZE * BOARD_SIZE)
    {
      ghost var p := Pos();
      legals := [];
      for k := 0 to BOARD_SIZE * BOARD_SIZE
        invariant legals == MovesFrom(p, s, k)
      {
        var found := LegalTo(s, SquareAt(k));
        assert MovesFrom(p, s, k + 1) == MovesFrom(p, s, k) + found;
        legals := legals + found;
      }
    }

    /** One step of the inner loop of legalMoves: mv(S, T), kept when it is legal. */
    method LegalTo(s: Square, t: Square) returns (found: seq<Move>)
      requires Valid() && s.Valid() && t.Valid() && Get(s) == turn
      ensures found == if Mv(s, t).Some? && Legal(Pos(), s, t) then [Move(s, t)] else []
    {
      var m := Mv(s, t);
      found := [];
      if m.Some? {
        var ok := IsLegalMove(m.value);
        if ok {
          found := [m.value];
        }
      }
    }

    /**
     * numContig: the flood fill from SQ through squares holding P, marking
     * the squares it reaches in VISITED (indexed [row, col]).  It counts and
     * marks exactly what Contig describes for the visited set V; when V
     * holds whole clusters of P and SQ is an unvisited piece of P, that is
     * the size of the cluster of SQ.
     */
    method NumContig(sq: Square, visited: array2<bool>, p: Piece, ghost v: set<Square>) returns (count: int)
      requires grid.Length == BOARD_SIZE * BOARD_SIZE && sq.Valid() && visited.Length0 == BOARD_SIZE && visited.Length1 == BOARD_SIZE
      requires VisitedIs(visited, v)
      modifies visited
      ensures VisitedIs(visited, Contig(grid[..], p, v, sq).visited)
      ensures count == Contig(grid[..], p, v, sq).count
      ensures p != EMP && grid[sq.Index()] == p && sq !in v && ClosedFor(grid[..], p, v) ==>
                count == |Cluster(grid[..], p, sq)| && VisitedIs(visited, v + Cluster(grid[..], p, sq))
      decreases |Free(v)|, 0
    {
      if p == EMP {
        return 0;
      }
      if Get(sq) != p {
        return 0;
      }
      if visited[sq.row, sq.col] {
        return 0;
      }
      MarkVisited(visited, sq, v);
      ghost var w := v + {sq};
      FreeShrinks(v, w, sq);
      count := 1;
      var squares := NeighborSquares(sq);
      var c := FillNeighbors(squares, visited, p, w);
      count := count + c;
      if ClosedFor(grid[..], p, v) {
        ContigIsCluster(grid[..], p, v, sq);
      }
    }

    /**
     * The second loop of numContig: a fill from each square of SQUARES in
     * turn, adding up their counts, as ContigList describes for the visited
     * set V.
     */
    method FillNeighbors(squares: seq<Square>, visited: array2<bool>, p: Piece, ghost v: set<Square>) returns (count: int)
      requires grid.Length == BOARD_SIZE * BOARD_SIZE && ValidSquares(squares) && visited.Length0 == BOARD_SIZE && visited.Length1 == BOARD_SIZE
      requires VisitedIs(visited, v)
      modifies visited
      ensures VisitedIs(visited, ContigList(grid[..], p, v, squares).visited)
      ensures count == ContigList(grid[..], p, v, squares).count
      ensures p != EMP ==> forall n :: n in squares && n in Pieces(grid[..], p) ==> n in ContigList(grid[..], p, v, squares).visited
      ensures ClosedBeyond(grid[..], p, v, ContigList(grid[..], p, v, squares).visited)
      ensures forall t :: t in ContigList(grid[..], p, v, squares).visited && t !in v ==>
                exists n :: n in squares && Connected(grid[..], p, n, t)
      decreases |Free(v)|, 1
    {
      count := 0;
      ghost var g := grid[..];
      ghost var total := ContigList(g, p, v, squares);
      ghost var cur := v;
      for k := 0 to |squares|
        invariant VisitedIs(visited, cur)
        invariant v <= cur && ValidSquares(squares[k..])
        invariant ContigList(g, p, cur, squares[k..]).visited == total.visited
        invariant count + ContigList(g, p, cur, squares[k..]).count == total.count
      {
        assert squares[k..][1..] == squares[k + 1..];
        FreeMonotone(v, cur);
        var c := NumContig(squares[k], visited, p, cur);
        cur := Contig(g, p, cur, squares[k]).visited;
        count := count + c;
      }
      assert g == grid[..];
      ContigListSound(g, p, v, squares);
      ContigListClosed(g, p, v, squares);
    }

    /**
     * computeRegions: unless the cache is valid, scan the squares column by
     * column, recording the size of each region not yet visited in its
     * colour's list, then sort both lists into descending order.
     */
    method ComputeRegions()
      requires Valid() && CachesAgree()
      modifies this`subsetsInitialized, this`whiteSizes, this`blackSizes, this`regionsGrid
      ensures CachesAgree() && subsetsInitialized && regionsGrid == old(RegionGrid())
    {
      if subsetsInitialized {
        return;
      }
      whiteSizes, blackSizes := [], [];
      var visited := NewVisited();
      ghost var g := grid[..];
      ghost var v: set<Square> := {};
      for i := 0 to BOARD_SIZE
        invariant VisitedIs(visited, v)
        invariant Scan(whiteSizes, blackSizes, v) == ScanUpTo(g, i, 0)
      {
        v := ScanColumn(i, visited, g, v);
      }
      whiteSizes := SortDesc(whiteSizes);
      blackSizes := SortDesc(blackSizes);
      subsetsInitialized := true;
      regionsGrid := g;
    }

    /** The inner loop of computeRegions: the squares of column I, row by row. */
    method ScanColumn(i: int, visited: array2<bool>, ghost g: seq<Piece>, ghost v0: set<Square>) returns (ghost v: set<Square>)
      requires grid.Length == BOARD_SIZE * BOARD_SIZE && g == grid[..] && 0 <= i < BOARD_SIZE
      requires visited.Length0 == BOARD_SIZE && visited.Length1 == BOARD_SIZE
      requires VisitedIs(visited, v0) && Scan(whiteSizes, blackSizes, v0) == ScanUpTo(g, i, 0)
      modifies visited, this`whiteSizes, this`blackSizes
      ensures VisitedIs(visited, v)
      ensures Scan(whiteSizes, blackSizes, v) == ScanUpTo(g, i + 1, 0)
    {
      v := v0;
      for j := 0 to BOARD_SIZE
        invariant VisitedIs(visited, v)
        invariant Scan(whiteSizes, blackSizes, v) == ScanUpTo(g, i, j)
      {
        v := VisitSquare(Sq(i, j), visited, g, v);
      }
    }

    /** The body of computeRegions' inner loop for square S. */
    method VisitSquare(s: Square, visited: array2<bool>, ghost g: seq<Piece>, ghost v0: set<Square>) returns (ghost v: set<Square>)
      requires grid.Length == BOARD_SIZE * BOARD_SIZE && g == grid[..] && s.Valid()
      requires visited.Length0 == BOARD_SIZE && visited.Length1 == BOARD_SIZE
      requires VisitedIs(visited, v0)
      modifies visited, this`whiteSizes, this`blackSizes
      ensures VisitedIs(visited, v)
      ensures Scan(whiteSizes, blackSizes, v) == Visit(g, old(Scan(whiteSizes, blackSizes, v0)), s)
    {
      v := v0;
      var p := Get(s);
      if p == EMP {
        return;
      }
      if !visited[s.row, s.col] {
        var count := NumContig(s, visited, p, v);
        v := Contig(g, p, v, s).visited;
        if p == WP {
          whiteSizes := whiteSizes + [count];
        } else {
          blackSizes := blackSizes + [count];
        }
      }
    }

    /** getRegionSizes: the sorted region sizes of WP for WP, of BP otherwise. */
    method GetRegionSizes(side: Piece) returns (sizes: seq<int>)
      requires Valid() && CachesAgree()
      modifies this`subsetsInitialized, this`whiteSizes, this`blackSizes, this`regionsGrid
      ensures CachesAgree() && subsetsInitialized && regionsGrid == old(RegionGrid())
      ensures sizes == if side == WP then whiteSizes else blackSizes
    {
      ComputeRegions();
      if side == WP {
        return whiteSizes;
      } else {
        return blackSizes;
      }
    }

    /** piecesContiguous: SIDE's pieces form a single region. */
    method PiecesContiguous(side: Piece) returns (b: bool)
      requires Valid() && CachesAgree()
      modifies this`subsetsInitialized, this`whiteSizes, this`blackSizes, this`regionsGrid
      ensures CachesAgree() && subsetsInitialized && regionsGrid == old(RegionGrid())
      ensures b <==> |if side == WP then whiteSizes else blackSizes| == 1
      ensures side != EMP ==>
                (b <==> Pieces(regionsGrid, side) != {} &&
                        forall x, y :: x in Pieces(regionsGrid, side) && y in Pieces(regionsGrid, side) ==>
                          Connected(regionsGrid, side, x, y))
    {
      var sizes := GetRegionSizes(side);
      if side != EMP {
        SingleRegionIffConnected(regionsGrid, side);
      }
      return |sizes| == 1;
    }

    /**
     * winner: the cached winner when known; otherwise WinnerRule on the
     * contiguity of both sides, cached when it decides the game.
     */
    method Winner() returns (w: Option<Piece>)
      requires Valid() && CachesAgree()
      modifies this`subsetsInitialized, this`whiteSizes, this`blackSizes, this`regionsGrid, this`winnerKnown, this`winner
      ensures Valid() && CachesAgree() && subsetsInitialized && regionsGrid == old(RegionGrid())
      ensures w == winner
      ensures old(winnerKnown) ==> winnerKnown && w == old(winner)
      ensures !old(winnerKnown) ==> (winnerKnown == w.Some? &&
        w == WinnerRule(|whiteSizes| == 1, |blackSizes| == 1, |moves|, moveLimit, turn))
    {
      ComputeRegions();
      if !winnerKnown {
        var white := PiecesContiguous(WP);
        var black := PiecesContiguous(BP);
        winner := WinnerRule(white, black, MovesMade(), moveLimit, turn);
        winnerKnown := winner.Some?;
      }
      return winner;
    }

    /** gameOver: the game has a winner or is tied. */
    method GameOver() returns (over: bool)
      requires Valid() && CachesAgree()
      modifies this`subsetsInitialized, this`whiteSizes, this`blackSizes, this`regionsGrid, this`winnerKnown, this`winner
      ensures Valid() && CachesAgree() && regionsGrid == old(RegionGrid())
      ensures over <==> winner.Some?
      ensures !old(winnerKnown) ==> (over <==> WinnerRule(|whiteSizes| == 1, |blackSizes| == 1, |moves|, moveLimit, turn).Some?)
    {
      var w := Winner();
      return w.Some?;
    }
  }
}
