/**
 * The automated player of loa/MachinePlayer.java: findMove searches copies
 * of the board to a fixed depth, scoring the leaves by the ratio of black
 * to white regions.  The boards it visits form the game tree GameTree; the
 * method FindMove is proved to compute GameTrees.Search on that tree, so
 * the fail-soft and optimal-move theorems of GameTrees apply to it.
 */
module LoaSearch {
  import opened Wrappers
  import opened LoaPieces
  import opened LoaRules
  import opened LoaRegions
  import opened LoaBoard
  import opened GameTrees

  /** The magnitude of a won position (positive for white, negative for black). */
  const WINNING_VALUE := INFTY - 20

  /* ---------------- Positions as findMove sees them ---------------- */

  /** winner() of a fresh board holding P after MADE moves, with move limit LIMIT. */
  ghost function Outcome(p: Position, made: int, limit: int): Option<Piece>
    requires p.Valid()
  {
    WinnerRule(|RegionSizes(p.grid, WP)| == 1, |RegionSizes(p.grid, BP)| == 1, made, limit, p.turn)
  }

  /** Outcome decides the game for one side. */
  ghost predicate Decided(p: Position, made: int, limit: int)
    requires p.Valid()
  {
    Outcome(p, made, limit) == Some(WP) || Outcome(p, made, limit) == Some(BP)
  }

  /** White has a piece, so heuriScore's division by the white region count is defined. */
  ghost predicate WhiteAlive(p: Position) {
    p.Valid() && |Pieces(p.grid, WP)| >= 1
  }

  /** heuriScore: 100 times the number of black regions over the number of white regions. */
  ghost function Heuri(p: Position): int
    requires WhiteAlive(p)
  {
    RegionsNonEmpty(p.grid, WP);
    100 * |RegionSizes(p.grid, BP)| / |RegionSizes(p.grid, WP)|
  }

  /** The static estimate lies between 0 and 100 per square. */
  lemma HeuriBounds(p: Position)
    requires WhiteAlive(p)
    ensures 0 <= Heuri(p) <= 100 * BOARD_SIZE * BOARD_SIZE
  {
    RegionsNonEmpty(p.grid, WP);
    RegionCountBound(p.grid, BP);
    var b, w := |RegionSizes(p.grid, BP)|, |RegionSizes(p.grid, WP)|;
    assert 100 * b / w <= 100 * b / 1 by {
      DivAntitone(100 * b, w);
    }
  }

  lemma DivAntitone(n: nat, d: int)
    requires d >= 1
    ensures n / d <= n
  {
    var q := n / d;
    assert q * d <= n;
    MulGrows(q, d);
  }

  lemma MulGrows(q: nat, d: int)
    requires d >= 1
    ensures q * d >= q
  {
    assert q * d == q * (d - 1) + q;
  }

  /**
   * A position the search goes on from keeps white in play: if white were
   * down to one piece it would be contiguous, and the game decided.
   */
  lemma UndecidedTwoWhite(p: Position, made: int, limit: int)
    requires WhiteAlive(p) && !Decided(p, made, limit)
    ensures |Pieces(p.grid, WP)| >= 2
  {
    RegionsNonEmpty(p.grid, WP);
    RegionSizesSpec(p.grid, WP);
    PositiveSum(RegionSizes(p.grid, WP));
  }

  /** A legal move from a position with two white pieces leaves white a piece. */
  lemma MoveKeepsWhite(p: Position, m: Move)
    requires p.Valid() && |Pieces(p.grid, WP)| >= 2 && m in LegalMoves(p)
    ensures m.from.Valid() && m.to.Valid() && Legal(p, m.from, m.to)
    ensures WhiteAlive(Apply(p, m))
  {
    LegalMovesSpec(p, m);
    ApplyLosesAtMostOne(p, m, WP);
  }

  /** Every move of MS is legal in P. */
  ghost predicate AllLegal(p: Position, ms: seq<Move>)
    requires p.Valid()
  {
    forall m :: m in ms ==> m in LegalMoves(p)
  }

  /* ---------------- The boards findMove visits ---------------- */

  /**
   * T is the tree of boards findMove visits from a board holding P after
   * MADE moves with move limit LIMIT, searched to DEPTH: heuriScore at
   * depth 0, the winning value of a won game, otherwise a node over the
   * legal moves in legalMoves order whose subtrees are the trees of the
   * boards after each move.
   */
  ghost predicate IsGameTree(t: Tree, p: Position, made: int, limit: int, depth: nat)
    decreases t, 0
  {
    && WhiteAlive(p)
    && if depth == 0 then t == Leaf(Heuri(p))
       else if Outcome(p, made, limit) == Some(WP) then t == Leaf(WINNING_VALUE)
       else if Outcome(p, made, limit) == Some(BP) then t == Leaf(-WINNING_VALUE)
       else
         && t.Node? && t.moves == LegalMoves(p) && |t.kids| == |t.moves|
         && forall k :: 0 <= k < |t.kids| ==> IsChild(p, t.moves[k], depth - 1, t.kids[k])
  }

  /**
   * T is the tree of the copy findMove makes of a board holding P, with
   * legal move M made: one move made and the default move limit.
   */
  ghost predicate IsChild(p: Position, m: Move, depth: nat, t: Tree)
    decreases t, 1
  {
    && p.Valid() && m in LegalMoves(p) && m.from.Valid() && m.to.Valid()
    && IsGameTree(t, Apply(p, m), 1, DEFAULT_MOVE_LIMIT, depth)
  }

  /** Every position white is alive in has a game tree, to any depth. */
  lemma {:induction false} GameTreeExists(p: Position, made: int, limit: int, depth: nat) returns (t: Tree)
    requires WhiteAlive(p)
    ensures IsGameTree(t, p, made, limit, depth)
    decreases depth, 0, 0
  {
    if depth == 0 {
      t := Leaf(Heuri(p));
    } else if Outcome(p, made, limit) == Some(WP) {
      t := Leaf(WINNING_VALUE);
    } else if Outcome(p, made, limit) == Some(BP) {
      t := Leaf(-WINNING_VALUE);
    } else {
      UndecidedTwoWhite(p, made, limit);
      var ks := SubtreesExist(p, LegalMoves(p), depth - 1);
      t := Node(LegalMoves(p), ks);
    }
  }

  /** The moves MS, all legal from P, have game trees one level shallower. */
  lemma {:induction false} SubtreesExist(p: Position, ms: seq<Move>, depth: nat) returns (ks: seq<Tree>)
    requires p.Valid() && |Pieces(p.grid, WP)| >= 2 && AllLegal(p, ms)
    ensures |ks| == |ms| && forall k :: 0 <= k < |ms| ==> IsChild(p, ms[k], depth, ks[k])
    decreases depth, 2, |ms|
  {
    if ms == [] {
      ks := [];
    } else {
      var first := ChildExists(p, ms[0], depth);
      var rest := SubtreesExist(p, ms[1..], depth);
      ks := [first] + rest;
      forall k | 1 <= k < |ms|
        ensures IsChild(p, ms[k], depth, ks[k])
      {
        assert ms[k] == ms[1..][k - 1] && ks[k] == rest[k - 1];
      }
    }
  }

  /** A legal move M from P has a game tree one level shallower. */
  lemma {:induction false} ChildExists(p: Position, m: Move, depth: nat) returns (t: Tree)
    requires p.Valid() && |Pieces(p.grid, WP)| >= 2 && m in LegalMoves(p)
    ensures IsChild(p, m, depth, t)
    decreases depth, 1, 0
  {
    MoveKeepsWhite(p, m);
    t := GameTreeExists(Apply(p, m), 1, DEFAULT_MOVE_LIMIT, depth);
  }

  /** Every score in a game tree lies within -INFTY..INFTY. */
  lemma {:induction false} GameTreeBounded(t: Tree, p: Position, made: int, limit: int, depth: nat)
    requires IsGameTree(t, p, made, limit, depth)
    ensures Bounded(t)
    decreases t, 1
  {
    if depth == 0 {
      HeuriBounds(p);
    } else if t.Node? {
      forall k | 0 <= k < |t.kids|
        ensures Bounded(t.kids[k])
      {
        SubtreeBounded(t, p, made, limit, depth, k);
      }
    }
  }

  lemma {:induction false} SubtreeBounded(t: Tree, p: Position, made: int, limit: int, depth: nat, k: int)
    requires IsGameTree(t, p, made, limit, depth) && depth >= 1 && t.Node? && 0 <= k < |t.kids|
    ensures Bounded(t.kids[k])
    decreases t, 0
  {
    assert IsChild(p, t.moves[k], depth - 1, t.kids[k]);
    GameTreeBounded(t.kids[k], Apply(p, t.moves[k]), 1, DEFAULT_MOVE_LIMIT, depth - 1);
  }

  /**
   * findMove at the root of game tree T with the full window and no move
   * recorded returns the minimax value of T, and records a move exactly
   * when the game is undecided, the depth positive and some move legal;
   * that move is legal and its subtree has the root's minimax value.
   */
  lemma SearchFindsBestMove(t: Tree, p: Position, made: int, limit: int, depth: nat, sense: int)
    requires IsGameTree(t, p, made, limit, depth) && (sense == 1 || sense == -1)
    ensures var c := Search(t, sense, -INFTY, INFTY, None);
      && c.score == Minimax(t, sense)
      && (c.found.Some? <==> depth >= 1 && !Decided(p, made, limit) && LegalMoves(p) != [])
      && (c.found.Some? ==>
        && t.Node? && c.found.value in LegalMoves(p)
        && (exists k :: 0 <= k < |t.kids| && t.moves[k] == c.found.value
              && IsChild(p, t.moves[k], depth - 1, t.kids[k])
              && Minimax(t.kids[k], -sense) == Minimax(t, sense)))
  {
    GameTreeBounded(t, p, made, limit, depth);
    FullWindow(t, sense, None);
    if t.Node? && t.moves != [] {
      RootChoice(t.moves, t.kids, sense);
    }
  }

  /* ---------------- The player ---------------- */

  /**
   * The caches of board B describe its cells: the region lists, once
   * computed, are those of the current cells, and a known winner is the
   * one winner() would compute now.  Every board findMove is given (a copy
   * of a board, after at most one move) satisfies this.
   */
  ghost predicate Current(b: Board)
    reads b, b.grid
  {
    && b.Valid() && b.CachesAgree()
    && (b.subsetsInitialized ==> b.regionsGrid == b.grid[..])
    && (b.winnerKnown ==> b.winner == Outcome(b.Pos(), |b.moves|, b.moveLimit))
  }

  class MachinePlayer {
    /** The side this player moves for. */
    const side: Piece
    /** _foundMove: the move the last search recorded, if any. */
    var foundMove: Option<Move>

    constructor (side: Piece)
      ensures this.side == side && foundMove.None?
    {
      this.side := side;
      foundMove := None;
    }

    /** chooseDepth: the search depth. */
    function ChooseDepth(): nat {
      1
    }

    /** heuriScore: 100 times the number of black regions over the number of white regions. */
    method HeuriScore(board: Board) returns (value: int)
      requires Current(board) && WhiteAlive(board.Pos())
      modifies board`subsetsInitialized, board`whiteSizes, board`blackSizes, board`regionsGrid
      ensures Current(board)
      ensures value == Heuri(board.Pos())
    {
      var wSideContig := board.GetRegionSizes(WP);
      var bSideContig := board.GetRegionSizes(BP);
      RegionsNonEmpty(board.grid[..], WP);
      value := 100 * |bSideContig| / |wSideContig|;
    }

    /**
     * findMove: the score of BOARD searched DEPTH levels for SENSE with
     * window ALPHA..BETA, recording the move found in foundMove when
     * SAVEMOVE.  T is the game tree of the board, and the result is
     * exactly GameTrees.Search on T.
     */
    method FindMove(board: Board, depth: nat, saveMove: bool, sense: int, alpha: int, beta: int, ghost t: Tree)
      returns (score: int)
      requires Current(board) && IsGameTree(t, board.Pos(), |board.moves|, board.moveLimit, depth)
      modifies this`foundMove, board`subsetsInitialized, board`whiteSizes, board`blackSizes, board`regionsGrid
      modifies board`winnerKnown, board`winner
      ensures Current(board)
      ensures score == Search(t, sense, alpha, beta, old(foundMove)).score
      ensures foundMove == if saveMove then Search(t, sense, alpha, beta, old(foundMove)).found else old(foundMove)
      decreases depth, 1
    {
      if depth == 0 {
        score := HeuriScore(board);
        return;
      }
      var w := board.Winner();
      if w == Some(WP) {
        return WINNING_VALUE;
      }
      w := board.Winner();
      if w == Some(BP) {
        return -WINNING_VALUE;
      }
      var ms := board.LegalMoves();
      assert t == Node(ms, t.kids);
      score := SearchMoves(board, ms, depth, saveMove, sense, alpha, beta, t.kids);
    }

    /**
     * The loop of findMove over the legal moves MS of BOARD, KS the trees
     * after each: each move is scored on a copy of the board, the best
     * score and (when SAVEMOVE) its move are kept, and the window narrows
     * until it closes.
     */
    method SearchMoves(board: Board, ms: seq<Move>, depth: nat, saveMove: bool, sense: int, alpha: int, beta: int,
                       ghost ks: seq<Tree>)
      returns (bestScore: int)
      requires board.Valid() && depth >= 1 && |ks| == |ms|
      requires forall k :: 0 <= k < |ms| ==> IsChild(board.Pos(), ms[k], depth - 1, ks[k])
      modifies this`foundMove
      ensures var c := Loop(ms, ks, sense, alpha, beta, Choice(Worst(sense), old(foundMove)));
        bestScore == c.score && foundMove == if saveMove then c.found else old(foundMove)
      decreases depth, 0
    {
      ghost var whole := Loop(ms, ks, sense, alpha, beta, Choice(Worst(sense), old(foundMove)));
      bestScore := if sense == 1 then -INFTY else INFTY;
      ghost var found := foundMove;
      var a, b := alpha, beta;
      var k := 0;
      while k < |ms|
        invariant 0 <= k <= |ms|
        invariant Loop(ms[k..], ks[k..], sense, a, b, Choice(bestScore, found)) == whole
        invariant foundMove == if saveMove then found else old(foundMove)
      {
        var m := ms[k];
        ghost var found' := if found.None? then Some(m) else found;
        if saveMove && foundMove.None? {
          foundMove := Some(m);
        }
        var s := ChildScore(board, m, depth - 1, -sense, a, b, ks[k]);
        assert ms[k..][1..] == ms[k + 1..] && ks[k..][1..] == ks[k + 1..];
        if sense == 1 {
          if s > bestScore {
            if saveMove {
              foundMove := Some(m);
            }
            bestScore, found := s, Some(m);
          } else {
            found := found';
          }
          a := Max(s, a);
        } else {
          if s < bestScore {
            if saveMove {
              foundMove := Some(m);
            }
            bestScore, found := s, Some(m);
          } else {
            found := found';
          }
          b := Min(s, b);
        }
        if a >= b {
          assert whole == Choice(bestScore, found);
          break;
        }
        k := k + 1;
      }
      assert whole == Choice(bestScore, found);
    }

    /** The score of move M from BOARD: findMove on a copy of the board with M made, T its tree. */
    method ChildScore(board: Board, m: Move, depth: nat, sense: int, alpha: int, beta: int, ghost t: Tree)
      returns (score: int)
      requires board.Valid() && IsChild(board.Pos(), m, depth, t)
      modifies this`foundMove
      ensures foundMove == old(foundMove)
      ensures score == Search(t, sense, alpha, beta, None).score
      decreases depth, 2
    {
      ghost var p := board.Pos();
      LegalMovesSpec(p, m);
      var tmp := new Board.Copy(board);
      assert tmp.Pos() == p;
      tmp.MakeMove(m);
      assert tmp.Pos() == Apply(p, m) && |tmp.moves| == 1;
      score := FindMove(tmp, depth, false, sense, alpha, beta, t);
      SearchScore(t, sense, alpha, beta, old(foundMove), None);
    }

    /**
     * searchForMove: search a copy of BOARD (whose side to move is this
     * player's) to ChooseDepth() with the full window, maximizing for white
     * and minimizing for black, and return the move recorded.  T is the
     * game tree of the copy.
     */
    method SearchForMove(board: Board) returns (m: Option<Move>, ghost t: Tree)
      requires board.Valid() && side == board.turn && WhiteAlive(board.Pos())
      modifies this`foundMove
      ensures m == foundMove
      ensures IsGameTree(t, board.Pos(), 0, DEFAULT_MOVE_LIMIT, ChooseDepth())
      ensures var sense := if side == WP then 1 else -1;
        && m == Search(t, sense, -INFTY, INFTY, None).found
        && (m.Some? <==> !Decided(board.Pos(), 0, DEFAULT_MOVE_LIMIT) && LegalMoves(board.Pos()) != [])
        && (m.Some? ==>
          && t.Node? && m.value in LegalMoves(board.Pos())
          && exists k :: 0 <= k < |t.kids| && t.moves[k] == m.value && Minimax(t.kids[k], -sense) == Minimax(t, sense))
    {
      var work := new Board.Copy(board);
      foundMove := None;
      t := GameTreeExists(work.Pos(), 0, DEFAULT_MOVE_LIMIT, ChooseDepth());
      var value;
      if side == WP {
        value := FindMove(work, ChooseDepth(), true, 1, -INFTY, INFTY, t);
      } else {
        value := FindMove(work, ChooseDepth(), true, -1, -INFTY, INFTY, t);
      }
      SearchFindsBestMove(t, board.Pos(), 0, DEFAULT_MOVE_LIMIT, ChooseDepth(), if side == WP then 1 else -1);
      return foundMove, t;
    }
  }
}
