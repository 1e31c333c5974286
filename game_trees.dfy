/**
 * The search of loa/MachinePlayer.java's findMove on an explicit game tree.
 * A node lists the moves in the order findMove tries them and the subtree
 * each move leads to.  Search is findMove's fail-soft alpha-beta loop
 * (with its cut-off and the way it records _foundMove); Minimax is the
 * plain minimax value it approximates.  The fail-soft theorem relates the
 * two for every window, and at the full window findMove returns the
 * minimax value and records a move that achieves it.
 */
module GameTrees {
  import opened Wrappers
  import opened LoaPieces

  /** Integer.MAX_VALUE, the magnitude greater than any position score. */
  const INFTY := 0x7fff_ffff

  function Max(a: int, b: int): int {
    if a >= b then a else b
  }

  function Min(a: int, b: int): int {
    if a <= b then a else b
  }

  /** A leaf scored statically, or a node with the moves to try and the subtree after each. */
  datatype Tree = Leaf(value: int) | Node(moves: seq<Move>, kids: seq<Tree>)

  /** The best score so far and the move _foundMove then holds. */
  datatype Choice = Choice(score: int, found: Option<Move>)

  /** The score findMove starts from: -INFTY when maximizing (SENSE 1), INFTY otherwise. */
  function Worst(sense: int): int {
    if sense == 1 then -INFTY else INFTY
  }

  /** The better of two scores for SENSE: the larger for 1, the smaller otherwise. */
  function Better(sense: int, a: int, b: int): int {
    if sense == 1 then Max(a, b) else Min(a, b)
  }

  /* ---------------- findMove ---------------- */

  /**
   * findMove on T for SENSE with window ALPHA..BETA when _foundMove holds
   * FOUND and saveMove is true: the score returned and the move recorded.
   * A leaf returns its score and records nothing.
   */
  function Search(t: Tree, sense: int, alpha: int, beta: int, found: Option<Move>): Choice
    decreases t
  {
    match t
    case Leaf(v) => Choice(v, found)
    case Node(ms, ks) => Loop(ms, ks, sense, alpha, beta, Choice(Worst(sense), found))
  }

  /**
   * findMove's loop over moves MS with subtrees KS from best-so-far ACC:
   * the first move is recorded if none is; each subtree is searched for
   * the other side with the current window; a strictly better score is
   * kept with its move and narrows the window (alpha when maximizing, beta
   * otherwise); the loop stops once the window closes.
   */
  function Loop(ms: seq<Move>, ks: seq<Tree>, sense: int, alpha: int, beta: int, acc: Choice): Choice
    decreases ks
  {
    if ms == [] || ks == [] then acc
    else
      var m := ms[0];
      var found := if acc.found.None? then Some(m) else acc.found;
      var score := Search(ks[0], -sense, alpha, beta, None).score;
      var better := if sense == 1 then score > acc.score else score < acc.score;
      var next := if better then Choice(score, Some(m)) else Choice(acc.score, found);
      var alpha' := if sense == 1 then Max(score, alpha) else alpha;
      var beta' := if sense == 1 then beta else Min(score, beta);
      if alpha' >= beta' then next
      else Loop(ms[1..], ks[1..], sense, alpha', beta', next)
  }

  /** The score findMove returns does not depend on what _foundMove held. */
  lemma {:induction false} SearchScore(t: Tree, sense: int, alpha: int, beta: int, f: Option<Move>, f': Option<Move>)
    ensures Search(t, sense, alpha, beta, f).score == Search(t, sense, alpha, beta, f').score
    decreases t
  {
    match t
    case Leaf(_) =>
    case Node(ms, ks) => LoopScore(ms, ks, sense, alpha, beta, Worst(sense), f, f');
  }

  lemma {:induction false} LoopScore(ms: seq<Move>, ks: seq<Tree>, sense: int, alpha: int, beta: int, best: int, f: Option<Move>, f': Option<Move>)
    ensures Loop(ms, ks, sense, alpha, beta, Choice(best, f)).score == Loop(ms, ks, sense, alpha, beta, Choice(best, f')).score
    decreases ks
  {
    if ms != [] && ks != [] {
      var score := Search(ks[0], -sense, alpha, beta, None).score;
      var better := if sense == 1 then score > best else score < best;
      var alpha' := if sense == 1 then Max(score, alpha) else alpha;
      var beta' := if sense == 1 then beta else Min(score, beta);
      if !better && alpha' < beta' {
        LoopScore(ms[1..], ks[1..], sense, alpha', beta', best,
          if f.None? then Some(ms[0]) else f, if f'.None? then Some(ms[0]) else f');
      }
    }
  }

  /* ---------------- Minimax ---------------- */

  /** The minimax value of T for SENSE: a leaf's score, or the best of the subtrees' values from Worst(sense). */
  function Minimax(t: Tree, sense: int): int
    decreases t
  {
    match t
    case Leaf(v) => v
    case Node(ms, ks) => Best(ms, ks, sense, Worst(sense))
  }

  /** ACC combined, by Better, with the value of each subtree that has a move, for the other side. */
  function Best(ms: seq<Move>, ks: seq<Tree>, sense: int, acc: int): int
    decreases ks
  {
    if ms == [] || ks == [] then acc
    else Best(ms[1..], ks[1..], sense, Better(sense, acc, Minimax(ks[0], -sense)))
  }

  /** Starting from a better score gives the better of that score and the result. */
  lemma {:induction false} BestShift(ms: seq<Move>, ks: seq<Tree>, sense: int, x: int, y: int)
    ensures Best(ms, ks, sense, Better(sense, x, y)) == Better(sense, x, Best(ms, ks, sense, y))
    decreases ks
  {
    if ms != [] && ks != [] {
      BestShift(ms[1..], ks[1..], sense, x, Better(sense, y, Minimax(ks[0], -sense)));
    }
  }

  /** Best is at least as good as its start and as the value of every subtree that has a move. */
  lemma {:induction false} BestBound(ms: seq<Move>, ks: seq<Tree>, sense: int, acc: int, k: int)
    requires 0 <= k < |ms| && k < |ks|
    ensures Better(sense, Best(ms, ks, sense, acc), acc) == Best(ms, ks, sense, acc)
    ensures Better(sense, Best(ms, ks, sense, acc), Minimax(ks[k], -sense)) == Best(ms, ks, sense, acc)
    decreases ks
  {
    var acc' := Better(sense, acc, Minimax(ks[0], -sense));
    if k == 0 {
      BestShift(ms[1..], ks[1..], sense, acc', acc');
    } else {
      BestBound(ms[1..], ks[1..], sense, acc', k - 1);
    }
  }

  /* ---------------- The fail-soft theorem ---------------- */

  /**
   * R is a fail-soft estimate of the value V for window ALPHA..BETA:
   * exact inside the window, an upper bound no higher than ALPHA below it,
   * a lower bound no lower than BETA above it.
   */
  predicate FailSoft(v: int, r: int, alpha: int, beta: int) {
    && (v <= alpha ==> v <= r <= alpha)
    && (alpha < v < beta ==> r == v)
    && (beta <= v ==> beta <= r <= v)
  }

  /** findMove's score is a fail-soft estimate of the minimax value, for every window inside -INFTY..INFTY. */
  lemma {:induction false} SearchFailSoft(t: Tree, sense: int, alpha: int, beta: int, f: Option<Move>)
    requires -INFTY <= alpha < beta <= INFTY && (sense == 1 || sense == -1)
    ensures FailSoft(Minimax(t, sense), Search(t, sense, alpha, beta, f).score, alpha, beta)
    decreases t, 1
  {
    match t
    case Leaf(_) =>
    case Node(ms, ks) =>
      if sense == 1 {
        LoopFailSoftMax(ms, ks, alpha, beta, Worst(sense), f);
      } else {
        LoopFailSoftMin(ms, ks, alpha, beta, Worst(sense), f);
      }
  }

  /** The maximizing loop, from best-so-far BEST, is a fail-soft estimate of Best. */
  lemma {:induction false} LoopFailSoftMax(ms: seq<Move>, ks: seq<Tree>, alpha: int, beta: int, best: int, f: Option<Move>)
    requires -INFTY <= alpha < beta <= INFTY && best <= alpha
    ensures FailSoft(Best(ms, ks, 1, best), Loop(ms, ks, 1, alpha, beta, Choice(best, f)).score, alpha, beta)
    decreases ks, 0
  {
    if ms != [] && ks != [] {
      var v0 := Minimax(ks[0], -1);
      var r := Search(ks[0], -1, alpha, beta, None).score;
      SearchFailSoft(ks[0], -1, alpha, beta, None);
      var found := if f.None? then Some(ms[0]) else f;
      var next := Choice(Max(best, r), if r > best then Some(ms[0]) else found);
      if Max(r, alpha) < beta {
        LoopFailSoftMax(ms[1..], ks[1..], Max(r, alpha), beta, next.score, next.found);
      }
      MaxStep(ms[1..], ks[1..], v0, r, best, alpha, beta,
        Loop(ms[1..], ks[1..], 1, Max(r, alpha), beta, next).score);
    }
  }

  /** The minimizing loop, from best-so-far BEST, is a fail-soft estimate of Best. */
  lemma {:induction false} LoopFailSoftMin(ms: seq<Move>, ks: seq<Tree>, alpha: int, beta: int, best: int, f: Option<Move>)
    requires -INFTY <= alpha < beta <= INFTY && beta <= best
    ensures FailSoft(Best(ms, ks, -1, best), Loop(ms, ks, -1, alpha, beta, Choice(best, f)).score, alpha, beta)
    decreases ks, 0
  {
    if ms != [] && ks != [] {
      var v0 := Minimax(ks[0], 1);
      var r := Search(ks[0], 1, alpha, beta, None).score;
      SearchFailSoft(ks[0], 1, alpha, beta, None);
      var found := if f.None? then Some(ms[0]) else f;
      var next := Choice(Min(best, r), if r < best then Some(ms[0]) else found);
      if alpha < Min(r, beta) {
        LoopFailSoftMin(ms[1..], ks[1..], alpha, Min(r, beta), next.score, next.found);
      }
      MinStep(ms[1..], ks[1..], v0, r, best, alpha, beta,
        Loop(ms[1..], ks[1..], -1, alpha, Min(r, beta), next).score);
    }
  }

  /** One maximizing turn of the loop keeps the fail-soft relation, whether or not it cuts off. */
  lemma MaxStep(ms: seq<Move>, ks: seq<Tree>, v0: int, r: int, best: int, alpha: int, beta: int, tail: int)
    requires best <= alpha < beta && FailSoft(v0, r, alpha, beta)
    requires Max(r, alpha) < beta ==> FailSoft(Best(ms, ks, 1, Max(best, r)), tail, Max(r, alpha), beta)
    ensures FailSoft(Best(ms, ks, 1, Max(best, v0)), if Max(r, alpha) >= beta then Max(best, r) else tail, alpha, beta)
  {
    BestShift(ms, ks, 1, Max(best, v0), Max(best, v0));
    BestShift(ms, ks, 1, Max(best, r), Max(best, v0));
  }

  /** One minimizing turn of the loop keeps the fail-soft relation, whether or not it cuts off. */
  lemma MinStep(ms: seq<Move>, ks: seq<Tree>, v0: int, r: int, best: int, alpha: int, beta: int, tail: int)
    requires alpha < beta <= best && FailSoft(v0, r, alpha, beta)
    requires alpha < Min(r, beta) ==> FailSoft(Best(ms, ks, -1, Min(best, r)), tail, alpha, Min(r, beta))
    ensures FailSoft(Best(ms, ks, -1, Min(best, v0)), if alpha >= Min(r, beta) then Min(best, r) else tail, alpha, beta)
  {
    BestShift(ms, ks, -1, Min(best, v0), Min(best, v0));
    BestShift(ms, ks, -1, Min(best, r), Min(best, v0));
  }

  /* ---------------- The full window ---------------- */

  /** Every leaf score lies within -INFTY..INFTY. */
  predicate Bounded(t: Tree)
    decreases t
  {
    match t
    case Leaf(v) => -INFTY <= v <= INFTY
    case Node(_, ks) => forall k :: 0 <= k < |ks| ==> Bounded(ks[k])
  }

  lemma {:induction false} MinimaxBounded(t: Tree, sense: int)
    requires Bounded(t)
    ensures -INFTY <= Minimax(t, sense) <= INFTY
    decreases t, 1
  {
    match t
    case Leaf(_) =>
    case Node(ms, ks) => BestBounded(ms, ks, sense, Worst(sense));
  }

  lemma {:induction false} BestBounded(ms: seq<Move>, ks: seq<Tree>, sense: int, acc: int)
    requires -INFTY <= acc <= INFTY && forall k :: 0 <= k < |ks| ==> Bounded(ks[k])
    ensures -INFTY <= Best(ms, ks, sense, acc) <= INFTY
    decreases ks, 0
  {
    if ms != [] && ks != [] {
      MinimaxBounded(ks[0], -sense);
      BestBounded(ms[1..], ks[1..], sense, Better(sense, acc, Minimax(ks[0], -sense)));
    }
  }

  /** With the full window -INFTY..INFTY, findMove returns exactly the minimax value. */
  lemma FullWindow(t: Tree, sense: int, f: Option<Move>)
    requires Bounded(t) && (sense == 1 || sense == -1)
    ensures Search(t, sense, -INFTY, INFTY, f).score == Minimax(t, sense)
  {
    MinimaxBounded(t, sense);
    SearchFailSoft(t, sense, -INFTY, INFTY, f);
  }

  /**
   * The maximizing loop with window BEST..INFTY and best-so-far BEST either
   * ends where it started (recording the first move if none was), or ends
   * with a move whose subtree has exactly the score returned.
   */
  lemma {:induction false} RootLoopMax(ms: seq<Move>, ks: seq<Tree>, best: int, f: Option<Move>)
    requires -INFTY <= best < INFTY && forall k :: 0 <= k < |ks| ==> Bounded(ks[k])
    ensures var c := Loop(ms, ks, 1, best, INFTY, Choice(best, f));
      || (c.score == best && c.found == if f.None? && ms != [] && ks != [] then Some(ms[0]) else f)
      || exists i :: 0 <= i < |ms| && i < |ks| && c.found == Some(ms[i]) && Minimax(ks[i], -1) == c.score
    decreases ks
  {
    if ms != [] && ks != [] {
      var v0 := Minimax(ks[0], -1);
      var r := Search(ks[0], -1, best, INFTY, None).score;
      MinimaxBounded(ks[0], -1);
      SearchFailSoft(ks[0], -1, best, INFTY, None);
      var found := if f.None? then Some(ms[0]) else f;
      var next := if r > best then Choice(r, Some(ms[0])) else Choice(best, found);
      var c := Loop(ms, ks, 1, best, INFTY, Choice(best, f));
      if Max(r, best) >= INFTY {
        assert c == next && r == v0;
        assert 0 < |ms| && 0 < |ks| && c.found == Some(ms[0]) && Minimax(ks[0], -1) == c.score;
      } else {
        RootLoopMax(ms[1..], ks[1..], next.score, next.found);
        var c' := Loop(ms[1..], ks[1..], 1, next.score, INFTY, next);
        assert c == c';
        if exists i :: 0 <= i < |ms[1..]| && i < |ks[1..]| && c'.found == Some(ms[1..][i]) && Minimax(ks[1..][i], -1) == c'.score {
          var i :| 0 <= i < |ms[1..]| && i < |ks[1..]| && c'.found == Some(ms[1..][i]) && Minimax(ks[1..][i], -1) == c'.score;
          assert 0 <= i + 1 < |ms| && i + 1 < |ks| && c.found == Some(ms[i + 1]) && Minimax(ks[i + 1], -1) == c.score;
        } else if r > best {
          assert r == v0;
          assert 0 < |ms| && 0 < |ks| && c.found == Some(ms[0]) && Minimax(ks[0], -1) == c.score;
        }
      }
    }
  }

  /** The minimizing counterpart of RootLoopMax, with window -INFTY..BEST. */
  lemma {:induction false} RootLoopMin(ms: seq<Move>, ks: seq<Tree>, best: int, f: Option<Move>)
    requires -INFTY < best <= INFTY && forall k :: 0 <= k < |ks| ==> Bounded(ks[k])
    ensures var c := Loop(ms, ks, -1, -INFTY, best, Choice(best, f));
      || (c.score == best && c.found == if f.None? && ms != [] && ks != [] then Some(ms[0]) else f)
      || exists i :: 0 <= i < |ms| && i < |ks| && c.found == Some(ms[i]) && Minimax(ks[i], 1) == c.score
    decreases ks
  {
    if ms != [] && ks != [] {
      var v0 := Minimax(ks[0], 1);
      var r := Search(ks[0], 1, -INFTY, best, None).score;
      MinimaxBounded(ks[0], 1);
      SearchFailSoft(ks[0], 1, -INFTY, best, None);
      var found := if f.None? then Some(ms[0]) else f;
      var next := if r < best then Choice(r, Some(ms[0])) else Choice(best, found);
      var c := Loop(ms, ks, -1, -INFTY, best, Choice(best, f));
      if -INFTY >= Min(r, best) {
        assert c == next && r == v0;
        assert 0 < |ms| && 0 < |ks| && c.found == Some(ms[0]) && Minimax(ks[0], 1) == c.score;
      } else {
        RootLoopMin(ms[1..], ks[1..], next.score, next.found);
        var c' := Loop(ms[1..], ks[1..], -1, -INFTY, next.score, next);
        assert c == c';
        if exists i :: 0 <= i < |ms[1..]| && i < |ks[1..]| && c'.found == Some(ms[1..][i]) && Minimax(ks[1..][i], 1) == c'.score {
          var i :| 0 <= i < |ms[1..]| && i < |ks[1..]| && c'.found == Some(ms[1..][i]) && Minimax(ks[1..][i], 1) == c'.score;
          assert 0 <= i + 1 < |ms| && i + 1 < |ks| && c.found == Some(ms[i + 1]) && Minimax(ks[i + 1], 1) == c.score;
        } else if r < best {
          assert r == v0;
          assert 0 < |ms| && 0 < |ks| && c.found == Some(ms[0]) && Minimax(ks[0], 1) == c.score;
        }
      }
    }
  }

  /**
   * searchForMove's promise: findMove at the root of a node with at least
   * one move, with the full window and no move recorded, records one of
   * the node's moves whose subtree has the node's minimax value.
   */
  lemma RootChoice(ms: seq<Move>, ks: seq<Tree>, sense: int)
    requires Bounded(Node(ms, ks)) && (sense == 1 || sense == -1) && ms != [] && ks != []
    ensures var c := Search(Node(ms, ks), sense, -INFTY, INFTY, None);
      exists i :: 0 <= i < |ms| && i < |ks| && c.found == Some(ms[i]) && Minimax(ks[i], -sense) == Minimax(Node(ms, ks), sense)
  {
    var t := Node(ms, ks);
    var c := Search(t, sense, -INFTY, INFTY, None);
    FullWindow(t, sense, None);
    if sense == 1 {
      RootLoopMax(ms, ks, -INFTY, None);
    } else {
      RootLoopMin(ms, ks, INFTY, None);
    }
    if c.score == Worst(sense) && c.found == Some(ms[0]) {
      MinimaxBounded(ks[0], -sense);
      BestBound(ms, ks, sense, Worst(sense), 0);
      assert Minimax(ks[0], -sense) == c.score;
    }
  }
}
