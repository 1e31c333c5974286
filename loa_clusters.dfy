/**
 * What numContig and computeRegions compute, stated through chains of
 * touching pieces: a fill from an unvisited piece visits exactly the
 * 8-connected cluster of that piece, the region sizes of a side are the
 * sizes of its clusters, one entry per cluster, and a side has a single
 * region exactly when every two of its pieces are joined by a chain.
 */
module LoaClusters {
  import opened LoaPieces
  import opened LoaRules
  import opened LoaRegions

  /* ---------------- Chains and clusters ---------------- */

  /** A chain of pieces of colour P, each touching the next. */
  ghost predicate IsPath(g: seq<Piece>, p: Piece, path: seq<Square>)
    requires |g| == BOARD_SIZE * BOARD_SIZE
  {
    && |path| >= 1
    && (forall k :: 0 <= k < |path| ==> path[k] in Pieces(g, p))
    && (forall k :: 0 < k < |path| ==> Adjacent(path[k - 1], path[k]))
  }

  /** A chain of P's pieces leads from A to B. */
  ghost predicate Connected(g: seq<Piece>, p: Piece, a: Square, b: Square)
    requires |g| == BOARD_SIZE * BOARD_SIZE
  {
    exists path :: IsPath(g, p, path) && path[0] == a && path[|path| - 1] == b
  }

  /** The cluster of S: the pieces of colour P that a chain joins to S. */
  ghost function Cluster(g: seq<Piece>, p: Piece, s: Square): set<Square>
    requires |g| == BOARD_SIZE * BOARD_SIZE
  {
    set t | t in Pieces(g, p) && Connected(g, p, s, t)
  }

  lemma PieceValid(g: seq<Piece>, p: Piece, s: Square)
    requires |g| == BOARD_SIZE * BOARD_SIZE
    ensures s in Pieces(g, p) <==> s.Valid() && g[s.Index()] == p
  {
    InAllSquares(s);
  }

  /** Both ends of a chain are pieces of its colour. */
  lemma ConnectedEnds(g: seq<Piece>, p: Piece, a: Square, b: Square)
    requires |g| == BOARD_SIZE * BOARD_SIZE && Connected(g, p, a, b)
    ensures a in Pieces(g, p) && b in Pieces(g, p)
  {
    var path :| IsPath(g, p, path) && path[0] == a && path[|path| - 1] == b;
    assert path[|path| - 1] in Pieces(g, p);
  }

  /** Every piece is joined to itself. */
  lemma ConnectedSelf(g: seq<Piece>, p: Piece, s: Square)
    requires |g| == BOARD_SIZE * BOARD_SIZE && s in Pieces(g, p)
    ensures Connected(g, p, s, s)
  {
    assert IsPath(g, p, [s]);
  }

  /** A chain to B extends to a piece touching B. */
  lemma ConnectedStep(g: seq<Piece>, p: Piece, a: Square, b: Square, c: Square)
    requires |g| == BOARD_SIZE * BOARD_SIZE
    requires Connected(g, p, a, b) && c in Pieces(g, p) && Adjacent(b, c)
    ensures Connected(g, p, a, c)
  {
    var path :| IsPath(g, p, path) && path[0] == a && path[|path| - 1] == b;
    var q := path + [c];
    assert q[|q| - 1] == c && q[0] == a;
    assert IsPath(g, p, q);
  }

  /** A chain read backwards is a chain, since touching is symmetric. */
  lemma ConnectedSymmetric(g: seq<Piece>, p: Piece, a: Square, b: Square)
    requires |g| == BOARD_SIZE * BOARD_SIZE && Connected(g, p, a, b)
    ensures Connected(g, p, b, a)
  {
    var path :| IsPath(g, p, path) && path[0] == a && path[|path| - 1] == b;
    var n := |path|;
    var q := seq(n, k requires 0 <= k < n => path[n - 1 - k]);
    forall k | 0 < k < n
      ensures Adjacent(q[k - 1], q[k])
    {
      assert Adjacent(path[n - 1 - k], path[n - k]);
    }
    assert IsPath(g, p, q) && q[0] == b && q[n - 1] == a;
  }

  /** Chains from A to B and from B to C join into one from A to C. */
  lemma ConnectedTrans(g: seq<Piece>, p: Piece, a: Square, b: Square, c: Square)
    requires |g| == BOARD_SIZE * BOARD_SIZE
    requires Connected(g, p, a, b) && Connected(g, p, b, c)
    ensures Connected(g, p, a, c)
  {
    var p1 :| IsPath(g, p, p1) && p1[0] == a && p1[|p1| - 1] == b;
    var p2 :| IsPath(g, p, p2) && p2[0] == b && p2[|p2| - 1] == c;
    var q := p1 + p2[1..];
    forall k | 0 < k < |q|
      ensures Adjacent(q[k - 1], q[k])
    {
      if k >= |p1| {
        assert q[k - 1] == p2[k - |p1|] && q[k] == p2[k - |p1| + 1];
      }
    }
    assert IsPath(g, p, q) && q[0] == a && q[|q| - 1] == c;
  }

  /** Pieces in different clusters: clusters of unjoined pieces share nothing. */
  lemma ClustersDisjoint(g: seq<Piece>, p: Piece, a: Square, b: Square)
    requires |g| == BOARD_SIZE * BOARD_SIZE && !Connected(g, p, a, b)
    ensures Cluster(g, p, a) * Cluster(g, p, b) == {}
  {
    forall t | t in Cluster(g, p, a) && t in Cluster(g, p, b)
      ensures false
    {
      ConnectedSymmetric(g, p, b, t);
      ConnectedTrans(g, p, a, t, b);
    }
  }

  /* ---------------- Closed sets ---------------- */

  /** W holds, with each of its pieces of colour P, every piece of colour P touching it. */
  ghost predicate ClosedFor(g: seq<Piece>, p: Piece, w: set<Square>)
    requires |g| == BOARD_SIZE * BOARD_SIZE
  {
    forall x, y {:trigger Adjacent(x, y)} :: x in w && x in Pieces(g, p) && y in Pieces(g, p) && Adjacent(x, y) ==> y in w
  }

  /** The squares W adds to V touch no piece of colour P outside W. */
  ghost predicate ClosedBeyond(g: seq<Piece>, p: Piece, v: set<Square>, w: set<Square>)
    requires |g| == BOARD_SIZE * BOARD_SIZE
  {
    forall x, y {:trigger Adjacent(x, y)} :: x in w && x !in v && y in Pieces(g, p) && Adjacent(x, y) ==> y in w
  }

  /** A closed set holding A holds everything a chain joins to A. */
  lemma ClosedConnected(g: seq<Piece>, p: Piece, w: set<Square>, a: Square, b: Square)
    requires |g| == BOARD_SIZE * BOARD_SIZE
    requires ClosedFor(g, p, w) && a in w && Connected(g, p, a, b)
    ensures b in w
  {
    var path :| IsPath(g, p, path) && path[0] == a && path[|path| - 1] == b;
    var k := 0;
    while k < |path| - 1
      invariant 0 <= k < |path| && path[k] in w
    {
      assert Adjacent(path[k], path[k + 1]);
      k := k + 1;
    }
  }

  /* ---------------- numContig visits the cluster ---------------- */

  /**
   * After numContig(S, V, P), S is visited when it is a piece of colour P,
   * and every piece of colour P touching a newly visited square is visited.
   */
  lemma {:induction false} ContigClosed(g: seq<Piece>, p: Piece, v: set<Square>, s: Square)
    requires |g| == BOARD_SIZE * BOARD_SIZE && s.Valid()
    ensures p != EMP && g[s.Index()] == p ==> s in Contig(g, p, v, s).visited
    ensures ClosedBeyond(g, p, v, Contig(g, p, v, s).visited)
    decreases |Free(v)|, 0, 0
  {
    if p != EMP && g[s.Index()] == p && s !in v {
      FreeShrinks(v, v + {s}, s);
      var f := ContigList(g, p, v + {s}, Neighbors(s));
      ContigListClosed(g, p, v + {s}, Neighbors(s));
      forall x, y | x in f.visited && x !in v && y in Pieces(g, p) && Adjacent(x, y)
        ensures y in f.visited
      {
        if x == s {
          PieceValid(g, p, y);
          NeighborsAdjacent(s, y);
        }
      }
    }
  }

  /**
   * After the loop of numContig over NS, every piece of colour P in NS is
   * visited, and every piece of colour P touching a newly visited square is.
   */
  lemma {:induction false} ContigListClosed(g: seq<Piece>, p: Piece, v: set<Square>, ns: seq<Square>)
    requires |g| == BOARD_SIZE * BOARD_SIZE && ValidSquares(ns)
    ensures p != EMP ==> forall n :: n in ns && n in Pieces(g, p) ==> n in ContigList(g, p, v, ns).visited
    ensures ClosedBeyond(g, p, v, ContigList(g, p, v, ns).visited)
    decreases |Free(v)|, 1, |ns|
  {
    if ns != [] {
      var a := Contig(g, p, v, ns[0]);
      ContigClosed(g, p, v, ns[0]);
      FreeMonotone(v, a.visited);
      var b := ContigList(g, p, a.visited, ns[1..]);
      ContigListClosed(g, p, a.visited, ns[1..]);
      assert b.visited == ContigList(g, p, v, ns).visited;
      assert a.visited <= b.visited;
      forall n | p != EMP && n in ns && n in Pieces(g, p)
        ensures n in b.visited
      {
        PieceValid(g, p, n);
        if n != ns[0] {
          assert n in ns[1..];
        }
      }
      forall x, y | x in b.visited && x !in v && y in Pieces(g, p) && Adjacent(x, y)
        ensures y in b.visited
      {
        if x in a.visited {
          assert y in a.visited;
        }
      }
    }
  }

  /** Every square numContig(S, V, P) newly visits is joined to S by a chain of P's pieces. */
  lemma {:induction false} ContigSound(g: seq<Piece>, p: Piece, v: set<Square>, s: Square)
    requires |g| == BOARD_SIZE * BOARD_SIZE && s.Valid()
    ensures forall t :: t in Contig(g, p, v, s).visited && t !in v ==> Connected(g, p, s, t)
    decreases |Free(v)|, 0, 0
  {
    if p != EMP && g[s.Index()] == p && s !in v {
      FreeShrinks(v, v + {s}, s);
      var f := ContigList(g, p, v + {s}, Neighbors(s));
      ContigListSound(g, p, v + {s}, Neighbors(s));
      PieceValid(g, p, s);
      forall t | t in f.visited && t !in v
        ensures Connected(g, p, s, t)
      {
        if t == s {
          ConnectedSelf(g, p, s);
        } else {
          var n :| n in Neighbors(s) && Connected(g, p, n, t);
          ConnectedEnds(g, p, n, t);
          NeighborsAdjacent(s, n);
          ConnectedSelf(g, p, s);
          ConnectedStep(g, p, s, s, n);
          ConnectedTrans(g, p, s, n, t);
        }
      }
    }
  }

  /** Every square the loop over NS newly visits is joined to a square of NS. */
  lemma {:induction false} ContigListSound(g: seq<Piece>, p: Piece, v: set<Square>, ns: seq<Square>)
    requires |g| == BOARD_SIZE * BOARD_SIZE && ValidSquares(ns)
    ensures forall t :: t in ContigList(g, p, v, ns).visited && t !in v ==>
              exists n :: n in ns && Connected(g, p, n, t)
    decreases |Free(v)|, 1, |ns|
  {
    if ns != [] {
      var a := Contig(g, p, v, ns[0]);
      ContigSound(g, p, v, ns[0]);
      FreeMonotone(v, a.visited);
      var b := ContigList(g, p, a.visited, ns[1..]);
      ContigListSound(g, p, a.visited, ns[1..]);
      forall t | t in b.visited && t !in v
        ensures exists n :: n in ns && Connected(g, p, n, t)
      {
        if t in a.visited {
          assert ns[0] in ns && Connected(g, p, ns[0], t);
        } else {
          var n :| n in ns[1..] && Connected(g, p, n, t);
          assert n in ns;
        }
      }
    }
  }

  /**
   * The size of the as-yet unvisited cluster containing S: when V holds
   * each of its pieces of colour P together with the pieces touching it,
   * numContig from an unvisited piece S of colour P visits exactly the
   * cluster of S, counts its size, and leaves a visited set of the same kind.
   */
  lemma ContigIsCluster(g: seq<Piece>, p: Piece, v: set<Square>, s: Square)
    requires |g| == BOARD_SIZE * BOARD_SIZE && s.Valid()
    requires p != EMP && g[s.Index()] == p && s !in v && ClosedFor(g, p, v)
    ensures Contig(g, p, v, s).visited - v == Cluster(g, p, s)
    ensures Contig(g, p, v, s).visited == v + Cluster(g, p, s)
    ensures Contig(g, p, v, s).count == |Cluster(g, p, s)|
    ensures ClosedFor(g, p, Contig(g, p, v, s).visited)
  {
    var f := Contig(g, p, v, s);
    ContigClosed(g, p, v, s);
    ContigSound(g, p, v, s);
    PieceValid(g, p, s);
    forall x, y | x in f.visited && x in Pieces(g, p) && y in Pieces(g, p) && Adjacent(x, y)
      ensures y in f.visited
    {
      if x in v {
        assert y in v;
      }
    }
    forall t | t in Cluster(g, p, s)
      ensures t in f.visited - v
    {
      ClosedConnected(g, p, f.visited, s, t);
      if t in v {
        ConnectedSymmetric(g, p, s, t);
        ClosedConnected(g, p, v, t, s);
      }
    }
  }

  /* ---------------- computeRegions finds the clusters ---------------- */

  /** The squares where computeRegions starts a fill of colour SIDE, in scan order. */
  ghost function StartsUpTo(g: seq<Piece>, side: Piece, c: int, r: int): seq<Square>
    requires |g| == BOARD_SIZE * BOARD_SIZE
    requires (0 <= c < BOARD_SIZE && 0 <= r <= BOARD_SIZE) || (c == BOARD_SIZE && r == 0)
    decreases g, c, r
  {
    if r > 0 then
      var s := Sq(c, r - 1);
      var started := side != EMP && g[s.Index()] == side && s !in ScanUpTo(g, c, r - 1).visited;
      StartsUpTo(g, side, c, r - 1) + (if started then [s] else [])
    else if c > 0 then StartsUpTo(g, side, c - 1, BOARD_SIZE)
    else []
  }

  /** The clusters of the squares of WS, together. */
  ghost function Clusters(g: seq<Piece>, p: Piece, ws: seq<Square>): set<Square>
    requires |g| == BOARD_SIZE * BOARD_SIZE
  {
    if ws == [] then {} else Clusters(g, p, ws[..|ws| - 1]) + Cluster(g, p, ws[|ws| - 1])
  }

  /** The cluster of each start is part of the union. */
  lemma {:induction false} InClusters(g: seq<Piece>, p: Piece, ws: seq<Square>, k: int)
    requires |g| == BOARD_SIZE * BOARD_SIZE && 0 <= k < |ws|
    ensures Cluster(g, p, ws[k]) <= Clusters(g, p, ws)
  {
    if k < |ws| - 1 {
      InClusters(g, p, ws[..|ws| - 1], k);
    }
  }

  /** A square of the union is joined to one of the starts. */
  lemma {:induction false} FromClusters(g: seq<Piece>, p: Piece, ws: seq<Square>, t: Square)
    requires |g| == BOARD_SIZE * BOARD_SIZE && t in Clusters(g, p, ws)
    ensures exists k :: 0 <= k < |ws| && Connected(g, p, ws[k], t)
  {
    if t !in Cluster(g, p, ws[|ws| - 1]) {
      FromClusters(g, p, ws[..|ws| - 1], t);
      var k :| 0 <= k < |ws| - 1 && Connected(g, p, ws[..|ws| - 1][k], t);
      assert ws[..|ws| - 1][k] == ws[k];
    }
  }

  /**
   * The fills of colour P so far: one per start in WS, each of the size of
   * its start's cluster, no two starts joined, and together they make up
   * the pieces of colour P in V.
   */
  ghost predicate FillsOf(g: seq<Piece>, p: Piece, ws: seq<Square>, sizes: seq<int>, v: set<Square>)
    requires |g| == BOARD_SIZE * BOARD_SIZE
  {
    && |ws| == |sizes|
    && (forall k :: 0 <= k < |ws| ==> ws[k] in Pieces(g, p) && sizes[k] == |Cluster(g, p, ws[k])|)
    && (forall k, j :: 0 <= k < j < |ws| ==> !Connected(g, p, ws[k], ws[j]))
    && v * Pieces(g, p) == Clusters(g, p, ws)
  }

  /** What computeRegions keeps true about clusters once it has passed the squares before column C, row R. */
  ghost predicate RegionInvariant(g: seq<Piece>, c: int, r: int, st: Scan)
    requires |g| == BOARD_SIZE * BOARD_SIZE
    requires (0 <= c < BOARD_SIZE && 0 <= r <= BOARD_SIZE) || (c == BOARD_SIZE && r == 0)
  {
    && ClosedFor(g, WP, st.visited) && ClosedFor(g, BP, st.visited)
    && FillsOf(g, WP, StartsUpTo(g, WP, c, r), st.white, st.visited)
    && FillsOf(g, BP, StartsUpTo(g, BP, c, r), st.black, st.visited)
  }

  /** A fill of colour P from an unvisited piece S adds the cluster of S as a new region. */
  lemma FillAdds(g: seq<Piece>, p: Piece, ws: seq<Square>, sizes: seq<int>, v: set<Square>, s: Square)
    requires |g| == BOARD_SIZE * BOARD_SIZE && s.Valid()
    requires p != EMP && g[s.Index()] == p && s !in v
    requires ClosedFor(g, p, v) && FillsOf(g, p, ws, sizes, v)
    ensures ClosedFor(g, p, Contig(g, p, v, s).visited)
    ensures FillsOf(g, p, ws + [s], sizes + [Contig(g, p, v, s).count], Contig(g, p, v, s).visited)
  {
    var f := Contig(g, p, v, s);
    ContigIsCluster(g, p, v, s);
    PieceValid(g, p, s);
    StartApart(g, p, ws, sizes, v, s);
    assert f.visited * Pieces(g, p) == v * Pieces(g, p) + Cluster(g, p, s);
    FillsSnoc(g, p, ws, sizes, v, f.visited, s, f.count);
  }

  /** A piece outside V is joined to none of the starts whose clusters V holds. */
  lemma StartApart(g: seq<Piece>, p: Piece, ws: seq<Square>, sizes: seq<int>, v: set<Square>, s: Square)
    requires |g| == BOARD_SIZE * BOARD_SIZE && s !in v && s in Pieces(g, p)
    requires FillsOf(g, p, ws, sizes, v)
    ensures forall k :: 0 <= k < |ws| ==> !Connected(g, p, ws[k], s)
  {
    forall k | 0 <= k < |ws|
      ensures !Connected(g, p, ws[k], s)
    {
      InClusters(g, p, ws, k);
      assert s !in Clusters(g, p, ws);
    }
  }

  /** Recording the cluster of a new start S that is joined to none of WS. */
  lemma FillsSnoc(g: seq<Piece>, p: Piece, ws: seq<Square>, sizes: seq<int>, v: set<Square>, w: set<Square>,
                  s: Square, n: int)
    requires |g| == BOARD_SIZE * BOARD_SIZE && FillsOf(g, p, ws, sizes, v)
    requires s in Pieces(g, p) && n == |Cluster(g, p, s)|
    requires forall k :: 0 <= k < |ws| ==> !Connected(g, p, ws[k], s)
    requires w * Pieces(g, p) == v * Pieces(g, p) + Cluster(g, p, s)
    ensures FillsOf(g, p, ws + [s], sizes + [n], w)
  {
    var ws' := ws + [s];
    assert ws'[..|ws'| - 1] == ws;
  }

  /** A fill of colour P leaves the fills of the other colour as they were. */
  lemma FillKeepsOther(g: seq<Piece>, p: Piece, ws: seq<Square>, sizes: seq<int>, v: set<Square>, s: Square)
    requires |g| == BOARD_SIZE * BOARD_SIZE && s.Valid() && (p == WP || p == BP)
    requires ClosedFor(g, Opposite(p), v) && FillsOf(g, Opposite(p), ws, sizes, v)
    ensures ClosedFor(g, Opposite(p), Contig(g, p, v, s).visited)
    ensures FillsOf(g, Opposite(p), ws, sizes, Contig(g, p, v, s).visited)
  {
    var f := Contig(g, p, v, s);
    VisitStep(g, v, f.visited, p);
    PiecesDisjoint(g);
    forall x, y | x in f.visited && x in Pieces(g, Opposite(p)) && y in Pieces(g, Opposite(p)) && Adjacent(x, y)
      ensures y in f.visited
    {
      assert x in v;
    }
  }

  lemma {:induction false} ScanRegions(g: seq<Piece>, c: int, r: int)
    requires |g| == BOARD_SIZE * BOARD_SIZE
    requires (0 <= c < BOARD_SIZE && 0 <= r <= BOARD_SIZE) || (c == BOARD_SIZE && r == 0)
    ensures RegionInvariant(g, c, r, ScanUpTo(g, c, r))
    decreases c, r, 1
  {
    if r > 0 {
      RegionVisit(g, c, r);
    } else if c > 0 {
      RegionColumn(g, c);
    } else {
      RegionStart(g);
    }
  }

  /** Nothing is scanned yet: no fills and nothing visited. */
  lemma RegionStart(g: seq<Piece>)
    requires |g| == BOARD_SIZE * BOARD_SIZE
    ensures RegionInvariant(g, 0, 0, ScanUpTo(g, 0, 0))
  {
    assert ScanUpTo(g, 0, 0) == Scan([], [], {});
    assert StartsUpTo(g, WP, 0, 0) == [] && StartsUpTo(g, BP, 0, 0) == [];
  }

  /** The end of column C - 1 is the start of column C. */
  lemma {:induction false} RegionColumn(g: seq<Piece>, c: int)
    requires |g| == BOARD_SIZE * BOARD_SIZE && 0 < c <= BOARD_SIZE
    ensures RegionInvariant(g, c, 0, ScanUpTo(g, c, 0))
    decreases c, 0, 0
  {
    ScanRegions(g, c - 1, BOARD_SIZE);
    assert ScanUpTo(g, c, 0) == ScanUpTo(g, c - 1, BOARD_SIZE);
    assert StartsUpTo(g, WP, c, 0) == StartsUpTo(g, WP, c - 1, BOARD_SIZE);
    assert StartsUpTo(g, BP, c, 0) == StartsUpTo(g, BP, c - 1, BOARD_SIZE);
  }

  /** The scan's step on square (C, R - 1) keeps the cluster invariant. */
  lemma {:induction false} RegionVisit(g: seq<Piece>, c: int, r: int)
    requires |g| == BOARD_SIZE * BOARD_SIZE && 0 <= c < BOARD_SIZE && 0 < r <= BOARD_SIZE
    ensures RegionInvariant(g, c, r, ScanUpTo(g, c, r))
    decreases c, r, 0
  {
    ScanRegions(g, c, r - 1);
    var st := ScanUpTo(g, c, r - 1);
    var s := Sq(c, r - 1);
    var p := g[s.Index()];
    var w0, b0 := StartsUpTo(g, WP, c, r - 1), StartsUpTo(g, BP, c, r - 1);
    assert ScanUpTo(g, c, r) == Visit(g, st, s);
    if p == WP && s !in st.visited {
      assert StartsUpTo(g, WP, c, r) == w0 + [s] && StartsUpTo(g, BP, c, r) == b0;
      FillAdds(g, WP, w0, st.white, st.visited, s);
      FillKeepsOther(g, WP, b0, st.black, st.visited, s);
    } else if p == BP && s !in st.visited {
      assert StartsUpTo(g, WP, c, r) == w0 && StartsUpTo(g, BP, c, r) == b0 + [s];
      FillAdds(g, BP, b0, st.black, st.visited, s);
      FillKeepsOther(g, BP, w0, st.white, st.visited, s);
    } else {
      assert StartsUpTo(g, WP, c, r) == w0 && StartsUpTo(g, BP, c, r) == b0;
    }
  }

  /** The starts of the fills of SIDE once computeRegions has scanned the whole board. */
  ghost function RegionStarts(g: seq<Piece>, side: Piece): seq<Square>
    requires |g| == BOARD_SIZE * BOARD_SIZE
  {
    StartsUpTo(g, side, BOARD_SIZE, 0)
  }

  /** The sizes of the clusters of the squares of WS, in order. */
  ghost function ClusterSizes(g: seq<Piece>, p: Piece, ws: seq<Square>): seq<int>
    requires |g| == BOARD_SIZE * BOARD_SIZE
  {
    seq(|ws|, k requires 0 <= k < |ws| => |Cluster(g, p, ws[k])|)
  }

  /**
   * The regions of a side are its clusters, one entry per cluster: the
   * fills start on pieces of SIDE no two of which are joined, so their
   * clusters are disjoint (ClustersDisjoint); together those clusters are
   * exactly the pieces of SIDE; and the sorted size list holds exactly the
   * sizes of those clusters.
   */
  lemma RegionsAreClusters(g: seq<Piece>, side: Piece)
    requires |g| == BOARD_SIZE * BOARD_SIZE && side != EMP
    ensures |RegionStarts(g, side)| == |RegionSizes(g, side)|
    ensures forall k :: 0 <= k < |RegionStarts(g, side)| ==> RegionStarts(g, side)[k] in Pieces(g, side)
    ensures forall k, j :: 0 <= k < j < |RegionStarts(g, side)| ==>
              !Connected(g, side, RegionStarts(g, side)[k], RegionStarts(g, side)[j])
    ensures Pieces(g, side) == Clusters(g, side, RegionStarts(g, side))
    ensures multiset(RegionSizes(g, side)) == multiset(ClusterSizes(g, side, RegionStarts(g, side)))
  {
    var st := ScanUpTo(g, BOARD_SIZE, 0);
    var ws := RegionStarts(g, side);
    var sizes := if side == WP then st.white else st.black;
    ScanRegions(g, BOARD_SIZE, 0);
    ScanVisitsAll(g, side);
    SortDescSpec(sizes);
    assert FillsOf(g, side, ws, sizes, st.visited);
    assert sizes == ClusterSizes(g, side, ws);
  }

  /** With a single start whose cluster holds every piece, every two pieces are joined through it. */
  lemma OneStartConnected(g: seq<Piece>, side: Piece, ws: seq<Square>, a: Square, b: Square)
    requires |g| == BOARD_SIZE * BOARD_SIZE && |ws| == 1
    requires a in Clusters(g, side, ws) && b in Clusters(g, side, ws)
    ensures Connected(g, side, a, b)
  {
    assert ws[..0] == [];
    ConnectedSymmetric(g, side, ws[0], a);
    ConnectedTrans(g, side, a, ws[0], b);
  }

  /** A single region: every two pieces of the side are joined by a chain. */
  lemma SingleRegionConnected(g: seq<Piece>, side: Piece, a: Square, b: Square)
    requires |g| == BOARD_SIZE * BOARD_SIZE && side != EMP
    requires |RegionSizes(g, side)| == 1 && a in Pieces(g, side) && b in Pieces(g, side)
    ensures Connected(g, side, a, b)
  {
    RegionsAreClusters(g, side);
    OneStartConnected(g, side, RegionStarts(g, side), a, b);
  }

  /** Starts no two of which are joined, on pieces that are all joined, are at most one. */
  lemma JoinedStarts(g: seq<Piece>, side: Piece, ws: seq<Square>)
    requires |g| == BOARD_SIZE * BOARD_SIZE
    requires forall k :: 0 <= k < |ws| ==> ws[k] in Pieces(g, side)
    requires forall k, j :: 0 <= k < j < |ws| ==> !Connected(g, side, ws[k], ws[j])
    requires forall a, b :: a in Pieces(g, side) && b in Pieces(g, side) ==> Connected(g, side, a, b)
    ensures |ws| <= 1
  {
    // The first two starts, named without a case on |ws|: two of them would be joined.
    var pad := ws + [Sq(0, 0), Sq(0, 0)];
    var first, second := pad[0], pad[1];
  }

  /** Pieces all joined by chains make a single region. */
  lemma ConnectedSingleRegion(g: seq<Piece>, side: Piece)
    requires |g| == BOARD_SIZE * BOARD_SIZE && side != EMP && Pieces(g, side) != {}
    requires forall a, b :: a in Pieces(g, side) && b in Pieces(g, side) ==> Connected(g, side, a, b)
    ensures |RegionSizes(g, side)| == 1
  {
    RegionsAreClusters(g, side);
    RegionsNonEmpty(g, side);
    assert |Pieces(g, side)| >= 1;
    JoinedStarts(g, side, RegionStarts(g, side));
  }

  /**
   * piecesContiguous: a side has a single region exactly when it has a
   * piece and every two of its pieces are joined by a chain of its pieces.
   */
  lemma SingleRegionIffConnected(g: seq<Piece>, side: Piece)
    requires |g| == BOARD_SIZE * BOARD_SIZE && side != EMP
    ensures |RegionSizes(g, side)| == 1 <==>
              Pieces(g, side) != {} &&
              forall a, b :: a in Pieces(g, side) && b in Pieces(g, side) ==> Connected(g, side, a, b)
  {
    if |RegionSizes(g, side)| == 1 {
      RegionsNonEmpty(g, side);
      forall a, b | a in Pieces(g, side) && b in Pieces(g, side)
        ensures Connected(g, side, a, b)
      {
        SingleRegionConnected(g, side, a, b);
      }
    }
    if Pieces(g, side) != {} &&
       forall a, b :: a in Pieces(g, side) && b in Pieces(g, side) ==> Connected(g, side, a, b) {
      ConnectedSingleRegion(g, side);
    }
  }
}
