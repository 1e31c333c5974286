/**
 * Contiguous regions of one colour, as Board.numContig and
 * Board.computeRegions find them: a flood fill over the eight
 * neighbours that marks visited squares, run from every square in
 * column-major order, and the per-colour lists of region sizes sorted
 * in descending order.
 */
module LoaRegions {
  import opened SetCards
  import opened LoaPieces
  import opened LoaRules

  /** What a flood fill returns: the squares it counted and the visited set it leaves. */
  datatype Flood = Flood(count: nat, visited: set<Square>)

  /** The board squares not yet visited. */
  ghost function Free(v: set<Square>): set<Square> {
    AllSquares - v
  }

  lemma FreeShrinks(v: set<Square>, w: set<Square>, x: Square)
    requires v <= w && x in w && x !in v && x.Valid()
    ensures |Free(w)| < |Free(v)|
  {
    InAllSquares(x);
    StrictSubsetCard(Free(w), Free(v), x);
  }

  lemma FreeMonotone(v: set<Square>, w: set<Square>)
    requires v <= w
    ensures |Free(w)| <= |Free(v)|
  {
    SubsetCard(Free(w), Free(v));
  }

  lemma DifferenceChain(u: set<Square>, v: set<Square>, w: set<Square>)
    requires u <= v <= w
    ensures |w - u| == |w - v| + |v - u|
  {
    assert w - u == (w - v) + (v - u);
    DisjointUnionCard(w - v, v - u);
  }

  /**
   * numContig(S, VISITED, P): nothing for the empty colour, a square of
   * another colour or a visited square; otherwise S is marked and the fill
   * continues into each neighbour in turn.  The squares it adds to the
   * visited set are squares of colour P, and it counts exactly those.
   */
  ghost function Contig(g: seq<Piece>, p: Piece, v: set<Square>, s: Square): (f: Flood)
    requires |g| == BOARD_SIZE * BOARD_SIZE && s.Valid()
    ensures v <= f.visited && f.visited - v <= Pieces(g, p)
    ensures f.count == |f.visited - v|
    decreases g, |Free(v)|, 0, 0
  {
    if p == EMP then Flood(0, v)
    else if g[s.Index()] != p then Flood(0, v)
    else if s in v then Flood(0, v)
    else
      FreeShrinks(v, v + {s}, s);
      var f := ContigList(g, p, v + {s}, Neighbors(s));
      InAllSquares(s);
      DifferenceChain(v, v + {s}, f.visited);
      Flood(f.count + 1, f.visited)
  }

  /** The loop of numContig over the neighbour list NS, threading the visited set. */
  ghost function ContigList(g: seq<Piece>, p: Piece, v: set<Square>, ns: seq<Square>): (f: Flood)
    requires |g| == BOARD_SIZE * BOARD_SIZE
    requires ValidSquares(ns)
    ensures v <= f.visited && f.visited - v <= Pieces(g, p)
    ensures f.count == |f.visited - v|
    decreases g, |Free(v)|, 1, |ns|
  {
    if ns == [] then Flood(0, v)
    else
      var a := Contig(g, p, v, ns[0]);
      FreeMonotone(v, a.visited);
      var b := ContigList(g, p, a.visited, ns[1..]);
      DifferenceChain(v, a.visited, b.visited);
      Flood(a.count + b.count, b.visited)
  }

  /** A fill started on an unvisited square of colour P counts at least that square. */
  lemma ContigStart(g: seq<Piece>, p: Piece, v: set<Square>, s: Square)
    requires |g| == BOARD_SIZE * BOARD_SIZE && s.Valid()
    requires p != EMP && g[s.Index()] == p && s !in v
    ensures s in Contig(g, p, v, s).visited && Contig(g, p, v, s).count >= 1
  {
  }

  /* ---------------- The scan of computeRegions ---------------- */

  /** The region-size lists and the visited matrix during computeRegions. */
  datatype Scan = Scan(white: seq<int>, black: seq<int>, visited: set<Square>)

  /** Square S comes before column C, row R in computeRegions' order: columns outer, rows inner. */
  predicate Before(s: Square, c: int, r: int) {
    s.col < c || (s.col == c && s.row < r)
  }

  /**
   * The body of computeRegions' inner loop for square S: an unvisited square
   * of either colour starts a fill, whose count goes to its colour's list.
   */
  ghost function Visit(g: seq<Piece>, st: Scan, s: Square): Scan
    requires |g| == BOARD_SIZE * BOARD_SIZE && s.Valid()
  {
    var p := g[s.Index()];
    if p == EMP || s in st.visited then st
    else
      var f := Contig(g, p, st.visited, s);
      if p == WP then Scan(st.white + [f.count], st.black, f.visited)
      else Scan(st.white, st.black + [f.count], f.visited)
  }

  /** computeRegions after the columns before C and the first R squares of column C (unsorted lists). */
  ghost function ScanUpTo(g: seq<Piece>, c: int, r: int): Scan
    requires |g| == BOARD_SIZE * BOARD_SIZE
    requires (0 <= c < BOARD_SIZE && 0 <= r <= BOARD_SIZE) || (c == BOARD_SIZE && r == 0)
    decreases g, c, r
  {
    if r > 0 then Visit(g, ScanUpTo(g, c, r - 1), Sq(c, r - 1))
    else if c > 0 then ScanUpTo(g, c - 1, BOARD_SIZE)
    else Scan([], [], {})
  }

  function Sum(xs: seq<int>): int {
    if xs == [] then 0 else xs[0] + Sum(xs[1..])
  }

  lemma {:induction false} SumSnoc(xs: seq<int>, x: int)
    ensures Sum(xs + [x]) == Sum(xs) + x
  {
    if xs != [] {
      assert (xs + [x])[1..] == xs[1..] + [x];
      SumSnoc(xs[1..], x);
    }
  }

  predicate AllPositive(xs: seq<int>) {
    forall k :: 0 <= k < |xs| ==> xs[k] >= 1
  }

  /** What the scan keeps true once it has passed the squares before column C, row R. */
  ghost predicate ScanInvariant(g: seq<Piece>, c: int, r: int, st: Scan)
    requires |g| == BOARD_SIZE * BOARD_SIZE
  {
    && Sum(st.white) == |st.visited * Pieces(g, WP)|
    && Sum(st.black) == |st.visited * Pieces(g, BP)|
    && AllPositive(st.white) && AllPositive(st.black)
    && Covers(g, c, r, st.visited)
  }

  /** Every piece on a square before column C, row R is in V. */
  ghost predicate Covers(g: seq<Piece>, c: int, r: int, v: set<Square>)
    requires |g| == BOARD_SIZE * BOARD_SIZE
  {
    forall s: Square :: s.Valid() && Before(s, c, r) && g[s.Index()] != EMP ==> s in v
  }

  /** Passing square (C, R - 1) keeps the cover once that square, if it holds a piece, is in W. */
  lemma CoversNext(g: seq<Piece>, c: int, r: int, v: set<Square>, w: set<Square>)
    requires |g| == BOARD_SIZE * BOARD_SIZE && 0 <= c < BOARD_SIZE && 0 < r <= BOARD_SIZE
    requires Covers(g, c, r - 1, v) && v <= w
    requires g[Sq(c, r - 1).Index()] == EMP || Sq(c, r - 1) in w
    ensures Covers(g, c, r, w)
  {
    forall t: Square | t.Valid() && Before(t, c, r) && g[t.Index()] != EMP
      ensures t in w
    {
      if t != Sq(c, r - 1) {
        assert Before(t, c, r - 1);
      }
    }
  }

  /** Pieces are WP, BP or EMP, so a piece set of one side is disjoint from the other's. */
  lemma PiecesDisjoint(g: seq<Piece>)
    requires |g| == BOARD_SIZE * BOARD_SIZE
    ensures Pieces(g, WP) * Pieces(g, BP) == {}
  {
  }

  /** Adding the squares D of colour P to the visited set. */
  lemma VisitStep(g: seq<Piece>, v: set<Square>, w: set<Square>, p: Piece)
    requires |g| == BOARD_SIZE * BOARD_SIZE && (p == WP || p == BP)
    requires v <= w && w - v <= Pieces(g, p)
    ensures |w * Pieces(g, p)| == |v * Pieces(g, p)| + |w - v|
    ensures w * Pieces(g, Opposite(p)) == v * Pieces(g, Opposite(p))
  {
    PiecesDisjoint(g);
    assert w * Pieces(g, p) == (v * Pieces(g, p)) + (w - v);
    DisjointUnionCard(v * Pieces(g, p), w - v);
  }

  lemma {:induction false} ScanKeepsInvariant(g: seq<Piece>, c: int, r: int)
    requires |g| == BOARD_SIZE * BOARD_SIZE
    requires (0 <= c < BOARD_SIZE && 0 <= r <= BOARD_SIZE) || (c == BOARD_SIZE && r == 0)
    ensures ScanInvariant(g, c, r, ScanUpTo(g, c, r))
    decreases c, r, 1
  {
    if r > 0 {
      VisitKeepsInvariant(g, c, r);
    } else if c > 0 {
      ScanKeepsInvariant(g, c - 1, BOARD_SIZE);
      ColumnDone(g, c, ScanUpTo(g, c - 1, BOARD_SIZE));
    }
  }

  /** The scan's step on square (C, R - 1) keeps its invariant. */
  lemma {:induction false} VisitKeepsInvariant(g: seq<Piece>, c: int, r: int)
    requires |g| == BOARD_SIZE * BOARD_SIZE && 0 <= c < BOARD_SIZE && 0 < r <= BOARD_SIZE
    ensures ScanInvariant(g, c, r, ScanUpTo(g, c, r))
    decreases c, r, 0
  {
    ScanKeepsInvariant(g, c, r - 1);
    var st := ScanUpTo(g, c, r - 1);
    var s := Sq(c, r - 1);
    var p := g[s.Index()];
    if p != EMP && s !in st.visited {
      ContigStart(g, p, st.visited, s);
      ScanStep(g, c, r, st, Contig(g, p, st.visited, s));
    } else {
      ScanSkip(g, c, r, st);
    }
  }

  /** Passing over an empty or already visited square (C, R - 1) keeps the invariant. */
  lemma ScanSkip(g: seq<Piece>, c: int, r: int, st: Scan)
    requires |g| == BOARD_SIZE * BOARD_SIZE && 0 <= c < BOARD_SIZE && 0 < r <= BOARD_SIZE
    requires ScanInvariant(g, c, r - 1, st)
    requires g[Sq(c, r - 1).Index()] == EMP || Sq(c, r - 1) in st.visited
    ensures ScanInvariant(g, c, r, st)
  {
    CoversNext(g, c, r, st.visited, st.visited);
  }

  /** The end of column C - 1 is the start of column C. */
  lemma ColumnDone(g: seq<Piece>, c: int, st: Scan)
    requires |g| == BOARD_SIZE * BOARD_SIZE && 0 < c <= BOARD_SIZE
    requires ScanInvariant(g, c - 1, BOARD_SIZE, st)
    ensures ScanInvariant(g, c, 0, st)
  {
    forall t: Square | t.Valid() && Before(t, c, 0) && g[t.Index()] != EMP
      ensures t in st.visited
    {
      assert Before(t, c - 1, BOARD_SIZE);
    }
  }

  /** One fill of the scan, started on square (C, R - 1), keeps its invariant. */
  lemma ScanStep(g: seq<Piece>, c: int, r: int, st: Scan, f: Flood)
    requires |g| == BOARD_SIZE * BOARD_SIZE && 0 <= c < BOARD_SIZE && 0 < r <= BOARD_SIZE
    requires ScanInvariant(g, c, r - 1, st)
    requires g[Sq(c, r - 1).Index()] != EMP && Sq(c, r - 1) !in st.visited
    requires st.visited <= f.visited && f.visited - st.visited <= Pieces(g, g[Sq(c, r - 1).Index()])
    requires f.count == |f.visited - st.visited| && Sq(c, r - 1) in f.visited && f.count >= 1
    ensures var p := g[Sq(c, r - 1).Index()];
      ScanInvariant(g, c, r, if p == WP then Scan(st.white + [f.count], st.black, f.visited)
                             else Scan(st.white, st.black + [f.count], f.visited))
  {
    var s := Sq(c, r - 1);
    var p := g[s.Index()];
    VisitStep(g, st.visited, f.visited, p);
    if p == WP {
      SizeAdded(st.white, f.count);
    } else {
      SizeAdded(st.black, f.count);
    }
    CoversNext(g, c, r, st.visited, f.visited);
  }

  /** Appending a region size N >= 1 adds N to the sum and keeps every size positive. */
  lemma SizeAdded(xs: seq<int>, n: int)
    requires AllPositive(xs) && n >= 1
    ensures Sum(xs + [n]) == Sum(xs) + n && AllPositive(xs + [n])
  {
    SumSnoc(xs, n);
  }

  /** Once every square is scanned, the visited set holds every piece. */
  lemma ScanVisitsAll(g: seq<Piece>, side: Piece)
    requires |g| == BOARD_SIZE * BOARD_SIZE
    ensures ScanUpTo(g, BOARD_SIZE, 0).visited * Pieces(g, side) == Pieces(g, side) || side == EMP
  {
    ScanKeepsInvariant(g, BOARD_SIZE, 0);
    forall s | s in Pieces(g, side) && side != EMP
      ensures s in ScanUpTo(g, BOARD_SIZE, 0).visited
    {
      InAllSquares(s);
    }
  }

  /* ---------------- Sorting ---------------- */

  predicate SortedDesc(xs: seq<int>) {
    forall i, j :: 0 <= i < j < |xs| ==> xs[i] >= xs[j]
  }

  /** X inserted into XS before the first entry it is not smaller than. */
  function Insert(x: int, xs: seq<int>): seq<int> {
    if xs == [] || x >= xs[0] then [x] + xs
    else [xs[0]] + Insert(x, xs[1..])
  }

  /** Insertion adds X to the contents and to the sum. */
  lemma {:induction false} InsertPerm(x: int, xs: seq<int>)
    ensures multiset(Insert(x, xs)) == multiset(xs) + multiset{x}
    ensures Sum(Insert(x, xs)) == Sum(xs) + x
  {
    if xs == [] || x >= xs[0] {
      assert ([x] + xs)[1..] == xs;
    } else {
      InsertPerm(x, xs[1..]);
      assert xs == [xs[0]] + xs[1..];
      assert ([xs[0]] + Insert(x, xs[1..]))[1..] == Insert(x, xs[1..]);
    }
  }

  /** Insertion into a descending list keeps it descending. */
  lemma {:induction false} InsertSorted(x: int, xs: seq<int>)
    requires SortedDesc(xs)
    ensures SortedDesc(Insert(x, xs))
  {
    if xs == [] || x >= xs[0] {
      ConsSorted(x, xs);
    } else {
      var r := Insert(x, xs[1..]);
      InsertSorted(x, xs[1..]);
      InsertPerm(x, xs[1..]);
      forall k | 0 <= k < |r|
        ensures xs[0] >= r[k]
      {
        assert r[k] in multiset(r);
      }
      ConsSorted(xs[0], r);
    }
  }

  lemma ConsSorted(a: int, r: seq<int>)
    requires SortedDesc(r) && forall k :: 0 <= k < |r| ==> a >= r[k]
    ensures SortedDesc([a] + r)
  {
  }

  /** Collections.sort(_, Collections.reverseOrder()) on a list of sizes, as an insertion sort. */
  function SortDesc(xs: seq<int>): seq<int> {
    if xs == [] then []
    else Insert(xs[0], SortDesc(xs[1..]))
  }

  /** The sorted list is descending and a permutation of XS, with the same sum and length. */
  lemma {:induction false} SortDescSpec(xs: seq<int>)
    ensures SortedDesc(SortDesc(xs)) && multiset(SortDesc(xs)) == multiset(xs)
    ensures Sum(SortDesc(xs)) == Sum(xs) && |SortDesc(xs)| == |xs|
  {
    if xs != [] {
      SortDescSpec(xs[1..]);
      InsertPerm(xs[0], SortDesc(xs[1..]));
      InsertSorted(xs[0], SortDesc(xs[1..]));
      assert xs == [xs[0]] + xs[1..];
    }
  }

  lemma SortKeepsPositive(xs: seq<int>)
    requires AllPositive(xs)
    ensures AllPositive(SortDesc(xs))
  {
    var r := SortDesc(xs);
    SortDescSpec(xs);
    forall k | 0 <= k < |r| ensures r[k] >= 1 {
      assert r[k] in multiset(r);
      var i :| 0 <= i < |xs| && xs[i] == r[k];
    }
  }

  /* ---------------- Region sizes ---------------- */

  /** getRegionSizes(SIDE) on freshly computed regions: WP's list for WP, BP's list otherwise. */
  ghost function RegionSizes(g: seq<Piece>, side: Piece): seq<int>
    requires |g| == BOARD_SIZE * BOARD_SIZE
  {
    var st := ScanUpTo(g, BOARD_SIZE, 0);
    SortDesc(if side == WP then st.white else st.black)
  }

  /**
   * The region sizes of a side are sorted in descending order, each at
   * least 1, and add up to the number of that side's pieces.
   */
  lemma RegionSizesSpec(g: seq<Piece>, side: Piece)
    requires |g| == BOARD_SIZE * BOARD_SIZE && side != EMP
    ensures SortedDesc(RegionSizes(g, side))
    ensures AllPositive(RegionSizes(g, side))
    ensures Sum(RegionSizes(g, side)) == |Pieces(g, side)|
  {
    var st := ScanUpTo(g, BOARD_SIZE, 0);
    ScanKeepsInvariant(g, BOARD_SIZE, 0);
    ScanVisitsAll(g, side);
    SortDescSpec(if side == WP then st.white else st.black);
    SortKeepsPositive(if side == WP then st.white else st.black);
  }

  lemma {:induction false} PositiveSum(xs: seq<int>)
    requires AllPositive(xs)
    ensures Sum(xs) >= |xs|
  {
    if xs != [] {
      PositiveSum(xs[1..]);
    }
  }

  /** A side has at least one region exactly when it has at least one piece. */
  lemma RegionsNonEmpty(g: seq<Piece>, side: Piece)
    requires |g| == BOARD_SIZE * BOARD_SIZE && side != EMP
    ensures |RegionSizes(g, side)| >= 1 <==> |Pieces(g, side)| >= 1
  {
    RegionSizesSpec(g, side);
    PositiveSum(RegionSizes(g, side));
  }

  /** Each square scanned starts at most one region. */
  lemma {:induction false} ScanLength(g: seq<Piece>, c: int, r: int)
    requires |g| == BOARD_SIZE * BOARD_SIZE
    requires (0 <= c < BOARD_SIZE && 0 <= r <= BOARD_SIZE) || (c == BOARD_SIZE && r == 0)
    ensures |ScanUpTo(g, c, r).white| + |ScanUpTo(g, c, r).black| <= BOARD_SIZE * c + r
    decreases c, r
  {
    if r > 0 {
      ScanLength(g, c, r - 1);
    } else if c > 0 {
      ScanLength(g, c - 1, BOARD_SIZE);
    }
  }

  /** A side has at most one region per square of the board. */
  lemma RegionCountBound(g: seq<Piece>, side: Piece)
    requires |g| == BOARD_SIZE * BOARD_SIZE
    ensures |RegionSizes(g, side)| <= BOARD_SIZE * BOARD_SIZE
  {
    var st := ScanUpTo(g, BOARD_SIZE, 0);
    ScanLength(g, BOARD_SIZE, 0);
    SortDescSpec(if side == WP then st.white else st.black);
  }
}
