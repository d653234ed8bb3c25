/**
 * What LevelData.GetWayData computes, stated on values: the depth-first
 * search for a route from the start cell that steps orthogonally onto every
 * open cell exactly once, trying up, down, left and right in that order.
 *
 * `Walk` is the search itself over the set of cells still unvisited; the
 * lemmas below prove that what it returns is such a route (a tour), that it
 * fails only when no tour exists, and that the tour it returns is the first
 * one in the fixed move order.
 */
module Solver {
  import opened Wrappers
  import opened Grid

  /** The k-th move in the order the search tries them: up, down, left, right. */
  function Neighbour(p: Pos, k: nat): Pos
    requires k < 4
  {
    if k == 0 then Pos(p.x, p.y - 1)
    else if k == 1 then Pos(p.x, p.y + 1)
    else if k == 2 then Pos(p.x - 1, p.y)
    else Pos(p.x + 1, p.y)
  }

  /** The index of the move that leads from a to b, or 4 when b is not a neighbour of a. */
  function DirOf(a: Pos, b: Pos): (k: nat)
    ensures k <= 4
    ensures k < 4 <==> Adjacent(a, b)
    ensures k < 4 ==> Neighbour(a, k) == b
  {
    if b == Neighbour(a, 0) then 0
    else if b == Neighbour(a, 1) then 1
    else if b == Neighbour(a, 2) then 2
    else if b == Neighbour(a, 3) then 3
    else 4
  }

  /** A tag the search has to step on: anything but Wall and Start. */
  predicate IsOpen(t: byte) {
    t != WALL && t != START
  }

  /** The cells the overlay starts unmarked: in bounds and open. */
  function OpenCells(g: Layout): set<Pos>
    requires g.Covers()
  {
    set x, y | 0 <= x < g.width && 0 <= y < g.height && IsOpen(g.Tag(Pos(x, y))) :: Pos(x, y)
  }

  /** Row-major order on cells: by row, then by column. */
  predicate Before(a: Pos, b: Pos) {
    a.y < b.y || (a.y == b.y && a.x < b.x)
  }

  /** The Start cells among the first `cols` cells of row y, left to right. */
  function StartsInRow(g: Layout, y: nat, cols: nat): (s: seq<Pos>)
    requires g.Covers() && y < g.height && cols <= g.width
    ensures forall k :: 0 <= k < |s| ==> s[k].y == y && 0 <= s[k].x < cols
    ensures forall k :: 0 <= k < |s| ==> g.Tag(s[k]) == START
    ensures forall x :: 0 <= x < cols && g.Tag(Pos(x, y)) == START ==> Pos(x, y) in s
    ensures forall a, b :: 0 <= a < b < |s| ==> s[a].x < s[b].x
  {
    if cols == 0 then []
    else StartsInRow(g, y, cols - 1) + (if g.Tag(Pos(cols - 1, y)) == START then [Pos(cols - 1, y)] else [])
  }

  /** The Start cells of the first `rows` rows in row-major order. */
  function StartsInRows(g: Layout, rows: nat): (s: seq<Pos>)
    requires g.Covers() && rows <= g.height
    ensures forall k :: 0 <= k < |s| ==> g.InBounds(s[k]) && s[k].y < rows && g.Tag(s[k]) == START
    ensures forall p :: g.InBounds(p) && p.y < rows && g.Tag(p) == START ==> p in s
    ensures forall a, b :: 0 <= a < b < |s| ==> Before(s[a], s[b])
  {
    if rows == 0 then []
    else
      var prev := StartsInRows(g, rows - 1);
      var row := StartsInRow(g, rows - 1, g.width);
      assert forall a, b :: 0 <= a < |prev| && 0 <= b < |row| ==> Before(prev[a], row[b]);
      prev + row
  }

  /** Scanning one more column appends that cell when it is a Start cell. */
  lemma StartsInRowStep(g: Layout, y: nat, cols: nat)
    requires g.Covers() && y < g.height && cols < g.width
    ensures StartsInRow(g, y, cols + 1) ==
      StartsInRow(g, y, cols) + if g.Tag(Pos(cols, y)) == START then [Pos(cols, y)] else []
  {
  }

  /** Scanning one more row appends that row's Start cells. */
  lemma StartsInRowsStep(g: Layout, rows: nat)
    requires g.Covers() && rows < g.height
    ensures StartsInRows(g, rows + 1) == StartsInRows(g, rows) + StartsInRow(g, rows, g.width)
  {
  }

  /** All Start cells of the board in row-major order (the scan order of GetWayData and MakeLevel). */
  function Starts(g: Layout): seq<Pos>
    requires g.Covers()
  {
    StartsInRows(g, g.height)
  }

  /** Where the search begins: the last Start cell in row-major order, or (0, 0) when there is none. */
  function StartPos(g: Layout): Pos
    requires g.Covers()
  {
    var s := Starts(g);
    if s == [] then Pos(0, 0) else s[|s| - 1]
  }

  /**
   * The search from `cur` over the unvisited cells `free`, trying the moves
   * from index k on. A move onto a free cell marks it; if that was the last
   * free cell the route ends there, otherwise the search continues from it
   * and, when that fails, the mark is undone and the next move is tried.
   */
  function Walk(free: set<Pos>, cur: Pos, k: nat): Option<seq<Pos>>
    requires k <= 4
    decreases |free|, 4 - k
  {
    if k == 4 then None
    else
      var n := Neighbour(cur, k);
      if n in free then
        if free - {n} == {} then Some([n])
        else match Walk(free - {n}, n, 0)
          case Some(rest) => Some([n] + rest)
          case None => Walk(free, cur, k + 1)
      else Walk(free, cur, k + 1)
  }

  /**
   * GetWayData on a layout. An array shorter than width x height makes
   * GetBlock throw; a board with no rows or no columns makes the first move
   * test read the overlay outside its bounds unless the other side is at
   * most 1; otherwise the result is the route found, or the empty sequence.
   */
  function Solve(g: Layout): Result<seq<Pos>>
  {
    if !g.Covers() then Err(OutOfRange)
    else if g.width == 0 || g.height == 0 then
      if g.width >= 2 || g.height >= 2 then Err(OutOfRange) else Ok([])
    else
      match Walk(OpenCells(g), StartPos(g), 0)
      case Some(p) => Ok(p)
      case None => Ok([])
  }

  /** On a covered board with rows and columns, Solve is the search from the start cell. */
  lemma SolveSearches(g: Layout)
    requires g.Covers() && g.width > 0 && g.height > 0
    ensures var w := Walk(OpenCells(g), StartPos(g), 0);
      Solve(g) == if w.Some? then Ok(w.value) else Ok([])
  {
  }

  /**
   * A route from `from` that steps orthogonally each time and visits every
   * cell of `free`, and nothing else, exactly once.
   */
  ghost predicate IsTour(free: set<Pos>, from: Pos, p: seq<Pos>) {
    |p| > 0 &&
    Adjacent(from, p[0]) &&
    (forall k :: 0 < k < |p| ==> Adjacent(p[k - 1], p[k])) &&
    (forall k :: 0 <= k < |p| ==> p[k] in free) &&
    (forall c :: c in free ==> c in p) &&
    (forall a, b :: 0 <= a < b < |p| ==> p[a] != p[b])
  }

  /** The move indices of a route taken from `from`. */
  function Dirs(from: Pos, p: seq<Pos>): (d: seq<nat>)
    ensures |d| == |p|
    decreases |p|
  {
    if p == [] then [] else [DirOf(from, p[0])] + Dirs(p[0], p[1..])
  }

  /** Strict lexicographic order on move sequences. */
  predicate LexLess(a: seq<nat>, b: seq<nat>)
    decreases |a|
  {
    |a| > 0 && |b| > 0 && (a[0] < b[0] || (a[0] == b[0] && LexLess(a[1..], b[1..])))
  }

  // ---------------------------------------------------------------------------
  // Tours

  /** Prepending a move onto a free neighbour to a tour of the rest gives a tour. */
  lemma TourCons(free: set<Pos>, cur: Pos, n: Pos, rest: seq<Pos>)
    requires n in free && Adjacent(cur, n) && IsTour(free - {n}, n, rest)
    ensures IsTour(free, cur, [n] + rest)
  {
    var p := [n] + rest;
    forall c | c in free ensures c in p {
      if c != n {
        assert c in rest;
      }
    }
    forall a, b | 0 <= a < b < |p| ensures p[a] != p[b] {
      if a == 0 {
        assert p[b] in free - {n};
      } else {
        assert p[a] == rest[a - 1] && p[b] == rest[b - 1];
      }
    }
    forall k | 0 < k < |p| ensures Adjacent(p[k - 1], p[k]) {
      if k > 1 {
        assert p[k - 1] == rest[k - 2] && p[k] == rest[k - 1];
      }
    }
  }

  /** A tour's first step is its last exactly when that cell is the only free one. */
  lemma TourLast(free: set<Pos>, cur: Pos, p: seq<Pos>)
    requires IsTour(free, cur, p)
    ensures free == {p[0]} <==> |p| == 1
  {
    if |p| == 1 {
      forall c | c in free ensures c == p[0] {
        assert c in p;
      }
    } else {
      assert p[1] in free && p[1] != p[0];
    }
  }

  /** What remains of a tour after its first step is a tour of the cells left. */
  lemma TourTail(free: set<Pos>, cur: Pos, p: seq<Pos>)
    requires IsTour(free, cur, p) && |p| > 1
    ensures IsTour(free - {p[0]}, p[0], p[1..])
  {
    var t := p[1..];
    forall k | 0 <= k < |t| ensures t[k] in free - {p[0]} {
      assert t[k] == p[k + 1];
    }
    forall c | c in free - {p[0]} ensures c in t {
      var i :| 0 <= i < |p| && p[i] == c;
      assert i > 0 && t[i - 1] == c;
    }
    forall k | 0 < k < |t| ensures Adjacent(t[k - 1], t[k]) {
      assert t[k - 1] == p[k] && t[k] == p[k + 1];
    }
  }

  /** A tour has one step per cell of the set it covers. */
  lemma {:induction false} TourLength(free: set<Pos>, cur: Pos, p: seq<Pos>)
    requires IsTour(free, cur, p)
    ensures |p| == |free|
    decreases |p|
  {
    if |p| == 1 {
      assert free == {p[0]};
    } else {
      TourTail(free, cur, p);
      TourLength(free - {p[0]}, p[0], p[1..]);
    }
  }

  // ---------------------------------------------------------------------------
  // The search

  /** Soundness: every route the search returns is a tour of the free cells. */
  lemma {:induction false} WalkSound(free: set<Pos>, cur: Pos, k: nat)
    requires k <= 4 && Walk(free, cur, k).Some?
    ensures IsTour(free, cur, Walk(free, cur, k).value)
    decreases |free|, 4 - k
  {
    var n := Neighbour(cur, k);
    assert DirOf(cur, n) < 4;
    if n in free {
      if free - {n} == {} {
        assert free == {n};
      } else {
        match Walk(free - {n}, n, 0)
        case Some(rest) =>
          WalkSound(free - {n}, n, 0);
          TourCons(free, cur, n, rest);
        case None =>
          WalkSound(free, cur, k + 1);
      }
    } else {
      WalkSound(free, cur, k + 1);
    }
  }

  /** Completeness: if a tour begins with move k or a later one, the search from move k finds a route. */
  lemma {:induction false} WalkComplete(free: set<Pos>, cur: Pos, k: nat, q: seq<Pos>)
    requires k <= 4 && IsTour(free, cur, q) && DirOf(cur, q[0]) >= k
    ensures Walk(free, cur, k).Some?
    decreases |free|, 4 - k
  {
    var n := Neighbour(cur, k);
    if DirOf(cur, q[0]) == k {
      if free - {n} != {} {
        var c :| c in free - {n};
        assert c in q && c != q[0];
        TourTail(free, cur, q);
        WalkComplete(free - {n}, n, 0, q[1..]);
      }
    } else {
      WalkComplete(free, cur, k + 1, q);
    }
  }

  /**
   * The search returns the first tour in move order: no tour that starts
   * with move k or later has a lexicographically smaller move sequence.
   */
  lemma {:induction false} WalkFirst(free: set<Pos>, cur: Pos, k: nat, p: seq<Pos>, q: seq<Pos>)
    requires k <= 4 && Walk(free, cur, k) == Some(p)
    requires IsTour(free, cur, q) && DirOf(cur, q[0]) >= k
    ensures !LexLess(Dirs(cur, q), Dirs(cur, p))
    decreases |free|, 4 - k
  {
    var n := Neighbour(cur, k);
    var dq := DirOf(cur, q[0]);
    if n in free {
      if free - {n} == {} {
        assert p == [n] && Dirs(cur, p) == [k];
      } else {
        match Walk(free - {n}, n, 0)
        case Some(rest) =>
          assert p == [n] + rest;
          if dq == k {
            var c :| c in free - {n};
            assert c in q && c != q[0];
            TourTail(free, cur, q);
            WalkFirst(free - {n}, n, 0, rest, q[1..]);
            assert Dirs(cur, q) == [k] + Dirs(n, q[1..]);
            assert Dirs(cur, p) == [k] + Dirs(n, rest);
          }
        case None =>
          if dq == k {
            var c :| c in free - {n};
            assert c in q && c != q[0];
            TourTail(free, cur, q);
            WalkComplete(free - {n}, n, 0, q[1..]);
            assert false;
          }
          WalkFirst(free, cur, k + 1, p, q);
      }
    } else {
      assert dq != k;
      WalkFirst(free, cur, k + 1, p, q);
    }
  }

  // ---------------------------------------------------------------------------
  // GetWayData's result

  /** A non-empty result is a tour of the open cells from the start cell, one step per open cell. */
  lemma SolveSound(g: Layout)
    requires Solve(g).Ok? && Solve(g).value != []
    ensures IsTour(OpenCells(g), StartPos(g), Solve(g).value)
    ensures |Solve(g).value| == |OpenCells(g)|
  {
    WalkSound(OpenCells(g), StartPos(g), 0);
    TourLength(OpenCells(g), StartPos(g), Solve(g).value);
  }

  /** Every step of a non-empty result is an in-bounds cell tagged neither Wall nor Start. */
  lemma SolveStepsOpen(g: Layout, k: nat)
    requires Solve(g).Ok? && k < |Solve(g).value|
    ensures g.Covers() && g.InBounds(Solve(g).value[k])
    ensures IsOpen(g.Tag(Solve(g).value[k]))
  {
    SolveSound(g);
  }

  /** An empty result on a board with rows and columns means no tour of the open cells exists. */
  lemma SolveComplete(g: Layout, q: seq<Pos>)
    requires g.Covers() && g.width > 0 && g.height > 0
    requires IsTour(OpenCells(g), StartPos(g), q)
    ensures Solve(g).Ok? && Solve(g).value != []
  {
    WalkComplete(OpenCells(g), StartPos(g), 0, q);
    WalkSound(OpenCells(g), StartPos(g), 0);
  }

  /** The returned tour is the first in the fixed up, down, left, right order. */
  lemma SolveFirst(g: Layout, q: seq<Pos>)
    requires Solve(g).Ok? && Solve(g).value != []
    requires IsTour(OpenCells(g), StartPos(g), q)
    ensures !LexLess(Dirs(StartPos(g), q), Dirs(StartPos(g), Solve(g).value))
  {
    WalkFirst(OpenCells(g), StartPos(g), 0, Solve(g).value, q);
  }

  /** A board without open cells has no route: no move is ever legal. */
  lemma NoOpenCellsNoRoute(g: Layout)
    requires g.Covers() && g.width > 0 && g.height > 0 && OpenCells(g) == {}
    ensures Solve(g) == Ok([])
  {
    NothingFree(StartPos(g), 0);
  }

  lemma {:induction false} NothingFree(cur: Pos, k: nat)
    requires k <= 4
    ensures Walk({}, cur, k) == None
    decreases 4 - k
  {
    if k < 4 {
      NothingFree(cur, k + 1);
    }
  }

  /**
   * A start cell whose four neighbours are all walls, Start cells or off the
   * board has no route as soon as some other cell is open.
   */
  lemma EnclosedStartNoRoute(g: Layout)
    requires g.Covers() && g.width > 0 && g.height > 0 && OpenCells(g) != {}
    requires forall k :: 0 <= k < 4 ==> Neighbour(StartPos(g), k) !in OpenCells(g)
    ensures Solve(g) == Ok([])
  {
    BlockedFrom(OpenCells(g), StartPos(g), 0);
  }

  lemma {:induction false} BlockedFrom(free: set<Pos>, cur: Pos, k: nat)
    requires k <= 4
    requires forall j :: k <= j < 4 ==> Neighbour(cur, j) !in free
    ensures Walk(free, cur, k) == None
    decreases 4 - k
  {
    if k < 4 {
      BlockedFrom(free, cur, k + 1);
    }
  }

  /** The search begins on the last Start cell in row-major order, when there is one. */
  lemma StartPosIsLastStart(g: Layout)
    requires g.Covers() && Starts(g) != []
    ensures g.InBounds(StartPos(g)) && g.Tag(StartPos(g)) == START
    ensures forall p :: g.InBounds(p) && g.Tag(p) == START && p != StartPos(g) ==> Before(p, StartPos(g))
  {
    var s := Starts(g);
    forall p | g.InBounds(p) && g.Tag(p) == START && p != StartPos(g)
      ensures Before(p, StartPos(g))
    {
      var i :| 0 <= i < |s| && s[i] == p;
      assert i < |s| - 1;
    }
  }
}
