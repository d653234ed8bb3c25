/**
 * The LevelData asset and its custom inspector: the bounds-checked cell
 * accessor, the backtracking solver over a mutable visited overlay, the
 * random layout generator and the inspector's resize and click handling.
 */
module Levels {
  import opened Wrappers
  import opened Grid
  import opened Solver

  /** How one call of GenerateRandomLevel ended. */
  datatype Generation =
    | Generated
      /** the supplied random choices ran out (the engine's generator never does) */
    | OutOfChoices
      /** the attempt budget ran out (the source retries without bound) */
    | AttemptsExhausted
      /** a board with no rows or no columns: the start cell is written outside the empty array */
    | SizeOutOfRange

  /** Random.Range(0, max) for integers, driven by a supplied raw choice. */
  function RandomRange(max: nat, raw: int): (v: nat)
    ensures max > 0 ==> v < max
    ensures max == 0 ==> v == 0
  {
    if max == 0 then 0 else raw % max
  }

  /** The generator's index x * y + x of a cell chosen in a px x py board stays inside the array. */
  lemma GeneratorIndexBound(px: int, py: int, x: int, y: int)
    requires 0 <= x < px && 0 <= y < py
    ensures 0 <= x * y + x < px * py
    ensures y * x + x == x * y + x
  {
    assert x * y + x == x * (y + 1);
    assert x * (y + 1) <= x * py by { MulLeft(y + 1, py, x); }
    assert x * py < px * py by { MulLeft(x + 1, px, py); }
  }

  /** The array index the generator derives from one random pair: x * y + x for x and y drawn below px and py. */
  function Drawn(px: nat, py: nat, a: int, b: int): (k: nat)
    requires px > 0 && py > 0
    ensures k < px * py
  {
    var x := RandomRange(px, a);
    var y := RandomRange(py, b);
    GeneratorIndexBound(px, py, x, y);
    y * x + x
  }

  /** choices[lo..hi] is a whole number of random pairs. */
  predicate Paired(lo: nat, hi: nat)
    decreases hi
  {
    lo == hi || (lo + 2 <= hi && Paired(lo, hi - 2))
  }

  /** The tags the wall loop draws again on: a Wall or the Start cell. */
  predicate Taken(t: byte) {
    t == WALL || t == START
  }

  /** Every random pair of choices[lo..hi] names a taken cell of `cells`. */
  predicate Rejected(cells: seq<byte>, px: nat, py: nat, choices: seq<int>, lo: nat, hi: nat)
    requires px > 0 && py > 0
    requires |cells| == px * py
    requires lo <= hi <= |choices|
    decreases hi
  {
    hi < lo + 2 ||
    (Rejected(cells, px, py, choices, lo, hi - 2) && Taken(cells[Drawn(px, py, choices[hi - 2], choices[hi - 1])]))
  }

  /** No index occurs twice. */
  predicate Distinct(ks: seq<nat>) {
    forall a, b :: 0 <= a < b < |ks| ==> ks[a] != ks[b]
  }

  /** The generated layout: Start at `start`, Wall at every index of `walls`, Empty elsewhere. */
  predicate Placed(cells: seq<byte>, start: nat, walls: seq<nat>) {
    forall k :: 0 <= k < |cells| ==> cells[k] == if k == start then START else if k in walls then WALL else EMPTY
  }

  /** Turning an Empty cell of a placed layout into a Wall adds one new wall index. */
  lemma PlacedStep(cells: seq<byte>, start: nat, walls: seq<nat>, w: nat)
    requires Placed(cells, start, walls) && Distinct(walls) && start !in walls
    requires w < |cells| && cells[w] == EMPTY
    ensures w != start && w !in walls
    ensures Placed(cells[w := WALL], start, walls + [w]) && Distinct(walls + [w]) && start !in walls + [w]
  {
    assert w != start && w !in walls by {
      assert cells[w] == if w == start then START else if w in walls then WALL else EMPTY;
    }
  }

  /** The cells Placed describes, as a sequence of n cells. */
  function Laid(n: nat, start: nat, walls: seq<nat>): (cells: seq<byte>)
    ensures |cells| == n && Placed(cells, start, walls)
  {
    seq(n, k => if k == start then START else if k in walls then WALL else EMPTY)
  }

  /** A placed layout is the one Laid builds. */
  lemma PlacedIsLayout(cells: seq<byte>, start: nat, walls: seq<nat>)
    requires Placed(cells, start, walls)
    ensures cells == Laid(|cells|, start, walls)
  {
  }

  /** Where the random pairs for wall i begin: after the previous wall's last pair, or at `first` for wall 0. */
  function PairsFrom(ends: seq<nat>, i: nat, first: nat): nat
    requires i <= |ends|
  {
    if i == 0 then first else ends[i - 1]
  }

  /**
   * Each wall of `walls` was drawn by the pair that ends at the matching entry
   * of `ends`, and every pair drawn since the previous wall (or since `first`,
   * for the first wall) named a Wall or the Start cell of the layout built up
   * to then.
   */
  predicate DrawnWalls(px: nat, py: nat, choices: seq<int>, first: nat, start: nat, walls: seq<nat>, ends: seq<nat>)
    decreases |walls|
  {
    px > 0 && py > 0 && |walls| == |ends| &&
    (walls == [] ||
     var n := |walls| - 1;
     DrawnWalls(px, py, choices, first, start, walls[..n], ends[..n]) &&
     PairsFrom(ends, n, first) + 2 <= ends[n] <= |choices| && Paired(PairsFrom(ends, n, first), ends[n]) &&
     walls[n] == Drawn(px, py, choices[ends[n] - 2], choices[ends[n] - 1]) &&
     Rejected(Laid(px * py, start, walls[..n]), px, py, choices, PairsFrom(ends, n, first), ends[n] - 2))
  }

  /** One more wall drawn by the pair ending at e extends the record. */
  lemma DrawnWallsStep(px: nat, py: nat, choices: seq<int>, first: nat, start: nat, walls: seq<nat>, ends: seq<nat>, w: nat, e: nat)
    requires DrawnWalls(px, py, choices, first, start, walls, ends)
    requires PairsFrom(ends, |ends|, first) + 2 <= e <= |choices| && Paired(PairsFrom(ends, |ends|, first), e)
    requires w == Drawn(px, py, choices[e - 2], choices[e - 1])
    requires Rejected(Laid(px * py, start, walls), px, py, choices, PairsFrom(ends, |ends|, first), e - 2)
    ensures DrawnWalls(px, py, choices, first, start, walls + [w], ends + [e])
  {
    var walls', ends' := walls + [w], ends + [e];
    assert walls'[..|walls|] == walls && ends'[..|ends|] == ends;
    assert walls'[|walls|] == w && ends'[|ends|] == e;
    assert PairsFrom(ends', |ends|, first) == PairsFrom(ends, |ends|, first);
  }

  /**
   * One pass of the wall loop on a placed layout: the drawn Empty cell turns
   * into a Wall, and the layout and the draw record both take in the new wall.
   */
  lemma WallStep(px: nat, py: nat, choices: seq<int>, start: nat, walls: seq<nat>, ends: seq<nat>, before: seq<byte>, w: nat, e: nat)
    requires |before| == px * py && Placed(before, start, walls) && Distinct(walls) && start !in walls
    requires DrawnWalls(px, py, choices, 2, start, walls, ends)
    requires PairsFrom(ends, |ends|, 2) + 2 <= e <= |choices| && Paired(PairsFrom(ends, |ends|, 2), e)
    requires w == Drawn(px, py, choices[e - 2], choices[e - 1])
    requires Rejected(before, px, py, choices, PairsFrom(ends, |ends|, 2), e - 2) && before[w] == EMPTY
    ensures Placed(before[w := WALL], start, walls + [w]) && Distinct(walls + [w]) && start !in walls + [w]
    ensures DrawnWalls(px, py, choices, 2, start, walls + [w], ends + [e])
  {
    PlacedIsLayout(before, start, walls);
    DrawnWallsStep(px, py, choices, 2, start, walls, ends, w, e);
    PlacedStep(before, start, walls, w);
  }

  /**
   * The record wall by wall: wall i came from the pair ending at ends[i], the
   * pairs since the previous wall were all rejected, and the ends rise in
   * whole pairs from `first`.
   */
  lemma {:induction false} DrawnWallsAt(px: nat, py: nat, choices: seq<int>, first: nat, start: nat, walls: seq<nat>, ends: seq<nat>, i: nat)
    requires DrawnWalls(px, py, choices, first, start, walls, ends) && i < |walls|
    ensures px > 0 && py > 0 && |ends| == |walls|
    ensures PairsFrom(ends, i, first) + 2 <= ends[i] <= |choices| && Paired(PairsFrom(ends, i, first), ends[i])
    ensures walls[i] == Drawn(px, py, choices[ends[i] - 2], choices[ends[i] - 1])
    ensures Rejected(Laid(px * py, start, walls[..i]), px, py, choices, PairsFrom(ends, i, first), ends[i] - 2)
    decreases |walls|
  {
    var n := |walls| - 1;
    if i < n {
      DrawnWallsAt(px, py, choices, first, start, walls[..n], ends[..n], i);
      assert walls[..n][..i] == walls[..i];
      assert PairsFrom(ends[..n], i, first) == PairsFrom(ends, i, first);
    }
  }

  /** The overlay marks exactly the in-bounds cells outside `free`. */
  ghost predicate Mirrors(visited: array2<bool>, free: set<Pos>)
    reads visited
  {
    (forall p :: p in free ==> 0 <= p.x < visited.Length1 && 0 <= p.y < visited.Length0) &&
    (forall i, j :: 0 <= i < visited.Length0 && 0 <= j < visited.Length1 ==> (!visited[i, j] <==> Pos(j, i) in free))
  }

  /** The cells of `free` before (l, k) in row-major order. */
  ghost function FreeBefore(free: set<Pos>, k: int, l: int): set<Pos> {
    set p | p in free && (p.y < k || (p.y == k && p.x < l))
  }

  lemma FreeBeforeStart(free: set<Pos>)
    requires forall p :: p in free ==> 0 <= p.x && 0 <= p.y
    ensures FreeBefore(free, 0, 0) == {}
  {
  }

  /** One more column adds cell (l, k) when it is free. */
  lemma FreeBeforeStep(free: set<Pos>, k: int, l: int)
    ensures Pos(l, k) !in FreeBefore(free, k, l)
    ensures FreeBefore(free, k, l + 1) == FreeBefore(free, k, l) + if Pos(l, k) in free then {Pos(l, k)} else {}
  {
  }

  /** The end of row k is the start of row k + 1. */
  lemma FreeBeforeRow(free: set<Pos>, k: int, w: int)
    requires forall p :: p in free ==> 0 <= p.x < w
    ensures FreeBefore(free, k, w) == FreeBefore(free, k + 1, 0)
  {
  }

  /** After the last row every free cell has been met. */
  lemma FreeBeforeAll(free: set<Pos>, h: int)
    requires forall p :: p in free ==> p.y < h
    ensures FreeBefore(free, h, 0) == free
  {
  }

  /** The overlay agrees with the tags of `cells` on every cell scanned before (j, i) in row-major order. */
  ghost predicate Scanned(visited: array2<bool>, g: Layout, i: int, j: int)
    reads visited
  {
    forall ii, jj :: 0 <= ii < visited.Length0 && 0 <= jj < visited.Length1 && (ii < i || (ii == i && jj < j)) ==>
      g.Get(Pos(jj, ii)).Some? && (visited[ii, jj] <==> !IsOpen(g.Get(Pos(jj, ii)).value))
  }

  /** No cell from (j, i) on in row-major order is marked yet. */
  ghost predicate Unscanned(visited: array2<bool>, i: int, j: int)
    reads visited
  {
    forall ii, jj :: 0 <= ii < visited.Length0 && 0 <= jj < visited.Length1 && (ii > i || (ii == i && jj >= j)) ==>
      !visited[ii, jj]
  }

  /** A fully scanned row i leaves the scan at the start of row i + 1. */
  lemma NextRow(visited: array2<bool>, g: Layout, i: int)
    requires Scanned(visited, g, i, visited.Length1) && Unscanned(visited, i, visited.Length1)
    ensures Scanned(visited, g, i + 1, 0) && Unscanned(visited, i + 1, 0)
  {
  }

  /** A finished scan proves the array covers the board and the overlay mirrors its open cells. */
  lemma ScanComplete(visited: array2<bool>, g: Layout)
    requires visited.Length0 == g.height && visited.Length1 == g.width
    requires Scanned(visited, g, g.height, 0)
    ensures g.Covers() && Mirrors(visited, OpenCells(g))
  {
    if g.width > 0 && g.height > 0 {
      assert g.Get(Pos(g.width - 1, g.height - 1)).Some? by {
        assert visited[g.height - 1, g.width - 1] ==> true;
      }
      assert (g.height - 1) * g.width + (g.width - 1) == g.width * g.height - 1;
    }
    assert g.Covers();
    forall i, j | 0 <= i < g.height && 0 <= j < g.width
      ensures !visited[i, j] <==> Pos(j, i) in OpenCells(g)
    {
      assert g.Tag(Pos(j, i)) == g.Get(Pos(j, i)).value;
    }
  }

  /** The result of one FindWay call: the route appended to the first `step` entries, or nothing. */
  function Extend(way: seq<Pos>, step: nat, found: Option<seq<Pos>>): seq<Pos>
    requires step <= |way|
  {
    match found
    case Some(p) => way[..step] + p
    case None => []
  }

  /** Writing one cell of a layout changes the tag of that cell and of no other. */
  lemma UpdateTag(g: Layout, p: Pos, v: byte)
    requires g.Covers() && g.InBounds(p)
    ensures p.y * g.width + p.x < |g.cells|
    ensures var g' := Layout(g.width, g.height, g.cells[p.y * g.width + p.x := v]);
      g'.Covers() && forall q :: g.InBounds(q) ==> g'.Tag(q) == if q == p then v else g.Tag(q)
  {
    IndexBound(g.width, g.height, p.x, p.y);
    var g' := Layout(g.width, g.height, g.cells[p.y * g.width + p.x := v]);
    forall q | g.InBounds(q) ensures g'.Tag(q) == if q == p then v else g.Tag(q) {
      IndexBound(g.width, g.height, q.x, q.y);
      if q != p {
        if q.y * g.width + q.x == p.y * g.width + p.x {
          IndexInjective(g.width, q.x, q.y, p.x, p.y);
        }
      }
    }
  }

  class LevelData {
    var width: nat
    var height: nat
    /** The cell tags, row by row: cell (x, y) is data[y * width + x]. */
    var data: array<byte>
    /** The stored solution, as computed by GetWayData. */
    var wayData: seq<Pos>
    /** How often the generator discarded a layout as a duplicate. */
    ghost var duplicateRejections: nat

    /** The array holds exactly one slot per cell. */
    ghost predicate Valid()
      reads this
    {
      data.Length == width * height
    }

    ghost function AsLayout(): Layout
      reads this, data
    {
      Layout(width, height, data[..])
    }

    /** A fresh asset: a 4 x 4 board of Empty cells with no stored solution. */
    constructor ()
      ensures Valid() && fresh(data)
      ensures width == 4 && height == 4 && wayData == []
      ensures forall k :: 0 <= k < data.Length ==> data[k] == EMPTY
    {
      width, height := 4, 4;
      data := new byte[16](_ => EMPTY);
      wayData := [];
      duplicateRejections := 0;
    }

    /** The tag of cell (x, y); any coordinate off the board, or an index past the array, throws. */
    function GetBlock(x: int, y: int): (r: Result<byte>)
      reads this, data
      ensures r.Ok? <==> 0 <= x < width && 0 <= y < height && y * width + x < data.Length
      ensures Valid() ==> (r.Ok? <==> AsLayout().InBounds(Pos(x, y)))
      ensures r.Ok? ==> AsLayout().Covers() ==> r.value == AsLayout().Tag(Pos(x, y))
      ensures r.Ok? ==> AsLayout().Get(Pos(x, y)) == Some(r.value)
      ensures r.Err? ==> r.error == OutOfRange
    {
      if x < 0 || y < 0 || x >= width || y >= height then Err(OutOfRange)
      else if y * width + x >= data.Length then
        assert Valid() ==> false by { if Valid() { IndexBound(width, height, x, y); } }
        Err(OutOfRange)
      else Ok(data[y * width + x])
    }

    /**
     * CheckWay: whether every cell of the overlay is marked, that is, whether
     * no free cell is left.
     */
    method CheckWay(visited: array2<bool>, ghost free: set<Pos>) returns (all: bool)
      requires visited.Length0 == height && visited.Length1 == width
      requires Mirrors(visited, free)
      ensures all <==> free == {}
    {
      for k := 0 to height
        invariant forall i, j :: 0 <= i < k && 0 <= j < width ==> visited[i, j]
      {
        for l := 0 to width
          invariant forall i, j :: 0 <= i < k && 0 <= j < width ==> visited[i, j]
          invariant forall j :: 0 <= j < l ==> visited[k, j]
        {
          if !visited[k, l] {
            assert Pos(l, k) in free;
            return false;
          }
        }
      }
      assert forall p :: p in free ==> visited[p.y, p.x];
      return true;
    }

    /**
     * FindWay: from `start`, try the four moves in order; a move onto an
     * unmarked in-bounds cell marks it and writes it to slot `step` of a copy
     * of `way`. The copy is returned when the overlay is then full; otherwise
     * the search recurses, and on failure the mark is undone.
     */
    method FindWay(visited: array2<bool>, ghost free: set<Pos>, start: Pos, way: seq<Pos>, step: nat)
      returns (r: seq<Pos>)
      requires visited.Length0 == height && visited.Length1 == width
      requires 0 <= start.x < width && 0 <= start.y < height
      requires Mirrors(visited, free)
      requires step + |free| == |way|
      modifies visited
      decreases |free|, 2
      ensures r == Extend(way, step, Walk(free, start, 0))
      ensures r == [] ==> forall i, j :: 0 <= i < height && 0 <= j < width ==> visited[i, j] == old(visited[i, j])
    {
      var newWay := way;
      var k := 0;
      while k < 4
        invariant 0 <= k <= 4
        invariant |newWay| == |way| && newWay[..step] == way[..step]
        invariant forall i, j :: 0 <= i < height && 0 <= j < width ==> visited[i, j] == old(visited[i, j])
        invariant Walk(free, start, 0) == Walk(free, start, k)
      {
        var done;
        r, newWay, done := TryMove(visited, free, start, newWay, step, k);
        if done {
          return;
        }
        k := k + 1;
      }
      return [];
    }

    /**
     * Move k of FindWay's loop. When it ends the search (`done`), `r` is the
     * route; otherwise the overlay is as before, slots before `step` are
     * kept, and the remaining moves decide.
     */
    method TryMove(visited: array2<bool>, ghost free: set<Pos>, start: Pos, way: seq<Pos>, step: nat, k: nat)
      returns (r: seq<Pos>, newWay: seq<Pos>, done: bool)
      requires visited.Length0 == height && visited.Length1 == width
      requires 0 <= start.x < width && 0 <= start.y < height
      requires Mirrors(visited, free)
      requires step + |free| == |way| && k < 4
      modifies visited
      decreases |free|, 1
      ensures done ==> r != [] && r == Extend(way, step, Walk(free, start, k))
      ensures !done ==> |newWay| == |way| && newWay[..step] == way[..step] && Walk(free, start, k) == Walk(free, start, k + 1)
      ensures !done ==> forall i, j :: 0 <= i < height && 0 <= j < width ==> visited[i, j] == old(visited[i, j])
    {
      var n := Neighbour(start, k);
      if 0 <= n.x < width && 0 <= n.y < height && !visited[n.y, n.x] {
        assert n in free;
        r, newWay, done := Enter(visited, free, n, way, step);
      } else {
        assert n !in free;
        r, newWay, done := [], way, false;
      }
    }

    /**
     * The body of a move onto the unmarked cell n: mark it, write it to slot
     * `step`, stop when the overlay is full, else search on from n and undo
     * the mark when that fails.
     */
    method Enter(visited: array2<bool>, ghost free: set<Pos>, n: Pos, way: seq<Pos>, step: nat)
      returns (r: seq<Pos>, newWay: seq<Pos>, done: bool)
      requires visited.Length0 == height && visited.Length1 == width
      requires 0 <= n.x < width && 0 <= n.y < height
      requires Mirrors(visited, free) && n in free
      requires step + |free| == |way|
      modifies visited
      decreases |free|, 0
      ensures done && free - {n} == {} ==> r == way[..step] + [n]
      ensures done && free - {n} != {} ==> Walk(free - {n}, n, 0).Some? && r == way[..step] + [n] + Walk(free - {n}, n, 0).value
      ensures !done ==> free - {n} != {} && Walk(free - {n}, n, 0).None?
      ensures !done ==> |newWay| == |way| && newWay[..step] == way[..step]
      ensures !done ==> forall i, j :: 0 <= i < height && 0 <= j < width ==> visited[i, j] == old(visited[i, j])
    {
      visited[n.y, n.x] := true;
      assert Mirrors(visited, free - {n});
      newWay := way[step := n];
      assert newWay[..step + 1] == way[..step] + [n];
      var full := CheckWay(visited, free - {n});
      if full {
        assert free == {n};
        assert |way| == step + 1;
        assert newWay == way[..step] + [n];
        return newWay, newWay, true;
      }
      var found := FindWay(visited, free - {n}, n, newWay, step + 1);
      if |found| > 0 {
        return found, newWay, true;
      }
      visited[n.y, n.x] := false;
      return [], newWay, false;
    }

    /**
     * One cell of GetWayData's first scan: a Wall or Start cell is marked, an
     * Empty cell unmarked, any other tag left as it is, and `pos` moves to a
     * Start cell. A cell index past the array makes GetBlock throw (`ok` false).
     */
    method MarkCell(visited: array2<bool>, ghost g: Layout, i: nat, j: nat, pos: Pos) returns (pos': Pos, ok: bool)
      requires g == AsLayout()
      requires visited.Length0 == height && visited.Length1 == width && i < height && j < width
      requires Scanned(visited, g, i, j) && Unscanned(visited, i, j)
      modifies visited
      ensures ok <==> g.Get(Pos(j, i)).Some?
      ensures ok ==> Scanned(visited, g, i, j + 1) && Unscanned(visited, i, j + 1)
      ensures ok ==> pos' == if g.Get(Pos(j, i)).value == START then Pos(j, i) else pos
    {
      var b := GetBlock(j, i);
      if b.Err? {
        return pos, false;
      }
      assert g.Get(Pos(j, i)) == Some(b.value);
      var mark := if b.value == EMPTY then false else if b.value == WALL || b.value == START then true else visited[i, j];
      assert mark <==> !IsOpen(b.value);
      visited[i, j] := mark;
      pos' := if b.value == START then Pos(j, i) else pos;
      ok := true;
    }

    /** One row of GetWayData's first scan: `pos` ends at the row's last Start cell, if any. */
    method MarkRow(visited: array2<bool>, ghost g: Layout, i: nat, pos: Pos) returns (pos': Pos, ok: bool)
      requires g == AsLayout()
      requires visited.Length0 == height && visited.Length1 == width && i < height
      requires Scanned(visited, g, i, 0) && Unscanned(visited, i, 0)
      modifies visited
      ensures ok ==> Scanned(visited, g, i + 1, 0) && Unscanned(visited, i + 1, 0)
      ensures ok && g.Covers() ==>
        var row := StartsInRow(g, i, width);
        pos' == if row == [] then pos else row[|row| - 1]
      ensures !ok ==> !g.Covers()
    {
      ghost var row;
      pos', ok, row := MarkCells(visited, g, i, pos);
      if ok {
        NextRow(visited, g, i);
      }
    }

    /** The Start cells of row i up to column j + 1 extend those up to column j, and `pos` stays at the last of them. */
    lemma RowStep(g: Layout, i: nat, j: nat, row: seq<Pos>, pos0: Pos, pos: Pos)
      requires i < g.height && j < g.width && g.Get(Pos(j, i)).Some?
      requires g.Covers() ==> row == StartsInRow(g, i, j)
      requires pos == if g.Get(Pos(j, i)).value == START then Pos(j, i) else if row == [] then pos0 else row[|row| - 1]
      ensures var row' := row + if g.Get(Pos(j, i)).value == START then [Pos(j, i)] else [];
        (g.Covers() ==> StartsInRow(g, i, j + 1) == row') && pos == if row' == [] then pos0 else row'[|row'| - 1]
    {
      if g.Covers() {
        assert g.Tag(Pos(j, i)) == g.Get(Pos(j, i)).value;
        StartsInRowStep(g, i, j);
      }
    }

    /** The cells of one row, left to right. */
    method MarkCells(visited: array2<bool>, ghost g: Layout, i: nat, pos: Pos) returns (pos': Pos, ok: bool, ghost row: seq<Pos>)
      requires g == AsLayout()
      requires visited.Length0 == height && visited.Length1 == width && i < height
      requires Scanned(visited, g, i, 0) && Unscanned(visited, i, 0)
      modifies visited
      ensures ok ==> Scanned(visited, g, i, width) && Unscanned(visited, i, width)
      ensures ok && g.Covers() ==> row == StartsInRow(g, i, width)
      ensures ok ==> pos' == if row == [] then pos else row[|row| - 1]
      ensures !ok ==> !g.Covers()
    {
      row := [];
      pos' := pos;
      for j := 0 to width
        invariant Scanned(visited, g, i, j) && Unscanned(visited, i, j)
        invariant g.Covers() ==> row == StartsInRow(g, i, j)
        invariant pos' == if row == [] then pos else row[|row| - 1]
      {
        pos', ok := MarkCell(visited, g, i, j, pos');
        if !ok {
          return;
        }
        RowStep(g, i, j, row, pos, pos');
        row := row + if g.Get(Pos(j, i)).value == START then [Pos(j, i)] else [];
      }
      ok := true;
    }

    /**
     * GetWayData's first scan over all rows: on success the overlay marks
     * exactly the cells that are not open and the position is the last
     * Start cell in row-major order, or (0, 0).
     */
    method MarkBlocked() returns (visited: array2<bool>, startPos: Pos, ok: bool)
      ensures fresh(visited) && visited.Length0 == height && visited.Length1 == width
      ensures ok <==> AsLayout().Covers()
      ensures ok ==> Mirrors(visited, OpenCells(AsLayout())) && startPos == StartPos(AsLayout())
    {
      ghost var g := AsLayout();
      visited := new bool[height, width]((_, _) => false);
      startPos := Pos(0, 0);
      for i := 0 to height
        invariant Scanned(visited, g, i, 0) && Unscanned(visited, i, 0)
        invariant g.Covers() ==> startPos == LastOr(StartsInRows(g, i))
      {
        startPos, ok := MarkRow(visited, g, i, startPos);
        if !ok {
          return;
        }
        if g.Covers() {
          StartsInRowsStep(g, i);
          LastOrAppend(StartsInRows(g, i), StartsInRow(g, i, width));
        }
      }
      ScanComplete(visited, g);
      return visited, startPos, true;
    }

    /** GetWayData's second scan: the number of unmarked cells. */
    method CountFree(visited: array2<bool>, ghost free: set<Pos>) returns (q: nat)
      requires Mirrors(visited, free)
      ensures q == |free|
    {
      q := 0;
      FreeBeforeStart(free);
      for k := 0 to visited.Length0
        invariant q == |FreeBefore(free, k, 0)|
      {
        for l := 0 to visited.Length1
          invariant q == |FreeBefore(free, k, l)|
        {
          FreeBeforeStep(free, k, l);
          if !visited[k, l] {
            q := q + 1;
          }
        }
        FreeBeforeRow(free, k, visited.Length1);
      }
      FreeBeforeAll(free, visited.Length0);
    }

    /**
     * GetWayData: build the overlay, count the unmarked cells, and search
     * from the start cell with a route buffer of that length.
     */
    method GetWayData() returns (r: Result<seq<Pos>>)
      ensures r == Solve(AsLayout())
    {
      var visited, startPos, ok := MarkBlocked();
      if !ok {
        return Err(OutOfRange);
      }
      ghost var free := OpenCells(AsLayout());
      var q := CountFree(visited, free);
      if width == 0 || height == 0 {
        // the first move test reads the overlay at [1, 0] or [0, 1]
        if width >= 2 || height >= 2 {
          return Err(OutOfRange);
        }
        return Ok([]);
      }
      var way := seq(q, _ => Pos(0, 0));
      var found := FindWay(visited, free, startPos, way, 0);
      ghost var walk := Walk(free, startPos, 0);
      assert found == if walk.Some? then walk.value else [] by {
        if walk.Some? {
          assert way[..0] + walk.value == walk.value;
        }
      }
      SolveSearches(AsLayout());
      return Ok(found);
    }

    /**
     * The draw loop of one wall: pairs are drawn from choices[c0..] until the
     * cell at index x * y + x is neither a Wall nor the Start cell. `w` is that
     * cell's index; when the choices run out, every pair drawn was rejected.
     */
    method DrawFree(px: nat, py: nat, choices: seq<int>, c0: nat) returns (c: nat, ok: bool, w: nat)
      requires data.Length == px * py && px > 0 && py > 0 && c0 <= |choices|
      ensures c0 <= c <= |choices| && Paired(c0, c)
      ensures ok ==> c0 + 2 <= c && w == Drawn(px, py, choices[c - 2], choices[c - 1]) && w < data.Length
      ensures ok ==> Rejected(data[..], px, py, choices, c0, c - 2) && !Taken(data[w])
      ensures !ok ==> c + 2 > |choices| && Rejected(data[..], px, py, choices, c0, c)
    {
      if c0 + 2 > |choices| {
        return c0, false, 0;
      }
      c := c0 + 2;
      w := Drawn(px, py, choices[c0], choices[c0 + 1]);
      while data[w] == WALL || data[w] == START
        invariant c0 + 2 <= c <= |choices| && Paired(c0, c)
        invariant w == Drawn(px, py, choices[c - 2], choices[c - 1]) && w < data.Length
        invariant Rejected(data[..], px, py, choices, c0, c - 2)
        decreases |choices| - c
      {
        assert Rejected(data[..], px, py, choices, c0, c);
        if c + 2 > |choices| {
          return c, false, 0;
        }
        w := Drawn(px, py, choices[c], choices[c + 1]);
        c := c + 2;
      }
      return c, true, w;
    }

    /**
     * One wall of GenerateRandomLevel: the first drawn cell that is neither a
     * Wall nor the Start cell is Empty, and it, and no other cell, becomes a
     * Wall. When the choices run out nothing is written.
     */
    method PlaceWall(px: nat, py: nat, choices: seq<int>, c0: nat) returns (c: nat, ok: bool, w: nat)
      requires data.Length == px * py && px > 0 && py > 0 && c0 <= |choices|
      requires forall k :: 0 <= k < data.Length ==> data[k] <= START
      modifies data
      ensures c0 <= c <= |choices| && Paired(c0, c)
      ensures forall k :: 0 <= k < data.Length ==> data[k] <= START
      ensures ok ==> c0 + 2 <= c && w == Drawn(px, py, choices[c - 2], choices[c - 1])
      ensures ok ==> Rejected(old(data[..]), px, py, choices, c0, c - 2) && !Taken(old(data[w]))
      ensures ok ==> old(data[w]) == EMPTY && data[..] == old(data[..])[w := WALL]
      ensures !ok ==> c + 2 > |choices| && Rejected(old(data[..]), px, py, choices, c0, c) && data[..] == old(data[..])
      ensures ok ==> Count(data[..], START) == Count(old(data[..]), START)
      ensures ok ==> Count(data[..], WALL) == Count(old(data[..]), WALL) + 1
    {
      c, ok, w := DrawFree(px, py, choices, c0);
      if !ok {
        return;
      }
      CountUpdate(data[..], w, WALL, START);
      CountUpdate(data[..], w, WALL, WALL);
      data[w] := WALL;
    }

    /**
     * A freshly generated board of px x py cells: the tags are Empty, Wall and
     * Start only, with one Start cell and wallsCount Walls.
     */
    ghost predicate WellFormed(px: nat, py: nat, wallsCount: nat)
      reads this, data
    {
      Valid() && width == px && height == py && px > 0 && py > 0 &&
      (forall k :: 0 <= k < data.Length ==> data[k] <= START) &&
      Count(data[..], START) == 1 && Count(data[..], WALL) == wallsCount
    }

    /** The stored route is the solver's route for the current layout, and there is one. */
    ghost predicate Solved()
      reads this, data
    {
      Solve(AsLayout()) == Ok(wayData) && wayData != []
    }

    /** The Start cell of GenerateRandomLevel, at index x * y + x of a board of Empty cells. */
    method PlaceStart(px: nat, py: nat, x: nat, y: nat)
      requires x < px && y < py && data.Length == px * py
      requires forall k :: 0 <= k < data.Length ==> data[k] == EMPTY
      modifies data
      ensures x * y + x < data.Length && data[..] == old(data[..])[x * y + x := START]
      ensures forall k :: 0 <= k < data.Length ==> data[k] <= START
      ensures Count(data[..], START) == 1 && Count(data[..], WALL) == 0
    {
      GeneratorIndexBound(px, py, x, y);
      CountAbsent(data[..], START);
      CountAbsent(data[..], WALL);
      CountUpdate(data[..], x * y + x, START, START);
      CountUpdate(data[..], x * y + x, START, WALL);
      data[x * y + x] := START;
    }

    /**
     * The layout part of GenerateRandomLevel: a px x py board of Empty cells,
     * a Start cell at index x * y + x for the first random pair, then
     * wallsCount Walls. `c` is the number of random values used; `start` is
     * the Start cell's index and `walls` the wall indices in placement order.
     */
    method Fill(px: nat, py: nat, wallsCount: nat, choices: seq<int>)
      returns (c: nat, outcome: Generation, start: nat, ghost walls: seq<nat>, ghost ends: seq<nat>)
      modifies this
      ensures c <= |choices| && outcome != AttemptsExhausted
      ensures duplicateRejections == old(duplicateRejections) && wayData == old(wayData)
      ensures outcome == Generated ==> WellFormed(px, py, wallsCount) && fresh(data)
      ensures outcome == Generated ==> |choices| >= 2 && start == Drawn(px, py, choices[0], choices[1])
      ensures outcome == Generated ==> |walls| == wallsCount && start !in walls && Distinct(walls)
      ensures outcome == Generated ==> Placed(data[..], start, walls)
      ensures outcome == Generated ==> DrawnWalls(px, py, choices, 2, start, walls, ends) && c == PairsFrom(ends, |ends|, 2)
    {
      width, height := px, py;
      data := new byte[px * py](_ => EMPTY);
      walls, ends := [], [];
      if |choices| < 2 {
        return 0, OutOfChoices, 0, walls, ends;
      }
      var xs := RandomRange(px, choices[0]);
      var ys := RandomRange(py, choices[1]);
      c := 2;
      if px == 0 || py == 0 {
        return c, SizeOutOfRange, 0, walls, ends;
      }
      PlaceStart(px, py, xs, ys);
      start := xs * ys + xs;
      assert Placed(data[..], start, walls);
      var ok;
      c, ok, walls, ends := PlaceWalls(px, py, wallsCount, choices, start);
      outcome := if ok then Generated else OutOfChoices;
    }

    /**
     * The wall loop of GenerateRandomLevel on a board holding only the Start
     * cell at `start`: wallsCount walls, each drawn from the choices after the
     * first pair. `ok` is false when the choices run out.
     */
    method PlaceWalls(px: nat, py: nat, wallsCount: nat, choices: seq<int>, start: nat)
      returns (c: nat, ok: bool, ghost walls: seq<nat>, ghost ends: seq<nat>)
      requires data.Length == px * py && px > 0 && py > 0 && 2 <= |choices|
      requires Placed(data[..], start, []) && Count(data[..], START) == 1 && Count(data[..], WALL) == 0
      modifies data
      ensures c <= |choices|
      ensures ok ==> (forall k :: 0 <= k < data.Length ==> data[k] <= START) && Count(data[..], START) == 1 && Count(data[..], WALL) == wallsCount
      ensures ok ==> |walls| == wallsCount && start !in walls && Distinct(walls) && Placed(data[..], start, walls)
      ensures ok ==> DrawnWalls(px, py, choices, 2, start, walls, ends) && c == PairsFrom(ends, |ends|, 2)
    {
      c, walls, ends := 2, [], [];
      for i := 0 to wallsCount
        invariant c <= |choices|
        invariant forall k :: 0 <= k < data.Length ==> data[k] <= START
        invariant Count(data[..], START) == 1 && Count(data[..], WALL) == i
        invariant |walls| == i && start !in walls && Distinct(walls) && Placed(data[..], start, walls)
        invariant DrawnWalls(px, py, choices, 2, start, walls, ends) && c == PairsFrom(ends, i, 2)
      {
        var placed: bool, w: nat;
        ghost var before := data[..];
        c, placed, w := PlaceWall(px, py, choices, c);
        if !placed {
          return c, false, walls, ends;
        }
        WallStep(px, py, choices, start, walls, ends, before, w, c);
        walls, ends := walls + [w], ends + [c];
      }
      return c, true, walls, ends;
    }

    /** The duplicate test of GenerateRandomLevel: whether a stored level holds this very array (a reference comparison). */
    method SharesArray(others: seq<LevelData>) returns (shared: bool)
      ensures shared <==> exists k :: 0 <= k < |others| && others[k].data == data
    {
      for k := 0 to |others|
        invariant forall m :: 0 <= m < k ==> others[m].data != data
      {
        if others[k].data == data {
          return true;
        }
      }
      return false;
    }

    /**
     * GenerateRandomLevel: fill a new layout; regenerate it when its array is
     * the same object as a stored level's, or when it has no route; then store
     * the route. `choices` supplies the values Random.Range would return, two
     * per cell drawn; `fuel` bounds the regeneration the source repeats
     * without limit.
     */
    method GenerateRandomLevel(px: nat, py: nat, wallsCount: nat, choices: seq<int>, others: seq<LevelData>, fuel: nat)
      returns (outcome: Generation)
      modifies this
      decreases fuel, 1
      ensures outcome == Generated ==> WellFormed(px, py, wallsCount) && Solved()
      ensures this !in others ==> duplicateRejections == old(duplicateRejections)
    {
      if fuel == 0 {
        return AttemptsExhausted;
      }
      var c: nat, start: nat;
      ghost var walls: seq<nat>, ends: seq<nat>;
      c, outcome, start, walls, ends := Fill(px, py, wallsCount, choices);
      if outcome != Generated {
        return;
      }
      outcome := AcceptOrRetry(px, py, wallsCount, choices[c..], others, fuel - 1);
    }

    /**
     * The tests GenerateRandomLevel runs on a filled layout: the duplicate
     * test and the route test each start a new generation from the remaining
     * choices; otherwise the route is stored.
     */
    method AcceptOrRetry(px: nat, py: nat, wallsCount: nat, choices: seq<int>, others: seq<LevelData>, fuel: nat)
      returns (outcome: Generation)
      requires WellFormed(px, py, wallsCount)
      requires forall k :: 0 <= k < |others| && others[k] != this ==> others[k].data != data
      modifies this
      decreases fuel, 2
      ensures outcome == Generated ==> WellFormed(px, py, wallsCount) && Solved()
      ensures this !in others ==> duplicateRejections == old(duplicateRejections)
    {
      var shared := SharesArray(others);
      if shared {
        // only this asset can hold the array it was just given
        ghost var k :| 0 <= k < |others| && others[k].data == data;
        assert others[k] == this;
        duplicateRejections := duplicateRejections + 1;
        outcome := GenerateRandomLevel(px, py, wallsCount, choices, others, fuel);
        return;
      }

      var solved := GetWayData();
      if solved.Ok? && solved.value == [] {
        outcome := GenerateRandomLevel(px, py, wallsCount, choices, others, fuel);
        if outcome != Generated {
          return;
        }
      }
      var route := GetWayData();
      wayData := route.value;
      return Generated;
    }
  }

  /** The last element of a sequence of cells, or (0, 0) for none. */
  function LastOr(s: seq<Pos>): Pos {
    if s == [] then Pos(0, 0) else s[|s| - 1]
  }

  lemma LastOrAppend(a: seq<Pos>, b: seq<Pos>)
    ensures LastOr(a + b) == if b == [] then LastOr(a) else b[|b| - 1]
  {
    if b == [] {
      assert a + b == a;
    }
  }

  /** The click cycle of the inspector: Empty, Wall, Start, Empty. */
  function NextTag(v: byte): (r: byte)
    requires v < 3
    ensures v == EMPTY ==> r == WALL
    ensures v == WALL ==> r == START
    ensures v == START ==> r == EMPTY
  {
    (v + 1) % 3
  }

  /** A size component as the inspector accepts it: negative values become 0. */
  function ClampSize(n: int): (r: nat)
    ensures n >= 0 ==> r == n
    ensures n < 0 ==> r == 0
  {
    if n < 0 then 0 else n
  }

  /** Cell p is one the resize copies, and the copy loops have reached it from (x, y) on. */
  predicate Copied(p: Pos, mx: nat, my: nat, y: int, x: int) {
    0 <= p.x < mx && 0 <= p.y < my && (p.y > y || (p.y == y && p.x >= x))
  }

  /** The new cells hold the old tags on the copied cells and Empty elsewhere. */
  ghost predicate Filled(cells: seq<byte>, nx: nat, ny: nat, g: Layout, mx: nat, my: nat, y: int, x: int) {
    g.Covers() && mx <= g.width && my <= g.height && mx <= nx && my <= ny &&
    Layout(nx, ny, cells).Covers() &&
    forall p: Pos :: 0 <= p.x < nx && 0 <= p.y < ny ==>
      Layout(nx, ny, cells).Tag(p) == if Copied(p, mx, my, y, x) then g.Tag(p) else EMPTY
  }

  /** Before any copying, the new all-Empty cells hold no copied cell. */
  lemma FilledNone(cells: seq<byte>, nx: nat, ny: nat, g: Layout, mx: nat, my: nat)
    requires g.Covers() && mx <= g.width && my <= g.height && mx <= nx && my <= ny
    requires |cells| == ny * nx && forall k :: 0 <= k < |cells| ==> cells[k] == EMPTY
    ensures Filled(cells, nx, ny, g, mx, my, my, 0)
  {
    forall p: Pos | 0 <= p.x < nx && 0 <= p.y < ny
      ensures Layout(nx, ny, cells).Tag(p) == EMPTY
    {
      IndexBound(nx, ny, p.x, p.y);
    }
  }

  /** Copying cell (x, y) extends the copied region by that cell. */
  lemma FillStep(cells: seq<byte>, nx: nat, ny: nat, g: Layout, mx: nat, my: nat, y: nat, x: nat)
    requires Filled(cells, nx, ny, g, mx, my, y, x + 1) && x < mx && y < my
    ensures 0 <= y * nx + x < |cells|
    ensures Filled(cells[y * nx + x := g.Tag(Pos(x, y))], nx, ny, g, mx, my, y, x)
  {
    UpdateTag(Layout(nx, ny, cells), Pos(x, y), g.Tag(Pos(x, y)));
  }

  /** Once every row is copied, a cell inside both bounds keeps its tag and every other one is Empty. */
  lemma FilledKeeps(cells: seq<byte>, nx: nat, ny: nat, g: Layout, mx: nat, my: nat)
    requires Filled(cells, nx, ny, g, mx, my, 0, 0)
    requires mx == (if nx < g.width then nx else g.width) && my == (if ny < g.height then ny else g.height)
    ensures var g' := Layout(nx, ny, cells);
      forall p :: g'.InBounds(p) ==> g'.Tag(p) == if g.InBounds(p) then g.Tag(p) else EMPTY
  {
    forall p | Layout(nx, ny, cells).InBounds(p)
      ensures Layout(nx, ny, cells).Tag(p) == if g.InBounds(p) then g.Tag(p) else EMPTY
    {
      assert Copied(p, mx, my, 0, 0) <==> g.InBounds(p);
    }
  }

  /** Copies the cells of the mx x my top-left region of `src` (laid out as g) into `dst`, row by row from the bottom. */
  method CopyRegion(src: array<byte>, dst: array<byte>, ghost g: Layout, ow: nat, nx: nat, ny: nat, mx: nat, my: nat)
    requires src != dst && src[..] == g.cells && ow == g.width
    requires Filled(dst[..], nx, ny, g, mx, my, my, 0)
    modifies dst
    ensures Filled(dst[..], nx, ny, g, mx, my, 0, 0)
  {
    var y: int := my;
    while y > 0
      invariant 0 <= y <= my
      invariant Filled(dst[..], nx, ny, g, mx, my, y, 0)
    {
      y := y - 1;
      var x: int := mx;
      while x > 0
        invariant 0 <= x <= mx
        invariant Filled(dst[..], nx, ny, g, mx, my, y, x)
      {
        x := x - 1;
        IndexBound(ow, g.height, x, y);
        assert src[y * ow + x] == g.Tag(Pos(x, y));
        FillStep(dst[..], nx, ny, g, mx, my, y, x);
        dst[y * nx + x] := src[y * ow + x];
      }
    }
  }

  class LevelDataEditor {
    const target: LevelData
    /** Whether the asset has unsaved edits. */
    var changed: bool

    constructor (target: LevelData)
      ensures this.target == target && !changed
    {
      this.target := target;
      changed := false;
    }

    /**
     * The copy behind a size change: target gets a new nx x ny array holding
     * the old tag of every cell inside both bounds and Empty elsewhere.
     */
    static method ReshapeData(target: LevelData, nx: nat, ny: nat)
      requires target.Valid()
      modifies target
      ensures target.Valid() && fresh(target.data)
      ensures target.width == nx && target.height == ny && target.wayData == old(target.wayData)
      ensures var g := old(target.AsLayout()); var g' := target.AsLayout();
        forall p :: g'.InBounds(p) ==> g'.Tag(p) == if g.InBounds(p) then g.Tag(p) else EMPTY
    {
      var ow, oh := target.width, target.height;
      ghost var g := target.AsLayout();
      var newData := new byte[ny * nx](_ => EMPTY);
      var my := if ny < oh then ny else oh;
      var mx := if nx < ow then nx else ow;
      FilledNone(newData[..], nx, ny, g, mx, my);
      CopyRegion(target.data, newData, g, ow, nx, ny, mx, my);
      FilledKeeps(newData[..], nx, ny, g, mx, my);
      target.width, target.height := nx, ny;
      target.data := newData;
      assert target.AsLayout() == Layout(nx, ny, newData[..]);
    }

    /**
     * The size field: a size that differs from the current one, after
     * clamping, gets a new array in which every cell inside both the old and
     * the new bounds keeps its tag at the same (x, y) and every other cell is
     * Empty.
     */
    method Resize(newX: int, newY: int)
      requires target.Valid()
      modifies this, target
      ensures target.Valid()
      ensures target.width == ClampSize(newX) && target.height == ClampSize(newY)
      ensures target.wayData == old(target.wayData)
      ensures var g := old(target.AsLayout()); var g' := target.AsLayout();
        forall p :: g'.InBounds(p) ==> g'.Tag(p) == if g.InBounds(p) then g.Tag(p) else EMPTY
      ensures if old(target.width) == target.width && old(target.height) == target.height
        then target.data == old(target.data) && changed == old(changed)
        else fresh(target.data) && changed
    {
      var nx := ClampSize(newX);
      var ny := ClampSize(newY);
      if target.width != nx || target.height != ny {
        ReshapeData(target, nx, ny);
        changed := true;
      }
    }

    /**
     * A click on cell (x, y) advances its tag along the cycle. The editor
     * draws the cells in row-major order and looks up each tag's colour
     * before it reacts to the click; a tag of 3 or more has no colour, so a
     * cell up to and including (x, y) that carries one throws first: `ok` is
     * false and nothing changes.
     */
    method Click(x: nat, y: nat) returns (ok: bool)
      requires target.Valid() && x < target.width && y < target.height
      modifies this, target.data
      ensures target.Valid() && target.data == old(target.data)
      ensures y * target.width + x < target.data.Length
      ensures var cells := old(target.data[..]);
        ok == forall k :: 0 <= k <= y * target.width + x ==> cells[k] < 3
      ensures var g := old(target.AsLayout());
        ok ==> g.Tag(Pos(x, y)) < 3 && changed && forall p :: g.InBounds(p) ==>
          target.AsLayout().Tag(p) == if p == Pos(x, y) then NextTag(g.Tag(p)) else g.Tag(p)
      ensures !ok ==> unchanged(target.data) && changed == old(changed)
    {
      ghost var g := target.AsLayout();
      IndexBound(target.width, target.height, x, y);
      var idx := y * target.width + x;
      var k := 0;
      while k <= idx
        invariant k <= idx + 1
        invariant forall j :: 0 <= j < k ==> target.data[j] < 3
      {
        if target.data[k] >= 3 {
          return false;
        }
        k := k + 1;
      }
      var value := target.data[idx];
      UpdateTag(g, Pos(x, y), NextTag(value));
      target.data[idx] := NextTag(value);
      changed := true;
      return true;
    }
  }
}
