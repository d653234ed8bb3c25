/**
 * The play screen: one Dot per non-Wall cell of the loaded level, a chain of
 * active dots from the Start cell to the current dot (each dot remembers its
 * predecessor), the win check, the level counter and the help button that
 * replays the stored route.
 */
module Game {
  import opened Wrappers
  import opened Grid
  import opened Solver
  import opened Levels

  /** The tags that get a dot on the board. */
  predicate HasDot(t: byte) {
    t == EMPTY || t == START
  }

  /** Cell p of g gets a dot and lies in the first i rows, or in row i before column j. */
  predicate Made(g: Layout, i: int, j: int, p: Pos) {
    (p.y < i || (p.y == i && p.x < j)) && g.Get(p).Some? && HasDot(g.Get(p).value)
  }

  /**
   * A level the help button can solve: a covered board of Empty, Wall and
   * Start cells with at least one Start cell, whose stored route is the
   * solver's non-empty route.
   */
  ghost predicate LevelSolved(level: LevelData)
    reads level, level.data
  {
    var g := level.AsLayout();
    g.Covers() && g.width > 0 && g.height > 0 &&
    (forall k :: 0 <= k < |g.cells| ==> g.cells[k] <= START) &&
    Starts(g) != [] &&
    Solve(g) == Ok(level.wayData) && level.wayData != []
  }

  /** The Start cells of g met by a row-major scan that stops before column j of row i. */
  ghost function ScanStarts(g: Layout, i: nat, j: nat): seq<Pos>
    decreases i, j
  {
    if j == 0 then
      if i == 0 then [] else ScanStarts(g, i - 1, g.width)
    else
      ScanStarts(g, i, j - 1) + if g.Get(Pos(j - 1, i)) == Some(START) then [Pos(j - 1, i)] else []
  }

  /** On a covered board the scan meets the Start cells of the earlier rows, then those of row i before column j. */
  lemma {:induction false} ScanStartsRows(g: Layout, i: nat, j: nat)
    requires g.Covers() && i < g.height && j <= g.width
    ensures ScanStarts(g, i, j) == StartsInRows(g, i) + StartsInRow(g, i, j)
    decreases i, j
  {
    if j == 0 {
      if i > 0 {
        ScanStartsRows(g, i - 1, g.width);
        ScanNextRow(g, i);
      }
    } else {
      ScanStartsRows(g, i, j - 1);
      ScanNextColumn(g, i, j);
    }
  }

  /** The scan at the start of row i has met the Start cells of the rows above. */
  lemma ScanNextRow(g: Layout, i: nat)
    requires g.Covers() && 0 < i < g.height
    requires ScanStarts(g, i - 1, g.width) == StartsInRows(g, i - 1) + StartsInRow(g, i - 1, g.width)
    ensures ScanStarts(g, i, 0) == StartsInRows(g, i) + StartsInRow(g, i, 0)
  {
    StartsInRowsStep(g, i - 1);
    assert StartsInRow(g, i, 0) == [];
  }

  /** One more column of row i extends both sides by the same cell, if it is a Start cell. */
  lemma ScanNextColumn(g: Layout, i: nat, j: nat)
    requires g.Covers() && i < g.height && 0 < j <= g.width
    requires ScanStarts(g, i, j - 1) == StartsInRows(g, i) + StartsInRow(g, i, j - 1)
    ensures ScanStarts(g, i, j) == StartsInRows(g, i) + StartsInRow(g, i, j)
  {
    var c := Pos(j - 1, i);
    StartsInRowStep(g, i, j - 1);
    assert g.Get(c) == Some(g.Tag(c));
    ConcatStep(ScanStarts(g, i, j - 1), StartsInRows(g, i), StartsInRow(g, i, j - 1),
      if g.Get(c) == Some(START) then [c] else [], ScanStarts(g, i, j), StartsInRow(g, i, j));
  }

  /** Appending x to a + b appends it to b. */
  lemma ConcatStep(s: seq<Pos>, a: seq<Pos>, b: seq<Pos>, x: seq<Pos>, r: seq<Pos>, t: seq<Pos>)
    requires s == a + b && r == s + x && t == b + x
    ensures r == a + t
  {
  }

  /** The complete scan meets exactly the Start cells, in row-major order. */
  lemma ScanStartsAll(g: Layout)
    requires g.Covers()
    ensures ScanStarts(g, g.height, 0) == Starts(g)
  {
    if g.height > 0 {
      ScanStartsRows(g, g.height - 1, g.width);
      StartsInRowsStep(g, g.height - 1);
    }
  }

  class Dot {
    /** The dot's row. */
    const i: int
    /** The dot's column. */
    const j: int
    var isActive: bool
    var isCurrent: bool
    /** The dot that was current when this one became current. */
    var lastDot: Dot?

    /** The dot's cell, in the (column, row) convention of the dictionary keys. */
    function Cell(): Pos {
      Pos(j, i)
    }

    /** Init: a dot for row i, column j, registered under key (j, i); the key must be free. */
    constructor Init(i: int, j: int, gm: GameManager)
      requires Pos(j, i) !in gm.dots
      modifies gm
      ensures this.i == i && this.j == j
      ensures !isActive && !isCurrent && lastDot == null
      ensures gm.dots == old(gm.dots)[Pos(j, i) := this]
      ensures gm.currentDot == old(gm.currentDot) && gm.chain == old(gm.chain) && gm.pinned == old(gm.pinned)
      ensures gm.Counters() == old(gm.Counters())
      ensures gm.restartLevel == old(gm.restartLevel) && gm.helpCount == old(gm.helpCount)
    {
      this.i := i;
      this.j := j;
      isActive := false;
      isCurrent := false;
      lastDot := null;
      new;
      gm.dots := gm.dots[Pos(j, i) := this];
    }

    /**
     * The IsCurrent setter. Setting it makes the dot active and current and
     * remembers the previous current dot; clearing it makes the remembered
     * dot current again and this one inactive (the previous dot must exist).
     */
    method SetIsCurrent(gm: GameManager, value: bool)
      requires !value ==> lastDot != null && |gm.chain| > 0
      modifies this, gm
      ensures isCurrent == value && isActive == value
      ensures value ==> lastDot == old(gm.currentDot) && gm.currentDot == this && gm.chain == old(gm.chain) + [this]
      ensures !value ==> lastDot == old(lastDot) && gm.currentDot == lastDot && gm.chain == old(gm.chain)[..|old(gm.chain)| - 1]
      ensures value ==> gm.pinned == old(gm.pinned)
      ensures !value ==> gm.pinned == if old(gm.pinned) < |gm.chain| then old(gm.pinned) else |gm.chain|
      ensures gm.dots == old(gm.dots) && gm.Counters() == old(gm.Counters())
      ensures gm.restartLevel == old(gm.restartLevel) && gm.helpCount == old(gm.helpCount)
    {
      isCurrent := value;
      if isCurrent {
        lastDot := gm.currentDot;
        gm.currentDot := this;
        isActive := true;
        gm.chain := gm.chain + [this];
      } else {
        gm.currentDot := lastDot;
        isActive := false;
        gm.chain := gm.chain[..|gm.chain| - 1];
        if gm.pinned > |gm.chain| {
          // a pop below the Start dots: every later push must be a neighbour
          gm.pinned := |gm.chain|;
        }
      }
    }

    /**
     * The pointer entering this dot. Entering the current dot's predecessor
     * pops the chain; entering an inactive dot one row or column away from
     * the current dot pushes it and runs the win check; anything else
     * changes nothing.
     */
    method CheckOnEnter(gm: GameManager)
      requires gm.Valid() && this in gm.dots.Values
      modifies gm, gm.dots.Values
      ensures gm.Valid()
      ensures gm.dots == old(gm.dots) && gm.restartLevel == old(gm.restartLevel) && gm.helpCount == old(gm.helpCount)
      ensures old(gm.currentDot.lastDot) == this ==>
        gm.chain == old(gm.chain)[..|old(gm.chain)| - 1] && gm.currentDot == this &&
        gm.Inactive() == old(gm.Inactive()) + {old(gm.currentDot).Cell()} &&
        gm.Counters() == old(gm.Counters())
      ensures old(gm.currentDot.lastDot) != this && old(!isActive) && Adjacent(old(gm.currentDot).Cell(), Cell()) ==>
        gm.chain == old(gm.chain) + [this] && gm.currentDot == this && lastDot == old(gm.currentDot) &&
        gm.Inactive() == old(gm.Inactive()) - {Cell()} &&
        gm.Counters() == old(if gm.Inactive() == {Cell()} then gm.Won() else gm.Counters())
      ensures old(gm.currentDot.lastDot) != this && !(old(!isActive) && Adjacent(old(gm.currentDot).Cell(), Cell())) ==>
        gm.chain == old(gm.chain) && gm.currentDot == old(gm.currentDot) && unchanged(gm.dots.Values) &&
        gm.Counters() == old(gm.Counters())
    {
      var cur := gm.currentDot;
      if cur.lastDot == this {
        Retreat(gm);
        return;
      }
      if !isActive && this != lastDot && this != cur {
        // the up, down, left and right tests differ only in how the connector is drawn
        if (cur.i - 1 == i && cur.j == j) || (cur.i + 1 == i && cur.j == j) ||
           (cur.j - 1 == j && cur.i == i) || (cur.j + 1 == j && cur.i == i)
        {
          AdvanceAndCheck(gm);
        } else {
          return;
        }
      }
    }

    /** A move onto an inactive neighbour, followed by the win check. */
    method AdvanceAndCheck(gm: GameManager)
      requires gm.Valid() && this in gm.dots.Values && !isActive
      requires Adjacent(gm.currentDot.Cell(), Cell())
      modifies gm, this
      ensures gm.Valid()
      ensures gm.dots == old(gm.dots) && gm.restartLevel == old(gm.restartLevel) && gm.helpCount == old(gm.helpCount)
      ensures gm.chain == old(gm.chain) + [this] && gm.currentDot == this && lastDot == old(gm.currentDot)
      ensures gm.Inactive() == old(gm.Inactive()) - {Cell()}
      ensures gm.Counters() == old(if gm.Inactive() == {Cell()} then gm.Won() else gm.Counters())
    {
      Advance(gm);
      gm.CheckWin();
    }

    /** Entering the current dot's predecessor: the current dot is cleared and this one is current again. */
    method Retreat(gm: GameManager)
      requires gm.Valid() && this in gm.dots.Values && gm.currentDot.lastDot == this
      modifies gm, gm.currentDot
      ensures gm.Valid()
      ensures gm.dots == old(gm.dots) && gm.restartLevel == old(gm.restartLevel) && gm.helpCount == old(gm.helpCount)
      ensures gm.chain == old(gm.chain)[..|old(gm.chain)| - 1] && gm.currentDot == this
      ensures gm.Inactive() == old(gm.Inactive()) + {old(gm.currentDot).Cell()}
      ensures gm.Counters() == old(gm.Counters())
    {
      var cur := gm.currentDot;
      gm.PopKeepsValid(this);
      cur.SetIsCurrent(gm, false);
    }

    /**
     * Entering an inactive neighbour of the current dot: this dot becomes
     * current and active with the old current dot as its predecessor.
     */
    method Advance(gm: GameManager)
      requires gm.Valid() && this in gm.dots.Values && !isActive
      requires Adjacent(gm.currentDot.Cell(), Cell())
      modifies gm, this
      ensures gm.Valid()
      ensures gm.dots == old(gm.dots) && gm.restartLevel == old(gm.restartLevel) && gm.helpCount == old(gm.helpCount)
      ensures gm.chain == old(gm.chain) + [this] && gm.currentDot == this && lastDot == old(gm.currentDot)
      ensures gm.Inactive() == old(gm.Inactive()) - {Cell()}
      ensures gm.AllActive() <==> old(gm.Inactive()) == {Cell()}
      ensures gm.Counters() == old(gm.Counters())
    {
      var cur := gm.currentDot;
      ghost var inactive := gm.Inactive();
      assert Cell() in inactive;
      SetIsCurrent(gm, true);
      gm.AllActiveIsNoneInactive();
    }
  }

  class GameManager {
    /** The dots of the board, keyed by (column, row). */
    var dots: map<Pos, Dot>
    /** The head of the chain of active dots (a static of the dot class in the engine). */
    var currentDot: Dot?
    /** The number of the level on the board. */
    var restartLevel: int
    var helpCount: int
    var currentLevel: int
    /** The level assets by number, as the resource loader finds them. */
    const levels: map<int, LevelData>
    /** The active dots from the first Start dot to the current dot. */
    ghost var chain: seq<Dot>
    /**
     * How many chain dots are exempt from the neighbour rule: the Start dots a
     * board begins with, which need not be neighbours of each other, fewer
     * once a pop has gone below them.
     */
    ghost var pinned: nat
    /** How many times the win handler ran. */
    ghost var wins: nat

    constructor (levels: map<int, LevelData>)
      ensures this.levels == levels && dots == map[] && currentDot == null
      ensures restartLevel == 0 && helpCount == 3 && currentLevel == 350
      ensures chain == [] && pinned == 0 && wins == 0
    {
      this.levels := levels;
      dots := map[];
      currentDot := null;
      restartLevel := 0;
      helpCount := 3;
      currentLevel := 350;
      chain := [];
      pinned := 0;
      wins := 0;
    }

    /** The state outside the board that the win handler changes. */
    ghost function Counters(): (nat, int)
      reads this
    {
      (wins, currentLevel)
    }

    /** Counters() after one more win. */
    ghost function Won(): (nat, int)
      reads this
    {
      (wins + 1, if restartLevel == currentLevel then currentLevel + 1 else currentLevel)
    }

    /** Every dot sits under its own (column, row) key. */
    predicate KeysMatch()
      reads this
    {
      forall p :: p in dots ==> dots[p].Cell() == p
    }

    /** The cells whose dots are not active. */
    ghost function Inactive(): set<Pos>
      reads this, dots.Values
    {
      set p | p in dots && !dots[p].isActive
    }

    /**
     * The board invariant: the chain is non-empty, ends at the current dot,
     * lies on the board without repeats, and links each dot to the one
     * before it; its first dot's predecessor is off the board; a dot is
     * active, and current-flagged, exactly when it is in the chain, and no
     * dot is its own predecessor; from index `pinned` on, consecutive chain
     * dots are orthogonal neighbours.
     */
    ghost predicate Valid()
      reads this, dots.Values
    {
      KeysMatch() &&
      |chain| > 0 && currentDot == chain[|chain| - 1] &&
      (forall k :: 0 <= k < |chain| ==> chain[k] in dots.Values) &&
      (forall a, b :: 0 <= a < b < |chain| ==> chain[a] != chain[b]) &&
      (forall k :: 0 < k < |chain| ==> chain[k].lastDot == chain[k - 1]) &&
      (chain[0].lastDot == null || chain[0].lastDot !in dots.Values) &&
      (forall d :: d in dots.Values ==> (d.isActive <==> d in chain) && d.isCurrent == d.isActive && d.lastDot != d) &&
      (forall k :: pinned <= k < |chain| && 0 < k ==> Adjacent(chain[k - 1].Cell(), chain[k].Cell()))
    }

    /** All dots are active: the winning condition. */
    predicate AllActive()
      reads this, dots.Values
    {
      forall d :: d in dots.Values ==> d.isActive
    }

    lemma AllActiveIsNoneInactive()
      ensures AllActive() <==> Inactive() == {}
    {
      if !AllActive() {
        var d :| d in dots.Values && !d.isActive;
        var p :| p in dots && dots[p] == d;
        assert p in Inactive();
      }
    }

    /** The current dot's predecessor on the board is the dot before it in the chain. */
    lemma PopKeepsValid(d: Dot)
      requires Valid() && d in dots.Values && currentDot.lastDot == d
      ensures |chain| > 1 && chain[|chain| - 2] == d
    {
    }

    /** OnWin: the level counter moves on only when the level just won is the current one. */
    method OnWin()
      modifies this
      ensures Counters() == old(Won())
      ensures dots == old(dots) && currentDot == old(currentDot) && chain == old(chain) && pinned == old(pinned)
      ensures restartLevel == old(restartLevel) && helpCount == old(helpCount)
    {
      wins := wins + 1;
      if restartLevel == currentLevel {
        currentLevel := currentLevel + 1;
      }
    }

    /** CheckWin: the win handler runs exactly when every dot is active. */
    method CheckWin()
      modifies this
      ensures Counters() == old(if AllActive() then Won() else Counters())
      ensures dots == old(dots) && currentDot == old(currentDot) && chain == old(chain) && pinned == old(pinned)
      ensures restartLevel == old(restartLevel) && helpCount == old(helpCount)
    {
      if AllActive() {
        OnWin();
      }
    }

    /**
     * The board built so far by MakeLevel, scanning g row by row up to
     * column j of row i: the dots are those of the scanned Empty and Start
     * cells, a dot is active exactly on a Start cell, and the chain holds
     * the Start dots in scan order, the first one remembering `prev` (the
     * current dot of the previous board).
     */
    ghost predicate Built(g: Layout, i: nat, j: nat, prev: Dot?)
      reads this, dots.Values
    {
      BuiltKeys(g, i, j) && BuiltFlags(g, i, j) && BuiltChain(prev, ScanStarts(g, i, j))
    }

    /** The dots sit under their own keys, on the scanned cells that get one. */
    ghost predicate BuiltKeys(g: Layout, i: int, j: int)
      reads this, dots.Values
    {
      KeysMatch() &&
      (forall p :: p in dots ==> Made(g, i, j, p)) &&
      (forall p :: Made(g, i, j, p) ==> p in dots)
    }

    /** A dot on a cell scanned before (j, i) is active exactly on a Start cell. */
    ghost predicate BuiltFlags(g: Layout, i: int, j: int)
      reads this, dots.Values
    {
      forall p :: p in dots && (p.y < i || (p.y == i && p.x < j)) ==> (dots[p].isActive <==> g.Get(p) == Some(START))
    }

    /**
     * The chain holds the dots of the cells `starts`, in order, each linked
     * to the one before it and the first to `prev`; the dots off the chain
     * have no predecessor.
     */
    ghost predicate BuiltChain(prev: Dot?, starts: seq<Pos>)
      reads this, dots.Values
    {
      |chain| == |starts| && pinned == |chain| &&
      (forall k :: 0 <= k < |starts| ==> starts[k] in dots && chain[k] == dots[starts[k]]) &&
      (forall k :: 0 <= k < |chain| ==> chain[k].isActive) &&
      (forall k :: 0 < k < |chain| ==> chain[k].lastDot == chain[k - 1]) &&
      (forall p :: p in dots ==>
        dots[p] != prev && dots[p].isCurrent == dots[p].isActive && (!dots[p].isActive ==> dots[p].lastDot == null)) &&
      currentDot == (if |chain| == 0 then prev else chain[|chain| - 1]) &&
      (|chain| > 0 ==> chain[0].lastDot == prev)
    }

    /** One cell of the scan: an Empty cell gets a dot, a Start cell a dot that becomes current, a Wall nothing. */
    method MakeCell(level: LevelData, ghost g: Layout, i: nat, j: nat, ghost base: int, ghost prev: Dot?)
      returns (ok: bool, ghost dot: Dot?)
      requires g == level.AsLayout() && i < level.height && j < level.width
      requires Built(g, i, j, prev) && base == i * g.width
      modifies this
      ensures ok <==> base + j < |g.cells|
      ensures ok ==> Built(g, i, j + 1, prev)
      ensures restartLevel == old(restartLevel) && helpCount == old(helpCount) && Counters() == old(Counters())
      ensures dots == old(dots) || (dot != null && fresh(dot) && dots == old(dots)[Pos(j, i) := dot])
    {
      dot := null;
      var b := level.GetBlock(j, i);
      if b.Err? {
        return false, dot;
      }
      ok := true;
      if b.value == EMPTY {
        dot := AddDot(g, i, j, prev);
      } else if b.value == START {
        dot := AddStart(g, i, j, prev);
      } else {
        BuiltSkip(g, i, j, prev);
      }
    }

    /** A cell without a dot leaves the board as it is. */
    lemma BuiltSkip(g: Layout, i: nat, j: nat, prev: Dot?)
      requires Built(g, i, j, prev)
      requires g.Get(Pos(j, i)).Some? && !HasDot(g.Get(Pos(j, i)).value)
      ensures Built(g, i, j + 1, prev)
    {
      assert forall p :: Made(g, i, j + 1, p) ==> Made(g, i, j, p);
      assert ScanStarts(g, i, j + 1) == ScanStarts(g, i, j);
    }

    /** An Empty cell gets an inactive dot. */
    method AddDot(ghost g: Layout, i: nat, j: nat, ghost prev: Dot?) returns (dot: Dot)
      requires Built(g, i, j, prev) && g.Get(Pos(j, i)) == Some(EMPTY)
      modifies this
      ensures Built(g, i, j + 1, prev)
      ensures fresh(dot) && dots == old(dots)[Pos(j, i) := dot]
      ensures restartLevel == old(restartLevel) && helpCount == old(helpCount) && Counters() == old(Counters())
    {
      dot := Place(g, i, j, prev);
      assert BuiltFlags(g, i, j + 1);
      assert ScanStarts(g, i, j + 1) == ScanStarts(g, i, j);
    }

    /** A Start cell gets a dot that becomes current. */
    method AddStart(ghost g: Layout, i: nat, j: nat, ghost prev: Dot?) returns (dot: Dot)
      requires Built(g, i, j, prev) && g.Get(Pos(j, i)) == Some(START)
      modifies this
      ensures Built(g, i, j + 1, prev)
      ensures fresh(dot) && dots == old(dots)[Pos(j, i) := dot]
      ensures restartLevel == old(restartLevel) && helpCount == old(helpCount) && Counters() == old(Counters())
    {
      dot := Place(g, i, j, prev);
      assert ScanStarts(g, i, j + 1) == ScanStarts(g, i, j) + [Pos(j, i)];
      Promote(dot, g, i, j, prev, ScanStarts(g, i, j));
    }

    /** A cell that gets a dot: a new inactive dot under its key. */
    method Place(ghost g: Layout, i: nat, j: nat, ghost prev: Dot?) returns (dot: Dot)
      requires Built(g, i, j, prev) && g.Get(Pos(j, i)).Some? && HasDot(g.Get(Pos(j, i)).value)
      modifies this
      ensures BuiltKeys(g, i, j + 1) && BuiltFlags(g, i, j) && BuiltChain(prev, ScanStarts(g, i, j))
      ensures fresh(dot) && dots == old(dots)[Pos(j, i) := dot]
      ensures !dot.isActive && !dot.isCurrent && dot.lastDot == null
      ensures restartLevel == old(restartLevel) && helpCount == old(helpCount) && Counters() == old(Counters())
    {
      assert !Made(g, i, j, Pos(j, i));
      dot := new Dot.Init(i, j, this);
      assert BuiltKeys(g, i, j + 1);
      assert BuiltFlags(g, i, j);
    }

    /** The new dot of a Start cell becomes current, with the previous current dot as its predecessor. */
    method Promote(dot: Dot, ghost g: Layout, i: int, j: int, ghost prev: Dot?, ghost starts: seq<Pos>)
      requires BuiltKeys(g, i, j + 1) && BuiltFlags(g, i, j) && BuiltChain(prev, starts)
      requires Pos(j, i) in dots && dots[Pos(j, i)] == dot && g.Get(Pos(j, i)) == Some(START)
      requires !dot.isActive && dot.lastDot == null
      modifies this, dot
      ensures BuiltKeys(g, i, j + 1) && BuiltFlags(g, i, j + 1) && BuiltChain(prev, starts + [Pos(j, i)])
      ensures dots == old(dots)
      ensures restartLevel == old(restartLevel) && helpCount == old(helpCount) && Counters() == old(Counters())
    {
      ghost var before := chain;
      assert forall k :: 0 <= k < |before| ==> before[k] != dot;
      dot.SetIsCurrent(this, true);
      currentDot := dot;
      pinned := pinned + 1;
    }

    /** Finishing a row of the scan is starting the next one. */
    lemma BuiltNextRow(g: Layout, i: nat, prev: Dot?)
      requires Built(g, i, g.width, prev)
      ensures Built(g, i + 1, 0, prev)
    {
      assert forall p :: Made(g, i, g.width, p) <==> Made(g, i + 1, 0, p);
      assert ScanStarts(g, i + 1, 0) == ScanStarts(g, i, g.width);
    }

    /** A completed scan of a covered board: the dots and their flags match the tags. */
    lemma BuiltBoard(g: Layout, prev: Dot?)
      requires g.Covers() && Built(g, g.height, 0, prev)
      ensures forall p :: p in dots ==> g.InBounds(p) && HasDot(g.Tag(p))
      ensures forall p :: g.InBounds(p) && HasDot(g.Tag(p)) ==> p in dots
      ensures forall p :: p in dots ==> (dots[p].isActive <==> g.Tag(p) == START)
    {
      forall p | g.InBounds(p) && HasDot(g.Tag(p)) ensures p in dots {
        assert Made(g, g.height, 0, p);
      }
    }

    /** A completed scan of a board with a Start cell is playable from the last Start cell. */
    lemma BuiltPlayable(g: Layout, prev: Dot?)
      requires g.Covers() && Built(g, g.height, 0, prev) && Starts(g) != []
      ensures Valid() && currentDot.Cell() == StartPos(g) && pinned == |Starts(g)|
    {
      ScanStartsAll(g);
      var s := Starts(g);
      assert BuiltChain(prev, s);
      forall a, b | 0 <= a < b < |chain| ensures chain[a] != chain[b] {
        assert Before(s[a], s[b]);
        assert chain[a].Cell() == s[a] && chain[b].Cell() == s[b];
      }
      forall k | 0 <= k < |chain| ensures chain[k] in dots.Values {
        assert dots[s[k]] == chain[k];
      }
      forall p | p in dots && dots[p].isActive ensures dots[p] in chain {
        assert p in s;
        var k :| 0 <= k < |s| && s[k] == p;
        assert chain[k] == dots[p];
      }
      forall d | d in dots.Values ensures (d.isActive <==> d in chain) && d.isCurrent == d.isActive && d.lastDot != d {
        var p :| p in dots && dots[p] == d;
        if d.isActive {
          var k :| 0 <= k < |chain| && chain[k] == d;
          if k > 0 {
            assert chain[k - 1] != chain[k];
          }
        }
      }
    }

    /**
     * The board shows layout g: one dot per Empty or Start cell, active
     * exactly on the Start cells, and when there is a Start cell the chain
     * invariant holds with the last Start dot current.
     */
    ghost predicate Shows(g: Layout)
      reads this, dots.Values
    {
      g.Covers() &&
      (forall p :: p in dots ==> g.InBounds(p) && HasDot(g.Tag(p))) &&
      (forall p :: g.InBounds(p) && HasDot(g.Tag(p)) ==> p in dots) &&
      (forall p :: p in dots ==> (dots[p].isActive <==> g.Tag(p) == START)) &&
      (Starts(g) != [] ==> Valid() && currentDot.Cell() == StartPos(g) && pinned == |Starts(g)|)
    }

    /** The empty board is the scan of no cell. */
    lemma BuiltNothing(g: Layout, prev: Dot?)
      requires dots == map[] && chain == [] && pinned == 0 && currentDot == prev
      ensures Built(g, 0, 0, prev)
    {
    }

    /** Where row i + 1 starts, and why a row that overruns the cells means the board is not covered. */
    lemma RowIndex(g: Layout, i: nat, base: int)
      requires i < g.height && base == i * g.width
      ensures base + g.width == (i + 1) * g.width
      ensures base + g.width > |g.cells| ==> !g.Covers()
    {
      MulLeft(i + 1, g.height, g.width);
    }

    /** A scan that got through every row found the board covered. */
    lemma RowIndexEnd(g: Layout, i: nat, base: int)
      requires i == g.height && base == i * g.width && base <= |g.cells|
      ensures g.Covers()
    {
    }

    /** A completed scan of a covered board shows it. */
    lemma BuiltShows(g: Layout, prev: Dot?)
      requires g.Covers() && Built(g, g.height, 0, prev)
      ensures Shows(g)
      ensures Starts(g) == [] <==> currentDot == prev
    {
      ScanStartsAll(g);
      BuiltBoard(g, prev);
      if Starts(g) != [] {
        BuiltPlayable(g, prev);
      }
    }

    /**
     * MakeLevel: the board is cleared and rebuilt from level `levelNumber`;
     * it then shows that level. A missing level, or a cell array too short
     * for the board, throws (`ok` is false) after the board was cleared.
     */
    method MakeLevel(levelNumber: int) returns (ok: bool)
      modifies this
      ensures restartLevel == levelNumber && helpCount == old(helpCount) && Counters() == old(Counters())
      ensures ok <==> levelNumber in levels && levels[levelNumber].AsLayout().Covers()
      ensures ok ==> Shows(levels[levelNumber].AsLayout())
      ensures ok ==> (Starts(levels[levelNumber].AsLayout()) == [] <==> currentDot == old(currentDot))
      ensures forall p :: p in dots ==> fresh(dots[p])
    {
      restartLevel := levelNumber;
      dots := map[];
      chain := [];
      pinned := 0;
      if levelNumber !in levels {
        return false;
      }
      var level := levels[levelNumber];
      ghost var prev := currentDot;
      ghost var g := level.AsLayout();
      ok := MakeRows(level, g, prev);
      if ok {
        BuiltShows(g, prev);
      }
    }

    /** The scan of a whole level, row by row, onto an empty board. */
    method MakeRows(level: LevelData, ghost g: Layout, ghost prev: Dot?) returns (ok: bool)
      requires g == level.AsLayout() && dots == map[] && chain == [] && pinned == 0 && currentDot == prev
      modifies this
      ensures ok <==> g.Covers()
      ensures ok ==> Built(g, g.height, 0, prev)
      ensures restartLevel == old(restartLevel) && helpCount == old(helpCount) && Counters() == old(Counters())
      ensures forall p :: p in dots ==> fresh(dots[p])
    {
      BuiltNothing(g, prev);
      var i := 0;
      ghost var base := 0;
      while i < level.height
        invariant 0 <= i <= level.height && base == i * g.width && base <= |g.cells|
        invariant Built(g, i, 0, prev)
        invariant restartLevel == old(restartLevel) && helpCount == old(helpCount) && Counters() == old(Counters())
        invariant forall p :: p in dots ==> fresh(dots[p])
      {
        var rowOk;
        rowOk := MakeRow(level, g, i, base, prev);
        RowIndex(g, i, base);
        if !rowOk {
          return false;
        }
        i, base := i + 1, base + g.width;
      }
      RowIndexEnd(g, i, base);
      return true;
    }

    /** Every dot is the one `before` had under its key, or was created since. */
    twostate predicate KeptOrFresh(before: map<Pos, Dot>)
      reads this
    {
      forall p :: p in dots ==> (p in before && dots[p] == before[p]) || fresh(dots[p])
    }

    /** Row i of the scan, left to right; it throws at the first cell whose index is past the array. */
    method MakeRow(level: LevelData, ghost g: Layout, i: nat, ghost base: int, ghost prev: Dot?) returns (ok: bool)
      requires g == level.AsLayout() && i < level.height && base == i * g.width && base <= |g.cells|
      requires Built(g, i, 0, prev)
      modifies this
      ensures ok <==> base + g.width <= |g.cells|
      ensures ok ==> Built(g, i + 1, 0, prev)
      ensures restartLevel == old(restartLevel) && helpCount == old(helpCount) && Counters() == old(Counters())
      ensures KeptOrFresh(old(dots))
    {
      ghost var dots0, restart0, help0, counters0 := dots, restartLevel, helpCount, Counters();
      var j := 0;
      while j < level.width
        invariant 0 <= j <= level.width && base + j <= |g.cells|
        invariant Built(g, i, j, prev)
        invariant restartLevel == restart0 && helpCount == help0 && Counters() == counters0
        invariant KeptOrFresh(dots0)
      {
        var cellOk;
        ghost var dot;
        cellOk, dot := MakeCell(level, g, i, j, base, prev);
        if !cellOk {
          return false;
        }
        j := j + 1;
      }
      BuiltNextRow(g, i, prev);
      return true;
    }

    /** On a shown board whose tags are Empty, Wall or Start, the inactive dots are the open cells. */
    lemma InactiveIsOpen(g: Layout)
      requires Shows(g) && forall k :: 0 <= k < |g.cells| ==> g.cells[k] <= START
      ensures Inactive() == OpenCells(g)
    {
      forall p | p in OpenCells(g) ensures p in Inactive() {
        var x, y :| 0 <= x < g.width && 0 <= y < g.height && IsOpen(g.Tag(Pos(x, y))) && p == Pos(x, y);
        IndexBound(g.width, g.height, x, y);
      }
      forall p | p in Inactive() ensures p in OpenCells(g) {
        IndexBound(g.width, g.height, p.x, p.y);
      }
    }

    /** A freshly shown solved level: its stored route is a tour of the inactive dots from the current one. */
    lemma HelpTour(level: LevelData, g: Layout)
      requires g == level.AsLayout() && Shows(g) && LevelSolved(level)
      ensures Valid() && IsTour(Inactive(), currentDot.Cell(), level.wayData)
    {
      InactiveIsOpen(g);
      SolveSound(g);
    }

    /** An inactive dot is never the current dot's predecessor. */
    lemma InactiveNotPredecessor(d: Dot)
      requires Valid() && d in dots.Values && !d.isActive
      ensures currentDot.lastDot != d
    {
      if |chain| > 1 {
        assert currentDot.lastDot == chain[|chain| - 2];
      }
    }

    /**
     * The help replay: the pointer enters the dots of `way` one after the
     * other. A cell without a dot throws (`ok` is false). Replaying a tour of
     * the inactive cells from the current dot activates them all, and the
     * last step runs the win handler once.
     */
    method Replay(way: seq<Pos>) returns (ok: bool)
      requires Valid()
      modifies this, dots.Values
      ensures Valid() && dots == old(dots) && restartLevel == old(restartLevel) && helpCount == old(helpCount)
      ensures ok <==> forall k :: 0 <= k < |way| ==> way[k] in dots
      ensures old(IsTour(Inactive(), currentDot.Cell(), way)) ==> ok && AllActive() && Counters() == old(Won())
    {
      ghost var tour := IsTour(Inactive(), currentDot.Cell(), way);
      ghost var dots0, counters0, won0 := dots, Counters(), Won();
      var k := 0;
      while k < |way|
        invariant 0 <= k <= |way|
        invariant Valid() && dots == dots0 && restartLevel == old(restartLevel) && helpCount == old(helpCount)
        invariant forall m :: 0 <= m < k ==> way[m] in dots
        invariant tour && k < |way| ==> IsTour(Inactive(), currentDot.Cell(), way[k..]) && Counters() == counters0
        invariant tour && k == |way| ==> AllActive() && Counters() == won0
      {
        if way[k] !in dots {
          return false;
        }
        ReplayStep(way[k..], tour);
        k := k + 1;
      }
      return true;
    }

    /** One step of the replay: the pointer enters the dot of the route's first cell. */
    method ReplayStep(rest: seq<Pos>, ghost tour: bool)
      requires Valid() && |rest| > 0 && rest[0] in dots
      requires tour ==> IsTour(Inactive(), currentDot.Cell(), rest)
      modifies this, dots.Values
      ensures Valid() && dots == old(dots) && restartLevel == old(restartLevel) && helpCount == old(helpCount)
      ensures tour && |rest| > 1 ==> IsTour(Inactive(), currentDot.Cell(), rest[1..]) && Counters() == old(Counters())
      ensures tour && |rest| == 1 ==> AllActive() && Counters() == old(Won())
    {
      var d := dots[rest[0]];
      ghost var free := Inactive();
      if tour {
        assert d.Cell() == rest[0] && rest[0] in free;
        InactiveNotPredecessor(d);
        TourLast(free, currentDot.Cell(), rest);
        if |rest| > 1 {
          TourTail(free, currentDot.Cell(), rest);
        }
      }
      d.CheckOnEnter(this);
      if tour {
        AllActiveIsNoneInactive();
      }
    }

    /** OnRestartButton: the level on the board is built again. */
    method OnRestartButton() returns (ok: bool)
      modifies this
      ensures restartLevel == old(restartLevel) && helpCount == old(helpCount) && Counters() == old(Counters())
      ensures ok <==> restartLevel in levels && levels[restartLevel].AsLayout().Covers()
      ensures ok ==> Shows(levels[restartLevel].AsLayout())
    {
      ok := MakeLevel(restartLevel);
    }

    /** OnPlayButton: the first level not yet won is built. */
    method OnPlayButton() returns (ok: bool)
      modifies this
      ensures restartLevel == currentLevel && helpCount == old(helpCount) && Counters() == old(Counters())
      ensures ok <==> currentLevel in levels && levels[currentLevel].AsLayout().Covers()
      ensures ok ==> Shows(levels[currentLevel].AsLayout())
    {
      ok := MakeLevel(currentLevel);
    }

    /** OnNextLevelButton: after a win, the level the counter now names is built. */
    method OnNextLevelButton() returns (ok: bool)
      modifies this
      ensures restartLevel == currentLevel && helpCount == old(helpCount) && Counters() == old(Counters())
      ensures ok <==> currentLevel in levels && levels[currentLevel].AsLayout().Covers()
      ensures ok ==> Shows(levels[currentLevel].AsLayout())
    {
      ok := MakeLevel(currentLevel);
    }

    /**
     * OnHelpButton: with no help left nothing changes (the reward offer is
     * not modelled). Otherwise one help is spent, the level is rebuilt and
     * its stored route replayed; on a level whose stored route is the
     * solver's, the replay wins the level.
     */
    method OnHelpButton() returns (ok: bool)
      modifies this
      ensures old(helpCount) == 0 ==> ok && helpCount == 0 && dots == old(dots) && currentDot == old(currentDot)
      ensures old(helpCount) == 0 ==> Counters() == old(Counters()) && restartLevel == old(restartLevel)
      ensures old(helpCount) != 0 ==> helpCount == old(helpCount) - 1 && restartLevel == old(restartLevel)
      ensures old(helpCount) != 0 && old(restartLevel) in levels && old(LevelSolved(levels[restartLevel])) ==> ok
      ensures old(helpCount) != 0 && old(restartLevel) in levels && old(LevelSolved(levels[restartLevel])) ==> AllActive()
      ensures old(helpCount) != 0 && old(restartLevel) in levels && old(LevelSolved(levels[restartLevel])) ==> Counters() == old(Won())
    {
      if helpCount == 0 {
        return true;
      }
      ghost var won := Won();
      helpCount := helpCount - 1;
      var before := currentDot;
      ok := MakeLevel(restartLevel);
      assert Won() == won;
      if !ok {
        return;
      }
      var level := levels[restartLevel];
      ghost var g := level.AsLayout();
      if currentDot == before {
        // without a Start cell the board has no current dot of its own
        return false;
      }
      if LevelSolved(level) {
        HelpTour(level, g);
      }
      ok := Replay(level.wayData);
    }
  }
}
