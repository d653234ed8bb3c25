/**
 * The level grid as a value: a width x height board whose cells are stored
 * row by row in a flat byte array, plus the index arithmetic every part of
 * the game relies on.
 */
module Grid {
  import opened Wrappers

  /** An unsigned 8-bit value, the element type of the level's cell array. */
  newtype byte = b: int | 0 <= b < 256

  /** The block tags of LevelData.BlockType. */
  const EMPTY: byte := 0
  const WALL: byte := 1
  const START: byte := 2

  /** A cell coordinate: column x, row y (Unity's Vector2Int). */
  datatype Pos = Pos(x: int, y: int)


  /** The one failure the grid code can raise: an index outside an array. */
  datatype Error = OutOfRange

  datatype Result<T> = Ok(value: T) | Err(error: Error)

  /** A level layout: its size and its flat, row-major cell array. */
  datatype Layout = Layout(width: nat, height: nat, cells: seq<byte>) {

    /** Every cell of the width x height board has a slot in the array. */
    predicate Covers() {
      |cells| >= width * height
    }

    predicate InBounds(p: Pos) {
      0 <= p.x < width && 0 <= p.y < height
    }

    /** The tag of cell p, when p is on the board and its index y * width + x is inside the array. */
    function Get(p: Pos): (r: Option<byte>)
      ensures r.Some? <==> InBounds(p) && p.y * width + p.x < |cells|
      ensures r.Some? ==> r.value == cells[p.y * width + p.x]
      ensures Covers() ==> (r.Some? <==> InBounds(p))
    {
      if InBounds(p) && p.y * width + p.x < |cells| then Some(cells[p.y * width + p.x])
      else
        assert Covers() ==> !InBounds(p) by { if Covers() && InBounds(p) { IndexBound(width, height, p.x, p.y); } }
        None
    }

    /** The tag of an in-bounds cell, read at index y * width + x. */
    function Tag(p: Pos): byte
      requires Covers() && InBounds(p)
    {
      IndexBound(width, height, p.x, p.y);
      cells[p.y * width + p.x]
    }
  }

  /** How many cells of `s` carry tag t. */
  function Count(s: seq<byte>, t: byte): (n: nat)
    ensures n <= |s|
  {
    if s == [] then 0 else Count(s[..|s| - 1], t) + if s[|s| - 1] == t then 1 else 0
  }

  /** Overwriting one cell moves it from the count of its old tag to the count of its new one. */
  lemma {:induction false} CountUpdate(s: seq<byte>, i: nat, v: byte, t: byte)
    requires i < |s|
    ensures Count(s[i := v], t) == Count(s, t) - (if s[i] == t then 1 else 0) + (if v == t then 1 else 0)
    decreases |s|
  {
    var s' := s[i := v];
    if i == |s| - 1 {
      assert s'[..|s'| - 1] == s[..|s| - 1];
    } else {
      assert s'[..|s'| - 1] == s[..|s| - 1][i := v];
      CountUpdate(s[..|s| - 1], i, v, t);
    }
  }

  /** A tag that occurs nowhere has count 0. */
  lemma {:induction false} CountAbsent(s: seq<byte>, t: byte)
    requires forall k :: 0 <= k < |s| ==> s[k] != t
    ensures Count(s, t) == 0
    decreases |s|
  {
    if s != [] {
      CountAbsent(s[..|s| - 1], t);
    }
  }

  /** Orthogonal neighbours: one step up, down, left or right. */
  predicate Adjacent(a: Pos, b: Pos) {
    (a.x == b.x && (a.y == b.y + 1 || a.y + 1 == b.y)) ||
    (a.y == b.y && (a.x == b.x + 1 || a.x + 1 == b.x))
  }

  /** The row-major index of an in-bounds cell lies inside the board. */
  lemma IndexBound(w: int, h: int, x: int, y: int)
    requires 0 <= x < w && 0 <= y < h
    ensures 0 <= y * w + x < w * h
  {
    assert y * w <= (h - 1) * w by { MulLeft(y, h - 1, w); }
    assert (h - 1) * w + w == h * w;
  }

  /** Distinct in-bounds cells have distinct row-major indices. */
  lemma IndexInjective(w: int, x1: int, y1: int, x2: int, y2: int)
    requires 0 <= x1 < w && 0 <= x2 < w && 0 <= y1 && 0 <= y2
    requires y1 * w + x1 == y2 * w + x2
    ensures x1 == x2 && y1 == y2
  {
    if y1 < y2 {
      MulLeft(y1 + 1, y2, w);
      assert false;
    } else if y2 < y1 {
      MulLeft(y2 + 1, y1, w);
      assert false;
    }
  }

  /** Multiplication by a non-negative factor is monotone. */
  lemma MulLeft(a: int, b: int, w: int)
    requires a <= b && 0 <= w
    ensures a * w <= b * w
  {
    assert b * w - a * w == (b - a) * w;
  }
}
