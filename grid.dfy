/** Integer grid coordinates (Unity's Vector2Int), the unit directions the
    generator uses, the cells of a width x height level, and two sequence
    helpers the path logic needs. */
module Grid {

  /** A grid coordinate; equality and addition are componentwise. */
  datatype Coord = Coord(x: int, y: int) {
    function Plus(d: Coord): Coord {
      Coord(x + d.x, y + d.y)
    }
  }

  const Zero := Coord(0, 0)
  const Right := Coord(1, 0)
  const Left := Coord(-1, 0)
  const Up := Coord(0, 1)
  const Down := Coord(0, -1)

  /** The cell lies inside [0, width) x [0, height). */
  predicate InGrid(c: Coord, width: int, height: int) {
    0 <= c.x < width && 0 <= c.y < height
  }

  /** The cells (0, y) ... (width - 1, y) of one row. */
  function RowCells(width: nat, y: int): (cells: set<Coord>)
    ensures forall c :: c in cells <==> c.y == y && 0 <= c.x < width
    ensures |cells| == width
  {
    if width == 0 then {}
    else
      var rest := RowCells(width - 1, y);
      assert Coord(width - 1, y) !in rest;
      rest + {Coord(width - 1, y)}
  }

  /** Every cell of a width x height grid, built row by row. */
  function GridCells(width: nat, height: nat): (cells: set<Coord>)
    ensures forall c :: c in cells <==> InGrid(c, width, height)
    ensures |cells| == width * height
  {
    if height == 0 then {}
    else
      var below := GridCells(width, height - 1);
      var row := RowCells(width, height - 1);
      assert below * row == {};
      assert |below + row| == |below| + |row|;
      assert width * (height - 1) + width == width * height;
      below + row
  }

  /** A map defined exactly on the grid cells holds width * height entries. */
  lemma GridKeys<V>(m: map<Coord, V>, width: nat, height: nat)
    requires forall c :: c in m <==> InGrid(c, width, height)
    ensures m.Keys == GridCells(width, height)
    ensures |m| == width * height
  {
  }

  /** No element occurs twice. */
  predicate Distinct<T(==)>(s: seq<T>) {
    forall i, j :: 0 <= i < j < |s| ==> s[i] != s[j]
  }

  /** The elements of a sequence, as a set. */
  function Elements<T>(s: seq<T>): set<T> {
    set x | x in s
  }

  /** A sequence without repetitions has as many distinct elements as entries. */
  lemma {:induction false} DistinctElements<T>(s: seq<T>)
    requires Distinct(s)
    ensures |Elements(s)| == |s|
  {
    if s != [] {
      var init := s[..|s| - 1];
      assert Distinct(init);
      DistinctElements(init);
      assert Elements(s) == Elements(init) + {s[|s| - 1]};
      assert s[|s| - 1] !in init;
    }
  }

  /** A sequence has at most as many distinct elements as entries. */
  lemma {:induction false} ElementsBound<T>(s: seq<T>)
    ensures |Elements(s)| <= |s|
  {
    if s != [] {
      var init := s[..|s| - 1];
      ElementsBound(init);
      assert Elements(s) == Elements(init) + {s[|s| - 1]};
    }
  }

  /** Conversely, as many distinct elements as entries means no repetition. */
  lemma {:induction false} DistinctByCount<T>(s: seq<T>)
    requires |Elements(s)| == |s|
    ensures Distinct(s)
  {
    if s != [] {
      var init, last := s[..|s| - 1], s[|s| - 1];
      assert s == init + [last];
      assert Elements(s) == Elements(init) + {last};
      ElementsBound(init);
      assert last !in Elements(init) && |Elements(init)| == |init|;
      DistinctByCount(init);
    }
  }

  /** In a sequence without repetitions no entry before index i equals s[i]. */
  lemma NoRepeatBefore<T>(s: seq<T>, i: nat)
    requires |Elements(s)| == |s| && i < |s|
    ensures forall k :: 0 <= k < i ==> s[k] != s[i]
  {
    DistinctByCount(s);
  }

  /** The position of the first occurrence of x in s. */
  function IndexOf<T(==)>(s: seq<T>, x: T): (i: nat)
    requires x in s
    ensures i < |s| && s[i] == x
    ensures x !in s[..i]
  {
    if s[0] == x then 0
    else
      var j := IndexOf(s[1..], x);
      assert s[..j + 1] == [s[0]] + s[1..][..j];
      1 + j
  }
}
