/** Expansion of a one-eighth core map into the full square core map
    (`expand_eighth_to_full`). The grid is built in place by four ordered passes
    over a zeroed (2R+1) x (2R+1) array: placement into the south-east quadrant,
    a diagonal pass restricted to the first n_rows offsets, a left-right mirror
    and a top-bottom mirror. `Cell` gives the value each cell ends up with, and
    the lemmas below state the symmetry, border and centre properties of it. */
module FullMap {

  /** The cell values `randomize_eighth_map` draws from (ALLOWED_TYPES). */
  const AllowedTypes: seq<int> := [1, 2, 4, 5]

  /** max(len(row) for row in rows); Python raises on an empty sequence. */
  function MaxRowLength(rows: seq<seq<int>>): (m: nat)
    requires |rows| > 0
    ensures forall i :: 0 <= i < |rows| ==> |rows[i]| <= m
    ensures exists i :: 0 <= i < |rows| && |rows[i]| == m
  {
    if |rows| == 1 then |rows[0]|
    else
      var t := MaxRowLength(rows[1..]);
      assert forall i :: 1 <= i < |rows| ==> rows[i] == rows[1..][i - 1];
      if |rows[0]| >= t then |rows[0]| else t
  }

  /** radius = max(n_rows, max_cols): also the row and column index of the centre. */
  function Radius(eighth: seq<seq<int>>): (r: nat)
    requires |eighth| > 0
    ensures r >= |eighth| && forall i :: 0 <= i < |eighth| ==> |eighth[i]| <= r
    ensures r == |eighth| || exists i :: 0 <= i < |eighth| && |eighth[i]| == r
  {
    var m := MaxRowLength(eighth);
    if |eighth| >= m then |eighth| else m
  }

  /** full_size = 2 * radius + 1. */
  function Side(eighth: seq<seq<int>>): nat
    requires |eighth| > 0
  {
    2 * Radius(eighth) + 1
  }

  /** The value at offset (a, b) from the centre, south-east quadrant, after placement:
      the eighth-map cell where one exists, else the centre pin at (0, 0), else zero. */
  function Placed(eighth: seq<seq<int>>, centerPin: int, a: nat, b: nat): int {
    if a < |eighth| && b < |eighth[a]| then eighth[a][b]
    else if a == 0 && b == 0 then centerPin
    else 0
  }

  /** The value at offset (a, b) after the diagonal pass: above the diagonal and inside
      the first n_rows offsets, the cell takes the value placed at its transpose. */
  function Diagonal(eighth: seq<seq<int>>, centerPin: int, a: nat, b: nat): int {
    if a < b < |eighth| then Placed(eighth, centerPin, b, a) else Placed(eighth, centerPin, a, b)
  }

  /** Distance of index x from the centre index c. */
  function Offset(c: nat, x: nat): nat {
    if x < c then c - x else x - c
  }

  /** The value of cell (x, y) of the expanded map. */
  function Cell(eighth: seq<seq<int>>, centerPin: int, x: nat, y: nat): int
    requires |eighth| > 0
  {
    var c := Radius(eighth);
    Diagonal(eighth, centerPin, Offset(c, x), Offset(c, y))
  }

  /** The expanded map as a sequence of rows. */
  function FullRows(eighth: seq<seq<int>>, centerPin: int): (g: seq<seq<int>>)
    requires |eighth| > 0
    ensures |g| == Side(eighth)
    ensures forall x :: 0 <= x < |g| ==> |g[x]| == Side(eighth)
  {
    var n := Side(eighth);
    seq(n, x requires 0 <= x < n => seq(n, y requires 0 <= y < n => Cell(eighth, centerPin, x, y)))
  }

  // ---------------------------------------------------------------- the grid between passes

  /** The zeroed grid with the centre pin written at (c, c). */
  ghost predicate Seeded(g: array2<int>, centerPin: int, c: nat)
    reads g
  {
    forall x, y :: 0 <= x < g.Length0 && 0 <= y < g.Length1 ==>
      g[x, y] == if x == c && y == c then centerPin else 0
  }

  /** After pass 1: the south-east quadrant holds `Placed`, the rest is zero. */
  ghost predicate PlacedStage(g: array2<int>, eighth: seq<seq<int>>, centerPin: int, c: nat)
    reads g
  {
    forall x, y :: 0 <= x < g.Length0 && 0 <= y < g.Length1 ==>
      g[x, y] == if c <= x && c <= y then Placed(eighth, centerPin, x - c, y - c) else 0
  }

  /** After pass 2: the south-east quadrant holds `Diagonal`, the rest is zero. */
  ghost predicate DiagonalStage(g: array2<int>, eighth: seq<seq<int>>, centerPin: int, c: nat)
    reads g
  {
    forall x, y :: 0 <= x < g.Length0 && 0 <= y < g.Length1 ==>
      g[x, y] == if c <= x && c <= y then Diagonal(eighth, centerPin, x - c, y - c) else 0
  }

  /** After pass 3: the lower half holds `Diagonal` at the column's distance from c. */
  ghost predicate LowerHalfStage(g: array2<int>, eighth: seq<seq<int>>, centerPin: int, c: nat)
    reads g
  {
    forall x, y :: 0 <= x < g.Length0 && 0 <= y < g.Length1 ==>
      g[x, y] == if c <= x then Diagonal(eighth, centerPin, x - c, Offset(c, y)) else 0
  }

  /** After pass 4: every cell holds `Diagonal` at its distances from the centre. */
  ghost predicate FullStage(g: array2<int>, eighth: seq<seq<int>>, centerPin: int, c: nat)
    reads g
  {
    forall x, y :: 0 <= x < g.Length0 && 0 <= y < g.Length1 ==>
      g[x, y] == Diagonal(eighth, centerPin, Offset(c, x), Offset(c, y))
  }

  // ---------------------------------------------------------------- the four passes

  /** Pass 1: full_map[c + i, c + j] := eighth_map[i][j] for every cell of the eighth map. */
  method PlaceEighth(g: array2<int>, eighth: seq<seq<int>>, c: nat, ghost centerPin: int)
    requires g.Length0 == 2 * c + 1 && g.Length1 == 2 * c + 1
    requires |eighth| <= c && forall i :: 0 <= i < |eighth| ==> |eighth[i]| <= c
    requires Seeded(g, centerPin, c)
    modifies g
    ensures PlacedStage(g, eighth, centerPin, c)
    ensures forall x, y :: 0 <= x < g.Length0 && 0 <= y < g.Length1 ==>
      g[x, y] == if c <= x < c + |eighth| && c <= y < c + |eighth[x - c]|
                 then eighth[x - c][y - c] else old(g[x, y])
  {
    for i := 0 to |eighth|
      invariant forall x, y :: 0 <= x < g.Length0 && 0 <= y < g.Length1 ==>
        g[x, y] == if c <= x < c + i && c <= y < c + |eighth[x - c]|
                   then eighth[x - c][y - c] else old(g[x, y])
    {
      for j := 0 to |eighth[i]|
        invariant forall x, y :: 0 <= x < g.Length0 && 0 <= y < g.Length1 ==>
          g[x, y] == if (c <= x < c + i && c <= y < c + |eighth[x - c]|) || (x == c + i && c <= y < c + j)
                     then eighth[x - c][y - c] else old(g[x, y])
      {
        g[c + i, c + j] := eighth[i][j];
      }
    }
    assert PlacedStage(g, eighth, centerPin, c);
  }

  /** Pass 2: for 0 <= i < j < n_rows, full_map[c + i, c + j] := full_map[c + j, c + i].
      The cells read lie below the diagonal, which the pass never writes. */
  method DiagonalPass(g: array2<int>, nRows: nat, c: nat, ghost eighth: seq<seq<int>>, ghost centerPin: int)
    requires g.Length0 == 2 * c + 1 && g.Length1 == 2 * c + 1 && nRows <= c
    requires nRows == |eighth| && PlacedStage(g, eighth, centerPin, c)
    modifies g
    ensures DiagonalStage(g, eighth, centerPin, c)
    ensures forall x, y :: 0 <= x < g.Length0 && 0 <= y < g.Length1 ==>
      g[x, y] == if c <= x < y < c + nRows then old(g[y, x]) else old(g[x, y])
  {
    for i := 0 to nRows
      invariant forall x, y :: 0 <= x < g.Length0 && 0 <= y < g.Length1 ==>
        g[x, y] == if c <= x < c + i && x < y < c + nRows then old(g[y, x]) else old(g[x, y])
    {
      for j := i + 1 to nRows
        invariant forall x, y :: 0 <= x < g.Length0 && 0 <= y < g.Length1 ==>
          g[x, y] == if (c <= x < c + i && x < y < c + nRows) || (x == c + i && x < y < c + j)
                     then old(g[y, x]) else old(g[x, y])
      {
        g[c + i, c + j] := g[c + j, c + i];
      }
    }
    assert DiagonalStage(g, eighth, centerPin, c);
  }

  /** Pass 3: for every row, full_map[i, j] := full_map[i, S - 1 - j] for j < c. */
  method MirrorLeftRight(g: array2<int>, c: nat, ghost eighth: seq<seq<int>>, ghost centerPin: int)
    requires g.Length0 == 2 * c + 1 && g.Length1 == 2 * c + 1
    requires DiagonalStage(g, eighth, centerPin, c)
    modifies g
    ensures LowerHalfStage(g, eighth, centerPin, c)
    ensures forall x, y :: 0 <= x < g.Length0 && 0 <= y < g.Length1 ==>
      g[x, y] == if y < c then old(g[x, 2 * c - y]) else old(g[x, y])
  {
    var size := 2 * c + 1;
    for i := 0 to size
      invariant forall x, y :: 0 <= x < g.Length0 && 0 <= y < g.Length1 ==>
        g[x, y] == if x < i && y < c then old(g[x, 2 * c - y]) else old(g[x, y])
    {
      for j := 0 to c
        invariant forall x, y :: 0 <= x < g.Length0 && 0 <= y < g.Length1 ==>
          g[x, y] == if (x < i && y < c) || (x == i && y < j) then old(g[x, 2 * c - y]) else old(g[x, y])
      {
        g[i, j] := g[i, size - 1 - j];
      }
    }
    assert LowerHalfStage(g, eighth, centerPin, c);
  }

  /** Pass 4: for i < c, row i := row S - 1 - i (numpy's whole-row copy, cell by cell). */
  method MirrorTopBottom(g: array2<int>, c: nat, ghost eighth: seq<seq<int>>, ghost centerPin: int)
    requires g.Length0 == 2 * c + 1 && g.Length1 == 2 * c + 1
    requires LowerHalfStage(g, eighth, centerPin, c)
    modifies g
    ensures FullStage(g, eighth, centerPin, c)
    ensures forall x, y :: 0 <= x < g.Length0 && 0 <= y < g.Length1 ==>
      g[x, y] == if x < c then old(g[2 * c - x, y]) else old(g[x, y])
  {
    var size := 2 * c + 1;
    for i := 0 to c
      invariant forall x, y :: 0 <= x < g.Length0 && 0 <= y < g.Length1 ==>
        g[x, y] == if x < i then old(g[2 * c - x, y]) else old(g[x, y])
    {
      for k := 0 to size
        invariant forall x, y :: 0 <= x < g.Length0 && 0 <= y < g.Length1 ==>
          g[x, y] == if x < i || (x == i && y < k) then old(g[2 * c - x, y]) else old(g[x, y])
      {
        g[i, k] := g[size - 1 - i, k];
      }
    }
    assert FullStage(g, eighth, centerPin, c);
  }

  /** expand_eighth_to_full: a fresh square array of side 2R + 1 whose every cell is `Cell`. */
  method ExpandEighthToFull(eighth: seq<seq<int>>, centerPin: int) returns (g: array2<int>)
    requires |eighth| > 0
    ensures fresh(g)
    ensures g.Length0 == Side(eighth) && g.Length1 == Side(eighth)
    ensures forall x, y :: 0 <= x < g.Length0 && 0 <= y < g.Length1 ==>
      g[x, y] == Cell(eighth, centerPin, x, y)
  {
    var nRows := |eighth|;
    var maxCols := MaxRowLength(eighth);
    var radius := if nRows >= maxCols then nRows else maxCols;
    var size := 2 * radius + 1;
    var c := radius;
    assert c == Radius(eighth);

    g := new int[size, size]((x, y) => 0);
    g[c, c] := centerPin;
    PlaceEighth(g, eighth, c, centerPin);
    DiagonalPass(g, nRows, c, eighth, centerPin);
    MirrorLeftRight(g, c, eighth, centerPin);
    MirrorTopBottom(g, c, eighth, centerPin);
  }

  // ---------------------------------------------------------------- properties of the expanded map

  /** The side is 2 * max(n_rows, longest row) + 1: odd, larger than twice every
      dimension of the eighth map, and attained by the row count or by some row. */
  lemma SideOfExpandedMap(eighth: seq<seq<int>>)
    requires |eighth| > 0
    ensures Side(eighth) >= 2 * |eighth| + 1
    ensures forall i :: 0 <= i < |eighth| ==> Side(eighth) >= 2 * |eighth[i]| + 1
    ensures Side(eighth) == 2 * |eighth| + 1 || exists i :: 0 <= i < |eighth| && Side(eighth) == 2 * |eighth[i]| + 1
  {
  }

  /** The centre holds eighth_map[0][0] when row 0 is non-empty, else the centre pin. */
  lemma CentreCell(eighth: seq<seq<int>>, centerPin: int)
    requires |eighth| > 0
    ensures Cell(eighth, centerPin, Radius(eighth), Radius(eighth))
            == if |eighth[0]| > 0 then eighth[0][0] else centerPin
  {
  }

  /** Left-right and top-bottom mirror symmetry over the whole grid. */
  lemma MirrorSymmetric(eighth: seq<seq<int>>, centerPin: int, x: nat, y: nat)
    requires |eighth| > 0 && x < Side(eighth) && y < Side(eighth)
    ensures Cell(eighth, centerPin, x, y) == Cell(eighth, centerPin, x, Side(eighth) - 1 - y)
    ensures Cell(eighth, centerPin, x, y) == Cell(eighth, centerPin, Side(eighth) - 1 - x, y)
  {
  }

  /** Row 0, row S - 1, column 0 and column S - 1 are all zero. */
  lemma BorderIsZero(eighth: seq<seq<int>>, centerPin: int, x: nat, y: nat)
    requires |eighth| > 0 && x < Side(eighth) && y < Side(eighth)
    requires x == 0 || x == Side(eighth) - 1 || y == 0 || y == Side(eighth) - 1
    ensures Cell(eighth, centerPin, x, y) == 0
  {
    var c := Radius(eighth);
    assert Offset(c, x) == c || Offset(c, y) == c;
  }

  /** The south-east quadrant keeps its values after the diagonal pass: at offsets
      a < b < n_rows the cell holds the value placed at (b, a); elsewhere the value placed. */
  lemma SouthEastQuadrant(eighth: seq<seq<int>>, centerPin: int, a: nat, b: nat)
    requires |eighth| > 0 && a <= Radius(eighth) && b <= Radius(eighth)
    ensures var c := Radius(eighth);
      Cell(eighth, centerPin, c + a, c + b)
      == if a < b < |eighth| then Placed(eighth, centerPin, b, a) else Placed(eighth, centerPin, a, b)
  {
  }

  /** Diagonal symmetry holds where both offsets from the centre are below n_rows. */
  lemma DiagonalSymmetricWithinRows(eighth: seq<seq<int>>, centerPin: int, x: nat, y: nat)
    requires |eighth| > 0 && x < Side(eighth) && y < Side(eighth)
    requires Offset(Radius(eighth), x) < |eighth| && Offset(Radius(eighth), y) < |eighth|
    ensures Cell(eighth, centerPin, x, y) == Cell(eighth, centerPin, y, x)
  {
  }

  /** Outside the first n_rows offsets the grid need not be diagonal-symmetric:
      for [[1, 2]] the cell right of the centre holds 2 and the cell below it holds 0. */
  lemma DiagonalAsymmetricOnRaggedMap()
    ensures Radius([[1, 2]]) == 2
    ensures Cell([[1, 2]], 0, 2, 3) == 2 && Cell([[1, 2]], 0, 3, 2) == 0
  {
    assert MaxRowLength([[1, 2]]) == 2;
  }

  /** A map drawn from ALLOWED_TYPES expands to cells that are allowed types, zero or the pin. */
  lemma ExpandedValues(eighth: seq<seq<int>>, centerPin: int, x: nat, y: nat)
    requires |eighth| > 0 && x < Side(eighth) && y < Side(eighth)
    requires forall i, j :: 0 <= i < |eighth| && 0 <= j < |eighth[i]| ==> eighth[i][j] in AllowedTypes
    ensures var v := Cell(eighth, centerPin, x, y); v in AllowedTypes || v == 0 || v == centerPin
  {
  }

  /** [[2]] with centre pin 9: the eighth-map cell overwrites the pin and the ring stays zero. */
  lemma ExampleSingleCell()
    ensures FullRows([[2]], 9) == [[0, 0, 0], [0, 2, 0], [0, 0, 0]]
  {
    assert MaxRowLength([[2]]) == 1;
    var g := FullRows([[2]], 9);
    assert g[0] == [0, 0, 0];
    assert g[1] == [0, 2, 0];
    assert g[2] == [0, 0, 0];
  }

  /** [[1, 4], [5]] with centre pin 7: offset (0, 1) takes the 5 placed at (1, 0), so the 4 is lost. */
  lemma ExampleTwoRows()
    ensures FullRows([[1, 4], [5]], 7) ==
      [[0, 0, 0, 0, 0],
       [0, 0, 5, 0, 0],
       [0, 5, 1, 5, 0],
       [0, 0, 5, 0, 0],
       [0, 0, 0, 0, 0]]
  {
    var e := [[1, 4], [5]];
    assert MaxRowLength(e) == 2;
    var g := FullRows(e, 7);
    assert g[0] == [0, 0, 0, 0, 0];
    assert g[1] == [0, 0, 5, 0, 0];
    assert g[2] == [0, 5, 1, 5, 0];
    assert g[3] == [0, 0, 5, 0, 0];
    assert g[4] == [0, 0, 0, 0, 0];
  }
}
