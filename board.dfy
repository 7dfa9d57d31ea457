/** The n-puzzle board (Puzzle/src/Board.java): an n-by-n grid of tiles,
    0 for the blank, with its distance metrics, goal test, neighbours and
    twin. A board never changes after it is built, so it is a value; the
    copies the source makes of its arrays are the value semantics of the
    tiles sequence. Arithmetic follows Java: `/` and `%` truncate. */
module Board {
  import opened Wrappers

  datatype Board = Board(size: int, tiles: seq<seq<int>>)

  /** The shape the constructor gives: `size` rows of `size` tiles. */
  predicate Square(b: Board) {
    b.size >= 0 && |b.tiles| == b.size && forall i :: 0 <= i < b.size ==> |b.tiles[i]| == b.size
  }

  predicate InGrid(b: Board, i: int, j: int) {
    0 <= i < b.size && 0 <= j < b.size
  }

  /** Java's `/` and `%` for a positive divisor: truncation toward zero. */
  function Quot(a: int, d: int): int
    requires d > 0
  {
    if a >= 0 then a / d else -((-a) / d)
  }

  function Rem(a: int, d: int): int
    requires d > 0
  {
    a - d * Quot(a, d)
  }

  function Abs(x: int): int {
    if x < 0 then -x else x
  }

  /** The tile the goal board has at (i, j): n·i + j + 1, and the blank in
      the last cell. */
  function Goal(n: int, i: int, j: int): int {
    if i == j && i == n - 1 then 0 else n * i + j + 1
  }

  /** A tile counted by `hamming`: not the blank and not its goal tile. */
  predicate Misplaced(b: Board, i: int, j: int)
    requires Square(b) && InGrid(b, i, j)
  {
    b.tiles[i][j] != Goal(b.size, i, j) && b.tiles[i][j] != 0
  }

  /** What `manhattan` adds for a cell: for a misplaced tile v, the row and
      column distances from (i, j) to ((v-1)/n, (v-1)%n). */
  function Distance(b: Board, i: int, j: int): int
    requires Square(b) && InGrid(b, i, j)
  {
    var v := b.tiles[i][j];
    if v == Goal(b.size, i, j) || v == 0 then 0
    else Abs(Quot(v - 1, b.size) - i) + Abs(Rem(v - 1, b.size) - j)
  }

  /** The misplaced tiles in the first j cells of row i. */
  function RowHamming(b: Board, i: int, j: int): (r: int)
    requires Square(b) && 0 <= i < b.size && 0 <= j <= b.size
    ensures 0 <= r <= j
  {
    if j == 0 then 0 else RowHamming(b, i, j - 1) + (if Misplaced(b, i, j - 1) then 1 else 0)
  }

  /** The misplaced tiles in the first i rows. */
  function HammingRows(b: Board, i: int): (r: int)
    requires Square(b) && 0 <= i <= b.size
    ensures r >= 0
  {
    if i == 0 then 0 else HammingRows(b, i - 1) + RowHamming(b, i - 1, b.size)
  }

  function HammingOf(b: Board): int
    requires Square(b)
  {
    HammingRows(b, b.size)
  }

  function RowManhattan(b: Board, i: int, j: int): (r: int)
    requires Square(b) && 0 <= i < b.size && 0 <= j <= b.size
  {
    if j == 0 then 0 else RowManhattan(b, i, j - 1) + Distance(b, i, j - 1)
  }

  function ManhattanRows(b: Board, i: int): (r: int)
    requires Square(b) && 0 <= i <= b.size
  {
    if i == 0 then 0 else ManhattanRows(b, i - 1) + RowManhattan(b, i - 1, b.size)
  }

  function ManhattanOf(b: Board): int
    requires Square(b)
  {
    ManhattanRows(b, b.size)
  }

  /** Every cell holds its goal tile. */
  ghost predicate IsGoalBoard(b: Board)
    requires Square(b)
  {
    forall i, j :: InGrid(b, i, j) ==> b.tiles[i][j] == Goal(b.size, i, j)
  }

  /** Tiles 0 .. n²-1, as a puzzle has. */
  ghost predicate TilesInRange(b: Board)
    requires Square(b)
  {
    forall i, j :: InGrid(b, i, j) ==> 0 <= b.tiles[i][j] < b.size * b.size
  }

  /** The constructor: the board takes the dimension from the number of
      rows and copies the first n tiles of each row; a shorter row makes
      the copy throw. */
  method NewBoard(tiles: array<array<int>>) returns (r: Result<Board>)
    ensures r.Success? <==> forall i :: 0 <= i < tiles.Length ==> tiles[i].Length >= tiles.Length
    ensures r.Failure? ==> r.error == IndexOutOfBounds
    ensures r.Success? ==> Square(r.value) && r.value.size == tiles.Length
    ensures r.Success? ==> forall i :: 0 <= i < tiles.Length ==> r.value.tiles[i] == tiles[i][..tiles.Length]
  {
    var n := tiles.Length;
    var rows: seq<seq<int>> := [];
    for i := 0 to n
      invariant |rows| == i
      invariant forall k :: 0 <= k < i ==> tiles[k].Length >= n && rows[k] == tiles[k][..n]
    {
      if tiles[i].Length < n {
        return Failure(IndexOutOfBounds);
      }
      rows := rows + [tiles[i][..n]];
    }
    return Success(Board(n, rows));
  }

  /** `hamming`: the number of tiles out of place. */
  method Hamming(b: Board) returns (count: int)
    requires Square(b)
    ensures count == HammingOf(b)
  {
    count := 0;
    for i := 0 to b.size
      invariant count == HammingRows(b, i)
    {
      for j := 0 to b.size
        invariant count == HammingRows(b, i) + RowHamming(b, i, j)
      {
        var goal := if i == j && i == b.size - 1 then 0 else b.size * i + j + 1;
        if b.tiles[i][j] != goal && b.tiles[i][j] != 0 {
          count := count + 1;
        }
      }
    }
  }

  /** `manhattan`: the sum of the distances of the tiles from their goal
      cells. */
  method Manhattan(b: Board) returns (diff: int)
    requires Square(b)
    ensures diff == ManhattanOf(b)
  {
    diff := 0;
    for i := 0 to b.size
      invariant diff == ManhattanRows(b, i)
    {
      for j := 0 to b.size
        invariant diff == ManhattanRows(b, i) + RowManhattan(b, i, j)
      {
        var goal := if i == j && i == b.size - 1 then 0 else b.size * i + j + 1;
        if b.tiles[i][j] == goal || b.tiles[i][j] == 0 {
          continue;
        }
        var x := Abs(Quot(b.tiles[i][j] - 1, b.size) - i);
        var y := Abs(Rem(b.tiles[i][j] - 1, b.size) - j);
        diff := diff + x + y;
      }
    }
  }

  /** `isGoal`: whether every cell holds its goal tile. */
  method IsGoal(b: Board) returns (r: bool)
    requires Square(b)
    ensures r <==> IsGoalBoard(b)
  {
    for i := 0 to b.size
      invariant forall i', j :: 0 <= i' < i && 0 <= j < b.size ==> b.tiles[i'][j] == Goal(b.size, i', j)
    {
      for j := 0 to b.size
        invariant forall j' :: 0 <= j' < j ==> b.tiles[i][j'] == Goal(b.size, i, j')
      {
        var goal := if i == j && i == b.size - 1 then 0 else b.size * i + j + 1;
        if b.tiles[i][j] != goal {
          return false;
        }
      }
    }
    return true;
  }

  /** `equals`: same dimension and the same tiles, that is, the same
      board. */
  function Equals(a: Board, b: Board): (r: bool)
    ensures r <==> a == b
  {
    a.size == b.size && a.tiles == b.tiles
  }

  lemma {:induction false} RowHammingZero(b: Board, i: int, j: int)
    requires Square(b) && 0 <= i < b.size && 0 <= j <= b.size
    ensures RowHamming(b, i, j) == 0 <==> forall c :: 0 <= c < j ==> !Misplaced(b, i, c)
  {
    if j > 0 {
      RowHammingZero(b, i, j - 1);
    }
  }

  lemma {:induction false} HammingRowsZero(b: Board, i: int)
    requires Square(b) && 0 <= i <= b.size
    ensures HammingRows(b, i) == 0 <==> forall r, c :: 0 <= r < i && 0 <= c < b.size ==> !Misplaced(b, r, c)
  {
    if i > 0 {
      HammingRowsZero(b, i - 1);
      RowHammingZero(b, i - 1, b.size);
    }
  }

  /** `hamming` is 0 exactly when every tile but the blank is in its goal
      cell; so it is 0 on the goal board. */
  lemma HammingZeroIff(b: Board)
    requires Square(b)
    ensures HammingOf(b) == 0 <==> forall i, j :: InGrid(b, i, j) ==> !Misplaced(b, i, j)
    ensures IsGoalBoard(b) ==> HammingOf(b) == 0
  {
    HammingRowsZero(b, b.size);
  }

  /** A misplaced tile of a puzzle is at least one move from its goal
      cell, and a tile in place adds nothing. */
  lemma DistanceAtLeastOne(b: Board, i: int, j: int)
    requires Square(b) && InGrid(b, i, j) && TilesInRange(b)
    ensures Misplaced(b, i, j) ==> Distance(b, i, j) >= 1
    ensures !Misplaced(b, i, j) ==> Distance(b, i, j) == 0
  {
  }

  lemma {:induction false} RowManhattanAtLeast(b: Board, i: int, j: int)
    requires Square(b) && 0 <= i < b.size && 0 <= j <= b.size && TilesInRange(b)
    ensures RowManhattan(b, i, j) >= RowHamming(b, i, j)
  {
    if j > 0 {
      RowManhattanAtLeast(b, i, j - 1);
      DistanceAtLeastOne(b, i, j - 1);
    }
  }

  lemma {:induction false} ManhattanRowsAtLeast(b: Board, i: int)
    requires Square(b) && 0 <= i <= b.size && TilesInRange(b)
    ensures ManhattanRows(b, i) >= HammingRows(b, i)
  {
    if i > 0 {
      ManhattanRowsAtLeast(b, i - 1);
      RowManhattanAtLeast(b, i - 1, b.size);
    }
  }

  /** On a puzzle board `manhattan` is at least `hamming`. */
  lemma ManhattanAtLeastHamming(b: Board)
    requires Square(b) && TilesInRange(b)
    ensures ManhattanOf(b) >= HammingOf(b)
  {
    ManhattanRowsAtLeast(b, b.size);
  }

  lemma {:induction false} RowManhattanGoal(b: Board, i: int, j: int)
    requires Square(b) && 0 <= i < b.size && 0 <= j <= b.size && IsGoalBoard(b)
    ensures RowManhattan(b, i, j) == 0
  {
    if j > 0 {
      RowManhattanGoal(b, i, j - 1);
    }
  }

  lemma {:induction false} ManhattanRowsGoal(b: Board, i: int)
    requires Square(b) && 0 <= i <= b.size && IsGoalBoard(b)
    ensures ManhattanRows(b, i) == 0
  {
    if i > 0 {
      ManhattanRowsGoal(b, i - 1);
      RowManhattanGoal(b, i - 1, b.size);
    }
  }

  /** `manhattan` is 0 on the goal board. */
  lemma ManhattanGoal(b: Board)
    requires Square(b) && IsGoalBoard(b)
    ensures ManhattanOf(b) == 0
  {
    ManhattanRowsGoal(b, b.size);
  }

  // The blank

  /** The first column from j on in row i that holds the blank, or n. */
  function RowBlank(b: Board, i: int, j: int): (c: int)
    requires Square(b) && 0 <= i < b.size && 0 <= j <= b.size
    ensures j <= c <= b.size
    decreases b.size - j
  {
    if j == b.size then b.size
    else if b.tiles[i][j] == 0 then j
    else RowBlank(b, i, j + 1)
  }

  /** The first blank from row i on in row-major order, or (n, n), where
      the search loops of `neighbors` stop when there is none. */
  function BlankFrom(b: Board, i: int): (int, int)
    requires Square(b) && 0 <= i <= b.size
    decreases b.size - i
  {
    if i == b.size then (b.size, b.size)
    else
      var c := RowBlank(b, i, 0);
      if c < b.size then (i, c) else BlankFrom(b, i + 1)
  }

  function Blank(b: Board): (int, int)
    requires Square(b)
  {
    BlankFrom(b, 0)
  }

  /** A cell before (r, c) in row-major order. */
  predicate Before(i: int, j: int, r: int, c: int) {
    i < r || (i == r && j < c)
  }

  lemma {:induction false} RowBlankFound(b: Board, i: int, j: int)
    requires Square(b) && 0 <= i < b.size && 0 <= j <= b.size
    ensures RowBlank(b, i, j) < b.size ==> b.tiles[i][RowBlank(b, i, j)] == 0
    ensures forall c :: j <= c < RowBlank(b, i, j) ==> b.tiles[i][c] != 0
    decreases b.size - j
  {
    if j < b.size && b.tiles[i][j] != 0 {
      RowBlankFound(b, i, j + 1);
    }
  }

  lemma {:induction false} BlankFromFound(b: Board, i: int)
    requires Square(b) && 0 <= i <= b.size
    ensures var (r, c) := BlankFrom(b, i);
            || (i <= r < b.size && 0 <= c < b.size && b.tiles[r][c] == 0
                && forall x, y :: i <= x && 0 <= y < b.size && Before(x, y, r, c) ==> b.tiles[x][y] != 0)
            || (r == b.size && c == b.size && forall x, y :: i <= x < b.size && 0 <= y < b.size ==> b.tiles[x][y] != 0)
    decreases b.size - i
  {
    if i < b.size {
      RowBlankFound(b, i, 0);
      if RowBlank(b, i, 0) == b.size {
        BlankFromFound(b, i + 1);
      }
    }
  }

  /** The blank the source finds: the first blank cell in row-major order,
      or (n, n) when the board has none. */
  lemma BlankFound(b: Board)
    requires Square(b)
    ensures var (r, c) := Blank(b);
            || (InGrid(b, r, c) && b.tiles[r][c] == 0
                && forall x, y :: InGrid(b, x, y) && Before(x, y, r, c) ==> b.tiles[x][y] != 0)
            || (r == b.size && c == b.size && forall x, y :: InGrid(b, x, y) ==> b.tiles[x][y] != 0)
  {
    BlankFromFound(b, 0);
  }

  /** A board whose only blank is at (r, c). */
  ghost predicate OnlyBlank(b: Board, r: int, c: int)
    requires Square(b)
  {
    InGrid(b, r, c) && b.tiles[r][c] == 0
    && forall x, y :: InGrid(b, x, y) && b.tiles[x][y] == 0 ==> x == r && y == c
  }

  lemma BlankOfOnly(b: Board, r: int, c: int)
    requires Square(b) && OnlyBlank(b, r, c)
    ensures Blank(b) == (r, c)
  {
    BlankFound(b);
  }

  /** The blank search of `neighbors`, with its labelled break. */
  method FindBlank(b: Board) returns (r: int, c: int)
    requires Square(b)
    ensures (r, c) == Blank(b)
  {
    r, c := 0, 0;
    while r < b.size
      invariant 0 <= r <= b.size
      invariant BlankFrom(b, r) == Blank(b)
      invariant r == b.size ==> c == b.size
      decreases b.size - r
    {
      c := 0;
      while c < b.size
        invariant 0 <= c <= b.size && RowBlank(b, r, c) == RowBlank(b, r, 0)
        decreases b.size - c
      {
        if b.tiles[r][c] == 0 {
          return;
        }
        c := c + 1;
      }
      r := r + 1;
    }
  }

  // Neighbours

  /** The directions `neighbors` tries, in order: up, left, down, right. */
  const DRow: seq<int> := [-1, 0, 1, 0]
  const DCol: seq<int> := [0, -1, 0, 1]

  /** The tiles with cell (i, j) set to v. */
  function Put(t: seq<seq<int>>, i: int, j: int, v: int): seq<seq<int>>
    requires 0 <= i < |t| && 0 <= j < |t[i]|
  {
    t[i := t[i][j := v]]
  }

  /** The board with the blank at (r, c) moved to (row, col): the copy
      gets the tile from (row, col) at (r, c) and the blank at (row, col). */
  function Slide(b: Board, r: int, c: int, row: int, col: int): (nb: Board)
    requires Square(b) && InGrid(b, r, c) && InGrid(b, row, col)
    ensures Square(nb) && nb.size == b.size
  {
    Board(b.size, Put(Put(b.tiles, r, c, b.tiles[row][col]), row, col, 0))
  }

  /** The cells of a slide: the blank at (row, col), the tile from there
      at (r, c), every other cell as before. */
  lemma SlideCells(b: Board, r: int, c: int, row: int, col: int, i: int, j: int)
    requires Square(b) && InGrid(b, r, c) && InGrid(b, row, col) && InGrid(b, i, j)
    ensures Slide(b, r, c, row, col).tiles[i][j] ==
              if i == row && j == col then 0
              else if i == r && j == c then b.tiles[row][col]
              else b.tiles[i][j]
  {
  }

  /** Where `neighbors` can start: a cell, or (n, n) when there is no
      blank. */
  predicate BlankPosition(b: Board, r: int, c: int) {
    InGrid(b, r, c) || (r == b.size && c == b.size)
  }

  /** From (n, n) every direction leaves the board, so a direction that
      stays on it starts from a cell. */
  lemma StepFromBlank(b: Board, r: int, c: int, k: int)
    requires BlankPosition(b, r, c) && 0 <= k < |DRow| && InGrid(b, r + DRow[k], c + DCol[k])
    ensures InGrid(b, r, c)
  {
  }

  /** The neighbours from direction k on, skipping cells off the board. */
  function NeighborsFrom(b: Board, r: int, c: int, k: int): seq<Board>
    requires Square(b) && BlankPosition(b, r, c) && 0 <= k <= |DRow|
    decreases |DRow| - k
  {
    if k == |DRow| then []
    else
      var row, col := r + DRow[k], c + DCol[k];
      (if InGrid(b, row, col) then (StepFromBlank(b, r, c, k); [Slide(b, r, c, row, col)]) else [])
      + NeighborsFrom(b, r, c, k + 1)
  }

  function NeighborsOf(b: Board): seq<Board>
    requires Square(b)
  {
    BlankFound(b);
    var (r, c) := Blank(b);
    NeighborsFrom(b, r, c, 0)
  }

  function OutOfBounds(b: Board, row: int, col: int): (r: bool)
    ensures r <==> !InGrid(b, row, col)
  {
    row < 0 || row >= b.size || col < 0 || col >= b.size
  }

  /** `neighbors`: the boards one slide of the blank away, in the order up,
      left, down, right. */
  method Neighbors(b: Board) returns (ns: seq<Board>)
    requires Square(b)
    ensures ns == NeighborsOf(b)
  {
    var r, c := FindBlank(b);
    BlankFound(b);
    assert BlankPosition(b, r, c);
    ns := [];
    for k := 0 to |DRow|
      invariant ns + NeighborsFrom(b, r, c, k) == NeighborsFrom(b, r, c, 0)
    {
      var row, col := r + DRow[k], c + DCol[k];
      ghost var rest := NeighborsFrom(b, r, c, k + 1);
      if OutOfBounds(b, row, col) {
        assert NeighborsFrom(b, r, c, k) == rest;
        continue;
      }
      StepFromBlank(b, r, c, k);
      assert NeighborsFrom(b, r, c, k) == [Slide(b, r, c, row, col)] + rest;
      assert (ns + [Slide(b, r, c, row, col)]) + rest == ns + ([Slide(b, r, c, row, col)] + rest);
      ns := ns + [Slide(b, r, c, row, col)];
    }
  }

  /** Orthogonally adjacent cells. */
  predicate Adjacent(r: int, c: int, row: int, col: int) {
    Abs(row - r) + Abs(col - c) == 1
  }

  /** nb is the slide of the blank at (r, c) in direction d. */
  ghost predicate SlidesTo(b: Board, r: int, c: int, d: int, nb: Board)
    requires Square(b)
  {
    && 0 <= d < |DRow| && InGrid(b, r, c) && InGrid(b, r + DRow[d], c + DCol[d])
    && nb == Slide(b, r, c, r + DRow[d], c + DCol[d])
  }

  lemma {:induction false} NeighborsFromSlides(b: Board, r: int, c: int, k: int, nb: Board)
    requires Square(b) && BlankPosition(b, r, c) && 0 <= k <= |DRow|
    ensures nb in NeighborsFrom(b, r, c, k) <==> exists d :: k <= d && SlidesTo(b, r, c, d, nb)
    decreases |DRow| - k
  {
    if k < |DRow| {
      NeighborsFromSlides(b, r, c, k + 1, nb);
      if InGrid(b, r + DRow[k], c + DCol[k]) {
        StepFromBlank(b, r, c, k);
        assert NeighborsFrom(b, r, c, k) == [Slide(b, r, c, r + DRow[k], c + DCol[k])] + NeighborsFrom(b, r, c, k + 1);
        if nb == Slide(b, r, c, r + DRow[k], c + DCol[k]) {
          assert SlidesTo(b, r, c, k, nb);
        }
      } else {
        assert NeighborsFrom(b, r, c, k) == NeighborsFrom(b, r, c, k + 1);
      }
      forall d | k <= d && SlidesTo(b, r, c, d, nb) && !SlidesTo(b, r, c, k, nb)
        ensures k + 1 <= d
      {
      }
    }
  }

  /** The four directions are exactly the adjacent cells. */
  lemma DirectionsAdjacent(r: int, c: int, row: int, col: int)
    ensures Adjacent(r, c, row, col) <==> exists d :: 0 <= d < |DRow| && row == r + DRow[d] && col == c + DCol[d]
  {
    if Adjacent(r, c, row, col) {
      var d := if row == r - 1 then 0 else if col == c - 1 then 1 else if row == r + 1 then 2 else 3;
      assert row == r + DRow[d] && col == c + DCol[d];
    }
  }

  /** nb is the slide of the blank at (r, c) to the cell (row, col). */
  ghost predicate SlidTo(b: Board, r: int, c: int, row: int, col: int, nb: Board)
    requires Square(b)
  {
    InGrid(b, r, c) && InGrid(b, row, col) && Adjacent(r, c, row, col) && nb == Slide(b, r, c, row, col)
  }

  /** Each of the four directions leads to an adjacent cell. */
  lemma DirectionAdjacent(r: int, c: int, d: int)
    requires 0 <= d < |DRow|
    ensures Adjacent(r, c, r + DRow[d], c + DCol[d])
  {
  }

  /** Every neighbour is a slide of the blank to an adjacent cell. */
  lemma NeighborIsSlide(b: Board, nb: Board)
    requires Square(b) && nb in NeighborsOf(b)
    ensures exists row, col :: SlidTo(b, Blank(b).0, Blank(b).1, row, col, nb)
  {
    BlankFound(b);
    var (r, c) := Blank(b);
    NeighborsFromSlides(b, r, c, 0, nb);
    var d :| 0 <= d && SlidesTo(b, r, c, d, nb);
    DirectionAdjacent(r, c, d);
    assert SlidTo(b, r, c, r + DRow[d], c + DCol[d], nb);
  }

  /** Every slide of the blank to an adjacent cell is a neighbour. */
  lemma SlideIsNeighbor(b: Board, row: int, col: int, nb: Board)
    requires Square(b) && SlidTo(b, Blank(b).0, Blank(b).1, row, col, nb)
    ensures nb in NeighborsOf(b)
  {
    BlankFound(b);
    var (r, c) := Blank(b);
    var d := if row == r - 1 then 0 else if col == c - 1 then 1 else if row == r + 1 then 2 else 3;
    assert row == r + DRow[d] && col == c + DCol[d];
    assert SlidesTo(b, r, c, d, nb);
    NeighborsFromSlides(b, r, c, 0, nb);
  }

  /** A board is a neighbour exactly when it is the board with the blank
      slid to an adjacent cell on the board. */
  lemma NeighborsAreSlides(b: Board, nb: Board)
    requires Square(b)
    ensures nb in NeighborsOf(b) <==> exists row, col :: SlidTo(b, Blank(b).0, Blank(b).1, row, col, nb)
  {
    if nb in NeighborsOf(b) {
      NeighborIsSlide(b, nb);
    }
    if exists row, col :: SlidTo(b, Blank(b).0, Blank(b).1, row, col, nb) {
      var row, col :| SlidTo(b, Blank(b).0, Blank(b).1, row, col, nb);
      SlideIsNeighbor(b, row, col, nb);
    }
  }

  /** A board of dimension 2 or more with a blank has 2 to 4 neighbours. */
  lemma NeighborCount(b: Board)
    requires Square(b) && b.size >= 2 && InGrid(b, Blank(b).0, Blank(b).1)
    ensures 2 <= |NeighborsOf(b)| <= 4
  {
    var (r, c) := Blank(b);
    assert NeighborsFrom(b, r, c, 4) == [];
    var up := if InGrid(b, r - 1, c) then 1 else 0;
    var left := if InGrid(b, r, c - 1) then 1 else 0;
    var down := if InGrid(b, r + 1, c) then 1 else 0;
    var right := if InGrid(b, r, c + 1) then 1 else 0;
    assert |NeighborsFrom(b, r, c, 3)| == right;
    assert |NeighborsFrom(b, r, c, 2)| == down + right;
    assert |NeighborsFrom(b, r, c, 1)| == left + down + right;
    assert |NeighborsFrom(b, r, c, 0)| == up + left + down + right;
  }

  /** Sliding the blank back undoes a slide. */
  lemma SlideBack(b: Board, r: int, c: int, row: int, col: int)
    requires Square(b) && InGrid(b, r, c) && InGrid(b, row, col) && b.tiles[r][c] == 0
    ensures Slide(Slide(b, r, c, row, col), row, col, r, c) == b
  {
    var nb := Slide(Slide(b, r, c, row, col), row, col, r, c);
    assert forall i :: 0 <= i < b.size ==> nb.tiles[i] == b.tiles[i];
  }

  /** After a slide from the only blank, the only blank is where the blank
      went. */
  lemma SlideOnlyBlank(b: Board, r: int, c: int, row: int, col: int)
    requires Square(b) && OnlyBlank(b, r, c) && InGrid(b, row, col) && (row, col) != (r, c)
    ensures OnlyBlank(Slide(b, r, c, row, col), row, col)
  {
    var nb := Slide(b, r, c, row, col);
    forall x, y | InGrid(nb, x, y) && nb.tiles[x][y] == 0
      ensures x == row && y == col
    {
      SlideCells(b, r, c, row, col, x, y);
    }
    SlideCells(b, r, c, row, col, row, col);
  }

  /** With a single blank, being neighbours is symmetric: the board is a
      neighbour of each of its neighbours. */
  lemma NeighborsSymmetric(b: Board, nb: Board)
    requires Square(b) && OnlyBlank(b, Blank(b).0, Blank(b).1) && nb in NeighborsOf(b)
    ensures b in NeighborsOf(nb)
  {
    var (r, c) := Blank(b);
    NeighborsAreSlides(b, nb);
    var row, col :| SlidTo(b, r, c, row, col, nb);
    SlideOnlyBlank(b, r, c, row, col);
    BlankOfOnly(nb, row, col);
    SlideBack(b, r, c, row, col);
    assert SlidTo(nb, row, col, r, c, b);
    NeighborsAreSlides(nb, b);
  }

  // The twin

  /** The two cells `twin` exchanges: (0,0) and (0,1), unless one is the
      blank, in which case the other of them and (1,0). */
  function TwinCells(b: Board): (int, int, int, int)
    requires Square(b) && b.size >= 2
  {
    if b.tiles[0][0] == 0 then (1, 0, 0, 1)
    else if b.tiles[0][1] == 0 then (0, 0, 1, 0)
    else (0, 0, 0, 1)
  }

  /** `twin`: the board with two tiles exchanged; a board smaller than 2 by
      2 makes it index outside the array. */
  function Twin(b: Board): (r: Result<Board>)
    requires Square(b)
    ensures r.Failure? <==> b.size < 2
    ensures r.Failure? ==> r.error == IndexOutOfBounds
    ensures r.Success? ==> Square(r.value) && r.value.size == b.size
  {
    if b.size < 2 then Failure(IndexOutOfBounds)
    else
      var (r1, c1, r2, c2) := TwinCells(b);
      Success(Board(b.size, Put(Put(b.tiles, r1, c1, b.tiles[r2][c2]), r2, c2, b.tiles[r1][c1])))
  }

  /** When at most one of the three cells in the corner is the blank, the
      twin exchanges two different cells there, both not the blank, and
      keeps every other cell. */
  lemma TwinSwapsTwo(b: Board)
    requires Square(b) && b.size >= 2
    requires (b.tiles[0][0] == 0 ==> b.tiles[0][1] != 0 && b.tiles[1][0] != 0)
    requires (b.tiles[0][1] == 0 ==> b.tiles[1][0] != 0)
    ensures var (r1, c1, r2, c2) := TwinCells(b);
            var t := Twin(b).value;
            && (r1, c1) != (r2, c2) && r1 <= 1 && c1 <= 1 && r2 <= 1 && c2 <= 1
            && b.tiles[r1][c1] != 0 && b.tiles[r2][c2] != 0
            && t.tiles[r1][c1] == b.tiles[r2][c2] && t.tiles[r2][c2] == b.tiles[r1][c1]
            && forall i, j :: InGrid(b, i, j) && (i, j) != (r1, c1) && (i, j) != (r2, c2) ==> t.tiles[i][j] == b.tiles[i][j]
  {
  }

  /** Under the same condition the twin of the twin is the board. */
  lemma TwinInvolution(b: Board)
    requires Square(b) && b.size >= 2
    requires (b.tiles[0][0] == 0 ==> b.tiles[0][1] != 0 && b.tiles[1][0] != 0)
    requires (b.tiles[0][1] == 0 ==> b.tiles[1][0] != 0)
    ensures Twin(Twin(b).value) == Success(b)
  {
    var t := Twin(b).value;
    TwinSwapsTwo(b);
    assert TwinCells(t) == TwinCells(b);
    TwinSwapsTwo(t);
    var u := Twin(t).value;
    forall i | 0 <= i < b.size
      ensures u.tiles[i] == b.tiles[i]
    {
      assert forall j :: 0 <= j < b.size ==> u.tiles[i][j] == b.tiles[i][j];
    }
    assert u.tiles == b.tiles;
  }
}
