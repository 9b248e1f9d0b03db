/** The sliding-tile puzzle board: an immutable square grid of tiles, where
    tile 0 is the blank, the goal places tile i*size+j+1 at row i, column j,
    and the board offers the Hamming and Manhattan estimates of how far it is
    from that goal. */
module Puzzle {
  import opened Common

  const BLANK := 0

  /** Java's `/` on `int`: the quotient rounded toward zero. */
  function JavaDiv(a: int, b: int): (q: int)
    requires b > 0
    ensures a >= 0 ==> 0 <= a - q * b < b
    ensures a < 0 ==> -b < a - q * b <= 0
  {
    if a >= 0 then a / b else -((-a) / b)
  }

  /** Java's `%` on `int`: the remainder takes the sign of the dividend. */
  function JavaRem(a: int, b: int): (r: int)
    requires b > 0
    ensures JavaDiv(a, b) * b + r == a
    ensures a >= 0 ==> 0 <= r < b
    ensures a < 0 ==> -b < r <= 0
  {
    a - JavaDiv(a, b) * b
  }

  /** The Manhattan term of tile `t` standing at row i, column j of a board
      of side n: the distance to the cell that the Java code computes for it
      from `(t-1)/n` and `(t-1)%n`. */
  function TileDistance(t: int, n: nat, i: int, j: int): nat
    requires n > 0
  {
    Abs(JavaDiv(t - 1, n) - i) + Abs(JavaRem(t - 1, n) - j)
  }

  /** A tile that is not the one the goal puts at (i, j) is at least one
      step away from (i, j), whatever its value, because Java's quotient and
      remainder always recombine to `t-1`. */
  lemma TileDistancePositive(t: int, n: nat, i: int, j: int)
    requires n > 0 && t != i * n + j + 1
    ensures TileDistance(t, n, i, j) >= 1
  {
    var x := JavaDiv(t - 1, n);
    var y := JavaRem(t - 1, n);
    assert x * n + y == t - 1;
    if x == i {
      assert x * n == i * n;
      assert y != j;
    }
  }

  /** Cell (r, c) comes strictly before cell (i, j) in row-major order. */
  predicate Before(r: int, c: int, i: int, j: int) {
    r < i || (r == i && c < j)
  }

  /** The cells at Manhattan distance 1 from (bi, bj) inside columns [0, n)
      among the cells before (i, j), in row-major order: the order in which
      the neighbour loop meets them. */
  function NeighborCells(bi: int, bj: int, n: nat, i: nat, j: nat): seq<(int, int)>
    requires j <= n
    decreases i, j
  {
    if j > 0 then
      NeighborCells(bi, bj, n, i, j - 1)
        + (if Abs(i - bi) + Abs(j - 1 - bj) == 1 then [(i, j - 1)] else [])
    else if i > 0 then NeighborCells(bi, bj, n, i - 1, n)
    else []
  }

  /** NeighborCells holds exactly the grid cells before (i, j) that are
      orthogonally adjacent to (bi, bj), each once, in row-major order. */
  lemma {:induction false} NeighborCellsMembers(bi: int, bj: int, n: nat, i: nat, j: nat)
    requires j <= n
    ensures forall c :: c in NeighborCells(bi, bj, n, i, j) <==>
      0 <= c.0 && 0 <= c.1 < n && Before(c.0, c.1, i, j) && Abs(c.0 - bi) + Abs(c.1 - bj) == 1
    ensures forall a, b :: 0 <= a < b < |NeighborCells(bi, bj, n, i, j)| ==>
      Before(NeighborCells(bi, bj, n, i, j)[a].0, NeighborCells(bi, bj, n, i, j)[a].1,
             NeighborCells(bi, bj, n, i, j)[b].0, NeighborCells(bi, bj, n, i, j)[b].1)
    decreases i, j
  {
    if j > 0 {
      NeighborCellsMembers(bi, bj, n, i, j - 1);
    } else if i > 0 {
      NeighborCellsMembers(bi, bj, n, i - 1, n);
    }
  }

  /** 1 when (r, c) lies on the n-by-n grid before (i, j), 0 otherwise. */
  function Counted(r: int, c: int, n: nat, i: int, j: int): nat {
    if 0 <= r < n && 0 <= c < n && Before(r, c, i, j) then 1 else 0
  }

  /** How many of the four orthogonal neighbours of (bi, bj) lie on the grid
      before (i, j). */
  function NeighborsBefore(bi: int, bj: int, n: nat, i: int, j: int): nat {
    Counted(bi - 1, bj, n, i, j) + Counted(bi, bj - 1, n, i, j)
      + Counted(bi, bj + 1, n, i, j) + Counted(bi + 1, bj, n, i, j)
  }

  lemma {:induction false} NeighborCellsCount(bi: int, bj: int, n: nat, i: nat, j: nat)
    requires j <= n && (i < n || (i == n && j == 0))
    ensures |NeighborCells(bi, bj, n, i, j)| == NeighborsBefore(bi, bj, n, i, j)
    decreases i, j
  {
    if j > 0 {
      NeighborCellsCount(bi, bj, n, i, j - 1);
      CountedStep(bi - 1, bj, n, i, j);
      CountedStep(bi, bj - 1, n, i, j);
      CountedStep(bi, bj + 1, n, i, j);
      CountedStep(bi + 1, bj, n, i, j);
      assert Abs(i - bi) + Abs(j - 1 - bj) == 1 <==>
        (i == bi - 1 && j - 1 == bj) || (i == bi && j - 1 == bj - 1) ||
        (i == bi && j - 1 == bj + 1) || (i == bi + 1 && j - 1 == bj);
    } else if i > 0 {
      NeighborCellsCount(bi, bj, n, i - 1, n);
      CountedWrap(bi - 1, bj, n, i);
      CountedWrap(bi, bj - 1, n, i);
      CountedWrap(bi, bj + 1, n, i);
      CountedWrap(bi + 1, bj, n, i);
    }
  }

  lemma CountedStep(r: int, c: int, n: nat, i: int, j: int)
    requires j > 0
    ensures Counted(r, c, n, i, j) == Counted(r, c, n, i, j - 1)
      + (if r == i && c == j - 1 && 0 <= r < n && 0 <= c < n then 1 else 0)
  {
  }

  lemma CountedWrap(r: int, c: int, n: nat, i: int)
    requires i > 0
    ensures Counted(r, c, n, i, 0) == Counted(r, c, n, i - 1, n)
  {
  }

  /** The neighbour loop finds 2 cells for a blank in a corner, 3 on an edge
      and 4 inside the grid, and none when there is no blank. */
  lemma NeighborCount(bi: int, bj: int, n: nat)
    ensures 0 <= bi < n && 0 <= bj < n ==>
      |NeighborCells(bi, bj, n, n, 0)|
        == (if bi > 0 then 1 else 0) + (if bi < n - 1 then 1 else 0)
         + (if bj > 0 then 1 else 0) + (if bj < n - 1 then 1 else 0)
    ensures bi == -1 && bj == -1 ==> NeighborCells(bi, bj, n, n, 0) == []
  {
    NeighborCellsCount(bi, bj, n, n, 0);
  }

  /** Which estimate a grid sum adds up. */
  datatype Heuristic = HammingCount | ManhattanCount

  class Board {
    /** The side length: the number of rows of the tiles passed in. */
    const size: nat
    /** The board's own copy of the tiles. */
    const board: array2<int>

    ghost predicate Valid() {
      board.Length0 == size && board.Length1 == size
    }

    /** Copies the first `size` entries of every row, so that later changes
        to `tiles` do not reach the new board. */
    constructor (tiles: array2<int>)
      requires tiles.Length0 <= tiles.Length1
      ensures Valid() && size == tiles.Length0 && fresh(board)
      ensures forall i, j :: 0 <= i < size && 0 <= j < size ==> board[i, j] == tiles[i, j]
    {
      var n := tiles.Length0;
      var b := new int[n, n];
      for i := 0 to n
        invariant forall r, c :: 0 <= r < i && 0 <= c < n ==> b[r, c] == tiles[r, c]
      {
        for j := 0 to n
          invariant forall r, c :: 0 <= r < i && 0 <= c < n ==> b[r, c] == tiles[r, c]
          invariant forall c :: 0 <= c < j ==> b[i, c] == tiles[i, c]
        {
          b[i, j] := tiles[i, j];
        }
      }
      size := n;
      board := b;
    }

    function TileAt(i: int, j: int): (r: Result<int>)
      requires Valid()
      reads board
      ensures r.Ok? <==> 0 <= i < size && 0 <= j < size
      ensures r.Ok? ==> r.value == board[i, j]
      ensures r.Err? ==> r.failure == IndexOutOfBounds
    {
      if i < 0 || j < 0 || i >= size || j >= size then Err(IndexOutOfBounds)
      else Ok(board[i, j])
    }

    function Size(): (r: nat)
      requires Valid()
      ensures r == board.Length0 && r == board.Length1
    {
      size
    }

    /** A non-blank tile that is not the one the goal puts at (i, j). */
    ghost predicate Misplaced(i: nat, j: nat)
      requires Valid() && i < size && j < size
      reads board
    {
      board[i, j] != BLANK && board[i, j] != i * size + j + 1
    }

    /** What cell (i, j) adds to the estimate h. */
    ghost function Cost(h: Heuristic, i: nat, j: nat): nat
      requires Valid() && i < size && j < size
      reads board
    {
      if !Misplaced(i, j) then 0
      else match h
        case HammingCount => 1
        case ManhattanCount => TileDistance(board[i, j], size, i, j)
    }

    /** The costs of the first j cells of row i. */
    ghost function RowSum(h: Heuristic, i: nat, j: nat): nat
      requires Valid() && i < size && j <= size
      reads board
    {
      if j == 0 then 0 else RowSum(h, i, j - 1) + Cost(h, i, j - 1)
    }

    /** The costs of the cells of the first i rows. */
    ghost function GridSum(h: Heuristic, i: nat): nat
      requires Valid() && i <= size
      reads board
    {
      if i == 0 then 0 else GridSum(h, i - 1) + RowSum(h, i - 1, size)
    }

    /** Every non-blank tile stands where the goal puts it. */
    ghost predicate Solved()
      requires Valid()
      reads board
    {
      forall i, j :: 0 <= i < size && 0 <= j < size ==> !Misplaced(i, j)
    }

    method Hamming() returns (num: int)
      requires Valid()
      ensures num == GridSum(HammingCount, size)
    {
      num := 0;
      var n := 1;
      for i := 0 to size
        invariant num == GridSum(HammingCount, i)
        invariant n == i * size + 1
      {
        for j := 0 to size
          invariant num == GridSum(HammingCount, i) + RowSum(HammingCount, i, j)
          invariant n == i * size + j + 1
        {
          if board[i, j] != BLANK && board[i, j] != n {
            num := num + 1;
          }
          n := n + 1;
        }
        assert n == (i + 1) * size + 1;
      }
    }

    method Manhattan() returns (num: int)
      requires Valid()
      ensures num == GridSum(ManhattanCount, size)
    {
      num := 0;
      var n := 1;
      for i := 0 to size
        invariant num == GridSum(ManhattanCount, i)
        invariant n == i * size + 1
      {
        for j := 0 to size
          invariant num == GridSum(ManhattanCount, i) + RowSum(ManhattanCount, i, j)
          invariant n == i * size + j + 1
        {
          if board[i, j] != BLANK && board[i, j] != n {
            var number := board[i, j] - 1;
            var x := JavaDiv(number, size);
            var y := JavaRem(number, size);
            num := num + Abs(x - i) + Abs(y - j);
          }
          n := n + 1;
        }
        assert n == (i + 1) * size + 1;
      }
    }

    method EstimatedDistanceToGoal() returns (d: int)
      requires Valid()
      ensures d == GridSum(ManhattanCount, size)
      ensures d == 0 <==> Solved()
    {
      d := Manhattan();
      CostZeroIffSolved(ManhattanCount);
    }

    lemma CostZero(h: Heuristic, i: nat, j: nat)
      requires Valid() && i < size && j < size
      ensures Cost(h, i, j) == 0 <==> !Misplaced(i, j)
    {
      if Misplaced(i, j) && h == ManhattanCount {
        TileDistancePositive(board[i, j], size, i, j);
      }
    }

    lemma {:induction false} RowSumZero(h: Heuristic, i: nat, j: nat)
      requires Valid() && i < size && j <= size
      ensures RowSum(h, i, j) == 0 <==> forall c :: 0 <= c < j ==> !Misplaced(i, c)
    {
      if j > 0 {
        RowSumZero(h, i, j - 1);
        CostZero(h, i, j - 1);
      }
    }

    lemma {:induction false} GridSumZero(h: Heuristic, i: nat)
      requires Valid() && i <= size
      ensures GridSum(h, i) == 0 <==>
        forall r, c :: 0 <= r < i && 0 <= c < size ==> !Misplaced(r, c)
    {
      if i > 0 {
        GridSumZero(h, i - 1);
        RowSumZero(h, i - 1, size);
      }
    }

    /** Both estimates are 0 exactly on boards whose non-blank tiles are all
        in their goal cells; in particular on the goal board. */
    lemma CostZeroIffSolved(h: Heuristic)
      requires Valid()
      ensures GridSum(h, size) == 0 <==> Solved()
    {
      GridSumZero(h, size);
    }

    lemma {:induction false} RowDominates(i: nat, j: nat)
      requires Valid() && i < size && j <= size
      ensures RowSum(ManhattanCount, i, j) >= RowSum(HammingCount, i, j)
    {
      if j > 0 {
        RowDominates(i, j - 1);
        CostZero(ManhattanCount, i, j - 1);
      }
    }

    /** The Manhattan estimate is never below the Hamming estimate: every
        misplaced tile is at least one step from its cell. */
    lemma {:induction false} ManhattanDominatesHamming(i: nat)
      requires Valid() && i <= size
      ensures GridSum(ManhattanCount, i) >= GridSum(HammingCount, i)
    {
      if i > 0 {
        ManhattanDominatesHamming(i - 1);
        RowDominates(i - 1, size);
      }
    }

    /** Same size and, at every position, different tiles. */
    ghost predicate NoTileShared(y: Board)
      requires Valid() && y.Valid() && y.size == size
      reads board, y.board
    {
      forall i, j :: 0 <= i < size && 0 <= j < size ==> board[i, j] != y.board[i, j]
    }

    /** Same size and, at every position, the same tile. */
    ghost predicate SameTiles(y: Board)
      requires Valid() && y.Valid()
      reads board, y.board
    {
      y.size == size &&
      forall i, j :: 0 <= i < size && 0 <= j < size ==> board[i, j] == y.board[i, j]
    }

    /** The equality the source defines, with its loop returning false as soon
        as some position holds equal tiles in both boards. */
    method Equals(y: Board?) returns (eq: bool)
      requires Valid() && (y != null ==> y.Valid())
      ensures eq <==> y == this || (y != null && y.size == size && NoTileShared(y))
    {
      if y == this {
        return true;
      }
      if y == null {
        return false;
      }
      if y.Size() != size {
        return false;
      }
      for i := 0 to size
        invariant forall r, c :: 0 <= r < i && 0 <= c < size ==> board[r, c] != y.board[r, c]
      {
        for j := 0 to size
          invariant forall r, c :: 0 <= r < i && 0 <= c < size ==> board[r, c] != y.board[r, c]
          invariant forall c :: 0 <= c < j ==> board[i, c] != y.board[i, c]
        {
          if board[i, j] == y.board[i, j] {
            return false;
          }
        }
      }
      return true;
    }

    /** The equality the loop evidently means: false as soon as some position
        holds different tiles. */
    method EqualsIntended(y: Board?) returns (eq: bool)
      requires Valid() && (y != null ==> y.Valid())
      ensures eq <==> y == this || (y != null && SameTiles(y))
    {
      if y == this {
        return true;
      }
      if y == null {
        return false;
      }
      if y.Size() != size {
        return false;
      }
      for i := 0 to size
        invariant forall r, c :: 0 <= r < i && 0 <= c < size ==> board[r, c] == y.board[r, c]
      {
        for j := 0 to size
          invariant forall r, c :: 0 <= r < i && 0 <= c < size ==> board[r, c] == y.board[r, c]
          invariant forall c :: 0 <= c < j ==> board[i, c] == y.board[i, c]
        {
          if board[i, j] != y.board[i, j] {
            return false;
          }
        }
      }
      return true;
    }

    /** (bi, bj) is the last blank before (i, j) in row-major order, or
        (-1, -1) when none of those cells is blank. */
    ghost predicate LastBlankBefore(bi: int, bj: int, i: int, j: int)
      requires Valid()
      reads board
    {
      if bi == -1 && bj == -1 then
        forall r, c :: 0 <= r < size && 0 <= c < size && Before(r, c, i, j) ==> board[r, c] != BLANK
      else
        0 <= bi < size && 0 <= bj < size && Before(bi, bj, i, j) && board[bi, bj] == BLANK &&
        forall r, c :: 0 <= r < size && 0 <= c < size && Before(r, c, i, j) && Before(bi, bj, r, c) ==>
          board[r, c] != BLANK
    }

    /** The scan over all cells that remembers the last blank it meets. */
    method FindBlank() returns (bug: int, zug: int)
      requires Valid()
      ensures LastBlankBefore(bug, zug, size, 0)
    {
      bug, zug := -1, -1;
      for rug := 0 to size
        invariant LastBlankBefore(bug, zug, rug, 0)
      {
        for tug := 0 to size
          invariant LastBlankBefore(bug, zug, rug, tug)
        {
          if board[rug, tug] == BLANK {
            bug, zug := rug, tug;
          }
        }
      }
    }

    /** b is this board with the blank at (bi, bj) and the tile at `cell`
        exchanged. */
    ghost predicate SwappedWith(b: Board, bi: int, bj: int, cell: (int, int))
      requires Valid() && b.Valid()
      reads board, b.board
    {
      b.size == size && 0 <= bi < size && 0 <= bj < size &&
      0 <= cell.0 < size && 0 <= cell.1 < size &&
      forall r, c :: 0 <= r < size && 0 <= c < size ==>
        b.board[r, c] == if r == bi && c == bj then board[cell.0, cell.1]
                         else if (r, c) == cell then BLANK
                         else board[r, c]
    }

    /** Slides the tile at (l, m) of the scratch copy into the blank at
        (bug, zug), copies the result into a new board and slides it back. */
    method SlideInto(scratch: array2<int>, bug: int, zug: int, l: int, m: int) returns (neighbor: Board)
      requires Valid() && scratch != board
      requires scratch.Length0 == size && scratch.Length1 == size
      requires forall r, c :: 0 <= r < size && 0 <= c < size ==> scratch[r, c] == board[r, c]
      requires 0 <= bug < size && 0 <= zug < size && board[bug, zug] == BLANK
      requires 0 <= l < size && 0 <= m < size
      modifies scratch
      ensures forall r, c :: 0 <= r < size && 0 <= c < size ==> scratch[r, c] == board[r, c]
      ensures fresh(neighbor) && fresh(neighbor.board) && neighbor.Valid()
      ensures SwappedWith(neighbor, bug, zug, (l, m))
    {
      scratch[bug, zug] := scratch[l, m];
      scratch[l, m] := BLANK;
      neighbor := new Board(scratch);
      scratch[l, m] := scratch[bug, zug];
      scratch[bug, zug] := BLANK;
    }

    /** The boards one move away: for each cell adjacent to the last blank, in
        row-major order, a new board with that tile slid into the blank. The
        scratch copy is put back after each one. */
    method Neighbors() returns (nbs: seq<Board>, ghost bi: int, ghost bj: int)
      requires Valid()
      ensures LastBlankBefore(bi, bj, size, 0)
      ensures |nbs| == |NeighborCells(bi, bj, size, size, 0)|
      ensures forall k :: 0 <= k < |nbs| ==>
        fresh(nbs[k]) && fresh(nbs[k].board) && nbs[k].Valid() &&
        SwappedWith(nbs[k], bi, bj, NeighborCells(bi, bj, size, size, 0)[k])
    {
      var hug := size;
      var bug, zug := FindBlank();
      bi, bj := bug, zug;
      var scratch := new int[hug, hug];
      for pug := 0 to hug
        invariant forall r, c :: 0 <= r < pug && 0 <= c < hug ==> scratch[r, c] == board[r, c]
      {
        for yug := 0 to hug
          invariant forall r, c :: 0 <= r < pug && 0 <= c < hug ==> scratch[r, c] == board[r, c]
          invariant forall c :: 0 <= c < yug ==> scratch[pug, c] == board[pug, c]
        {
          scratch[pug, yug] := board[pug, yug];
        }
      }
      nbs := [];
      for l := 0 to hug
        invariant forall r, c :: 0 <= r < hug && 0 <= c < hug ==> scratch[r, c] == board[r, c]
        invariant |nbs| == |NeighborCells(bug, zug, hug, l, 0)|
        invariant forall k :: 0 <= k < |nbs| ==>
          fresh(nbs[k]) && fresh(nbs[k].board) && nbs[k].board != scratch && nbs[k].Valid() &&
          SwappedWith(nbs[k], bug, zug, NeighborCells(bug, zug, hug, l, 0)[k])
      {
        for m := 0 to hug
          invariant forall r, c :: 0 <= r < hug && 0 <= c < hug ==> scratch[r, c] == board[r, c]
          invariant |nbs| == |NeighborCells(bug, zug, hug, l, m)|
          invariant forall k :: 0 <= k < |nbs| ==>
            fresh(nbs[k]) && fresh(nbs[k].board) && nbs[k].board != scratch && nbs[k].Valid() &&
            SwappedWith(nbs[k], bug, zug, NeighborCells(bug, zug, hug, l, m)[k])
        {
          if Abs(-bug + l) + Abs(m - zug) - 1 == 0 {
            var neighbor := SlideInto(scratch, bug, zug, l, m);
            nbs := nbs + [neighbor];
          }
        }
      }
    }
  }

  /** The source's equality rejects a separate board holding exactly the same
      tiles: at position (0, 0) the two hold equal values, so its loop
      returns false. */
  lemma EqualsRejectsIdenticalCopy(a: Board, b: Board)
    requires a.Valid() && b.Valid() && a != b && a.size > 0 && a.SameTiles(b)
    ensures !(b == a || (b.size == a.size && a.NoTileShared(b)))
  {
    assert a.board[0, 0] == b.board[0, 0];
  }
}
