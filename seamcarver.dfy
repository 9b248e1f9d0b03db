/** Seam carving over a picture of RGB pixels, addressed (column, row): the
    dual-gradient energy of every pixel with wrap-around neighbours, the
    energy matrix kept in step with seam removals, and the search for a
    vertical seam that grows a frontier from the bottom row upwards and then
    reads the seam back from the top. */
module Seams {
  import opened Common

  datatype Color = Color(red: int, green: int, blue: int)

  /** One removal from the queue of the vertical seam search: the queue it
      took from, the keys the comparator read for that queue's entries at the
      time, the position taken, and the popped cell's column and row. */
  datatype Pop = Pop(queue: seq<int>, keys: seq<int>, index: nat, column: int, row: int)

  /** The index a pop took out of the queue. */
  function Entry(pp: Pop): int {
    if pp.index < |pp.queue| then pp.queue[pp.index] else -1
  }

  /** The queue left once the taken entry is out. */
  function Rest(pp: Pop): seq<int> {
    if pp.index < |pp.queue| then pp.queue[..pp.index] + pp.queue[pp.index + 1..] else pp.queue
  }

  /** The pop took an entry whose key was least among the keys of its queue. */
  ghost predicate LeastPop(pp: Pop) {
    pp.index < |pp.queue| == |pp.keys| &&
    forall i :: 0 <= i < |pp.keys| ==> pp.keys[pp.index] <= pp.keys[i]
  }

  /** The queue `next` after the pop keeps the rest in order and appends at
      most three indices, each a cell of the row above the popped cell at most
      one column away from it, for a picture `width` columns wide. */
  ghost predicate GrownAbove(pp: Pop, next: seq<int>, width: int) {
    var rest := Rest(pp);
    |rest| <= |next| <= |rest| + 3 && next[..|rest|] == rest &&
    forall i :: |rest| <= i < |next| ==>
      (pp.row - 1) * width + pp.column - 1 <= next[i] <= (pp.row - 1) * width + pp.column + 1 &&
      (pp.row - 1) * width <= next[i] < (pp.row - 1) * width + width
  }

  /** The neighbour before index i on a ring of n positions. */
  function Prev(i: int, n: int): (r: int)
    ensures 0 <= i < n ==> 0 <= r < n
    ensures i == 0 ==> r == n - 1
    ensures i != 0 ==> r == i - 1
  {
    if i == 0 then n - 1 else i - 1
  }

  /** The neighbour after index i on a ring of n positions. */
  function Next(i: int, n: int): (r: int)
    ensures 0 <= i < n ==> 0 <= r < n
    ensures i == n - 1 ==> r == 0
    ensures i != n - 1 ==> r == i + 1
  {
    if i == n - 1 then 0 else i + 1
  }

  function SquareOfDifference(rgb1: int, rgb2: int): (r: int)
    ensures r >= 0
    ensures r == 0 <==> rgb1 == rgb2
    ensures r == (rgb1 - rgb2) * (rgb1 - rgb2)
  {
    var abs := if rgb1 > rgb2 then rgb1 - rgb2 else rgb2 - rgb1;
    abs * abs
  }

  lemma SquareOfDifferenceSymmetric(a: int, b: int)
    ensures SquareOfDifference(a, b) == SquareOfDifference(b, a)
  {
  }

  /** The squared colour gradient between two pixels, in the order the
      source adds the channels up for the horizontal pair. */
  function GradientX(a: Color, b: Color): int {
    SquareOfDifference(a.red, b.red) + SquareOfDifference(a.blue, b.blue)
      + SquareOfDifference(a.green, b.green)
  }

  /** The same for the vertical pair, whose channels the source adds in
      another order. */
  function GradientY(a: Color, b: Color): int {
    SquareOfDifference(a.red, b.red) + SquareOfDifference(a.green, b.green)
      + SquareOfDifference(a.blue, b.blue)
  }

  /** The dual-gradient energy of pixel (x, y): the gradient between its left
      and right neighbours plus the one between the pixels above and below,
      where the neighbours wrap around the picture's edges. */
  function PixelEnergy(pic: array2<Color>, x: int, y: int): (e: int)
    requires 0 <= x < pic.Length0 && 0 <= y < pic.Length1
    reads pic
    ensures e >= 0
  {
    var width, height := pic.Length0, pic.Length1;
    var leftC, rightC := pic[Prev(x, width), y], pic[Next(x, width), y];
    var upC, downC := pic[x, Prev(y, height)], pic[x, Next(y, height)];
    GradientX(leftC, rightC) + GradientY(upC, downC)
  }

  /** The energy is 0 exactly where the two horizontal neighbours have the
      same colour and so do the two vertical ones. */
  lemma EnergyZero(pic: array2<Color>, x: int, y: int)
    requires 0 <= x < pic.Length0 && 0 <= y < pic.Length1
    ensures PixelEnergy(pic, x, y) == 0 <==>
      pic[Prev(x, pic.Length0), y] == pic[Next(x, pic.Length0), y] &&
      pic[x, Prev(y, pic.Length1)] == pic[x, Next(y, pic.Length1)]
  {
    var l, r := pic[Prev(x, pic.Length0), y], pic[Next(x, pic.Length0), y];
    var u, d := pic[x, Prev(y, pic.Length1)], pic[x, Next(y, pic.Length1)];
    assert GradientX(l, r) == 0 <==> l == r;
    assert GradientY(u, d) == 0 <==> u == d;
  }

  /** t holds pic with the two axes swapped: t[y, x] is pic[x, y]. */
  ghost predicate IsTranspose(pic: array2<Color>, t: array2<Color>)
    reads pic, t
  {
    t.Length0 == pic.Length1 && t.Length1 == pic.Length0 &&
    forall x, y :: 0 <= x < pic.Length0 && 0 <= y < pic.Length1 ==> t[y, x] == pic[x, y]
  }

  /** Pixel (y, x) of the transposed picture has the energy of pixel (x, y)
      of the original, so a vertical seam of the former is a horizontal seam
      of the latter. */
  lemma EnergyTranspose(pic: array2<Color>, t: array2<Color>, x: int, y: int)
    requires IsTranspose(pic, t)
    requires 0 <= x < pic.Length0 && 0 <= y < pic.Length1
    ensures PixelEnergy(t, y, x) == PixelEnergy(pic, x, y)
  {
    assert t[Prev(y, t.Length0), x] == pic[x, Prev(y, pic.Length1)];
    assert t[Next(y, t.Length0), x] == pic[x, Next(y, pic.Length1)];
    assert t[y, Prev(x, t.Length1)] == pic[Prev(x, pic.Length0), y];
    assert t[y, Next(x, t.Length1)] == pic[Next(x, pic.Length0), y];
  }

  /** The picture with swapped dimensions that the horizontal seam search
      runs the vertical search on. */
  method Transpose(pic: array2<Color>) returns (t: array2<Color>)
    ensures fresh(t) && IsTranspose(pic, t)
  {
    t := new Color[pic.Length1, pic.Length0]((i, j) => Color(0, 0, 0));
    for x := 0 to pic.Length0
      invariant forall i, j :: 0 <= i < x && 0 <= j < pic.Length1 ==> t[j, i] == pic[i, j]
    {
      for y := 0 to pic.Length1
        invariant forall i, j :: 0 <= i < x && 0 <= j < pic.Length1 ==> t[j, i] == pic[i, j]
        invariant forall j :: 0 <= j < y ==> t[j, x] == pic[x, j]
      {
        t[y, x] := pic[x, y];
      }
    }
  }

  /** Consecutive entries of the seam differ by at most one. */
  predicate Connected(seam: seq<int>) {
    forall k :: 0 <= k < |seam| - 1 ==> -1 <= seam[k] - seam[k + 1] <= 1
  }

  /** The validator's test: consecutive entries differ by at most one when
      the difference is taken in 32-bit `int` arithmetic, as Java does. */
  predicate Int32Connected(seam: seq<int>) {
    forall k :: 0 <= k < |seam| - 1 ==> -1 <= Wrap32(seam[k] - seam[k + 1]) <= 1
  }

  /** Every entry is a non-negative Java `int`, as every column or row index is. */
  predicate NonNegativeInts(seam: seq<int>) {
    forall k :: 0 <= k < |seam| ==> 0 <= seam[k] < 0x8000_0000
  }

  /** For non-negative entries the 32-bit difference cannot wrap, so the
      validator's test is the intended one. */
  lemma Int32ConnectedIffConnected(seam: seq<int>)
    requires NonNegativeInts(seam)
    ensures Int32Connected(seam) <==> Connected(seam)
  {
    forall k | 0 <= k < |seam| - 1
      ensures Wrap32(seam[k] - seam[k + 1]) == seam[k] - seam[k + 1]
    {
    }
  }

  /** The 32-bit difference lets a jump across the whole `int` range
      through: MAX_VALUE - MIN_VALUE wraps to -1. */
  lemma WrappedJumpAccepted()
    ensures Int32Connected([0x7fff_ffff, -0x8000_0000])
    ensures !Connected([0x7fff_ffff, -0x8000_0000])
  {
    var seam := [0x7fff_ffff, -0x8000_0000];
    assert Wrap32(seam[0] - seam[1]) == -1;
  }

  /** The seam validator: IllegalArgument for a wrong length or a jump of
      more than one in 32-bit arithmetic, IndexOutOfBounds when the expected
      length is 0 (the first entry is read before the loop). */
  method Check(seam: seq<int>, length: int) returns (r: Result<()>)
    ensures |seam| != length ==> r == Err(IllegalArgument)
    ensures |seam| == length == 0 ==> r == Err(IndexOutOfBounds)
    ensures |seam| == length > 0 ==> (r.Ok? <==> Int32Connected(seam))
    ensures |seam| == length > 0 && r.Err? ==> r.failure == IllegalArgument
  {
    if |seam| != length {
      return Err(IllegalArgument);
    }
    if |seam| == 0 {
      return Err(IndexOutOfBounds);
    }
    var first := seam[0];
    for k := 0 to |seam|
      invariant first == seam[if k == 0 then 0 else k - 1]
      invariant forall i :: 0 <= i < k - 1 ==> -1 <= Wrap32(seam[i] - seam[i + 1]) <= 1
    {
      var s := seam[k];
      var difference := Wrap32(first - s);
      if difference > 1 || difference < -1 {
        return Err(IllegalArgument);
      }
      first := s;
    }
    return Ok(());
  }

  /** The sign of a product with a positive width: a multiple of at least
      one width is at least the width, one of at most minus one width at most
      minus the width. The decoding lemmas below use it to bound quotients. */
  lemma MulSign(k: int, w: int)
    requires w > 0
    ensures k >= 1 ==> k * w >= w
    ensures k <= -1 ==> k * w <= -w
    decreases if k >= 0 then k else -k
  {
    if k > 1 {
      MulSign(k - 1, w);
      assert k * w == (k - 1) * w + w;
    } else if k < -1 {
      MulSign(k + 1, w);
      assert k * w == (k + 1) * w - w;
    }
  }

  /** An index `row * width + column` decodes back to its row and column. */
  lemma Decode(row: nat, column: nat, width: nat)
    requires column < width
    ensures (row * width + column) / width == row
    ensures (row * width + column) % width == column
  {
    var e := row * width + column;
    var q := e / width;
    var m := e % width;
    assert e == q * width + m;
    MulSign(q - row, width);
    assert (q - row) * width == q * width - row * width;
  }

  /** An index below height * width lies in one of the first height rows,
      and it lies in row 0 exactly when it is below width. */
  lemma RowOf(e: nat, width: nat, height: nat)
    requires width > 0 && e < height * width
    ensures e / width < height
    ensures e < width <==> e / width == 0
  {
    var q := e / width;
    var m := e % width;
    assert e == q * width + m;
    MulSign(q - height, width);
    assert (q - height) * width == q * width - height * width;
    MulSign(q, width);
  }

  /** An index of a row below the top splits into a row in [1, height) and
      a column in [0, width). */
  lemma SplitIndex(e: int, width: int, height: int)
    requires 0 < width <= e < height * width
    ensures 1 <= e / width < height && 0 <= e - e / width * width < width
  {
    RowOf(e, width, height);
    assert e == e / width * width + e % width;
  }

  /** An index below height * width also addresses a cell of a matrix of at
      least that many rows and columns, whatever column count decodes it. */
  lemma IndexFits(e: nat, width: nat, height: nat, w0: nat, h0: nat)
    requires height * width > e && width <= w0 && height <= h0
    ensures w0 > 0 && e / w0 < h0
  {
    assert height * width <= h0 * width by {
      MulSign(h0 - height, width);
      assert (h0 - height) * width == h0 * width - height * width;
    }
    assert h0 * width <= h0 * w0 by {
      MulSign(w0 - width, h0);
      assert (w0 - width) * h0 == w0 * h0 - width * h0;
    }
    RowOf(e, w0, h0);
  }

  /** Row-major encoding maps a cell of a height × width grid below
      height * width. */
  lemma Encode(row: nat, column: nat, width: nat, height: nat)
    requires column < width && row < height
    ensures row * width + column < height * width
  {
    MulSign(height - row, width);
    assert (height - row) * width == height * width - row * width;
  }

  /** The energy of every pixel of pic, in a new matrix of its dimensions. */
  method EnergiesOf(pic: array2<Color>) returns (em: array2<int>)
    ensures fresh(em) && em.Length0 == pic.Length0 && em.Length1 == pic.Length1
    ensures forall x, y :: 0 <= x < pic.Length0 && 0 <= y < pic.Length1 ==> em[x, y] == PixelEnergy(pic, x, y)
  {
    em := new int[pic.Length0, pic.Length1]((i, j) => 0);
    for x := 0 to pic.Length0
      invariant forall i, j :: 0 <= i < x && 0 <= j < pic.Length1 ==> em[i, j] == PixelEnergy(pic, i, j)
    {
      for y := 0 to pic.Length1
        invariant forall i, j :: 0 <= i < x && 0 <= j < pic.Length1 ==> em[i, j] == PixelEnergy(pic, i, j)
        invariant forall j :: 0 <= j < y ==> em[x, j] == PixelEnergy(pic, x, j)
      {
        em[x, y] := PixelEnergy(pic, x, y);
      }
    }
  }

  /** The energy of cell (c, r) after the horizontal seam `seam` was taken
      out: column c keeps the old energies above row seam[c]-1, recomputes
      rows seam[c]-1 and seam[c] from the new picture, and moves the old
      energies below up by one. */
  ghost function UpValue(pic: array2<Color>, oldE: array2<int>, seam: seq<int>, c: int, r: int): int
    requires 0 <= c < pic.Length0 && 0 <= r < pic.Length1
    requires |seam| == pic.Length0 && oldE.Length0 == pic.Length0 && oldE.Length1 == pic.Length1 + 1
    reads pic, oldE
  {
    if r == seam[c] - 1 || r == seam[c] then PixelEnergy(pic, c, r)
    else if r > seam[c] then oldE[c, r + 1]
    else oldE[c, r]
  }

  /** The energy of cell (c, r) after the vertical seam `seam` was taken out:
      row r keeps the old energies left of column seam[r]-1, recomputes
      columns seam[r]-1 and seam[r] from the new picture, and moves the old
      energies on the right one column to the left. */
  ghost function LeftValue(pic: array2<Color>, oldE: array2<int>, seam: seq<int>, c: int, r: int): int
    requires 0 <= c < pic.Length0 && 0 <= r < pic.Length1
    requires |seam| == pic.Length1 && oldE.Length0 == pic.Length0 + 1 && oldE.Length1 == pic.Length1
    reads pic, oldE
  {
    if c == seam[r] - 1 || c == seam[r] then PixelEnergy(pic, c, r)
    else if c > seam[r] then oldE[c + 1, r]
    else oldE[c, r]
  }

  ghost predicate ShiftedUp(pic: array2<Color>, oldE: array2<int>, newE: array2<int>, seam: seq<int>)
    reads pic, oldE, newE
  {
    |seam| == pic.Length0 &&
    newE.Length0 == pic.Length0 && newE.Length1 == pic.Length1 &&
    oldE.Length0 == pic.Length0 && oldE.Length1 == pic.Length1 + 1 &&
    forall c, r :: 0 <= c < pic.Length0 && 0 <= r < pic.Length1 ==> newE[c, r] == UpValue(pic, oldE, seam, c, r)
  }

  ghost predicate ShiftedLeft(pic: array2<Color>, oldE: array2<int>, newE: array2<int>, seam: seq<int>)
    reads pic, oldE, newE
  {
    |seam| == pic.Length1 &&
    newE.Length0 == pic.Length0 && newE.Length1 == pic.Length1 &&
    oldE.Length0 == pic.Length0 + 1 && oldE.Length1 == pic.Length1 &&
    forall c, r :: 0 <= c < pic.Length0 && 0 <= r < pic.Length1 ==> newE[c, r] == LeftValue(pic, oldE, seam, c, r)
  }

  /** The energy update for a removed horizontal seam, column by column. */
  method ShiftUp(pic: array2<Color>, energyMatrix: array2<int>, seam: seq<int>) returns (newEnergyMatrix: array2<int>)
    requires |seam| == pic.Length0
    requires energyMatrix.Length0 == pic.Length0 && energyMatrix.Length1 == pic.Length1 + 1
    ensures fresh(newEnergyMatrix) && ShiftedUp(pic, energyMatrix, newEnergyMatrix, seam)
  {
    var width, height := pic.Length0, pic.Length1;
    newEnergyMatrix := new int[width, height]((i, j) => 0);
    for column := 0 to |seam|
      invariant forall c, r :: 0 <= c < column && 0 <= r < height ==>
        newEnergyMatrix[c, r] == UpValue(pic, energyMatrix, seam, c, r)
    {
      var changedIndex := seam[column];
      for row := 0 to height
        invariant forall c, r :: 0 <= c < column && 0 <= r < height ==>
          newEnergyMatrix[c, r] == UpValue(pic, energyMatrix, seam, c, r)
        invariant forall r :: 0 <= r < row ==> newEnergyMatrix[column, r] == UpValue(pic, energyMatrix, seam, column, r)
      {
        if row == changedIndex - 1 || row == changedIndex {
          newEnergyMatrix[column, row] := PixelEnergy(pic, column, row);
        } else if row > changedIndex {
          newEnergyMatrix[column, row] := energyMatrix[column, row + 1];
        } else {
          newEnergyMatrix[column, row] := energyMatrix[column, row];
        }
      }
    }
  }

  /** The energy update for a removed vertical seam, row by row. */
  method ShiftLeft(pic: array2<Color>, energyMatrix: array2<int>, seam: seq<int>) returns (newEnergyMatrix: array2<int>)
    requires |seam| == pic.Length1
    requires energyMatrix.Length0 == pic.Length0 + 1 && energyMatrix.Length1 == pic.Length1
    ensures fresh(newEnergyMatrix) && ShiftedLeft(pic, energyMatrix, newEnergyMatrix, seam)
  {
    var width, height := pic.Length0, pic.Length1;
    newEnergyMatrix := new int[width, height]((i, j) => 0);
    for row := 0 to |seam|
      invariant forall c, r :: 0 <= c < width && 0 <= r < row ==>
        newEnergyMatrix[c, r] == LeftValue(pic, energyMatrix, seam, c, r)
    {
      var changedIndex := seam[row];
      for column := 0 to width
        invariant forall c, r :: 0 <= c < width && 0 <= r < row ==>
          newEnergyMatrix[c, r] == LeftValue(pic, energyMatrix, seam, c, r)
        invariant forall c :: 0 <= c < column ==> newEnergyMatrix[c, row] == LeftValue(pic, energyMatrix, seam, c, row)
      {
        if column == changedIndex - 1 || column == changedIndex {
          newEnergyMatrix[column, row] := PixelEnergy(pic, column, row);
        } else if column > changedIndex {
          newEnergyMatrix[column, row] := energyMatrix[column + 1, row];
        } else {
          newEnergyMatrix[column, row] := energyMatrix[column, row];
        }
      }
    }
  }

  class SeamCarver {
    var p: array2<Color>
    var energyMatrix: array2<int>
    var distTo: array2<int>
    var horizontalSeam: Option<seq<int>>
    var verticalSeam: Option<seq<int>>

    /** The energy matrix has the picture's dimensions; `distTo` keeps the
        dimensions of the picture the carver was built with, which are never
        smaller than the current ones. */
    ghost predicate Shape()
      reads this
    {
      energyMatrix.Length0 == p.Length0 && energyMatrix.Length1 == p.Length1 &&
      distTo.Length0 >= p.Length0 && distTo.Length1 >= p.Length1 &&
      distTo != energyMatrix
    }

    /** The state between public calls: no seam removal is pending. */
    ghost predicate Valid()
      reads this
    {
      Shape() && horizontalSeam.None? && verticalSeam.None?
    }

    constructor (pic: array2<Color>)
      ensures Valid() && p == pic && fresh(energyMatrix) && fresh(distTo)
      ensures distTo.Length0 == pic.Length0 && distTo.Length1 == pic.Length1
      ensures forall x, y :: 0 <= x < pic.Length0 && 0 <= y < pic.Length1 ==>
        energyMatrix[x, y] == PixelEnergy(pic, x, y) && distTo[x, y] == 0
    {
      p := pic;
      distTo := new int[pic.Length0, pic.Length1]((i, j) => 0);
      var em := EnergiesOf(pic);
      energyMatrix := em;
      horizontalSeam := None;
      verticalSeam := None;
    }

    /** The width of the current picture, which is also the energy matrix's
        and at most the width of `distTo`. */
    function Width(): (r: int)
      reads this
      ensures r == p.Length0 >= 0
      ensures Shape() ==> r == energyMatrix.Length0 <= distTo.Length0
    {
      p.Length0
    }

    /** The height of the current picture, likewise. */
    function Height(): (r: int)
      reads this
      ensures r == p.Length1 >= 0
      ensures Shape() ==> r == energyMatrix.Length1 <= distTo.Length1
    {
      p.Length1
    }

    function Energy(x: int, y: int): (r: Result<int>)
      reads this, p
      ensures r.Ok? <==> 0 <= x < p.Length0 && 0 <= y < p.Length1
      ensures r.Ok? ==> r.value == PixelEnergy(p, x, y) && r.value >= 0
      ensures r.Err? ==> r.failure == IndexOutOfBounds
    {
      if x < 0 || x >= p.Length0 || y < 0 || y >= p.Length1 then Err(IndexOutOfBounds)
      else Ok(PixelEnergy(p, x, y))
    }

    /** The state between a seam removal and the energy update: the picture
        already lost the seam, the energy matrix still has the old
        dimensions. */
    ghost predicate Pending()
      reads this
    {
      distTo.Length0 >= p.Length0 && distTo.Length1 >= p.Length1 && distTo != energyMatrix &&
      if horizontalSeam.Some? then
        |horizontalSeam.value| == p.Length0 &&
        energyMatrix.Length0 == p.Length0 && energyMatrix.Length1 == p.Length1 + 1
      else if verticalSeam.Some? then
        |verticalSeam.value| == p.Length1 &&
        energyMatrix.Length0 == p.Length0 + 1 && energyMatrix.Length1 == p.Length1
      else
        energyMatrix.Length0 == p.Length0 && energyMatrix.Length1 == p.Length1
    }

    /** Brings the energy matrix in step with a pending seam removal, the
        horizontal one first, and clears both seams; with none pending it
        does nothing. */
    method ChangeEnergyMatrix()
      requires Pending()
      modifies this
      ensures Valid() && p == old(p) && distTo == old(distTo)
      ensures horizontalSeam.None? && verticalSeam.None?
      ensures old(horizontalSeam).None? && old(verticalSeam).None? ==>
        energyMatrix == old(energyMatrix)
      ensures old(horizontalSeam).Some? ==>
        fresh(energyMatrix) && ShiftedUp(p, old(energyMatrix), energyMatrix, old(horizontalSeam).value)
      ensures old(horizontalSeam).None? && old(verticalSeam).Some? ==>
        fresh(energyMatrix) && ShiftedLeft(p, old(energyMatrix), energyMatrix, old(verticalSeam).value)
    {
      if horizontalSeam.Some? {
        energyMatrix := ShiftUp(p, energyMatrix, horizontalSeam.value);
      } else if verticalSeam.Some? {
        energyMatrix := ShiftLeft(p, energyMatrix, verticalSeam.value);
      }
      horizontalSeam := None;
      verticalSeam := None;
    }

    /** Replaces the picture by `removed`, the picture with the horizontal
        seam taken out, and updates the energies; a seam that fails the
        check changes nothing. */
    method RemoveHorizontalSeam(seam: seq<int>, removed: array2<Color>) returns (r: Result<()>)
      requires Valid()
      requires removed.Length0 == p.Length0 && removed.Length1 + 1 == p.Length1
      modifies this
      ensures Valid() && distTo == old(distTo)
      ensures r.Err? ==> unchanged(this)
      ensures r.Ok? ==> horizontalSeam.None? && verticalSeam.None?
      ensures r.Ok? <==> |seam| == old(p.Length0) > 0 && Int32Connected(seam)
      ensures NonNegativeInts(seam) ==> (r.Ok? <==> |seam| == old(p.Length0) > 0 && Connected(seam))
      ensures |seam| == old(p.Length0) == 0 ==> r == Err(IndexOutOfBounds)
      ensures r.Err? && !(|seam| == old(p.Length0) == 0) ==> r == Err(IllegalArgument)
      ensures r.Ok? ==>
        p == removed && fresh(energyMatrix) && ShiftedUp(p, old(energyMatrix), energyMatrix, seam)
    {
      r := Check(seam, p.Length0);
      if NonNegativeInts(seam) {
        Int32ConnectedIffConnected(seam);
      }
      if r.Err? {
        return;
      }
      p := removed;
      horizontalSeam := Some(seam);
      ChangeEnergyMatrix();
    }

    /** The same for a vertical seam. */
    method RemoveVerticalSeam(seam: seq<int>, removed: array2<Color>) returns (r: Result<()>)
      requires Valid()
      requires removed.Length0 + 1 == p.Length0 && removed.Length1 == p.Length1
      modifies this
      ensures Valid() && distTo == old(distTo)
      ensures r.Err? ==> unchanged(this)
      ensures r.Ok? ==> horizontalSeam.None? && verticalSeam.None?
      ensures r.Ok? <==> |seam| == old(p.Length1) > 0 && Int32Connected(seam)
      ensures NonNegativeInts(seam) ==> (r.Ok? <==> |seam| == old(p.Length1) > 0 && Connected(seam))
      ensures |seam| == old(p.Length1) == 0 ==> r == Err(IndexOutOfBounds)
      ensures r.Err? && !(|seam| == old(p.Length1) == 0) ==> r == Err(IllegalArgument)
      ensures r.Ok? ==>
        p == removed && fresh(energyMatrix) && ShiftedLeft(p, old(energyMatrix), energyMatrix, seam)
    {
      r := Check(seam, p.Length1);
      if NonNegativeInts(seam) {
        Int32ConnectedIffConnected(seam);
      }
      if r.Err? {
        return;
      }
      p := removed;
      verticalSeam := Some(seam);
      ChangeEnergyMatrix();
    }

    /** The distance the queue's comparator reads for index e: it decodes e
        with the column count of `distTo`, the width the carver started
        with. */
    function QueueKey(e: int): int
      requires 0 <= e && distTo.Length0 > 0 && e / distTo.Length0 < distTo.Length1
      reads this, distTo
    {
      var width := distTo.Length0;
      var height1 := e / width;
      distTo[e - height1 * width, height1]
    }

    /** Every queued index addresses a cell of the current picture. */
    ghost predicate InPicture(pq: seq<int>)
      reads this
    {
      forall k :: 0 <= k < |pq| ==> 0 <= pq[k] < p.Length1 * p.Length0
    }

    /** Takes an index of least key out of the queue. */
    method RemoveMin(pq: seq<int>) returns (smallest: int, rest: seq<int>, ghost taken: nat)
      requires Valid() && InPicture(pq) && |pq| > 0
      ensures taken < |pq| && smallest == pq[taken] && rest == pq[..taken] + pq[taken + 1..]
      ensures InPicture(rest) && smallest in pq
      ensures multiset(rest) + multiset{smallest} == multiset(pq)
      ensures 0 <= smallest < p.Length1 * p.Length0
      ensures IndexFitsDistTo(smallest)
      ensures forall k :: 0 <= k < |pq| ==> IndexFitsDistTo(pq[k]) && QueueKey(smallest) <= QueueKey(pq[k])
    {
      var best := 0;
      IndexFits(pq[0], p.Length0, p.Length1, distTo.Length0, distTo.Length1);
      var bestKey := QueueKey(pq[0]);
      for k := 1 to |pq|
        invariant best < k && IndexFitsDistTo(pq[best]) && bestKey == QueueKey(pq[best])
        invariant forall i :: 0 <= i < k ==> IndexFitsDistTo(pq[i]) && bestKey <= QueueKey(pq[i])
      {
        IndexFits(pq[k], p.Length0, p.Length1, distTo.Length0, distTo.Length1);
        var key := QueueKey(pq[k]);
        if key < bestKey {
          best, bestKey := k, key;
        }
      }
      smallest := pq[best];
      rest := pq[..best] + pq[best + 1..];
      assert pq == pq[..best] + [smallest] + pq[best + 1..];
      taken := best;
    }

    ghost predicate IndexFitsDistTo(e: int)
      reads this
    {
      0 <= e && distTo.Length0 > 0 && e / distTo.Length0 < distTo.Length1
    }

    /** The block the source repeats for each cell of the row above: a cell
        whose distance is still 0 gets `currentDistTo` plus its own energy and
        is queued; a cell already reached is left alone. */
    method RelaxCell(column: int, topRow: int, currentDistTo: int, pq: seq<int>) returns (pq': seq<int>)
      requires Valid()
      requires 0 <= column < p.Length0 && 0 <= topRow < p.Length1
      modifies distTo
      ensures forall c, r :: 0 <= c < distTo.Length0 && 0 <= r < distTo.Length1 && (c != column || r != topRow) ==>
        distTo[c, r] == old(distTo[c, r])
      ensures distTo[column, topRow] ==
        if old(distTo[column, topRow]) == 0 then currentDistTo + energyMatrix[column, topRow]
        else old(distTo[column, topRow])
      ensures pq' == pq + if old(distTo[column, topRow]) == 0 then [topRow * p.Length0 + column] else []
      ensures InPicture(pq) ==> InPicture(pq')
    {
      pq' := pq;
      var old0 := distTo[column, topRow];
      var current := currentDistTo + energyMatrix[column, topRow];
      if old0 == 0 {
        distTo[column, topRow] := current;
        Encode(topRow, column, p.Length0, p.Length1);
        pq' := pq' + [topRow * p.Length0 + column];
      }
    }

    /** The row above (smallColumn, smallHeight) relaxed from it: each of
        the up to three cells of that row next to smallColumn whose distance
        was 0 now holds the popped cell's distance plus its own energy and is
        appended to the queue, in the order middle, left, right; no other
        cell changes. */
    twostate predicate RowAboveRelaxed(smallColumn: int, smallHeight: int, pq: seq<int>, pq': seq<int>)
      requires Valid() && old(distTo) == distTo
      requires 0 <= smallColumn < p.Length0 && 1 <= smallHeight < p.Length1
      reads this, distTo, energyMatrix
    {
      (forall c, r ::
        0 <= c < distTo.Length0 && 0 <= r < distTo.Length1 &&
        (r != smallHeight - 1 || c < smallColumn - 1 || smallColumn + 1 < c || p.Length0 <= c)
        ==> distTo[c, r] == old(distTo[c, r])) &&
      distTo[smallColumn, smallHeight - 1] ==
        (if old(distTo[smallColumn, smallHeight - 1]) == 0
         then old(distTo[smallColumn, smallHeight]) + energyMatrix[smallColumn, smallHeight - 1]
         else old(distTo[smallColumn, smallHeight - 1])) &&
      (0 <= smallColumn - 1 ==>
        distTo[smallColumn - 1, smallHeight - 1] ==
          if old(distTo[smallColumn - 1, smallHeight - 1]) == 0
          then old(distTo[smallColumn, smallHeight]) + energyMatrix[smallColumn - 1, smallHeight - 1]
          else old(distTo[smallColumn - 1, smallHeight - 1])) &&
      (smallColumn + 1 < p.Length0 ==>
        distTo[smallColumn + 1, smallHeight - 1] ==
          if old(distTo[smallColumn + 1, smallHeight - 1]) == 0
          then old(distTo[smallColumn, smallHeight]) + energyMatrix[smallColumn + 1, smallHeight - 1]
          else old(distTo[smallColumn + 1, smallHeight - 1])) &&
      pq' == pq
        + (if old(distTo[smallColumn, smallHeight - 1]) == 0
           then [(smallHeight - 1) * p.Length0 + smallColumn] else [])
        + (if smallColumn - 1 >= 0 && old(distTo[smallColumn - 1, smallHeight - 1]) == 0
           then [(smallHeight - 1) * p.Length0 + smallColumn - 1] else [])
        + (if smallColumn + 1 < p.Length0 && old(distTo[smallColumn + 1, smallHeight - 1]) == 0
           then [(smallHeight - 1) * p.Length0 + smallColumn + 1] else [])
    }

    /** The body of the source's addNeighbors. */
    method AddNeighbors(smallColumn: int, smallHeight: int, pq: seq<int>) returns (pq': seq<int>)
      requires Valid()
      requires 0 <= smallColumn < p.Length0 && 1 <= smallHeight < p.Length1
      modifies distTo
      ensures RowAboveRelaxed(smallColumn, smallHeight, pq, pq')
      ensures InPicture(pq) ==> InPicture(pq')
    {
      var width := p.Length0;
      var currentDistTo := distTo[smallColumn, smallHeight];
      var topLeftColumn, topRightColumn := smallColumn - 1, smallColumn + 1;
      var topRow := smallHeight - 1;
      pq' := RelaxCell(smallColumn, topRow, currentDistTo, pq);
      if topLeftColumn >= 0 {
        pq' := RelaxCell(topLeftColumn, topRow, currentDistTo, pq');
      }
      if topRightColumn < width {
        pq' := RelaxCell(topRightColumn, topRow, currentDistTo, pq');
      }
    }

    /** Going from (sc, sh) down to (lc, lr) accounts for exactly the energy
        of (sc, sh). */
    ghost predicate Match(sc: int, sh: int, lc: int, lr: int)
      requires Valid()
      reads this, distTo, energyMatrix
    {
      0 <= sc < p.Length0 && 0 <= sh < p.Length1 && 0 <= lc < p.Length0 && 0 <= lr < p.Length1 &&
      distTo[sc, sh] - distTo[lc, lr] == energyMatrix[sc, sh]
    }

    /** Tries the columns sc-1, sc and sc+1 of row lowRow, in that order, for
        the first one inside the picture that matches (sc, sh). */
    method FindBelow(sc: int, sh: int, lowRow: int) returns (matched: bool, lowColumn: int)
      requires Valid()
      requires 0 <= sc < p.Length0 && 0 <= sh < p.Length1 && 0 <= lowRow < p.Length1
      ensures matched ==> -1 <= lowColumn - sc <= 1 && Match(sc, sh, lowColumn, lowRow)
      ensures matched ==> forall c :: sc - 1 <= c < lowColumn ==> !Match(sc, sh, c, lowRow)
      ensures !matched ==> NoMatchBelow(sc, sh, lowRow)
    {
      var width := p.Length0;
      for offset := -1 to 2
        invariant forall c :: sc - 1 <= c < sc + offset ==> !Match(sc, sh, c, lowRow)
      {
        lowColumn := sc + offset;
        if lowColumn < 0 || lowColumn >= width {
          continue;
        }
        var differenceEnergy := distTo[sc, sh] - distTo[lowColumn, lowRow];
        if differenceEnergy == energyMatrix[sc, sh] {
          return true, lowColumn;
        }
      }
      return false, 0;
    }

    /** Step r of reading the seam back: from position (cols[r], rows[r]),
        row r + 1 either matched, taking a column next to the previous one, or
        matched nowhere, so the position stays and the entry is left at 0.
        A matched row takes the first matching column, leftmost first. */
    ghost predicate TracedRow(path: seq<int>, found: seq<bool>, cols: seq<int>, rows: seq<int>, r: int)
      requires Valid()
      requires 0 <= r && r + 1 < |path| && r + 1 < |found| == |cols| == |rows|
      reads this, distTo, energyMatrix
    {
      0 <= rows[r] <= r && 0 <= cols[r] < p.Length0 && r + 1 < p.Length1 &&
      if found[r + 1] then
        path[r + 1] == cols[r + 1] && rows[r + 1] == r + 1 && -1 <= cols[r + 1] - cols[r] <= 1 &&
        Match(cols[r], rows[r], cols[r + 1], r + 1) && NoMatchLeftOf(cols[r], rows[r], cols[r + 1], r + 1)
      else
        path[r + 1] == 0 && cols[r + 1] == cols[r] && rows[r + 1] == rows[r] &&
        NoMatchBelow(cols[r], rows[r], r + 1)
    }

    /** No column from sc - 1 up to, not including, lc in row lowRow matches
        (sc, sh): lc is the first match of the three tried. */
    ghost predicate NoMatchLeftOf(sc: int, sh: int, lc: int, lowRow: int)
      requires Valid()
      reads this, distTo, energyMatrix
    {
      forall c :: sc - 1 <= c < lc ==> !Match(sc, sh, c, lowRow)
    }

    /** None of the columns next to sc in row lowRow matches (sc, sh). */
    ghost predicate NoMatchBelow(sc: int, sh: int, lowRow: int)
      requires Valid()
      reads this, distTo, energyMatrix
    {
      forall c :: sc - 1 <= c <= sc + 1 ==> !Match(sc, sh, c, lowRow)
    }

    /** The seam read back from the top for its first upTo rows; `cols` and
        `rows` hold the position reached after each row. */
    ghost predicate Traced(path: seq<int>, found: seq<bool>, cols: seq<int>, rows: seq<int>, upTo: int)
      requires Valid()
      reads this, distTo, energyMatrix
    {
      |found| == |cols| == |rows| == upTo <= |path| && upTo > 0 &&
      rows[0] == 0 && cols[0] == path[0] && 0 <= cols[0] < p.Length0 &&
      forall r :: 0 <= r < upTo - 1 ==> TracedRow(path, found, cols, rows, r)
    }

    /** Extending the read-back by one row keeps the rows already read. */
    lemma TracedExtend(path: seq<int>, found: seq<bool>, cols: seq<int>, rows: seq<int>,
                       path': seq<int>, m: bool, col: int, row: int, upTo: int)
      requires Valid() && Traced(path, found, cols, rows, upTo)
      requires upTo < |path'| == |path| && path'[..upTo] == path[..upTo]
      requires TracedRow(path', found + [m], cols + [col], rows + [row], upTo - 1)
      ensures Traced(path', found + [m], cols + [col], rows + [row], upTo + 1)
    {
      var found', cols', rows' := found + [m], cols + [col], rows + [row];
      assert path'[0] == path[0];
      forall r | 0 <= r < upTo - 1
        ensures TracedRow(path', found', cols', rows', r)
      {
        assert TracedRow(path, found, cols, rows, r);
        assert path'[r + 1] == path[r + 1];
      }
    }

    /** A seam read back with a match in every row is a valid seam: its
        entries are columns of the picture and consecutive ones are at most
        one apart, so the validator accepts it. */
    lemma TracedConnected(path: seq<int>, found: seq<bool>, cols: seq<int>, rows: seq<int>)
      requires Valid() && Traced(path, found, cols, rows, |path|)
      requires forall r :: 0 <= r < |found| ==> found[r]
      ensures Connected(path)
      ensures forall r :: 0 <= r < |path| ==> 0 <= path[r] < p.Length0
    {
      forall r | 0 <= r < |path|
        ensures path[r] == cols[r] && 0 <= cols[r] < p.Length0
      {
        if r > 0 {
          assert TracedRow(path, found, cols, rows, r - 1);
          assert found[r];
        }
      }
      forall k | 0 <= k < |path| - 1
        ensures -1 <= path[k] - path[k + 1] <= 1
      {
        assert TracedRow(path, found, cols, rows, k);
        assert found[k + 1];
      }
    }

    /** The seam from the top-row column `start` downwards. */
    method FindPath(start: int) returns (path: array<int>, ghost found: seq<bool>, ghost cols: seq<int>, ghost rows: seq<int>)
      requires Valid() && p.Length1 >= 1 && 0 <= start < p.Length0
      ensures fresh(path) && path.Length == p.Length1 && path[0] == start
      ensures Traced(path[..], found, cols, rows, path.Length)
    {
      var width, height := p.Length0, p.Length1;
      var smallColumn, smallHeight := start, 0;
      path := new int[height](i => 0);
      path[0] := smallColumn;
      found, cols, rows := [true], [start], [0];
      for lowRow := 1 to height
        invariant Traced(path[..], found, cols, rows, lowRow) && path[0] == start
        invariant smallColumn == cols[lowRow - 1] && smallHeight == rows[lowRow - 1]
        invariant 0 <= smallColumn < width && 0 <= smallHeight < lowRow
        invariant forall r :: lowRow <= r < height ==> path[r] == 0
      {
        ghost var before := path[..];
        var matched, lowColumn := FindBelow(smallColumn, smallHeight, lowRow);
        if matched {
          path[lowRow] := lowColumn;
          smallColumn := lowColumn;
          smallHeight := lowRow;
        }
        assert path[..][..lowRow] == before[..lowRow];
        TracedExtend(before, found, cols, rows, path[..], matched, smallColumn, smallHeight, lowRow);
        found, cols, rows := found + [matched], cols + [smallColumn], rows + [smallHeight];
      }
    }

    /** The bottom row of `distTo` holds the energies the search seeds it with. */
    ghost predicate Seeded()
      reads this, distTo, energyMatrix
      requires Shape()
    {
      forall c, r :: 0 <= c < p.Length0 && r == p.Length1 - 1 >= 0 ==> distTo[c, r] == energyMatrix[c, r]
    }

    /** Writes the bottom row's energies into `distTo` and queues its cells. */
    method Seed() returns (pq: seq<int>)
      requires Valid() && p.Length1 > 0
      modifies distTo
      ensures Seeded() && InPicture(pq) && |pq| == p.Length0
      ensures forall c, r :: 0 <= c < distTo.Length0 && 0 <= r < distTo.Length1 ==>
        distTo[c, r] == if r == p.Length1 - 1 && c < p.Length0 then energyMatrix[c, r] else old(distTo[c, r])
      ensures forall c :: 0 <= c < p.Length0 ==> pq[c] == (p.Length1 - 1) * p.Length0 + c
    {
      var height, width := p.Length1, p.Length0;
      var row := height - 1;
      var sum := row * width;
      pq := [];
      for column := 0 to width
        invariant |pq| == column && InPicture(pq)
        invariant forall c :: 0 <= c < column ==> pq[c] == sum + c
        invariant forall c, r :: 0 <= c < distTo.Length0 && 0 <= r < distTo.Length1 ==>
          distTo[c, r] == if r == row && c < column then energyMatrix[c, r] else old(distTo[c, r])
      {
        distTo[column, row] := energyMatrix[column, row];
        Encode(row, column, width, height);
        pq := pq + [sum + column];
      }
    }

    /** The rest of a pass of the search loop after a pop below the top row:
        decodes the popped index `smallest` and relaxes the row above it.
        `middle`, `left` and `right` tell which of the three cells above had
        distance 0, and so were written and queued; `last` is the recorded
        pop, whose rest `pq` the new queue grows. */
    method Expand(smallest: int, pq: seq<int>, ghost last: Pop)
      returns (pq': seq<int>, ghost sc: int, ghost sh: int, ghost middle: bool, ghost left: bool, ghost right: bool)
      requires Valid() && Seeded() && InPicture(pq)
      requires p.Length0 <= smallest < p.Length1 * p.Length0
      requires last.index < |last.queue| && Rest(last) == pq
      requires last.row == smallest / p.Length0 && last.column == smallest - smallest / p.Length0 * p.Length0
      modifies distTo
      ensures GrownAbove(last, pq', p.Length0)
      ensures sh == smallest / p.Length0 && sc == smallest - sh * p.Length0
      ensures 0 <= sc < p.Length0 && 1 <= sh < p.Length1 && smallest == sh * p.Length0 + sc
      ensures RowAboveRelaxed(sc, sh, pq, pq')
      ensures Seeded() && InPicture(pq')
      ensures forall x, y :: 0 <= x < distTo.Length0 && 0 <= y < distTo.Length1 && old(distTo[x, y]) != 0 ==>
        distTo[x, y] == old(distTo[x, y])
      ensures |pq'| - |pq| <= 3
      ensures middle == (old(distTo[sc, sh - 1]) == 0)
      ensures left == (sc - 1 >= 0 && old(distTo[sc - 1, sh - 1]) == 0)
      ensures right == (sc + 1 < p.Length0 && old(distTo[sc + 1, sh - 1]) == 0)
      ensures pq' == pq
        + (if middle then [(sh - 1) * p.Length0 + sc] else [])
        + (if sc - 1 >= 0 && left then [(sh - 1) * p.Length0 + sc - 1] else [])
        + (if sc + 1 < p.Length0 && right then [(sh - 1) * p.Length0 + sc + 1] else [])
    {
      var width, height := p.Length0, p.Length1;
      var smallHeight := smallest / width;
      var smallColumn := smallest - smallHeight * width;
      SplitIndex(smallest, width, height);
      sc, sh := smallColumn, smallHeight;
      middle := distTo[smallColumn, smallHeight - 1] == 0;
      left := smallColumn - 1 >= 0 && distTo[smallColumn - 1, smallHeight - 1] == 0;
      right := smallColumn + 1 < width && distTo[smallColumn + 1, smallHeight - 1] == 0;
      ghost var grown := pq
        + (if middle then [(smallHeight - 1) * width + smallColumn] else [])
        + (if smallColumn - 1 >= 0 && left then [(smallHeight - 1) * width + smallColumn - 1] else [])
        + (if smallColumn + 1 < width && right then [(smallHeight - 1) * width + smallColumn + 1] else []);
      GrownFromRelax(last, pq, grown, smallColumn, smallHeight, width, middle, left, right);
      pq' := AddNeighbors(smallColumn, smallHeight, pq);
      var bottom := height - 1;
      forall c | 0 <= c < width
        ensures distTo[c, bottom] == energyMatrix[c, bottom]
      {
        assert distTo[c, bottom] == old(distTo[c, bottom]);
      }
      assert pq' == grown;
    }

    /** The queue the search starts from: the bottom row's cells, left to right. */
    ghost predicate SeedQueue(q: seq<int>)
      reads this
    {
      |q| == p.Length0 && forall c :: 0 <= c < |q| ==> q[c] == (p.Length1 - 1) * p.Length0 + c
    }

    /** A pop of the search: the least recorded key was taken, and the
        popped index addresses the recorded cell, which is in the top row
        exactly when the index is below the width. */
    ghost predicate PopAt(pp: Pop)
      reads this
    {
      LeastPop(pp) && 0 <= pp.column < p.Length0 && 0 <= pp.row < p.Length1 &&
      Entry(pp) == pp.row * p.Length0 + pp.column &&
      (Entry(pp) < p.Length0 ==> pp.row == 0) &&
      (Entry(pp) >= p.Length0 ==> pp.row >= 1)
    }

    /** The keys recorded with the pops of a trace are the comparator's keys
        as they stand now, except keys that were 0: the search only writes
        cells whose distance is 0, so no other key changes after its pop. */
    ghost predicate TraceKeys(trace: seq<Pop>)
      reads this, distTo
    {
      forall k :: 0 <= k < |trace| ==> KeysAgree(trace[k].queue, trace[k].keys)
    }

    /** Every key of `keys` that is not 0 is the current key of the queue
        entry at the same position. */
    ghost predicate KeysAgree(queue: seq<int>, keys: seq<int>)
      reads this, distTo
    {
      forall i :: 0 <= i < |keys| && i < |queue| && keys[i] != 0 ==>
        IndexFitsDistTo(queue[i]) && keys[i] == QueueKey(queue[i])
    }

    /** Writing only cells whose distance is 0 keeps a trace: every key of
        a pop that was not 0 is still the key of its entry. */
    twostate lemma TraceKept(trace: seq<Pop>)
      requires unchanged(this) && old(TraceKeys(trace))
      requires forall x, y :: 0 <= x < distTo.Length0 && 0 <= y < distTo.Length1 && old(distTo[x, y]) != 0 ==>
        distTo[x, y] == old(distTo[x, y])
      ensures TraceKeys(trace)
    {
      forall k, i | 0 <= k < |trace| && 0 <= i < |trace[k].keys| && i < |trace[k].queue| && trace[k].keys[i] != 0
        ensures IndexFitsDistTo(trace[k].queue[i]) && trace[k].keys[i] == QueueKey(trace[k].queue[i])
      {
        var e := trace[k].queue[i];
        assert old(KeysAgree(trace[k].queue, trace[k].keys));
        assert old(IndexFitsDistTo(e)) && trace[k].keys[i] == old(QueueKey(e));
        var w := distTo.Length0;
        var h1 := e / w;
        assert old(distTo[e - h1 * w, h1]) != 0;
      }
    }

    /** The keys the comparator reads for the entries of `pq`, now. */
    ghost function KeysOf(pq: seq<int>): (keys: seq<int>)
      requires forall i :: 0 <= i < |pq| ==> IndexFitsDistTo(pq[i])
      reads this, distTo
      ensures |keys| == |pq|
      ensures forall i :: 0 <= i < |pq| ==> IndexFitsDistTo(pq[i]) && keys[i] == QueueKey(pq[i])
    {
      if pq == [] then []
      else
        var last := pq[|pq| - 1];
        assert IndexFitsDistTo(last);
        KeysOf(pq[..|pq| - 1]) + [QueueKey(last)]
    }

    /** The pops of a search, in order: the first takes from the seeded queue,
        each later one from the queue the one before left, and only the last
        may take a top-row index. */
    ghost predicate SearchTrace(trace: seq<Pop>)
      reads this
    {
      (trace != [] ==> SeedQueue(trace[0].queue)) &&
      forall k :: 0 <= k < |trace| ==>
        PopAt(trace[k]) &&
        (k < |trace| - 1 ==> Entry(trace[k]) >= p.Length0 && GrownAbove(trace[k], trace[k + 1].queue, p.Length0))
    }

    /** Appending a pop that holds now and takes from the queue the trace
        left keeps a trace. */
    lemma TraceSnoc(trace: seq<Pop>, pp: Pop)
      requires SearchTrace(trace) && PopAt(pp)
      requires trace == [] ==> SeedQueue(pp.queue)
      requires trace != [] ==>
        Entry(trace[|trace| - 1]) >= p.Length0 && GrownAbove(trace[|trace| - 1], pp.queue, p.Length0)
      ensures SearchTrace(trace + [pp])
    {
      var t := trace + [pp];
      forall k | 0 <= k < |t|
        ensures PopAt(t[k]) &&
          (k < |t| - 1 ==> Entry(t[k]) >= p.Length0 && GrownAbove(t[k], t[k + 1].queue, p.Length0))
      {
        if k < |trace| - 1 {
          assert t[k] == trace[k] && t[k + 1] == trace[k + 1];
        } else if k == |trace| - 1 {
          assert t[k] == trace[k];
        }
      }
    }

    /** The queue after relaxing the row above the popped cell (sc, sh) keeps
        the rest and appends only cells of that row next to column sc. */
    lemma GrownFromRelax(pp: Pop, queue: seq<int>, next: seq<int>, column: int, row: int, width: int,
                         middle: bool, left: bool, right: bool)
      requires pp.index < |pp.queue| && Rest(pp) == queue && pp.column == column && pp.row == row
      requires 0 <= column < width
      requires next == queue
        + (if middle then [(row - 1) * width + column] else [])
        + (if column - 1 >= 0 && left then [(row - 1) * width + column - 1] else [])
        + (if column + 1 < width && right then [(row - 1) * width + column + 1] else [])
      ensures GrownAbove(pp, next, width)
    {
    }

    /** pq.remove() of the search loop: takes an index of least key out of
        the queue and records the pop, with the cell its index addresses. */
    method Take(pq: seq<int>, ghost trace: seq<Pop>) returns (smallest: int, rest: seq<int>, ghost trace': seq<Pop>)
      requires Valid() && InPicture(pq) && |pq| > 0 && SearchTrace(trace) && TraceKeys(trace)
      requires trace == [] ==> SeedQueue(pq)
      requires trace != [] ==>
        Entry(trace[|trace| - 1]) >= p.Length0 && GrownAbove(trace[|trace| - 1], pq, p.Length0)
      ensures SearchTrace(trace') && TraceKeys(trace') && |trace'| == |trace| + 1 && trace'[..|trace|] == trace
      ensures trace'[|trace|].queue == pq && Entry(trace'[|trace|]) == smallest && Rest(trace'[|trace|]) == rest
      ensures |trace'[|trace|].keys| == |pq| &&
        forall i :: 0 <= i < |pq| ==> IndexFitsDistTo(pq[i]) && trace'[|trace|].keys[i] == QueueKey(pq[i])
      ensures InPicture(rest) && 0 <= smallest < p.Length1 * p.Length0
      ensures smallest >= p.Length0 ==>
        trace'[|trace|].row == smallest / p.Length0 &&
        trace'[|trace|].column == smallest - smallest / p.Length0 * p.Length0
    {
      ghost var taken;
      smallest, rest, taken := RemoveMin(pq);
      ghost var keys := KeysOf(pq);
      ghost var pp;
      if smallest < p.Length0 {
        pp := Pop(pq, keys, taken, smallest, 0);
      } else {
        SplitIndex(smallest, p.Length0, p.Length1);
        var sh := smallest / p.Length0;
        pp := Pop(pq, keys, taken, smallest - sh * p.Length0, sh);
      }
      assert Entry(pp) == smallest;
      assert KeysAgree(pq, keys);
      TraceSnoc(trace, pp);
      trace' := trace + [pp];
      assert trace'[..|trace|] == trace;
      assert forall k :: 0 <= k < |trace| ==> trace'[k] == trace[k];
    }

    /** The loop of the vertical seam search, from the seeded queue `pq`: pops
        indices of least key, relaxing the row above each, until one from the
        top row comes out. An empty queue is NoSuchElement, and running out of
        fuel stands for a search that does not end. */
    method Search(pq0: seq<int>, fuel: nat) returns (r: Result<int>, ghost trace: seq<Pop>, ghost queue: seq<int>)
      requires Valid() && Seeded() && p.Length0 > 0 && p.Length1 > 0 && SeedQueue(pq0) && InPicture(pq0)
      modifies distTo
      ensures Valid() && Seeded() && SearchTrace(trace) && TraceKeys(trace) && |trace| <= fuel
      ensures trace == [] ==> queue == pq0
      ensures trace != [] && Entry(trace[|trace| - 1]) >= p.Length0 ==> GrownAbove(trace[|trace| - 1], queue, p.Length0)
      ensures r.Err? ==> r.failure == NoSuchElement || r.failure == OutOfFuel
      ensures r.Err? ==> forall k :: 0 <= k < |trace| ==> Entry(trace[k]) >= p.Length0
      ensures r == Err(OutOfFuel) ==> |trace| == fuel
      ensures r == Err(NoSuchElement) ==> trace != [] && queue == []
      ensures r.Ok? ==> trace != [] && r.value == Entry(trace[|trace| - 1]) && 0 <= r.value < p.Length0
      ensures forall x, y :: 0 <= x < distTo.Length0 && 0 <= y < distTo.Length1 && old(distTo[x, y]) != 0 ==>
        distTo[x, y] == old(distTo[x, y])
    {
      var width := p.Length0;
      var pq := pq0;
      var f := fuel;
      trace := [];
      while true
        invariant Valid() && Seeded() && InPicture(pq)
        invariant SearchTrace(trace) && TraceKeys(trace) && |trace| + f == fuel
        invariant forall k :: 0 <= k < |trace| ==> Entry(trace[k]) >= width
        invariant trace == [] ==> pq == pq0
        invariant trace != [] ==> GrownAbove(trace[|trace| - 1], pq, width)
        invariant forall x, y :: 0 <= x < distTo.Length0 && 0 <= y < distTo.Length1 && old(distTo[x, y]) != 0 ==>
          distTo[x, y] == old(distTo[x, y])
        decreases f
      {
        if f == 0 {
          return Err(OutOfFuel), trace, pq;
        }
        f := f - 1;
        if |pq| == 0 {
          return Err(NoSuchElement), trace, pq;
        }
        var smallest;
        label pass:
        smallest, pq, trace := Round(pq, trace);
        forall x, y | 0 <= x < distTo.Length0 && 0 <= y < distTo.Length1 && old(distTo[x, y]) != 0
          ensures distTo[x, y] == old(distTo[x, y])
        {
          assert old@pass(distTo[x, y]) == old(distTo[x, y]);
        }
        if smallest < width {
          return Ok(smallest), trace, pq;
        }
      }
    }

    /** One pass of the search loop: takes an index of least key out of `pq`
        and, unless it is in the top row, relaxes the row above its cell.
        `trace` holds the pops so far and grows by this one. */
    method Round(pq: seq<int>, ghost trace: seq<Pop>) returns (smallest: int, pq': seq<int>, ghost trace': seq<Pop>)
      requires Valid() && Seeded() && InPicture(pq) && |pq| > 0
      requires SearchTrace(trace) && TraceKeys(trace)
      requires forall k :: 0 <= k < |trace| ==> Entry(trace[k]) >= p.Length0
      requires trace == [] ==> SeedQueue(pq)
      requires trace != [] ==> GrownAbove(trace[|trace| - 1], pq, p.Length0)
      modifies distTo
      ensures Valid() && Seeded() && InPicture(pq')
      ensures SearchTrace(trace') && TraceKeys(trace') && |trace'| == |trace| + 1
      ensures forall k :: 0 <= k < |trace| ==> trace'[k] == trace[k]
      ensures trace'[|trace|].queue == pq && Entry(trace'[|trace|]) == smallest && 0 <= smallest
      ensures smallest < p.Length0 ==> pq' == Rest(trace'[|trace|]) && unchanged(distTo)
      ensures smallest >= p.Length0 ==> GrownAbove(trace'[|trace|], pq', p.Length0)
      ensures forall x, y :: 0 <= x < distTo.Length0 && 0 <= y < distTo.Length1 && old(distTo[x, y]) != 0 ==>
        distTo[x, y] == old(distTo[x, y])
    {
      var rest;
      smallest, rest, trace' := Take(pq, trace);
      assert forall k :: 0 <= k < |trace| ==> trace'[k] == trace[k];
      if smallest < p.Length0 {
        return smallest, rest, trace';
      }
      ghost var sc, sh, middle, left, right;
      label before:
      pq', sc, sh, middle, left, right := Expand(smallest, rest, trace'[|trace|]);
      TraceKept@before(trace');
    }

    /** The vertical seam search: seeds the bottom row, runs the search loop
        and reads the seam back from the top-row index it stopped at. A
        picture without columns is NoSuchElement (the queue starts empty), one
        without rows IndexOutOfBounds (the bottom row is outside `distTo`). */
    method FindVerticalSeam(fuel: nat)
      returns (r: Result<seq<int>>, ghost found: seq<bool>, ghost cols: seq<int>, ghost rows: seq<int>,
               ghost trace: seq<Pop>)
      requires Valid()
      modifies this, distTo
      ensures Valid() && p == old(p) && energyMatrix == old(energyMatrix) && distTo == old(distTo)
      ensures p.Length0 == 0 ==> r == Err(NoSuchElement)
      ensures p.Length0 > 0 && p.Length1 == 0 ==> r == Err(IndexOutOfBounds)
      ensures p.Length0 > 0 && p.Length1 > 0 ==> Seeded() && SearchTrace(trace) && TraceKeys(trace) && |trace| <= fuel
      ensures p.Length0 > 0 && p.Length1 > 0 && r.Err? ==> r.failure == NoSuchElement || r.failure == OutOfFuel
      ensures r.Err? ==> forall k :: 0 <= k < |trace| ==> Entry(trace[k]) >= p.Length0
      ensures r == Err(OutOfFuel) ==> |trace| == fuel
      ensures p.Length0 > 0 && r == Err(NoSuchElement) ==>
        trace != [] && GrownAbove(trace[|trace| - 1], [], p.Length0)
      ensures r.Ok? ==>
        |r.value| == p.Length1 > 0 && 0 <= r.value[0] < p.Length0 && Traced(r.value, found, cols, rows, |r.value|) &&
        trace != [] && r.value[0] == Entry(trace[|trace| - 1])
      ensures forall x, y ::
        0 <= x < distTo.Length0 && 0 <= y < distTo.Length1 && y != p.Length1 - 1 && old(distTo[x, y]) != 0 ==>
        distTo[x, y] == old(distTo[x, y])
    {
      found, cols, rows, trace := [], [], [], [];
      ChangeEnergyMatrix();
      var height, width := p.Length1, p.Length0;
      if width == 0 {
        return Err(NoSuchElement), found, cols, rows, trace;
      }
      if height == 0 {
        return Err(IndexOutOfBounds), found, cols, rows, trace;
      }
      var pq := Seed();
      var s;
      ghost var queue;
      s, trace, queue := Search(pq, fuel);
      if s.Err? {
        return Err(s.failure), found, cols, rows, trace;
      }
      var path;
      path, found, cols, rows := FindPath(s.value);
      r := Ok(path[..]);
    }

    /** The horizontal seam search: the vertical search on a new carver over
        the transposed picture, whose energies are this picture's, transposed. */
    method FindHorizontalSeam(fuel: nat)
      returns (r: Result<seq<int>>, t: SeamCarver, ghost found: seq<bool>, ghost cols: seq<int>, ghost rows: seq<int>,
               ghost trace: seq<Pop>)
      requires Valid()
      ensures fresh(t) && t.Valid() && IsTranspose(p, t.p)
      ensures forall x, y :: 0 <= x < p.Length0 && 0 <= y < p.Length1 ==> t.energyMatrix[y, x] == PixelEnergy(p, x, y)
      ensures p.Length1 == 0 ==> r == Err(NoSuchElement)
      ensures p.Length1 > 0 && p.Length0 == 0 ==> r == Err(IndexOutOfBounds)
      ensures p.Length1 > 0 && p.Length0 > 0 ==> t.SearchTrace(trace) && t.TraceKeys(trace) && |trace| <= fuel
      ensures p.Length1 > 0 && p.Length0 > 0 && r.Err? ==> r.failure == NoSuchElement || r.failure == OutOfFuel
      ensures r.Err? ==> forall k :: 0 <= k < |trace| ==> Entry(trace[k]) >= p.Length1
      ensures r == Err(OutOfFuel) ==> |trace| == fuel
      ensures p.Length1 > 0 && r == Err(NoSuchElement) ==>
        trace != [] && GrownAbove(trace[|trace| - 1], [], p.Length1)
      ensures r.Ok? ==>
        |r.value| == p.Length0 && 0 <= r.value[0] < p.Length1 && t.Traced(r.value, found, cols, rows, |r.value|) &&
        trace != [] && r.value[0] == Entry(trace[|trace| - 1])
    {
      var newP := Transpose(p);
      t := new SeamCarver(newP);
      forall x, y | 0 <= x < p.Length0 && 0 <= y < p.Length1
        ensures t.energyMatrix[y, x] == PixelEnergy(p, x, y)
      {
        EnergyTranspose(p, newP, x, y);
      }
      r, found, cols, rows, trace := t.FindVerticalSeam(fuel);
    }
  }
}
