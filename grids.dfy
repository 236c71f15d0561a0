/** Option and Result, for the optional outputs of the extensive mode and the
    failure of the final normalisation. */
module Wrappers {
  datatype Option<T> = None | Some(value: T)

  datatype Result<T, E> = Success(value: T) | Failure(error: E)
}

/** Two-dimensional grids of reals and the elementwise numpy operations that the
    boundary and filling-in stages use. A grid is a sequence of rows; an
    M x N numpy array is a grid `g` with `IsGrid(g, M, N)` and `g[i][j]` is
    the array's element `[i, j]`. */
module Grids {

  type Grid = seq<seq<real>>

  predicate IsGrid(g: Grid, rows: nat, cols: nat) {
    |g| == rows && forall i :: 0 <= i < rows ==> |g[i]| == cols
  }

  predicate NonNeg(g: Grid) {
    forall i, j :: 0 <= i < |g| && 0 <= j < |g[i]| ==> g[i][j] >= 0.0
  }

  predicate AtMost(g: Grid, u: real) {
    forall i, j :: 0 <= i < |g| && 0 <= j < |g[i]| ==> g[i][j] <= u
  }

  /** Every element is 0 or 1, as the output of `heaviside` is. */
  predicate IsBinary(g: Grid) {
    forall i, j :: 0 <= i < |g| && 0 <= j < |g[i]| ==> g[i][j] == 0.0 || g[i][j] == 1.0
  }

  /** `a <= b` elementwise, for two grids of the same shape. */
  predicate PointwiseLe(a: Grid, b: Grid, rows: nat, cols: nat)
    requires IsGrid(a, rows, cols) && IsGrid(b, rows, cols)
  {
    forall i, j {:trigger a[i][j], b[i][j]} :: 0 <= i < rows && 0 <= j < cols ==> a[i][j] <= b[i][j]
  }

  lemma LeTrans(a: Grid, b: Grid, c: Grid, rows: nat, cols: nat)
    requires IsGrid(a, rows, cols) && IsGrid(b, rows, cols) && IsGrid(c, rows, cols)
    requires PointwiseLe(a, b, rows, cols) && PointwiseLe(b, c, rows, cols)
    ensures PointwiseLe(a, c, rows, cols)
  {
    forall i, j | 0 <= i < rows && 0 <= j < cols ensures a[i][j] <= c[i][j] {
      assert a[i][j] <= b[i][j] <= c[i][j];
    }
  }

  function Max(a: real, b: real): real { if a >= b then a else b }

  function Min(a: real, b: real): real { if a <= b then a else b }

  function Abs(x: real): real { if x >= 0.0 then x else -x }

  /** `utils.threshold`: half-wave rectification. */
  function Threshold(x: real): real { Max(x, 0.0) }

  /** `utils.heaviside`: the unit step, strict at zero. */
  function Heaviside(x: real): real { if x > 0.0 then 1.0 else 0.0 }

  /** Two grids of one shape that agree everywhere are equal. */
  lemma GridExt(a: Grid, b: Grid, rows: nat, cols: nat)
    requires IsGrid(a, rows, cols) && IsGrid(b, rows, cols)
    requires forall i, j :: 0 <= i < rows && 0 <= j < cols ==> a[i][j] == b[i][j]
    ensures a == b
  {
    forall i | 0 <= i < rows ensures a[i] == b[i] {
      assert forall j :: 0 <= j < cols ==> a[i][j] == b[i][j];
    }
  }

  /** `np.zeros([rows, cols])` */
  function Zeros(rows: nat, cols: nat): (z: Grid)
    ensures IsGrid(z, rows, cols)
    ensures forall i, j :: 0 <= i < rows && 0 <= j < cols ==> z[i][j] == 0.0
    ensures NonNeg(z)
  {
    seq(rows, _ => seq(cols, _ => 0.0))
  }

  /** `a + b` */
  function Add(a: Grid, b: Grid, rows: nat, cols: nat): (r: Grid)
    requires IsGrid(a, rows, cols) && IsGrid(b, rows, cols)
    ensures IsGrid(r, rows, cols)
    ensures forall i, j :: 0 <= i < rows && 0 <= j < cols ==> r[i][j] == a[i][j] + b[i][j]
    ensures NonNeg(a) && NonNeg(b) ==> NonNeg(r)
  {
    seq(rows, i requires 0 <= i < rows =>
      seq(cols, j requires 0 <= j < cols => a[i][j] + b[i][j]))
  }

  /** `a * b`, elementwise */
  function Product(a: Grid, b: Grid, rows: nat, cols: nat): (r: Grid)
    requires IsGrid(a, rows, cols) && IsGrid(b, rows, cols)
    ensures IsGrid(r, rows, cols)
    ensures forall i, j :: 0 <= i < rows && 0 <= j < cols ==> r[i][j] == a[i][j] * b[i][j]
  {
    seq(rows, i requires 0 <= i < rows =>
      seq(cols, j requires 0 <= j < cols => a[i][j] * b[i][j]))
  }

  /** `np.maximum(a, b)` */
  function PointMax(a: Grid, b: Grid, rows: nat, cols: nat): (r: Grid)
    requires IsGrid(a, rows, cols) && IsGrid(b, rows, cols)
    ensures IsGrid(r, rows, cols)
    ensures forall i, j :: 0 <= i < rows && 0 <= j < cols ==> r[i][j] == Max(a[i][j], b[i][j])
  {
    seq(rows, i requires 0 <= i < rows =>
      seq(cols, j requires 0 <= j < cols => Max(a[i][j], b[i][j])))
  }

  /** `utils.threshold(g)` */
  function Rectified(g: Grid, rows: nat, cols: nat): (r: Grid)
    requires IsGrid(g, rows, cols)
    ensures IsGrid(r, rows, cols)
    ensures forall i, j :: 0 <= i < rows && 0 <= j < cols ==> r[i][j] == Threshold(g[i][j])
  {
    seq(rows, i requires 0 <= i < rows =>
      seq(cols, j requires 0 <= j < cols => Threshold(g[i][j])))
  }

  /** `utils.heaviside(g)` */
  function Steps(g: Grid, rows: nat, cols: nat): (r: Grid)
    requires IsGrid(g, rows, cols)
    ensures IsGrid(r, rows, cols)
    ensures forall i, j :: 0 <= i < rows && 0 <= j < cols ==> r[i][j] == Heaviside(g[i][j])
  {
    seq(rows, i requires 0 <= i < rows =>
      seq(cols, j requires 0 <= j < cols => Heaviside(g[i][j])))
  }

  /** `heaviside(m) * x`: x where m is positive, 0 elsewhere. */
  function Masked(m: Grid, x: Grid, rows: nat, cols: nat): (r: Grid)
    requires IsGrid(m, rows, cols) && IsGrid(x, rows, cols)
    ensures IsGrid(r, rows, cols)
    ensures forall i, j {:trigger r[i][j]} :: 0 <= i < rows && 0 <= j < cols ==>
      r[i][j] == if m[i][j] > 0.0 then x[i][j] else 0.0
  {
    seq(rows, i requires 0 <= i < rows =>
      seq(cols, j requires 0 <= j < cols => Heaviside(m[i][j]) * x[i][j]))
  }

  /** `g + c` for a scalar `c` */
  function Shifted(g: Grid, c: real, rows: nat, cols: nat): (r: Grid)
    requires IsGrid(g, rows, cols)
    ensures IsGrid(r, rows, cols)
    ensures forall i, j :: 0 <= i < rows && 0 <= j < cols ==> r[i][j] == g[i][j] + c
  {
    seq(rows, i requires 0 <= i < rows =>
      seq(cols, j requires 0 <= j < cols => g[i][j] + c))
  }

  /** `g / d` elementwise, for a non-zero scalar `d`. */
  function Scaled(g: Grid, d: real, rows: nat, cols: nat): (r: Grid)
    requires IsGrid(g, rows, cols) && d != 0.0
    ensures IsGrid(r, rows, cols)
    ensures forall i, j :: 0 <= i < rows && 0 <= j < cols ==> r[i][j] == g[i][j] / d
  {
    seq(rows, i requires 0 <= i < rows =>
      seq(cols, j requires 0 <= j < cols => g[i][j] / d))
  }

  /** A zero array of (rows + 2p) x (cols + 2p) whose centre block
      `[p:rows+p, p:cols+p]` is assigned `g`. */
  function Pad(g: Grid, p: nat, rows: nat, cols: nat): (r: Grid)
    requires IsGrid(g, rows, cols)
    ensures IsGrid(r, rows + 2 * p, cols + 2 * p)
    ensures forall i, j :: 0 <= i < rows + 2 * p && 0 <= j < cols + 2 * p ==>
      r[i][j] == if p <= i < rows + p && p <= j < cols + p then g[i - p][j - p] else 0.0
  {
    seq(rows + 2 * p, i requires 0 <= i < rows + 2 * p =>
      seq(cols + 2 * p, j requires 0 <= j < cols + 2 * p =>
        if p <= i < rows + p && p <= j < cols + p then g[i - p][j - p] else 0.0))
  }

  /** `g[p:rows+p, p:cols+p]` of a (rows + 2p) x (cols + 2p) array. */
  function Crop(g: Grid, p: nat, rows: nat, cols: nat): (r: Grid)
    requires IsGrid(g, rows + 2 * p, cols + 2 * p)
    ensures IsGrid(r, rows, cols)
    ensures forall i, j :: 0 <= i < rows && 0 <= j < cols ==> r[i][j] == g[i + p][j + p]
  {
    seq(rows, i requires 0 <= i < rows =>
      seq(cols, j requires 0 <= j < cols => g[i + p][j + p]))
  }

  /** Padding by `p` and cropping by `p` give back the original grid, and the
      padding itself is non-negative wherever the original is. */
  lemma PadCrop(g: Grid, p: nat, rows: nat, cols: nat)
    requires IsGrid(g, rows, cols)
    ensures Crop(Pad(g, p, rows, cols), p, rows, cols) == g
    ensures NonNeg(g) ==> NonNeg(Pad(g, p, rows, cols))
  {
    GridExt(Crop(Pad(g, p, rows, cols), p, rows, cols), g, rows, cols);
  }

  /** Largest element of `row[lo..hi]`. */
  function RowMax(row: seq<real>, lo: nat, hi: nat): (m: real)
    requires lo < hi <= |row|
    ensures forall k :: lo <= k < hi ==> row[k] <= m
    ensures exists k :: lo <= k < hi && row[k] == m
    decreases hi - lo
  {
    if lo + 1 == hi then row[lo] else Max(row[lo], RowMax(row, lo + 1, hi))
  }

  /** Smallest element of `row[lo..hi]`. */
  function RowMin(row: seq<real>, lo: nat, hi: nat): (m: real)
    requires lo < hi <= |row|
    ensures forall k :: lo <= k < hi ==> m <= row[k]
    ensures exists k :: lo <= k < hi && row[k] == m
    decreases hi - lo
  {
    if lo + 1 == hi then row[lo] else Min(row[lo], RowMin(row, lo + 1, hi))
  }

  /** The rows `r0..r1` of `g` all reach column `c1`. */
  predicate Spans(g: Grid, r0: nat, r1: nat, c1: nat) {
    r1 <= |g| && forall i :: r0 <= i < r1 ==> c1 <= |g[i]|
  }

  /** Largest element of the block `g[r0:r1, c0:c1]`. */
  function RectMax(g: Grid, r0: nat, r1: nat, c0: nat, c1: nat): (m: real)
    requires r0 < r1 && c0 < c1 && Spans(g, r0, r1, c1)
    ensures forall i, j :: r0 <= i < r1 && c0 <= j < c1 ==> g[i][j] <= m
    ensures exists i, j :: r0 <= i < r1 && c0 <= j < c1 && g[i][j] == m
    decreases r1 - r0
  {
    if r0 + 1 == r1 then RowMax(g[r0], c0, c1)
    else Max(RowMax(g[r0], c0, c1), RectMax(g, r0 + 1, r1, c0, c1))
  }

  /** Smallest element of the block `g[r0:r1, c0:c1]`. */
  function RectMin(g: Grid, r0: nat, r1: nat, c0: nat, c1: nat): (m: real)
    requires r0 < r1 && c0 < c1 && Spans(g, r0, r1, c1)
    ensures forall i, j :: r0 <= i < r1 && c0 <= j < c1 ==> m <= g[i][j]
    ensures exists i, j :: r0 <= i < r1 && c0 <= j < c1 && g[i][j] == m
    decreases r1 - r0
  {
    if r0 + 1 == r1 then RowMin(g[r0], c0, c1)
    else Min(RowMin(g[r0], c0, c1), RectMin(g, r0 + 1, r1, c0, c1))
  }

  /** `g.max()` of a non-empty array. */
  function GridMax(g: Grid, rows: nat, cols: nat): (m: real)
    requires IsGrid(g, rows, cols) && rows > 0 && cols > 0
    ensures forall i, j :: 0 <= i < rows && 0 <= j < cols ==> g[i][j] <= m
    ensures exists i, j :: 0 <= i < rows && 0 <= j < cols && g[i][j] == m
  {
    RectMax(g, 0, rows, 0, cols)
  }

  /** `g.min()` of a non-empty array. */
  function GridMin(g: Grid, rows: nat, cols: nat): (m: real)
    requires IsGrid(g, rows, cols) && rows > 0 && cols > 0
    ensures forall i, j :: 0 <= i < rows && 0 <= j < cols ==> m <= g[i][j]
    ensures exists i, j :: 0 <= i < rows && 0 <= j < cols && g[i][j] == m
  {
    RectMin(g, 0, rows, 0, cols)
  }

  /** A rectangular block `[r0:r1, c0:c1]` of an array. */
  datatype Block = Block(r0: nat, r1: nat, c0: nat, c1: nat) {
    predicate Fits(rows: nat, cols: nat) {
      r0 <= r1 <= rows && c0 <= c1 <= cols
    }

    predicate Contains(i: int, j: int) {
      r0 <= i < r1 && c0 <= j < c1
    }
  }

  /** The block that numpy selects with `[rs:re, cs:ce]` on a rows x cols
      array, for non-negative bounds: each bound is clipped to the length, and
      a stop below its start selects nothing. */
  function SliceBlock(rs: nat, re: nat, cs: nat, ce: nat, rows: nat, cols: nat): (b: Block)
    ensures b.Fits(rows, cols)
    ensures forall i, j :: b.Contains(i, j) <==> rs <= i < re && cs <= j < ce && i < rows && j < cols
  {
    var r0 := if rs <= rows then rs else rows;
    var c0 := if cs <= cols then cs else cols;
    var r1 := if re <= rows then re else rows;
    var c1 := if ce <= cols then ce else cols;
    Block(r0, if r1 < r0 then r0 else r1, c0, if c1 < c0 then c0 else c1)
  }

  /** Start of a window of half-width h centred on i, clipped at lo. */
  function WinLo(i: nat, h: nat, lo: nat): nat {
    if i >= lo + h then i - h else lo
  }

  /** End (exclusive) of a window of half-width h centred on i, clipped at hi. */
  function WinHi(i: nat, h: nat, hi: nat): nat {
    if i + h + 1 <= hi then i + h + 1 else hi
  }

  /** `maximum_filter(src[block], size=(2hr+1, 2hc+1))` at the element of the
      block that stands at (i, j) of the whole array: the largest element of
      the window centred there, clipped to the block. With the default
      `reflect` mode every sample the filter takes outside the block mirrors
      one inside this clipped window, so the two maxima agree. */
  function WindowMax(src: Grid, b: Block, hr: nat, hc: nat, i: nat, j: nat): (m: real)
    requires b.Contains(i, j) && Spans(src, b.r0, b.r1, b.c1)
    ensures src[i][j] <= m
    ensures forall k, l :: WinLo(i, hr, b.r0) <= k < WinHi(i, hr, b.r1) && WinLo(j, hc, b.c0) <= l < WinHi(j, hc, b.c1) ==>
      src[k][l] <= m
    ensures exists k, l :: b.Contains(k, l) && i <= k + hr && k <= i + hr && j <= l + hc && l <= j + hc && src[k][l] == m
  {
    RectMax(src, WinLo(i, hr, b.r0), WinHi(i, hr, b.r1), WinLo(j, hc, b.c0), WinHi(j, hc, b.c1))
  }

  /** `base[block] = maximum_filter(src[block], size=(2hr+1, 2hc+1))`, as a
      new grid: inside the block every element is the window maximum of
      `src`, outside it `base` is unchanged. */
  function MaxFilterInto(base: Grid, src: Grid, b: Block, hr: nat, hc: nat, rows: nat, cols: nat): (r: Grid)
    requires IsGrid(base, rows, cols) && IsGrid(src, rows, cols) && b.Fits(rows, cols)
    ensures IsGrid(r, rows, cols)
    ensures forall i, j {:trigger r[i][j]} :: 0 <= i < rows && 0 <= j < cols && !b.Contains(i, j) ==>
      r[i][j] == base[i][j]
    ensures forall i, j {:trigger r[i][j]} :: 0 <= i < rows && 0 <= j < cols && b.Contains(i, j) ==>
      r[i][j] == WindowMax(src, b, hr, hc, i, j)
  {
    seq(rows, i requires 0 <= i < rows =>
      seq(cols, j requires 0 <= j < cols =>
        if b.Contains(i, j) then WindowMax(src, b, hr, hc, i, j) else base[i][j]))
  }
}
