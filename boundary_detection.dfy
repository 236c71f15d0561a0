/** The Boundary Contour System (boundary_detection.py): simple and complex
    cells, local boundary detection (LBD), global boundary detection (GBD) and
    the local/global interaction that yields the edge map R.

    The convolutions of `get_simple_cells` are not modelled: for every loop
    index k the raw lobe responses `A_temp` and `B_temp` (before rectification)
    are inputs, `aTemp[k]` and `bTemp[k]`. An orientation stack (an M x N x K
    numpy array) is a sequence of K grids, channel first. */
module BoundaryDetection {
  import opened Wrappers
  import opened Grids

  /** The parameters `BCS` fixes. */
  const Orientations: nat := 12     // K
  const LocalReach: nat := 4        // L
  const LongReach: nat := 15        // P
  const ShortReach: nat := 5        // Q
  const RatioThreshold: real := 0.6 // T_r
  const Precision: real := 0.01     // F
  const SimpleThreshold: real := 0.05 // T_1 of get_simple_cells
  const GbdSteps: nat := 20

  /** K grids of M x N. */
  predicate IsStack(s: seq<Grid>, K: nat, M: nat, N: nat) {
    |s| == K && forall ch :: 0 <= ch < K ==> IsGrid(s[ch], M, N)
  }

  predicate StackNonNeg(s: seq<Grid>) {
    forall ch :: 0 <= ch < |s| ==> NonNeg(s[ch])
  }

  // ---------------------------------------------------------------- simple cells

  /** Simple-cell output from the rectified responses a and b of its two
      lobes: `threshold((A + B) - |A - B| - T_1)`. It is a soft AND of the two
      lobes. */
  function SimpleResponse(a: real, b: real): (s: real)
    ensures s == Max(2.0 * Min(a, b) - SimpleThreshold, 0.0)
    ensures s > 0.0 <==> a > SimpleThreshold / 2.0 && b > SimpleThreshold / 2.0
  {
    Threshold((a + b) - Abs(a - b) - SimpleThreshold)
  }

  /** The two lobes play symmetric roles. */
  lemma SimpleResponseSymmetric(a: real, b: real)
    ensures SimpleResponse(a, b) == SimpleResponse(b, a)
  {
  }

  /** `threshold((A + B) - np.abs(A - B) - T_1)` over whole grids. */
  function Combine(a: Grid, b: Grid, M: nat, N: nat): (s: Grid)
    requires IsGrid(a, M, N) && IsGrid(b, M, N)
    ensures IsGrid(s, M, N) && NonNeg(s)
    ensures forall i, j :: 0 <= i < M && 0 <= j < N ==> s[i][j] == SimpleResponse(a[i][j], b[i][j])
  {
    seq(M, i requires 0 <= i < M =>
      seq(N, j requires 0 <= j < N => SimpleResponse(a[i][j], b[i][j])))
  }

  predicate LobesShape(aTemp: seq<Grid>, bTemp: seq<Grid>, K: nat, M: nat, N: nat) {
    IsStack(aTemp, K, M, N) && IsStack(bTemp, K, M, N)
  }

  /** What iteration k of the loop writes: the combined response of the
      rectified lobes `A = threshold(A_temp)` and `B = threshold(B_temp)`. */
  function LobeResponse(aTemp: seq<Grid>, bTemp: seq<Grid>, k: nat, K: nat, M: nat, N: nat): (s: Grid)
    requires LobesShape(aTemp, bTemp, K, M, N) && k < K
    ensures IsGrid(s, M, N) && NonNeg(s)
  {
    Combine(Rectified(aTemp[k], M, N), Rectified(bTemp[k], M, N), M, N)
  }

  /** The loop index whose write lands in channel ch: (ch + 1) mod K. */
  function LoopIndexOf(ch: nat, K: nat): (k: nat)
    requires ch < K
    ensures k < K && k == (ch + 1) % K
  {
    if ch + 1 == K then
      assert (ch + 1) % K == K % K == 0;
      0
    else
      assert (ch + 1) / K == 0;
      ch + 1
  }

  /** The channel iteration k writes: numpy's index k - 1, where -1 is the
      last channel. It undoes LoopIndexOf. */
  function ChannelOf(k: nat, K: nat): (ch: nat)
    requires k < K
    ensures ch < K && LoopIndexOf(ch, K) == k
  {
    if k == 0 then K - 1 else k - 1
  }

  /** The stack that `get_simple_cells` returns, channel by channel: channel
      ch holds the response of loop index k = (ch + 1) mod K when k is one of
      `range(0, K, 3)` and is zero otherwise. */
  function SimpleCells(aTemp: seq<Grid>, bTemp: seq<Grid>, K: nat, M: nat, N: nat): (s: seq<Grid>)
    requires LobesShape(aTemp, bTemp, K, M, N)
    ensures IsStack(s, K, M, N) && StackNonNeg(s)
  {
    var s := seq(K, ch requires 0 <= ch < K =>
      if LoopIndexOf(ch, K) % 3 == 0 then LobeResponse(aTemp, bTemp, LoopIndexOf(ch, K), K, M, N)
      else Zeros(M, N));
    assert forall ch :: 0 <= ch < K ==>
      s[ch] == (if LoopIndexOf(ch, K) % 3 == 0 then LobeResponse(aTemp, bTemp, LoopIndexOf(ch, K), K, M, N)
                else Zeros(M, N));
    s
  }

  /** `get_simple_cells`: a zero stack of K channels, and for k in
      `range(0, K, 3)` the response of iteration k written into channel k - 1. */
  method GetSimpleCells(aTemp: seq<Grid>, bTemp: seq<Grid>, K: nat, M: nat, N: nat) returns (simple: seq<Grid>)
    requires LobesShape(aTemp, bTemp, K, M, N)
    ensures simple == SimpleCells(aTemp, bTemp, K, M, N)
  {
    var out := new Grid[K](_ => Zeros(M, N));
    var k := 0;
    while k < K
      invariant k % 3 == 0 && k <= K + 2
      invariant forall ch {:trigger out[ch]} :: 0 <= ch < K ==>
        out[ch] == if LoopIndexOf(ch, K) % 3 == 0 && LoopIndexOf(ch, K) < k
                   then LobeResponse(aTemp, bTemp, LoopIndexOf(ch, K), K, M, N) else Zeros(M, N)
    {
      var a := Rectified(aTemp[k], M, N);
      var b := Rectified(bTemp[k], M, N);
      out[ChannelOf(k, K)] := Combine(a, b, M, N);
      forall ch | 0 <= ch < K && ch != ChannelOf(k, K)
        ensures (LoopIndexOf(ch, K) % 3 == 0 && LoopIndexOf(ch, K) < k + 3)
             == (LoopIndexOf(ch, K) % 3 == 0 && LoopIndexOf(ch, K) < k)
      {
        OtherChannelUnfilled(ch, k, K);
      }
      k := k + 3;
    }
    simple := out[..];
    assert forall ch :: 0 <= ch < K ==> simple[ch] == SimpleCells(aTemp, bTemp, K, M, N)[ch];
  }

  /** Iteration k fills only channel k - 1: for any other channel the test
      "filled before k" and "filled before k + 3" agree. */
  lemma OtherChannelUnfilled(ch: nat, k: nat, K: nat)
    requires ch < K && k < K && k % 3 == 0 && ch != ChannelOf(k, K)
    ensures (LoopIndexOf(ch, K) % 3 == 0 && LoopIndexOf(ch, K) < k + 3)
         == (LoopIndexOf(ch, K) % 3 == 0 && LoopIndexOf(ch, K) < k)
  {
    assert LoopIndexOf(ch, K) != k;
  }

  /** Which channels the loop fills, for any K: iteration k of
      `range(0, K, 3)` fills channel k - 1 (mod K), and a channel no iteration
      names stays zero. */
  lemma WrittenChannels(aTemp: seq<Grid>, bTemp: seq<Grid>, K: nat, M: nat, N: nat)
    requires LobesShape(aTemp, bTemp, K, M, N)
    ensures forall k :: 0 <= k < K && k % 3 == 0 ==>
      SimpleCells(aTemp, bTemp, K, M, N)[ChannelOf(k, K)] == LobeResponse(aTemp, bTemp, k, K, M, N)
    ensures forall ch :: 0 <= ch < K && (forall k :: 0 <= k < K && k % 3 == 0 ==> ChannelOf(k, K) != ch) ==>
      SimpleCells(aTemp, bTemp, K, M, N)[ch] == Zeros(M, N)
  {
    var s := SimpleCells(aTemp, bTemp, K, M, N);
    forall ch | 0 <= ch < K && (forall k :: 0 <= k < K && k % 3 == 0 ==> ChannelOf(k, K) != ch)
      ensures s[ch] == Zeros(M, N)
    {
      var k := LoopIndexOf(ch, K);
      assert ChannelOf(k, K) == ch;
    }
  }

  // --------------------------------------------------------------- complex cells

  /** The stack that `get_complex_cells` returns: channel i < K/2 pools simple
      channels i and i + K/2, the others are zero. */
  function ComplexCells(simple: seq<Grid>, K: nat, M: nat, N: nat): (c: seq<Grid>)
    requires IsStack(simple, K, M, N)
    ensures IsStack(c, K, M, N)
    ensures forall ch {:trigger c[ch]} :: 0 <= ch < K ==>
      c[ch] == if ch < K / 2 then Add(simple[ch], simple[ch + K / 2], M, N) else Zeros(M, N)
  {
    seq(K, ch requires 0 <= ch < K => ComplexChannel(simple, K, M, N, ch))
  }

  /** One channel of the complex stack. */
  function ComplexChannel(simple: seq<Grid>, K: nat, M: nat, N: nat, ch: nat): (g: Grid)
    requires IsStack(simple, K, M, N) && ch < K
    ensures IsGrid(g, M, N)
  {
    if ch < K / 2 then Add(simple[ch], simple[ch + K / 2], M, N) else Zeros(M, N)
  }

  /** Pooling non-negative simple cells gives non-negative complex cells. */
  lemma ComplexCellsNonNeg(simple: seq<Grid>, K: nat, M: nat, N: nat)
    requires IsStack(simple, K, M, N) && StackNonNeg(simple)
    ensures StackNonNeg(ComplexCells(simple, K, M, N))
  {
    var c := ComplexCells(simple, K, M, N);
    forall ch | 0 <= ch < K ensures NonNeg(c[ch]) {
      if ch < K / 2 {
        assert c[ch] == Add(simple[ch], simple[ch + K / 2], M, N);
        assert NonNeg(simple[ch]) && NonNeg(simple[ch + K / 2]);
      } else {
        assert c[ch] == Zeros(M, N);
      }
    }
  }

  /** `get_complex_cells`: a zero stack, and for i in `range(K / 2)` channel i
      assigned the sum of simple channels i and i + K/2. */
  method GetComplexCells(simple: seq<Grid>, K: nat, M: nat, N: nat) returns (complex: seq<Grid>)
    requires IsStack(simple, K, M, N)
    ensures complex == ComplexCells(simple, K, M, N)
  {
    var half := K / 2;
    var out := new Grid[K](_ => Zeros(M, N));
    var i := 0;
    while i < half
      invariant 0 <= i <= half
      invariant forall ch {:trigger out[ch]} :: 0 <= ch < K && !(i <= ch < half) ==>
        out[ch] == ComplexChannel(simple, K, M, N, ch)
    {
      out[i] := Add(simple[i], simple[i + half], M, N);
      assert out[i] == ComplexChannel(simple, K, M, N, i);
      i := i + 1;
    }
    complex := out[..];
    assert forall ch :: 0 <= ch < K ==> complex[ch] == ComplexCells(simple, K, M, N)[ch];
  }

  /** With K = 12 the loop of `get_simple_cells` runs k = 0, 3, 6, 9 and fills
      channels 11, 2, 5, 8 (not only the two the source comment names); every
      other simple channel is zero. The complex channels LBD reads pool
      opposite polarities of one orientation: channel 5 adds the responses of
      k = 6 and k = 0 (horizontal), channel 2 those of k = 3 and k = 9
      (vertical); channels 6 to 11 are zero. */
  lemma OrientationWiring(aTemp: seq<Grid>, bTemp: seq<Grid>, M: nat, N: nat)
    requires LobesShape(aTemp, bTemp, 12, M, N)
    ensures var s := SimpleCells(aTemp, bTemp, 12, M, N);
      && s[11] == LobeResponse(aTemp, bTemp, 0, 12, M, N)
      && s[2] == LobeResponse(aTemp, bTemp, 3, 12, M, N)
      && s[5] == LobeResponse(aTemp, bTemp, 6, 12, M, N)
      && s[8] == LobeResponse(aTemp, bTemp, 9, 12, M, N)
      && forall ch :: 0 <= ch < 12 && ch != 2 && ch != 5 && ch != 8 && ch != 11 ==> s[ch] == Zeros(M, N)
    ensures var c := ComplexCells(SimpleCells(aTemp, bTemp, 12, M, N), 12, M, N);
      && c[5] == Add(LobeResponse(aTemp, bTemp, 6, 12, M, N), LobeResponse(aTemp, bTemp, 0, 12, M, N), M, N)
      && c[2] == Add(LobeResponse(aTemp, bTemp, 3, 12, M, N), LobeResponse(aTemp, bTemp, 9, 12, M, N), M, N)
      && forall ch :: 6 <= ch < 12 ==> c[ch] == Zeros(M, N)
  {
    var s := SimpleCells(aTemp, bTemp, 12, M, N);
    forall ch | 0 <= ch < 12 && ch != 2 && ch != 5 && ch != 8 && ch != 11
      ensures s[ch] == Zeros(M, N)
    {
      assert LoopIndexOf(ch, 12) % 3 != 0;
    }
  }

  // ---------------------------------------------------- local boundary detection

  /** Rows L-1..M+L+1 and columns 0..N+2L of the padded array: the block whose
      horizontal responses LBD filters. */
  function LbdBlockH(M: nat, N: nat, L: nat, P: nat): (b: Block)
    requires L >= 1
    ensures b.Fits(M + 2 * P, N + 2 * P)
    ensures L < P ==> b == Block(L - 1, M + L + 2, 0, N + 2 * L + 1)
  {
    SliceBlock(L - 1, M + L + 2, 0, N + 2 * L + 1, M + 2 * P, N + 2 * P)
  }

  /** Rows 0..M+2L and columns L-1..N+L+1: the block of the vertical responses. */
  function LbdBlockV(M: nat, N: nat, L: nat, P: nat): (b: Block)
    requires L >= 1
    ensures b.Fits(M + 2 * P, N + 2 * P)
    ensures L < P ==> b == Block(0, M + 2 * L + 1, L - 1, N + L + 2)
  {
    SliceBlock(0, M + 2 * L + 1, L - 1, N + L + 2, M + 2 * P, N + 2 * P)
  }

  /** One orientation of `LBD`: the complex response padded by P, its block
      replaced by the sliding-window maximum (the buffer is filtered in place,
      but the whole filtered block is computed before it is written), and the
      result multiplied by `heaviside` of the padded response. A pixel that
      was not positive ends at 0; a positive one takes its window maximum
      inside the block and keeps its value outside. */
  function LocalBoundary(c: Grid, M: nat, N: nat, P: nat, b: Block, hr: nat, hc: nat): (r: Grid)
    requires IsGrid(c, M, N) && b.Fits(M + 2 * P, N + 2 * P)
    ensures IsGrid(r, M + 2 * P, N + 2 * P)
    ensures forall i, j :: 0 <= i < M + 2 * P && 0 <= j < N + 2 * P && Pad(c, P, M, N)[i][j] <= 0.0 ==>
      r[i][j] == 0.0
    ensures forall i, j :: 0 <= i < M + 2 * P && 0 <= j < N + 2 * P && Pad(c, P, M, N)[i][j] > 0.0 ==>
      r[i][j] == if b.Contains(i, j) then WindowMax(Pad(c, P, M, N), b, hr, hc, i, j) else Pad(c, P, M, N)[i][j]
  {
    var rows, cols := M + 2 * P, N + 2 * P;
    var padded := Pad(c, P, M, N);
    var filtered := MaxFilterInto(padded, padded, b, hr, hc, rows, cols);
    Masked(padded, filtered, rows, cols)
  }

  /** For a non-negative complex response LBD is non-negative, equals the
      padded response outside the filtered block, and never lies below it:
      zero stays zero and a positive pixel never decreases. */
  lemma LocalBoundaryBounds(c: Grid, M: nat, N: nat, P: nat, b: Block, hr: nat, hc: nat)
    requires IsGrid(c, M, N) && b.Fits(M + 2 * P, N + 2 * P) && NonNeg(c)
    ensures NonNeg(LocalBoundary(c, M, N, P, b, hr, hc))
    ensures forall i, j :: 0 <= i < M + 2 * P && 0 <= j < N + 2 * P && !b.Contains(i, j) ==>
      LocalBoundary(c, M, N, P, b, hr, hc)[i][j] == Pad(c, P, M, N)[i][j]
    ensures PointwiseLe(Pad(c, P, M, N), LocalBoundary(c, M, N, P, b, hr, hc), M + 2 * P, N + 2 * P)
  {
    PadCrop(c, P, M, N);
  }

  /** `LBD`: horizontal responses from complex channel 5 with a 3 x (2L+1)
      window, vertical ones from channel 2 with a (2L+1) x 3 window. */
  function Lbd(complex: seq<Grid>, K: nat, M: nat, N: nat, L: nat, P: nat): (r: (Grid, Grid))
    requires IsStack(complex, K, M, N) && K >= 6 && L >= 1
    ensures IsGrid(r.0, M + 2 * P, N + 2 * P) && IsGrid(r.1, M + 2 * P, N + 2 * P)
    ensures StackNonNeg(complex) ==> NonNeg(r.0) && NonNeg(r.1)
    ensures r.0 == LocalBoundary(complex[5], M, N, P, LbdBlockH(M, N, L, P), 1, L)
    ensures r.1 == LocalBoundary(complex[2], M, N, P, LbdBlockV(M, N, L, P), L, 1)
  {
    var h := LocalBoundary(complex[5], M, N, P, LbdBlockH(M, N, L, P), 1, L);
    var v := LocalBoundary(complex[2], M, N, P, LbdBlockV(M, N, L, P), L, 1);
    assert StackNonNeg(complex) ==> NonNeg(h) && NonNeg(v) by {
      if StackNonNeg(complex) {
        LocalBoundaryBounds(complex[5], M, N, P, LbdBlockH(M, N, L, P), 1, L);
        LocalBoundaryBounds(complex[2], M, N, P, LbdBlockV(M, N, L, P), L, 1);
      }
    }
    (h, v)
  }

  // --------------------------------------------------- global boundary detection

  /** Rows P-Q..M+P+Q and every column: the block GBD filters horizontally. */
  function GbdBlockH(M: nat, N: nat, P: nat, Q: nat): (b: Block)
    requires Q <= P
    ensures b.Fits(M + 2 * P, N + 2 * P)
    ensures b == Block(P - Q, if Q < P then M + P + Q + 1 else M + 2 * P, 0, N + 2 * P)
  {
    SliceBlock(P - Q, M + P + Q + 1, 0, N + 2 * P + 1, M + 2 * P, N + 2 * P)
  }

  /** Every row and columns P-Q..N+P+Q: the block GBD filters vertically. */
  function GbdBlockV(M: nat, N: nat, P: nat, Q: nat): (b: Block)
    requires Q <= P
    ensures b.Fits(M + 2 * P, N + 2 * P)
    ensures b == Block(0, M + 2 * P, P - Q, if Q < P then N + P + Q + 1 else N + 2 * P)
  {
    SliceBlock(0, M + 2 * P + 1, P - Q, N + P + Q + 1, M + 2 * P, N + 2 * P)
  }

  /** One recurrent GBD step from the previous grid g: the persistent buffer
      (a copy of LBD that only the block is ever written in) receives the
      window maximum of g inside the block, and the result is masked by
      `heaviside(LBD)`. */
  function GbdNext(lbd: Grid, g: Grid, b: Block, hr: nat, hc: nat, rows: nat, cols: nat): (r: Grid)
    requires IsGrid(lbd, rows, cols) && IsGrid(g, rows, cols) && b.Fits(rows, cols)
    ensures IsGrid(r, rows, cols)
  {
    Masked(lbd, MaxFilterInto(lbd, g, b, hr, hc, rows, cols), rows, cols)
  }

  /** Cell by cell, a step gives 0 where LBD is not positive, the window
      maximum of the previous grid inside the band, and LBD outside it. */
  lemma GbdNextCells(lbd: Grid, g: Grid, b: Block, hr: nat, hc: nat, rows: nat, cols: nat)
    requires IsGrid(lbd, rows, cols) && IsGrid(g, rows, cols) && b.Fits(rows, cols)
    ensures var r := GbdNext(lbd, g, b, hr, hc, rows, cols);
      forall i, j :: 0 <= i < rows && 0 <= j < cols ==>
        r[i][j] == if lbd[i][j] <= 0.0 then 0.0 else if b.Contains(i, j) then WindowMax(g, b, hr, hc, i, j) else lbd[i][j]
  {
  }

  /** The grid after n more recurrent steps from g. */
  function GbdIter(lbd: Grid, g: Grid, b: Block, hr: nat, hc: nat, rows: nat, cols: nat, n: nat): (r: Grid)
    requires IsGrid(lbd, rows, cols) && IsGrid(g, rows, cols) && b.Fits(rows, cols)
    ensures IsGrid(r, rows, cols)
    decreases n
  {
    if n == 0 then g else GbdIter(lbd, GbdNext(lbd, g, b, hr, hc, rows, cols), b, hr, hc, rows, cols, n - 1)
  }

  /** Step n + 1 is one more step applied to step n. */
  lemma {:induction false} GbdIterLast(lbd: Grid, g: Grid, b: Block, hr: nat, hc: nat, rows: nat, cols: nat, n: nat)
    requires IsGrid(lbd, rows, cols) && IsGrid(g, rows, cols) && b.Fits(rows, cols)
    ensures GbdIter(lbd, g, b, hr, hc, rows, cols, n + 1)
         == GbdNext(lbd, GbdIter(lbd, g, b, hr, hc, rows, cols, n), b, hr, hc, rows, cols)
    decreases n
  {
    if n > 0 {
      GbdIterLast(lbd, GbdNext(lbd, g, b, hr, hc, rows, cols), b, hr, hc, rows, cols, n - 1);
    }
  }

  /** What every GBD step keeps: the grid is at least LBD, zero wherever LBD
      is not positive, and equal to LBD outside the filtered block. */
  predicate GbdInvariant(lbd: Grid, g: Grid, b: Block, rows: nat, cols: nat)
    requires IsGrid(lbd, rows, cols) && IsGrid(g, rows, cols)
  {
    forall i, j {:trigger g[i][j]} :: 0 <= i < rows && 0 <= j < cols ==>
      && lbd[i][j] <= g[i][j]
      && (lbd[i][j] <= 0.0 ==> g[i][j] == 0.0)
      && (!b.Contains(i, j) ==> g[i][j] == lbd[i][j])
  }

  /** One step keeps the invariant and never lowers a pixel. */
  lemma GbdNextKeeps(lbd: Grid, g: Grid, b: Block, hr: nat, hc: nat, rows: nat, cols: nat)
    requires IsGrid(lbd, rows, cols) && IsGrid(g, rows, cols) && b.Fits(rows, cols)
    requires NonNeg(lbd) && GbdInvariant(lbd, g, b, rows, cols)
    ensures GbdInvariant(lbd, GbdNext(lbd, g, b, hr, hc, rows, cols), b, rows, cols)
    ensures PointwiseLe(g, GbdNext(lbd, g, b, hr, hc, rows, cols), rows, cols)
  {
  }

  /** One step never exceeds a non-negative bound of LBD and of the previous grid. */
  lemma GbdNextBounded(lbd: Grid, g: Grid, b: Block, hr: nat, hc: nat, rows: nat, cols: nat, u: real)
    requires IsGrid(lbd, rows, cols) && IsGrid(g, rows, cols) && b.Fits(rows, cols)
    requires 0.0 <= u && AtMost(lbd, u) && AtMost(g, u)
    ensures AtMost(GbdNext(lbd, g, b, hr, hc, rows, cols), u)
  {
  }

  /** For a non-negative LBD, every later step keeps the invariant (LBD
      itself satisfies it) and is non-negative. */
  lemma {:induction false} GbdIterInvariant(lbd: Grid, g: Grid, b: Block, hr: nat, hc: nat, rows: nat, cols: nat, n: nat)
    requires IsGrid(lbd, rows, cols) && IsGrid(g, rows, cols) && b.Fits(rows, cols)
    requires NonNeg(lbd) && GbdInvariant(lbd, g, b, rows, cols)
    ensures GbdInvariant(lbd, GbdIter(lbd, g, b, hr, hc, rows, cols, n), b, rows, cols)
    ensures NonNeg(GbdIter(lbd, g, b, hr, hc, rows, cols, n))
    decreases n
  {
    if n > 0 {
      GbdNextKeeps(lbd, g, b, hr, hc, rows, cols);
      GbdIterInvariant(lbd, GbdNext(lbd, g, b, hr, hc, rows, cols), b, hr, hc, rows, cols, n - 1);
    }
  }

  /** Every step of GBD is pointwise at least the grid of the step before. */
  lemma GbdIterMonotone(lbd: Grid, g: Grid, b: Block, hr: nat, hc: nat, rows: nat, cols: nat, n: nat)
    requires IsGrid(lbd, rows, cols) && IsGrid(g, rows, cols) && b.Fits(rows, cols)
    requires NonNeg(lbd) && GbdInvariant(lbd, g, b, rows, cols)
    ensures PointwiseLe(GbdIter(lbd, g, b, hr, hc, rows, cols, n),
                        GbdIter(lbd, g, b, hr, hc, rows, cols, n + 1), rows, cols)
  {
    GbdIterInvariant(lbd, g, b, hr, hc, rows, cols, n);
    GbdIterLast(lbd, g, b, hr, hc, rows, cols, n);
    GbdNextKeeps(lbd, GbdIter(lbd, g, b, hr, hc, rows, cols, n), b, hr, hc, rows, cols);
  }

  /** No step of GBD rises above a non-negative bound of LBD and of the start. */
  lemma {:induction false} GbdIterBounded(lbd: Grid, g: Grid, b: Block, hr: nat, hc: nat, rows: nat, cols: nat, n: nat, u: real)
    requires IsGrid(lbd, rows, cols) && IsGrid(g, rows, cols) && b.Fits(rows, cols)
    requires 0.0 <= u && AtMost(lbd, u) && AtMost(g, u)
    ensures AtMost(GbdIter(lbd, g, b, hr, hc, rows, cols, n), u)
    decreases n
  {
    if n > 0 {
      GbdNextBounded(lbd, g, b, hr, hc, rows, cols, u);
      GbdIterBounded(lbd, GbdNext(lbd, g, b, hr, hc, rows, cols), b, hr, hc, rows, cols, n - 1, u);
    }
  }

  /** In particular every step of GBD from LBD lies between LBD and the
      largest LBD value. */
  lemma GbdBelowLbdMax(lbd: Grid, b: Block, hr: nat, hc: nat, rows: nat, cols: nat, n: nat)
    requires IsGrid(lbd, rows, cols) && b.Fits(rows, cols) && NonNeg(lbd) && rows > 0 && cols > 0
    ensures PointwiseLe(lbd, GbdIter(lbd, lbd, b, hr, hc, rows, cols, n), rows, cols)
    ensures AtMost(GbdIter(lbd, lbd, b, hr, hc, rows, cols, n), GridMax(lbd, rows, cols))
  {
    GbdIterInvariant(lbd, lbd, b, hr, hc, rows, cols, n);
    GbdIterBounded(lbd, lbd, b, hr, hc, rows, cols, n, GridMax(lbd, rows, cols));
  }

  /** `GBD`: 20 recurrent steps per orientation, the horizontal one with a
      (2Q+1) x (2P+1) window, the vertical one with a (2P+1) x (2Q+1) window.
      `GBD_h_temp` is the persistent buffer; `temp2_h` is bound to the grid of
      the previous step, which is `GBD_h`. */
  method Gbd(lbdH: Grid, lbdV: Grid, M: nat, N: nat, P: nat, Q: nat) returns (gbdH: Grid, gbdV: Grid)
    requires IsGrid(lbdH, M + 2 * P, N + 2 * P) && IsGrid(lbdV, M + 2 * P, N + 2 * P) && Q <= P
    ensures gbdH == GbdIter(lbdH, lbdH, GbdBlockH(M, N, P, Q), Q, P, M + 2 * P, N + 2 * P, GbdSteps)
    ensures gbdV == GbdIter(lbdV, lbdV, GbdBlockV(M, N, P, Q), P, Q, M + 2 * P, N + 2 * P, GbdSteps)
  {
    var rows, cols := M + 2 * P, N + 2 * P;
    var bh, bv := GbdBlockH(M, N, P, Q), GbdBlockV(M, N, P, Q);
    gbdH := lbdH;       // GBD_h = copy.deepcopy(LBD_h)
    var tempH := gbdH;  // GBD_h_temp
    gbdV := lbdV;
    var tempV := gbdV;
    var t := 0;
    while t < GbdSteps
      invariant 0 <= t <= GbdSteps
      invariant gbdH == GbdIter(lbdH, lbdH, bh, Q, P, rows, cols, t)
      invariant gbdV == GbdIter(lbdV, lbdV, bv, P, Q, rows, cols, t)
      invariant IsGrid(tempH, rows, cols) && IsGrid(tempV, rows, cols)
      invariant AgreesOutside(tempH, lbdH, bh, rows, cols) && AgreesOutside(tempV, lbdV, bv, rows, cols)
    {
      GbdIterLast(lbdH, lbdH, bh, Q, P, rows, cols, t);
      GbdIterLast(lbdV, lbdV, bv, P, Q, rows, cols, t);
      tempH, gbdH := GbdStep(lbdH, tempH, gbdH, bh, Q, P, rows, cols);
      tempV, gbdV := GbdStep(lbdV, tempV, gbdV, bv, P, Q, rows, cols);
      t := t + 1;
    }
    assert t == GbdSteps;
  }

  /** `a` and `b` agree at every cell outside the block. */
  predicate AgreesOutside(a: Grid, b: Grid, blk: Block, rows: nat, cols: nat)
    requires IsGrid(a, rows, cols) && IsGrid(b, rows, cols)
  {
    forall i, j :: 0 <= i < rows && 0 <= j < cols && !blk.Contains(i, j) ==> a[i][j] == b[i][j]
  }

  /** One iteration of the GBD loop for one orientation: the band of the
      persistent buffer receives the window maximum of the previous grid, and
      the new grid is the buffer masked by `heaviside(LBD)`. The buffer keeps
      LBD outside the band. */
  method GbdStep(lbd: Grid, temp: Grid, g: Grid, b: Block, hr: nat, hc: nat, rows: nat, cols: nat)
    returns (nextTemp: Grid, next: Grid)
    requires IsGrid(lbd, rows, cols) && IsGrid(temp, rows, cols) && IsGrid(g, rows, cols) && b.Fits(rows, cols)
    requires AgreesOutside(temp, lbd, b, rows, cols)
    ensures next == GbdNext(lbd, g, b, hr, hc, rows, cols)
    ensures IsGrid(nextTemp, rows, cols)
    ensures AgreesOutside(nextTemp, lbd, b, rows, cols)
  {
    nextTemp := MaxFilterInto(temp, g, b, hr, hc, rows, cols);
    GridExt(nextTemp, MaxFilterInto(lbd, g, b, hr, hc, rows, cols), rows, cols);
    next := Masked(lbd, nextTemp, rows, cols);  // mask2_h * GBD_h_temp
  }

  // ------------------------------------------------ local/global interaction

  /** `heaviside(x / d - t)` for a positive d is 1 exactly when x > t * d. */
  lemma RatioAbove(x: real, d: real, t: real)
    requires d > 0.0
    ensures Heaviside(x / d - t) == 1.0 <==> x > t * d
  {
    if x / d - t > 0.0 {
      assert x / d > t;
      assert x == (x / d) * d;
    } else {
      assert x / d <= t;
      assert x == (x / d) * d;
    }
  }

  /** `heaviside(LBD / (F + GBD) - T_r)` for one orientation: binary, and 1
      exactly where LBD exceeds T_r times F + GBD. */
  function EdgeMap(lbd: Grid, gbd: Grid, Tr: real, F: real, rows: nat, cols: nat): (e: Grid)
    requires IsGrid(lbd, rows, cols) && IsGrid(gbd, rows, cols)
    requires forall i, j :: 0 <= i < rows && 0 <= j < cols ==> F + gbd[i][j] > 0.0
    ensures IsGrid(e, rows, cols) && IsBinary(e)
    ensures forall i, j :: 0 <= i < rows && 0 <= j < cols ==>
      (e[i][j] == 1.0 <==> lbd[i][j] > Tr * (F + gbd[i][j]))
  {
    seq(rows, i requires 0 <= i < rows =>
      seq(cols, j requires 0 <= j < cols => EdgeCell(lbd[i][j], F + gbd[i][j], Tr)))
  }

  /** One cell of the edge map: `heaviside(x / d - t)` with d > 0. */
  function EdgeCell(x: real, d: real, t: real): (e: real)
    requires d > 0.0
    ensures e == 0.0 || e == 1.0
    ensures e == 1.0 <==> x > t * d
  {
    RatioAbove(x, d, t);
    Heaviside(x / d - t)
  }

  /** What `LBD_GBD_interaction` returns: R, and R_h, R_v in extensive mode. */
  datatype Interaction = Interaction(r: Grid, rh: Option<Grid>, rv: Option<Grid>)

  /** R_h + R_v cropped by P on each side: for two 0/1 maps every pixel is
      0, 1 or 2, the number of orientations that see an edge there. */
  function EdgeSum(rh: Grid, rv: Grid, P: nat, M: nat, N: nat): (r: Grid)
    requires IsGrid(rh, M + 2 * P, N + 2 * P) && IsGrid(rv, M + 2 * P, N + 2 * P)
    requires IsBinary(rh) && IsBinary(rv)
    ensures IsGrid(r, M, N)
    ensures forall i, j :: 0 <= i < M && 0 <= j < N ==> r[i][j] == rh[i + P][j + P] + rv[i + P][j + P]
    ensures forall i, j :: 0 <= i < M && 0 <= j < N ==> r[i][j] == 0.0 || r[i][j] == 1.0 || r[i][j] == 2.0
  {
    Crop(Add(rh, rv, M + 2 * P, N + 2 * P), P, M, N)
  }

  /** `LBD_GBD_interaction`: R_h and R_v are the edge maps of the two
      orientations, and R is their sum cropped by P on each side. */
  function LbdGbdInteraction(lbdH: Grid, lbdV: Grid, gbdH: Grid, gbdV: Grid, Tr: real, F: real,
                             P: nat, M: nat, N: nat, extensive: bool): (res: Interaction)
    requires IsGrid(lbdH, M + 2 * P, N + 2 * P) && IsGrid(lbdV, M + 2 * P, N + 2 * P)
    requires IsGrid(gbdH, M + 2 * P, N + 2 * P) && IsGrid(gbdV, M + 2 * P, N + 2 * P)
    requires forall i, j :: 0 <= i < M + 2 * P && 0 <= j < N + 2 * P ==> F + gbdH[i][j] > 0.0 && F + gbdV[i][j] > 0.0
    ensures IsGrid(res.r, M, N)
    ensures forall i, j :: 0 <= i < M && 0 <= j < N ==>
      res.r[i][j] == 0.0 || res.r[i][j] == 1.0 || res.r[i][j] == 2.0
    ensures res.rh == (if extensive then Some(EdgeMap(lbdH, gbdH, Tr, F, M + 2 * P, N + 2 * P)) else None)
    ensures res.rv == (if extensive then Some(EdgeMap(lbdV, gbdV, Tr, F, M + 2 * P, N + 2 * P)) else None)
    ensures res.r == EdgeSum(EdgeMap(lbdH, gbdH, Tr, F, M + 2 * P, N + 2 * P),
                             EdgeMap(lbdV, gbdV, Tr, F, M + 2 * P, N + 2 * P), P, M, N)
  {
    var rows, cols := M + 2 * P, N + 2 * P;
    var rh := EdgeMap(lbdH, gbdH, Tr, F, rows, cols);
    var rv := EdgeMap(lbdV, gbdV, Tr, F, rows, cols);
    var r := EdgeSum(rh, rv, P, M, N);
    if extensive then Interaction(r, Some(rh), Some(rv)) else Interaction(r, None, None)
  }

  /** Pixel by pixel, R counts the orientations whose LBD exceeds T_r times
      F plus their GBD, at the same pixel of the padded grids. */
  lemma InteractionCells(lbdH: Grid, lbdV: Grid, gbdH: Grid, gbdV: Grid, Tr: real, F: real,
                         P: nat, M: nat, N: nat, extensive: bool)
    requires IsGrid(lbdH, M + 2 * P, N + 2 * P) && IsGrid(lbdV, M + 2 * P, N + 2 * P)
    requires IsGrid(gbdH, M + 2 * P, N + 2 * P) && IsGrid(gbdV, M + 2 * P, N + 2 * P)
    requires forall i, j :: 0 <= i < M + 2 * P && 0 <= j < N + 2 * P ==> F + gbdH[i][j] > 0.0 && F + gbdV[i][j] > 0.0
    ensures forall i, j :: 0 <= i < M && 0 <= j < N ==>
      LbdGbdInteraction(lbdH, lbdV, gbdH, gbdV, Tr, F, P, M, N, extensive).r[i][j]
        == (if lbdH[i + P][j + P] > Tr * (F + gbdH[i + P][j + P]) then 1.0 else 0.0)
         + (if lbdV[i + P][j + P] > Tr * (F + gbdV[i + P][j + P]) then 1.0 else 0.0)
  {
    var r := LbdGbdInteraction(lbdH, lbdV, gbdH, gbdV, Tr, F, P, M, N, extensive).r;
    forall i, j | 0 <= i < M && 0 <= j < N
      ensures r[i][j] == (if lbdH[i + P][j + P] > Tr * (F + gbdH[i + P][j + P]) then 1.0 else 0.0)
                       + (if lbdV[i + P][j + P] > Tr * (F + gbdV[i + P][j + P]) then 1.0 else 0.0)
    {
      EdgeSumCell(lbdH, lbdV, gbdH, gbdV, Tr, F, P, M, N, i, j);
    }
  }

  /** One pixel of R_h + R_v cropped by P. */
  lemma EdgeSumCell(lbdH: Grid, lbdV: Grid, gbdH: Grid, gbdV: Grid, Tr: real, F: real,
                    P: nat, M: nat, N: nat, i: nat, j: nat)
    requires IsGrid(lbdH, M + 2 * P, N + 2 * P) && IsGrid(lbdV, M + 2 * P, N + 2 * P)
    requires IsGrid(gbdH, M + 2 * P, N + 2 * P) && IsGrid(gbdV, M + 2 * P, N + 2 * P)
    requires forall i, j :: 0 <= i < M + 2 * P && 0 <= j < N + 2 * P ==> F + gbdH[i][j] > 0.0 && F + gbdV[i][j] > 0.0
    requires i < M && j < N
    ensures EdgeSum(EdgeMap(lbdH, gbdH, Tr, F, M + 2 * P, N + 2 * P),
                    EdgeMap(lbdV, gbdV, Tr, F, M + 2 * P, N + 2 * P), P, M, N)[i][j]
        == (if lbdH[i + P][j + P] > Tr * (F + gbdH[i + P][j + P]) then 1.0 else 0.0)
         + (if lbdV[i + P][j + P] > Tr * (F + gbdV[i + P][j + P]) then 1.0 else 0.0)
  {
    EdgeMapCell(lbdH, gbdH, Tr, F, M + 2 * P, N + 2 * P, i + P, j + P);
    EdgeMapCell(lbdV, gbdV, Tr, F, M + 2 * P, N + 2 * P, i + P, j + P);
  }

  /** One pixel of an edge map as a number: 1 where LBD exceeds T_r times
      F plus GBD, 0 elsewhere. */
  lemma EdgeMapCell(lbd: Grid, gbd: Grid, Tr: real, F: real, rows: nat, cols: nat, a: nat, b: nat)
    requires IsGrid(lbd, rows, cols) && IsGrid(gbd, rows, cols)
    requires forall i, j :: 0 <= i < rows && 0 <= j < cols ==> F + gbd[i][j] > 0.0
    requires a < rows && b < cols
    ensures EdgeMap(lbd, gbd, Tr, F, rows, cols)[a][b] == if lbd[a][b] > Tr * (F + gbd[a][b]) then 1.0 else 0.0
  {
    var e := EdgeMap(lbd, gbd, Tr, F, rows, cols);
    assert e[a][b] == 0.0 || e[a][b] == 1.0;
  }

  // ------------------------------------------------------------------------ BCS

  /** What `BCS` returns: R, and every intermediate grid in extensive mode. */
  datatype BcsOutput = BcsOutput(r: Grid, rh: Option<Grid>, rv: Option<Grid>,
                                 lbdH: Option<Grid>, lbdV: Option<Grid>,
                                 gbdH: Option<Grid>, gbdV: Option<Grid>)

  /** The last stage of BCS: the interaction with T_r and F, and the output
      record, which carries the intermediate grids only in extensive mode. */
  function Assemble(lbdH: Grid, lbdV: Grid, gbdH: Grid, gbdV: Grid, M: nat, N: nat, extensive: bool): (out: BcsOutput)
    requires IsGrid(lbdH, M + 2 * LongReach, N + 2 * LongReach) && IsGrid(lbdV, M + 2 * LongReach, N + 2 * LongReach)
    requires IsGrid(gbdH, M + 2 * LongReach, N + 2 * LongReach) && IsGrid(gbdV, M + 2 * LongReach, N + 2 * LongReach)
    requires NonNeg(gbdH) && NonNeg(gbdV)
    ensures IsGrid(out.r, M, N)
    ensures forall i, j :: 0 <= i < M && 0 <= j < N ==>
      out.r[i][j] == 0.0 || out.r[i][j] == 1.0 || out.r[i][j] == 2.0
    ensures out.r == EdgeSum(EdgeMap(lbdH, gbdH, RatioThreshold, Precision, M + 2 * LongReach, N + 2 * LongReach),
                             EdgeMap(lbdV, gbdV, RatioThreshold, Precision, M + 2 * LongReach, N + 2 * LongReach),
                             LongReach, M, N)
    ensures out.rh == (if extensive then Some(EdgeMap(lbdH, gbdH, RatioThreshold, Precision,
                                                      M + 2 * LongReach, N + 2 * LongReach)) else None)
    ensures out.rv == (if extensive then Some(EdgeMap(lbdV, gbdV, RatioThreshold, Precision,
                                                      M + 2 * LongReach, N + 2 * LongReach)) else None)
    ensures out.lbdH == (if extensive then Some(lbdH) else None)
    ensures out.lbdV == (if extensive then Some(lbdV) else None)
    ensures out.gbdH == (if extensive then Some(gbdH) else None)
    ensures out.gbdV == (if extensive then Some(gbdV) else None)
  {
    var lgi := LbdGbdInteraction(lbdH, lbdV, gbdH, gbdV, RatioThreshold, Precision,
                                 LongReach, M, N, extensive);
    if extensive then BcsOutput(lgi.r, lgi.rh, lgi.rv, Some(lbdH), Some(lbdV), Some(gbdH), Some(gbdV))
    else BcsOutput(lgi.r, None, None, None, None, None, None)
  }

  /** LBD and GBD responses of both orientations, as BCS computes them. */
  datatype Boundaries = Boundaries(lbdH: Grid, lbdV: Grid, gbdH: Grid, gbdV: Grid)

  /** Simple cells, complex cells and LBD with K = 12, L = 4 and P = 15: both
      LBD responses are non-negative. */
  function LocalStages(aTemp: seq<Grid>, bTemp: seq<Grid>, M: nat, N: nat): (lbd: (Grid, Grid))
    requires LobesShape(aTemp, bTemp, Orientations, M, N)
    ensures IsGrid(lbd.0, M + 2 * LongReach, N + 2 * LongReach) && IsGrid(lbd.1, M + 2 * LongReach, N + 2 * LongReach)
    ensures NonNeg(lbd.0) && NonNeg(lbd.1)
  {
    var simple := SimpleCells(aTemp, bTemp, Orientations, M, N);
    ComplexCellsNonNeg(simple, Orientations, M, N);
    Lbd(ComplexCells(simple, Orientations, M, N), Orientations, M, N, LocalReach, LongReach)
  }

  /** The stages of BCS before the interaction, with the parameters BCS
      fixes (K = 12, L = 4, P = 15, Q = 5): every response is non-negative. */
  function BoundaryStages(aTemp: seq<Grid>, bTemp: seq<Grid>, M: nat, N: nat): (bd: Boundaries)
    requires LobesShape(aTemp, bTemp, Orientations, M, N)
    ensures IsGrid(bd.lbdH, M + 2 * LongReach, N + 2 * LongReach) && IsGrid(bd.lbdV, M + 2 * LongReach, N + 2 * LongReach)
    ensures IsGrid(bd.gbdH, M + 2 * LongReach, N + 2 * LongReach) && IsGrid(bd.gbdV, M + 2 * LongReach, N + 2 * LongReach)
    ensures NonNeg(bd.lbdH) && NonNeg(bd.lbdV) && NonNeg(bd.gbdH) && NonNeg(bd.gbdV)
  {
    var rows, cols := M + 2 * LongReach, N + 2 * LongReach;
    var lbd := LocalStages(aTemp, bTemp, M, N);
    var bh, bv := GbdBlockH(M, N, LongReach, ShortReach), GbdBlockV(M, N, LongReach, ShortReach);
    GbdIterInvariant(lbd.0, lbd.0, bh, ShortReach, LongReach, rows, cols, GbdSteps);
    GbdIterInvariant(lbd.1, lbd.1, bv, LongReach, ShortReach, rows, cols, GbdSteps);
    Boundaries(lbd.0, lbd.1,
               GbdIter(lbd.0, lbd.0, bh, ShortReach, LongReach, rows, cols, GbdSteps),
               GbdIter(lbd.1, lbd.1, bv, LongReach, ShortReach, rows, cols, GbdSteps))
  }

  /** The whole Boundary Contour System with T_r = 0.6 and F = 0.01: R takes
      values in {0, 1, 2}, and the intermediate grids appear only in
      extensive mode. */
  function BcsSpec(aTemp: seq<Grid>, bTemp: seq<Grid>, M: nat, N: nat, extensive: bool): (out: BcsOutput)
    requires LobesShape(aTemp, bTemp, Orientations, M, N)
    ensures IsGrid(out.r, M, N)
    ensures forall i, j :: 0 <= i < M && 0 <= j < N ==>
      out.r[i][j] == 0.0 || out.r[i][j] == 1.0 || out.r[i][j] == 2.0
    ensures out.rh.Some? == extensive && out.rv.Some? == extensive
    ensures out.lbdH.Some? == extensive && out.lbdV.Some? == extensive
    ensures out.gbdH.Some? == extensive && out.gbdV.Some? == extensive
    ensures extensive ==>
      IsGrid(out.lbdH.value, M + 2 * LongReach, N + 2 * LongReach) && IsGrid(out.lbdV.value, M + 2 * LongReach, N + 2 * LongReach) &&
      IsGrid(out.gbdH.value, M + 2 * LongReach, N + 2 * LongReach) && IsGrid(out.gbdV.value, M + 2 * LongReach, N + 2 * LongReach) &&
      NonNeg(out.gbdH.value) && NonNeg(out.gbdV.value)
    ensures extensive ==>
      out.rh == Some(EdgeMap(out.lbdH.value, out.gbdH.value, RatioThreshold, Precision, M + 2 * LongReach, N + 2 * LongReach)) &&
      out.rv == Some(EdgeMap(out.lbdV.value, out.gbdV.value, RatioThreshold, Precision, M + 2 * LongReach, N + 2 * LongReach))
    ensures extensive ==> out.r == EdgeSum(out.rh.value, out.rv.value, LongReach, M, N)
  {
    var bd := BoundaryStages(aTemp, bTemp, M, N);
    Assemble(bd.lbdH, bd.lbdV, bd.gbdH, bd.gbdV, M, N, extensive)
  }

  /** The extensive flag only adds entries: R is the same in both modes. */
  lemma ExtensiveKeepsR(aTemp: seq<Grid>, bTemp: seq<Grid>, M: nat, N: nat)
    requires LobesShape(aTemp, bTemp, Orientations, M, N)
    ensures BcsSpec(aTemp, bTemp, M, N, true).r == BcsSpec(aTemp, bTemp, M, N, false).r
  {
  }

  /** `BCS`: simple cells, complex cells, LBD, GBD and their interaction. */
  method Bcs(aTemp: seq<Grid>, bTemp: seq<Grid>, M: nat, N: nat, extensive: bool) returns (out: BcsOutput)
    requires LobesShape(aTemp, bTemp, Orientations, M, N)
    ensures out == BcsSpec(aTemp, bTemp, M, N, extensive)
  {
    var simple := GetSimpleCells(aTemp, bTemp, Orientations, M, N);
    var complex := GetComplexCells(simple, Orientations, M, N);
    var lbd := Lbd(complex, Orientations, M, N, LocalReach, LongReach);
    var gbdH, gbdV := Gbd(lbd.0, lbd.1, M, N, LongReach, ShortReach);
    var bd := Boundaries(lbd.0, lbd.1, gbdH, gbdV);
    assert bd == BoundaryStages(aTemp, bTemp, M, N);
    out := Assemble(bd.lbdH, bd.lbdV, bd.gbdH, bd.gbdV, M, N, extensive);
  }
}
