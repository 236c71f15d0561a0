/** The filling-in stage: ON and OFF activations spread for 300 steps to their
    four nearest neighbours, attenuated divisively by the boundary map R, and
    the two channels are then combined into a brightness map that is shifted
    and scaled to [0, 1].

    All grids of the recurrent stage are (M + 2) x (N + 2): the M x N image in
    the interior `[1:M+1, 1:N+1]` and a one-pixel border that stays 0. */
module FillingIn {
  import opened Wrappers
  import opened Grids

  /** eps: strength of the divisive inhibition across edges. */
  const Eps: real := 10.0
  /** T_f: activations at or below it neither fill in nor show as brightness. */
  const FillThreshold: real := 3.0
  /** The gain handed to the sigmoid. */
  const Gain: real := 14.0
  /** fill_steps. */
  const FillSteps: nat := 300

  /** The interior `[1:M+1, 1:N+1]` of an (M + 2) x (N + 2) array. */
  predicate Interior(i: int, j: int, M: nat, N: nat) {
    1 <= i <= M && 1 <= j <= N
  }

  // ------------------------------------------------------------- propagation

  /** A neighbour's activation `v` as a cell receives it: divided by
      1 + eps * e_neighbour * e_self. */
  function Passed(v: real, eNb: real, eSelf: real): (r: real)
    requires eNb >= 0.0 && eSelf >= 0.0
    ensures v >= 0.0 ==> 0.0 <= r <= v
    ensures v <= 0.0 ==> v <= r <= 0.0
    ensures eNb == 0.0 || eSelf == 0.0 ==> r == v
    ensures v >= 0.0 && eNb >= 1.0 && eSelf >= 1.0 ==> r <= v / 11.0
  {
    AttenuationBounds(v, eNb, eSelf);
    v / (1.0 + Eps * eNb * eSelf)
  }

  lemma AttenuationBounds(v: real, eNb: real, eSelf: real)
    requires eNb >= 0.0 && eSelf >= 0.0
    ensures 1.0 + Eps * eNb * eSelf >= 1.0
    ensures v >= 0.0 ==> 0.0 <= v / (1.0 + Eps * eNb * eSelf) <= v
    ensures v <= 0.0 ==> v <= v / (1.0 + Eps * eNb * eSelf) <= 0.0
    ensures eNb == 0.0 || eSelf == 0.0 ==> v / (1.0 + Eps * eNb * eSelf) == v
    ensures v >= 0.0 && eNb >= 1.0 && eSelf >= 1.0 ==> v / (1.0 + Eps * eNb * eSelf) <= v / 11.0
  {
    var d := 1.0 + Eps * eNb * eSelf;
    assert d >= 1.0 by { assert eNb * eSelf >= 0.0; }
    DividedBy(v, d);
    if eNb == 0.0 || eSelf == 0.0 {
      assert d == 1.0;
    }
    if eNb >= 1.0 && eSelf >= 1.0 {
      assert d >= 11.0 by {
        assert eNb * eSelf >= eNb * 1.0 >= 1.0;
      }
      if v >= 0.0 {
        DivisorGrows(v, 11.0, d);
      }
    }
  }

  /** Dividing by a divisor of at least 1 moves a value towards 0. */
  lemma DividedBy(v: real, d: real)
    requires d >= 1.0
    ensures v >= 0.0 ==> 0.0 <= v / d <= v
    ensures v <= 0.0 ==> v <= v / d <= 0.0
    ensures d == 1.0 ==> v / d == v
  {
    var q := v / d;
    assert q * d == v;
    if v >= 0.0 {
      assert q >= 0.0;
      assert q * d >= q * 1.0;
    } else {
      assert q <= 0.0;
      assert q * d <= q * 1.0;
    }
  }

  /** For a non-negative value, a larger divisor gives a smaller quotient. */
  lemma DivisorGrows(v: real, d1: real, d2: real)
    requires v >= 0.0 && 0.0 < d1 <= d2
    ensures v / d2 <= v / d1
  {
    var q1, q2 := v / d1, v / d2;
    assert q1 * d1 == v && q2 * d2 == v;
    assert q2 >= 0.0;
    assert q2 * d1 <= q2 * d2;
  }

  /** The four nearest neighbours. */
  datatype Side = Top | Bottom | Left | Right

  function RowStep(s: Side): int {
    match s
    case Top => -1
    case Bottom => 1
    case _ => 0
  }

  function ColStep(s: Side): int {
    match s
    case Left => -1
    case Right => 1
    case _ => 0
  }

  /** What interior cell (i, j) receives from its neighbour on side `s`. */
  function Pass(g: Grid, edge: Grid, s: Side, M: nat, N: nat, i: int, j: int): (r: real)
    requires IsGrid(g, M + 2, N + 2) && IsGrid(edge, M + 2, N + 2) && NonNeg(edge)
    requires Interior(i, j, M, N)
    ensures 0 <= i + RowStep(s) < M + 2 && 0 <= j + ColStep(s) < N + 2
    ensures g[i + RowStep(s)][j + ColStep(s)] >= 0.0 ==> 0.0 <= r <= g[i + RowStep(s)][j + ColStep(s)]
    ensures g[i + RowStep(s)][j + ColStep(s)] <= 0.0 ==> g[i + RowStep(s)][j + ColStep(s)] <= r <= 0.0
    ensures edge[i + RowStep(s)][j + ColStep(s)] == 0.0 || edge[i][j] == 0.0 ==> r == g[i + RowStep(s)][j + ColStep(s)]
  {
    Passed(g[i + RowStep(s)][j + ColStep(s)], edge[i + RowStep(s)][j + ColStep(s)], edge[i][j])
  }

  /** One of `top_ON`, `bottom_ON`, `left_ON`, `right_ON` (or their OFF
      counterparts): zero on the border, and in the interior what every cell
      receives from side `s`. */
  function Neighbour(g: Grid, edge: Grid, s: Side, M: nat, N: nat): (r: Grid)
    requires IsGrid(g, M + 2, N + 2) && IsGrid(edge, M + 2, N + 2) && NonNeg(edge)
    ensures IsGrid(r, M + 2, N + 2)
    ensures forall i, j {:trigger r[i][j]} :: 0 <= i < M + 2 && 0 <= j < N + 2 ==>
      r[i][j] == if Interior(i, j, M, N) then Pass(g, edge, s, M, N, i, j) else 0.0
  {
    seq(M + 2, i requires 0 <= i < M + 2 =>
      seq(N + 2, j requires 0 <= j < N + 2 =>
        if Interior(i, j, M, N) then Pass(g, edge, s, M, N, i, j) else 0.0))
  }

  /** The largest of the four attenuated neighbour values of an interior
      cell, combined in the order top, bottom, left, right. */
  function Incoming(g: Grid, edge: Grid, M: nat, N: nat, i: int, j: int): (r: real)
    requires IsGrid(g, M + 2, N + 2) && IsGrid(edge, M + 2, N + 2) && NonNeg(edge)
    requires Interior(i, j, M, N)
    ensures r == Pass(g, edge, Top, M, N, i, j) || r == Pass(g, edge, Bottom, M, N, i, j)
         || r == Pass(g, edge, Left, M, N, i, j) || r == Pass(g, edge, Right, M, N, i, j)
    ensures forall s :: Pass(g, edge, s, M, N, i, j) <= r
    ensures NonNeg(g) ==> r >= 0.0
    ensures NonNeg(g) && AtMost(g, 0.0) ==> r == 0.0
  {
    var top, bottom := Pass(g, edge, Top, M, N, i, j), Pass(g, edge, Bottom, M, N, i, j);
    var left, right := Pass(g, edge, Left, M, N, i, j), Pass(g, edge, Right, M, N, i, j);
    Max(Max(Max(top, bottom), left), right)
  }

  /** The interior of `M_ON_temp` after one step: every cell's incoming value.
      Its border is that of the initial activation, which is 0. */
  function Candidate(g: Grid, edge: Grid, M: nat, N: nat): (r: Grid)
    requires IsGrid(g, M + 2, N + 2) && IsGrid(edge, M + 2, N + 2) && NonNeg(edge)
    ensures IsGrid(r, M + 2, N + 2)
    ensures forall i, j {:trigger r[i][j]} :: 0 <= i < M + 2 && 0 <= j < N + 2 ==>
      r[i][j] == if Interior(i, j, M, N) then Incoming(g, edge, M, N, i, j) else 0.0
  {
    seq(M + 2, i requires 0 <= i < M + 2 =>
      seq(N + 2, j requires 0 <= j < N + 2 =>
        if Interior(i, j, M, N) then Incoming(g, edge, M, N, i, j) else 0.0))
  }

  /** `X[1:M+1, 1:N+1] = Y[1:M+1, 1:N+1]`: the interior taken from `src`, the
      border kept from `base`. */
  function WriteInterior(base: Grid, src: Grid, M: nat, N: nat): (r: Grid)
    requires IsGrid(base, M + 2, N + 2) && IsGrid(src, M + 2, N + 2)
    ensures IsGrid(r, M + 2, N + 2)
    ensures forall i, j {:trigger r[i][j]} :: 0 <= i < M + 2 && 0 <= j < N + 2 ==>
      r[i][j] == if Interior(i, j, M, N) then src[i][j] else base[i][j]
  {
    seq(M + 2, i requires 0 <= i < M + 2 =>
      seq(N + 2, j requires 0 <= j < N + 2 =>
        if Interior(i, j, M, N) then src[i][j] else base[i][j]))
  }

  /** One synchronous step of one channel: `np.maximum(M, mask * M_temp)`,
      where every cell's candidate is read from the previous grid `g`. The
      candidate is gated by `Masked`, which equals `mask * M_temp` for a 0/1
      mask such as the `heaviside` mask `ActivityMask` builds (`ChannelStep`
      proves the two agree there). */
  function FillStep(g: Grid, edge: Grid, mask: Grid, M: nat, N: nat): (r: Grid)
    requires IsGrid(g, M + 2, N + 2) && IsGrid(edge, M + 2, N + 2) && IsGrid(mask, M + 2, N + 2)
    requires NonNeg(edge)
    ensures IsGrid(r, M + 2, N + 2)
    ensures PointwiseLe(g, r, M + 2, N + 2)
    ensures forall i, j {:trigger r[i][j]} :: 0 <= i < M + 2 && 0 <= j < N + 2 ==>
      r[i][j] == if mask[i][j] > 0.0 then Max(g[i][j], Candidate(g, edge, M, N)[i][j]) else Max(g[i][j], 0.0)
  {
    PointMax(g, Masked(mask, Candidate(g, edge, M, N), M + 2, N + 2), M + 2, N + 2)
  }

  /** A channel after n steps, starting from `g`. */
  function FillIter(g: Grid, edge: Grid, mask: Grid, M: nat, N: nat, n: nat): (r: Grid)
    requires IsGrid(g, M + 2, N + 2) && IsGrid(edge, M + 2, N + 2) && IsGrid(mask, M + 2, N + 2)
    requires NonNeg(edge)
    ensures IsGrid(r, M + 2, N + 2)
    decreases n
  {
    if n == 0 then g else FillIter(FillStep(g, edge, mask, M, N), edge, mask, M, N, n - 1)
  }

  /** Step n + 1 is one more step applied to step n. */
  lemma {:induction false} FillIterLast(g: Grid, edge: Grid, mask: Grid, M: nat, N: nat, n: nat)
    requires IsGrid(g, M + 2, N + 2) && IsGrid(edge, M + 2, N + 2) && IsGrid(mask, M + 2, N + 2)
    requires NonNeg(edge)
    ensures FillIter(g, edge, mask, M, N, n + 1)
         == FillStep(FillIter(g, edge, mask, M, N, n), edge, mask, M, N)
    decreases n
  {
    if n > 0 {
      FillIterLast(FillStep(g, edge, mask, M, N), edge, mask, M, N, n - 1);
    }
  }

  // --------------------------------------------------------- recurrent stage

  /** Activations never decrease: each step is pointwise at least the one
      before. */
  lemma FillIterStepUp(g: Grid, edge: Grid, mask: Grid, M: nat, N: nat, n: nat)
    requires IsGrid(g, M + 2, N + 2) && IsGrid(edge, M + 2, N + 2) && IsGrid(mask, M + 2, N + 2)
    requires NonNeg(edge)
    ensures PointwiseLe(FillIter(g, edge, mask, M, N, n), FillIter(g, edge, mask, M, N, n + 1), M + 2, N + 2)
  {
    FillIterLast(g, edge, mask, M, N, n);
  }

  /** Hence every step is pointwise at least the initial grid. */
  lemma {:induction false} FillIterAboveStart(g: Grid, edge: Grid, mask: Grid, M: nat, N: nat, n: nat)
    requires IsGrid(g, M + 2, N + 2) && IsGrid(edge, M + 2, N + 2) && IsGrid(mask, M + 2, N + 2)
    requires NonNeg(edge)
    ensures PointwiseLe(g, FillIter(g, edge, mask, M, N, n), M + 2, N + 2)
    decreases n
  {
    if n > 0 {
      var h := FillStep(g, edge, mask, M, N);
      FillIterAboveStart(h, edge, mask, M, N, n - 1);
      LeTrans(g, h, FillIter(h, edge, mask, M, N, n - 1), M + 2, N + 2);
    }
  }

  /** A cell whose mask is 0 keeps its (non-negative) initial activation for
      ever: its candidate is multiplied by 0. */
  lemma {:induction false} FillIterFrozen(g: Grid, edge: Grid, mask: Grid, M: nat, N: nat, n: nat)
    requires IsGrid(g, M + 2, N + 2) && IsGrid(edge, M + 2, N + 2) && IsGrid(mask, M + 2, N + 2)
    requires NonNeg(edge)
    ensures forall i, j :: 0 <= i < M + 2 && 0 <= j < N + 2 && mask[i][j] == 0.0 && g[i][j] >= 0.0 ==>
      FillIter(g, edge, mask, M, N, n)[i][j] == g[i][j]
    decreases n
  {
    if n > 0 {
      var h := FillStep(g, edge, mask, M, N);
      FillIterFrozen(h, edge, mask, M, N, n - 1);
      forall i, j | 0 <= i < M + 2 && 0 <= j < N + 2 && mask[i][j] == 0.0 && g[i][j] >= 0.0
        ensures h[i][j] == g[i][j]
      {
        StepCell(g, edge, mask, M, N, i, j, 0.0);
      }
    }
  }

  /** One step at one cell: a masked cell keeps a non-negative value, and with
      a 0/1 mask the new value stays below any non-negative bound u of the
      old grid, whatever the sign of the old values. */
  lemma StepCell(g: Grid, edge: Grid, mask: Grid, M: nat, N: nat, i: nat, j: nat, u: real)
    requires IsGrid(g, M + 2, N + 2) && IsGrid(edge, M + 2, N + 2) && IsGrid(mask, M + 2, N + 2)
    requires NonNeg(edge) && i < M + 2 && j < N + 2
    ensures mask[i][j] == 0.0 && g[i][j] >= 0.0 ==> FillStep(g, edge, mask, M, N)[i][j] == g[i][j]
    ensures (mask[i][j] == 0.0 || mask[i][j] == 1.0) && 0.0 <= u && AtMost(g, u) ==>
      FillStep(g, edge, mask, M, N)[i][j] <= u
  {
    var c := Candidate(g, edge, M, N)[i][j];
    if (mask[i][j] == 0.0 || mask[i][j] == 1.0) && 0.0 <= u && AtMost(g, u) {
      assert c <= u by {
        if Interior(i, j, M, N) {
          IncomingBounded(g, edge, M, N, i, j, u);
        }
      }
    }
  }

  /** A non-negative start stays non-negative: activations never decrease. */
  lemma FillIterNonNeg(g: Grid, edge: Grid, mask: Grid, M: nat, N: nat, n: nat)
    requires IsGrid(g, M + 2, N + 2) && IsGrid(edge, M + 2, N + 2) && IsGrid(mask, M + 2, N + 2)
    requires NonNeg(edge) && NonNeg(g)
    ensures NonNeg(FillIter(g, edge, mask, M, N, n))
  {
    var r := FillIter(g, edge, mask, M, N, n);
    FillIterAboveStart(g, edge, mask, M, N, n);
    forall i, j | 0 <= i < |r| && 0 <= j < |r[i]|
      ensures r[i][j] >= 0.0
    {
      assert g[i][j] <= r[i][j];
    }
  }

  /** With a 0/1 mask, no activation ever exceeds a non-negative bound u of
      the initial activations: a candidate is a neighbour's value divided by
      at least 1, so it is at most that value when the value is positive and
      at most 0 otherwise. */
  lemma {:induction false} FillIterBounded(g: Grid, edge: Grid, mask: Grid, M: nat, N: nat, n: nat, u: real)
    requires IsGrid(g, M + 2, N + 2) && IsGrid(edge, M + 2, N + 2) && IsGrid(mask, M + 2, N + 2)
    requires NonNeg(edge) && IsBinary(mask) && 0.0 <= u && AtMost(g, u)
    ensures AtMost(FillIter(g, edge, mask, M, N, n), u)
    decreases n
  {
    if n > 0 {
      var h := FillStep(g, edge, mask, M, N);
      forall i, j | 0 <= i < M + 2 && 0 <= j < N + 2
        ensures h[i][j] <= u
      {
        StepCell(g, edge, mask, M, N, i, j, u);
      }
      FillIterBounded(h, edge, mask, M, N, n - 1, u);
    }
  }

  /** A cell receives no more than a non-negative bound of the grid around
      it. */
  lemma IncomingBounded(g: Grid, edge: Grid, M: nat, N: nat, i: int, j: int, u: real)
    requires IsGrid(g, M + 2, N + 2) && IsGrid(edge, M + 2, N + 2) && NonNeg(edge)
    requires Interior(i, j, M, N) && 0.0 <= u && AtMost(g, u)
    ensures Incoming(g, edge, M, N, i, j) <= u
  {
    var r := Incoming(g, edge, M, N, i, j);
    var s :| r == Pass(g, edge, s, M, N, i, j);
    assert g[i + RowStep(s)][j + ColStep(s)] <= u;
  }

  /** So, for any sigmoid, no activation of a channel ever exceeds the largest
      initial activation, which is at least the 0 of the border, and none
      falls below its initial value. */
  lemma FillBelowInitialMax(sigmoid: (real, real) -> real, R: Grid, m: Grid, M: nat, N: nat, n: nat)
    requires IsGrid(R, M, N) && NonNeg(R) && IsGrid(m, M, N)
    ensures PointwiseLe(InitialActivity(sigmoid, m, M, N),
                        FillIter(InitialActivity(sigmoid, m, M, N), EdgeGrid(R, M, N), ActivityMask(m, M, N), M, N, n),
                        M + 2, N + 2)
    ensures AtMost(FillIter(InitialActivity(sigmoid, m, M, N), EdgeGrid(R, M, N), ActivityMask(m, M, N), M, N, n),
                   GridMax(InitialActivity(sigmoid, m, M, N), M + 2, N + 2))
  {
    var g0, edge, mask := InitialActivity(sigmoid, m, M, N), EdgeGrid(R, M, N), ActivityMask(m, M, N);
    var top := GridMax(g0, M + 2, N + 2);
    assert 0.0 <= top by {
      assert !Interior(0, 0, M, N);
      assert g0[0][0] <= top;
    }
    FillIterAboveStart(g0, edge, mask, M, N, n);
    FillIterBounded(g0, edge, mask, M, N, n, top);
  }

  // ------------------------------------------------------------- fill_in's grids

  /** `edge`: R in the interior of a zero (M + 2) x (N + 2) array. */
  function EdgeGrid(R: Grid, M: nat, N: nat): (e: Grid)
    requires IsGrid(R, M, N) && NonNeg(R)
    ensures IsGrid(e, M + 2, N + 2) && NonNeg(e)
    ensures Crop(e, 1, M, N) == R
  {
    PadCrop(R, 1, M, N);
    Pad(R, 1, M, N)
  }

  /** `M_ON` (or `M_OFF`) before the first step: `sigmoid(14, m)` in the
      interior, 0 on the border. */
  function InitialActivity(sigmoid: (real, real) -> real, m: Grid, M: nat, N: nat): (g: Grid)
    requires IsGrid(m, M, N)
    ensures IsGrid(g, M + 2, N + 2)
    ensures forall i, j :: 0 <= i < M + 2 && 0 <= j < N + 2 ==>
      g[i][j] == if Interior(i, j, M, N) then sigmoid(Gain, m[i - 1][j - 1]) else 0.0
  {
    var squashed := seq(M, i requires 0 <= i < M =>
      seq(N, j requires 0 <= j < N => sigmoid(Gain, m[i][j])));
    Pad(squashed, 1, M, N)
  }

  /** `mask_ON` (or `mask_OFF`): `heaviside(m - T_f)` in the interior, 0 on
      the border. A cell may take up activity exactly when its own input
      exceeds T_f. */
  function ActivityMask(m: Grid, M: nat, N: nat): (mask: Grid)
    requires IsGrid(m, M, N)
    ensures IsGrid(mask, M + 2, N + 2) && IsBinary(mask)
    ensures forall i, j :: 0 <= i < M + 2 && 0 <= j < N + 2 ==>
      (mask[i][j] == 1.0 <==> Interior(i, j, M, N) && m[i - 1][j - 1] > FillThreshold)
  {
    Pad(Steps(Shifted(m, -FillThreshold, M, N), M, N), 1, M, N)
  }

  /** The border of both channels stays 0 through all steps, and so does
      every interior cell whose input is at most T_f and whose initial
      activation is 0; any other cell with input at most T_f keeps its
      initial activation. */
  lemma ChannelFrozenCells(sigmoid: (real, real) -> real, R: Grid, m: Grid, M: nat, N: nat, n: nat)
    requires IsGrid(R, M, N) && NonNeg(R) && IsGrid(m, M, N)
    ensures forall i, j :: 0 <= i < M + 2 && 0 <= j < N + 2 && !Interior(i, j, M, N) ==>
      FillIter(InitialActivity(sigmoid, m, M, N), EdgeGrid(R, M, N), ActivityMask(m, M, N), M, N, n)[i][j] == 0.0
    ensures forall i, j :: Interior(i, j, M, N) && m[i - 1][j - 1] <= FillThreshold && sigmoid(Gain, m[i - 1][j - 1]) >= 0.0 ==>
      FillIter(InitialActivity(sigmoid, m, M, N), EdgeGrid(R, M, N), ActivityMask(m, M, N), M, N, n)[i][j]
        == sigmoid(Gain, m[i - 1][j - 1])
  {
    var g0, edge, mask := InitialActivity(sigmoid, m, M, N), EdgeGrid(R, M, N), ActivityMask(m, M, N);
    FillIterFrozen(g0, edge, mask, M, N, n);
  }

  // ------------------------------------------------------------- brightness

  /** `threshold(M_ON - T_f) - threshold(M_OFF - T_f)` on the interior. A cell
      is bright only where ON exceeds T_f and dark only where OFF does. */
  function RawBrightness(on: Grid, off: Grid, M: nat, N: nat): (r: Grid)
    requires IsGrid(on, M + 2, N + 2) && IsGrid(off, M + 2, N + 2)
    ensures IsGrid(r, M, N)
    ensures forall i, j :: 0 <= i < M && 0 <= j < N ==>
      r[i][j] == Threshold(on[i + 1][j + 1] - FillThreshold) - Threshold(off[i + 1][j + 1] - FillThreshold)
    ensures forall i, j :: 0 <= i < M && 0 <= j < N ==>
      (r[i][j] > 0.0 ==> on[i + 1][j + 1] > FillThreshold) && (r[i][j] < 0.0 ==> off[i + 1][j + 1] > FillThreshold)
  {
    seq(M, i requires 0 <= i < M =>
      seq(N, j requires 0 <= j < N =>
        Threshold(on[i + 1][j + 1] - FillThreshold) - Threshold(off[i + 1][j + 1] - FillThreshold)))
  }

  /** Why the final division can fail: `.min()` of an empty array raises, and
      a shifted maximum of 0 turns every value into 0 / 0. */
  datatype NormError = EmptyImage | ZeroMaximum

  /** `bright_raw + |bright_raw.min()|`, divided by its maximum. The result
      lies in [0, 1], reaches 1, keeps the order of the raw values, and
      reaches 0 exactly when some raw value is at most 0: the shift adds
      |min|, not -min, so a positive minimum is doubled rather than moved
      to 0. A flat raw map at or below 0 has nothing to divide by. */
  function Normalize(raw: Grid, M: nat, N: nat): (res: Result<Grid, NormError>)
    requires IsGrid(raw, M, N)
    ensures res == Failure(EmptyImage) <==> M == 0 || N == 0
    ensures res == Failure(ZeroMaximum) <==>
      M > 0 && N > 0 && raw[0][0] <= 0.0 && forall i, j :: 0 <= i < M && 0 <= j < N ==> raw[i][j] == raw[0][0]
    ensures res.Success? ==> IsGrid(res.value, M, N)
    ensures res.Success? ==> forall i, j :: 0 <= i < M && 0 <= j < N ==> 0.0 <= res.value[i][j] <= 1.0
    ensures res.Success? ==> exists i, j :: 0 <= i < M && 0 <= j < N && res.value[i][j] == 1.0
    ensures res.Success? ==>
      ((exists i, j :: 0 <= i < M && 0 <= j < N && res.value[i][j] == 0.0) <==>
       (exists i, j :: 0 <= i < M && 0 <= j < N && raw[i][j] <= 0.0))
    ensures res.Success? ==> forall i, j, k, l :: 0 <= i < M && 0 <= j < N && 0 <= k < M && 0 <= l < N ==>
      (raw[i][j] <= raw[k][l] <==> res.value[i][j] <= res.value[k][l])
  {
    if M == 0 || N == 0 then Failure(EmptyImage)
    else
      var lo := GridMin(raw, M, N);
      var shifted := Shifted(raw, Abs(lo), M, N);
      var top := GridMax(shifted, M, N);
      ShiftFacts(raw, M, N);
      if top == 0.0 then Failure(ZeroMaximum)
      else
        var bright := Scaled(shifted, top, M, N);
        ScaleFacts(shifted, top, M, N);
        Success(bright)
  }

  /** After the shift by |min| every value is non-negative, the minimum's
      cell holds min + |min|, and the shifted maximum is 0 exactly when the
      raw map is flat at or below 0. */
  lemma ShiftFacts(raw: Grid, M: nat, N: nat)
    requires IsGrid(raw, M, N) && M > 0 && N > 0
    ensures var lo := GridMin(raw, M, N);
      var shifted := Shifted(raw, Abs(lo), M, N);
      NonNeg(shifted)
      && (forall i, j :: 0 <= i < M && 0 <= j < N ==> (shifted[i][j] == 0.0 <==> raw[i][j] == lo && lo <= 0.0))
      && ((exists i, j :: 0 <= i < M && 0 <= j < N && raw[i][j] <= 0.0) ==>
          exists i, j :: 0 <= i < M && 0 <= j < N && shifted[i][j] == 0.0)
      && (GridMax(shifted, M, N) == 0.0 <==>
          raw[0][0] <= 0.0 && forall i, j :: 0 <= i < M && 0 <= j < N ==> raw[i][j] == raw[0][0])
  {
    var lo := GridMin(raw, M, N);
    var shifted := Shifted(raw, Abs(lo), M, N);
    var top := GridMax(shifted, M, N);
    var a, b :| 0 <= a < M && 0 <= b < N && raw[a][b] == lo;
    if exists i, j :: 0 <= i < M && 0 <= j < N && raw[i][j] <= 0.0 {
      var i, j :| 0 <= i < M && 0 <= j < N && raw[i][j] <= 0.0;
      assert lo <= raw[i][j];
      assert shifted[a][b] == 0.0;
    }
    if top == 0.0 {
      forall i, j | 0 <= i < M && 0 <= j < N ensures raw[i][j] == lo && lo <= 0.0 {
        assert 0.0 <= shifted[i][j] <= top;
      }
    }
    if raw[0][0] <= 0.0 && forall i, j :: 0 <= i < M && 0 <= j < N ==> raw[i][j] == raw[0][0] {
      assert lo == raw[0][0];
      var c, d :| 0 <= c < M && 0 <= d < N && shifted[c][d] == top;
      assert shifted[c][d] == 0.0;
    }
  }

  /** Dividing a non-negative grid by its positive maximum. */
  lemma ScaleFacts(g: Grid, top: real, M: nat, N: nat)
    requires IsGrid(g, M, N) && M > 0 && N > 0 && NonNeg(g) && top == GridMax(g, M, N) && top != 0.0
    ensures var r := Scaled(g, top, M, N);
      (forall i, j :: 0 <= i < M && 0 <= j < N ==> 0.0 <= r[i][j] <= 1.0 && (r[i][j] == 0.0 <==> g[i][j] == 0.0))
      && (exists i, j :: 0 <= i < M && 0 <= j < N && r[i][j] == 1.0)
      && (forall i, j, k, l :: 0 <= i < M && 0 <= j < N && 0 <= k < M && 0 <= l < N ==>
           (g[i][j] <= g[k][l] <==> r[i][j] <= r[k][l]))
  {
    var r := Scaled(g, top, M, N);
    assert top > 0.0 by { assert 0.0 <= g[0][0] <= top; }
    forall i, j | 0 <= i < M && 0 <= j < N
      ensures 0.0 <= r[i][j] <= 1.0 && (r[i][j] == 0.0 <==> g[i][j] == 0.0)
    {
      Quotient(g[i][j], top, top);
    }
    var c, d :| 0 <= c < M && 0 <= d < N && g[c][d] == top;
    Quotient(top, top, top);
    forall i, j, k, l | 0 <= i < M && 0 <= j < N && 0 <= k < M && 0 <= l < N
      ensures g[i][j] <= g[k][l] <==> r[i][j] <= r[k][l]
    {
      Quotient(g[i][j], g[k][l], top);
    }
  }

  /** Division by a positive number preserves order and zero, and maps
      [0, d] onto [0, 1]. */
  lemma Quotient(x: real, y: real, d: real)
    requires d > 0.0
    ensures x <= y <==> x / d <= y / d
    ensures x / d == 0.0 <==> x == 0.0
    ensures 0.0 <= x <= d ==> 0.0 <= x / d <= 1.0
    ensures x == d ==> x / d == 1.0
  {
    var p, q := x / d, y / d;
    assert p * d == x && q * d == y;
    if p <= q {
      assert p * d <= q * d;
    } else {
      assert q * d < p * d;
    }
    if 0.0 <= x <= d {
      assert (1.0 - p) * d == d - x;
    }
  }

  // ------------------------------------------------------------- fill_in

  /** One iteration of the loop for one channel: the four neighbour arrays,
      their running maximum written into the interior of `temp`, and
      `np.maximum(act, mask * temp)`. */
  method ChannelStep(act: Grid, temp: Grid, edge: Grid, mask: Grid, M: nat, N: nat)
    returns (next: Grid, nextTemp: Grid)
    requires IsGrid(act, M + 2, N + 2) && IsGrid(temp, M + 2, N + 2)
    requires IsGrid(edge, M + 2, N + 2) && IsGrid(mask, M + 2, N + 2)
    requires NonNeg(edge) && IsBinary(mask)
    requires forall i, j :: 0 <= i < M + 2 && 0 <= j < N + 2 && !Interior(i, j, M, N) ==> temp[i][j] == 0.0
    ensures next == FillStep(act, edge, mask, M, N)
    ensures nextTemp == Candidate(act, edge, M, N)
  {
    var rows, cols := M + 2, N + 2;
    var top := Neighbour(act, edge, Top, M, N);
    var bottom := Neighbour(act, edge, Bottom, M, N);
    var left := Neighbour(act, edge, Left, M, N);
    var right := Neighbour(act, edge, Right, M, N);
    nextTemp := WriteInterior(temp, PointMax(top, bottom, rows, cols), M, N);
    nextTemp := WriteInterior(nextTemp, PointMax(nextTemp, left, rows, cols), M, N);
    nextTemp := WriteInterior(nextTemp, PointMax(nextTemp, right, rows, cols), M, N);
    GridExt(nextTemp, Candidate(act, edge, M, N), rows, cols);
    var gated := Product(mask, nextTemp, rows, cols);
    forall i, j | 0 <= i < rows && 0 <= j < cols
      ensures gated[i][j] == Masked(mask, nextTemp, rows, cols)[i][j]
    {
      assert mask[i][j] == 0.0 || mask[i][j] == 1.0;
    }
    GridExt(gated, Masked(mask, nextTemp, rows, cols), rows, cols);
    next := PointMax(act, gated, rows, cols);
  }

  /** `fill_in`: the edge map, the initial activations and masks of both
      channels, 300 steps of both channels, and the normalised difference.
      The channels never read each other: each ends as its own `FillIter`. */
  method FillIn(R: Grid, mOn: Grid, mOff: Grid, M: nat, N: nat, sigmoid: (real, real) -> real)
    returns (bright: Result<Grid, NormError>, on: Grid, off: Grid)
    requires IsGrid(R, M, N) && NonNeg(R) && IsGrid(mOn, M, N) && IsGrid(mOff, M, N)
    ensures on == FillIter(InitialActivity(sigmoid, mOn, M, N), EdgeGrid(R, M, N), ActivityMask(mOn, M, N), M, N, FillSteps)
    ensures off == FillIter(InitialActivity(sigmoid, mOff, M, N), EdgeGrid(R, M, N), ActivityMask(mOff, M, N), M, N, FillSteps)
    ensures bright == Normalize(RawBrightness(on, off, M, N), M, N)
  {
    var edge := EdgeGrid(R, M, N);
    on := InitialActivity(sigmoid, mOn, M, N);
    var onTemp := on;
    off := InitialActivity(sigmoid, mOff, M, N);
    var offTemp := off;
    var onMask := ActivityMask(mOn, M, N);
    var offMask := ActivityMask(mOff, M, N);
    ghost var on0, off0 := on, off;
    var t := 0;
    while t < FillSteps
      invariant t <= FillSteps
      invariant IsGrid(on, M + 2, N + 2) && IsGrid(off, M + 2, N + 2)
      invariant IsGrid(onTemp, M + 2, N + 2) && IsGrid(offTemp, M + 2, N + 2)
      invariant on == FillIter(on0, edge, onMask, M, N, t)
      invariant off == FillIter(off0, edge, offMask, M, N, t)
      invariant forall i, j :: 0 <= i < M + 2 && 0 <= j < N + 2 && !Interior(i, j, M, N) ==>
        onTemp[i][j] == 0.0 && offTemp[i][j] == 0.0
    {
      FillIterLast(on0, edge, onMask, M, N, t);
      FillIterLast(off0, edge, offMask, M, N, t);
      on, onTemp := ChannelStep(on, onTemp, edge, onMask, M, N);
      off, offTemp := ChannelStep(off, offTemp, edge, offMask, M, N);
      t := t + 1;
    }
    bright := Normalize(RawBrightness(on, off, M, N), M, N);
  }
}
