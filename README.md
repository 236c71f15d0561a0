# Domijan (2015) brightness model: boundary contours and filling-in

This project models two grid-processing stages of the Domijan (2015)
brightness-perception model in Dafny and proves what they guarantee.

- **Boundary Contour System (BCS)** (`domijan2015/boundary_detection.py`).
  1. Simple cells combine the rectified responses of two opposite-polarity
     lobes and write them into orientation channels.
  2. Complex cells pool opposite polarities.
  3. Local boundary detection (LBD) takes a sliding-window maximum over a
     padded map and masks it by where the map was positive.
  4. Global boundary detection (GBD) repeats a masked windowed maximum
     20 times.
  5. The two interact into a binary edge map per orientation, `R_h` and
     `R_v`. Their sum `R`, cropped to the image, takes values 0, 1 and 2.
- **Filling-in** (`domijan2015/filling_in.py`).
  1. ON and OFF activations get a one-pixel zero border.
  2. They spread for 300 synchronous steps. Each interior cell takes the
     largest of its four neighbours' values. Each value is divided by
     `1 + eps * edge(neighbour) * edge(self)`, gated by a binary activity
     mask, and kept only if it is larger than the cell's old value.
  3. The channels are combined into `ON - OFF` brightness, shifted by the
     absolute value of the minimum and divided by the maximum.

Pixel values are Dafny `real`s and grids are values (`seq<seq<real>>`). The
module layout follows the program:

- `grids.dfy`: the numpy operations both stages use: elementwise maps, padding
  and cropping, slicing, `maximum_filter`, and `max`/`min`.
- `boundary_detection.dfy`: module `BoundaryDetection`.
- `filling_in.dfy`: module `FillingIn`.

Each loop of the source is a `method` with a `while` loop. It is proved equal
to a function that specifies it: `SimpleCells`, `ComplexCells`, `GbdIter` and
`FillIter`. The properties the stages promise are lemmas about those
functions. The two channel-filling loops write into a preallocated array, as
`np.zeros` and slice assignment do. Slice assignments to grids whose right-hand
side is computed in full before the write become reassignments of grid-valued
locals: the LBD and GBD buffers. The neighbour arrays of `fill_in`
(`top_ON` and the others) are not kept from one iteration to the next: each
iteration builds them afresh from the previous grid. That is equivalent to the
persistent buffers because only their interior is ever written and their
border stays 0.

## Model

| member | source | states |
|---|---|---|
| BoundaryDetection.SimpleResponse | domijan2015/boundary_detection.py:45-60 | The simple-cell value equals max(2·min(A,B) − T_1, 0) with T_1 = 0.05. It is positive exactly when both A and B exceed T_1/2. |
| BoundaryDetection.SimpleResponseSymmetric | domijan2015/boundary_detection.py:60 | The two lobes play symmetric roles: swapping A and B leaves the response unchanged. |
| BoundaryDetection.Combine | domijan2015/boundary_detection.py:55-60 | Over M×N grids every cell is the simple response of its rectified lobes. The result has the input's shape and is non-negative. |
| BoundaryDetection.LobeResponse | domijan2015/boundary_detection.py:54-60 | The response iteration k writes is an M×N non-negative grid. |
| BoundaryDetection.LoopIndexOf | domijan2015/boundary_detection.py:60 | The loop index whose write lands in channel ch is (ch + 1) mod K. |
| BoundaryDetection.ChannelOf | domijan2015/boundary_detection.py:60 | numpy's `k - 1`, where −1 is the last channel, is a valid channel. It is the inverse of LoopIndexOf. |
| BoundaryDetection.SimpleCells | domijan2015/boundary_detection.py:43-62 | The returned stack has K channels of M×N, and all of them are non-negative. |
| BoundaryDetection.GetSimpleCells | domijan2015/boundary_detection.py:32-62 | The loop over `range(0, K, 3)` writing channel k−1 of a zero array produces exactly SimpleCells. |
| BoundaryDetection.OtherChannelUnfilled | domijan2015/boundary_detection.py:49-60 | Iteration k touches no channel other than k−1. |
| BoundaryDetection.WrittenChannels | domijan2015/boundary_detection.py:49-60 | For any K, each iteration k ≡ 0 (mod 3) fills channel k−1 with its lobe response. Every channel that no iteration names is zero. |
| BoundaryDetection.ComplexCells | domijan2015/boundary_detection.py:70-76 | Channel i < K/2 is simple channel i plus simple channel i+K/2. Channels ≥ K/2 are zero. The shape is unchanged. |
| BoundaryDetection.ComplexChannel | domijan2015/boundary_detection.py:73-76 | One complex channel is an M×N grid. |
| BoundaryDetection.ComplexCellsNonNeg | domijan2015/boundary_detection.py:73-74 | Pooling non-negative simple cells gives non-negative complex cells. |
| BoundaryDetection.GetComplexCells | domijan2015/boundary_detection.py:65-76 | The loop over `range(K/2)` into a zero array produces exactly ComplexCells. |
| BoundaryDetection.OrientationWiring | domijan2015/boundary_detection.py:43-76 | With K = 12, simple channels 11, 2, 5 and 8 hold the responses of k = 0, 3, 6 and 9, and every other channel is 0. That is four orientations, not the two the comment names. Complex channel 5 pools k = 6 and k = 0, channel 2 pools k = 3 and k = 9, and channels 6–11 are 0. |
| BoundaryDetection.LbdBlockH | domijan2015/boundary_detection.py:100 | The band `[L-1:M+L+2, 0:N+2L+1]` lies inside the padded array. When L < P numpy clips nothing, so it is exactly rows L−1..M+L+1 and columns 0..N+2L. |
| BoundaryDetection.LbdBlockV | domijan2015/boundary_detection.py:105 | The band `[0:M+2L+1, L-1:N+L+2]` lies inside the padded array. When L < P it is exactly rows 0..M+2L and columns L−1..N+L+1. |
| BoundaryDetection.LocalBoundary | domijan2015/boundary_detection.py:86-106 | The output has shape (M+2P)×(N+2P). A pixel whose padded value is ≤ 0 ends at 0. A positive pixel takes the clipped window maximum inside the filtered band and keeps its padded value outside it. |
| BoundaryDetection.LocalBoundaryBounds | domijan2015/boundary_detection.py:86-106 | For a non-negative response, LBD is non-negative and equals the padded response outside the band. It is pointwise ≥ the padded response, so zero stays zero and a positive pixel never decreases. |
| BoundaryDetection.Lbd | domijan2015/boundary_detection.py:79-108 | The horizontal map comes from channel 5 (rows L−1..M+L+1, columns 0..N+2L, 3×(2L+1) window). The vertical map comes from channel 2 (transposed band and window). Both are (M+2P)×(N+2P), and both are non-negative when the complex cells are. |
| BoundaryDetection.GbdBlockH | domijan2015/boundary_detection.py:134 | The band `[P-Q:M+P+Q+1, 0:N+2P+1]` lies inside the padded array: rows P−Q..M+P+Q (clipped to the array when Q = P) and every column, because numpy clips the column stop N+2P+1. |
| BoundaryDetection.GbdBlockV | domijan2015/boundary_detection.py:140 | The band `[0:M+2P+1, P-Q:N+P+Q+1]`: every row, and columns P−Q..N+P+Q (clipped when Q = P). |
| BoundaryDetection.GbdNext | domijan2015/boundary_detection.py:133-143 | One recurrent step keeps the rows×cols shape. |
| BoundaryDetection.GbdNextCells | domijan2015/boundary_detection.py:133-137 | Cell by cell, a step gives 0 where LBD ≤ 0. Elsewhere it gives the window maximum of the previous grid inside the band and LBD outside it. |
| BoundaryDetection.GbdStep | domijan2015/boundary_detection.py:133-143 | One loop iteration writes the band of the persistent buffer and masks it. The result is exactly GbdNext of the previous grid, and the buffer still equals LBD outside the band. |
| BoundaryDetection.GbdIter | domijan2015/boundary_detection.py:130-143 | After n steps from any grid, the shape is still rows×cols. |
| BoundaryDetection.GbdIterLast | domijan2015/boundary_detection.py:132-143 | Step n+1 is one more GBD step applied to step n. |
| BoundaryDetection.GbdNextKeeps | domijan2015/boundary_detection.py:133-137 | One step keeps the invariant: ≥ LBD, 0 wherever LBD ≤ 0, and equal to LBD outside the band. One step never lowers a pixel. |
| BoundaryDetection.GbdNextBounded | domijan2015/boundary_detection.py:133-137 | One step never exceeds a non-negative common bound of LBD and the previous grid. |
| BoundaryDetection.GbdIterInvariant | domijan2015/boundary_detection.py:119-145 | For non-negative LBD, every step keeps the invariant (LBD itself satisfies it) and is non-negative. |
| BoundaryDetection.GbdIterMonotone | domijan2015/boundary_detection.py:132-143 | Each GBD step is pointwise ≥ the step before. |
| BoundaryDetection.GbdIterBounded | domijan2015/boundary_detection.py:132-143 | No step rises above a non-negative bound of LBD and of the start. |
| BoundaryDetection.GbdBelowLbdMax | domijan2015/boundary_detection.py:119-145 | Every step started from LBD lies pointwise between LBD and max(LBD). |
| BoundaryDetection.Gbd | domijan2015/boundary_detection.py:111-145 | The 20-step loop produces GbdIter of LBD for both orientations. The horizontal band is rows P−Q..M+P+Q with a (2Q+1)×(2P+1) window; the vertical band is columns P−Q..N+P+Q with a (2P+1)×(2Q+1) window. |
| BoundaryDetection.RatioAbove | domijan2015/boundary_detection.py:156-157 | For d > 0, heaviside(x/d − t) = 1 exactly when x > t·d. |
| BoundaryDetection.EdgeCell | domijan2015/boundary_detection.py:156-157 | One cell of the edge map is 0 or 1, and it is 1 exactly when x > t·d. |
| BoundaryDetection.EdgeMap | domijan2015/boundary_detection.py:156-157 | R_h (or R_v) is binary. It is 1 exactly where LBD > T_r·(F + GBD). |
| BoundaryDetection.EdgeMapCell | domijan2015/boundary_detection.py:156-157 | One pixel of R_h (or R_v) is 1 where LBD > T_r·(F + GBD) and 0 elsewhere. |
| BoundaryDetection.EdgeSum | domijan2015/boundary_detection.py:160-163 | R_h + R_v cropped by P is M×N. Each pixel is the sum of the two maps at the offset pixel, so it is 0, 1 or 2. |
| BoundaryDetection.LbdGbdInteraction | domijan2015/boundary_detection.py:148-167 | R is M×N with values in {0,1,2}, and it is the cropped sum of the edge maps of the two orientations. In extensive mode R_h and R_v are exactly those edge maps of LBD and GBD; otherwise they are absent. |
| BoundaryDetection.InteractionCells | domijan2015/boundary_detection.py:148-165 | Each pixel of R counts the orientations whose LBD exceeds T_r·(F + GBD) at the corresponding padded pixel. |
| BoundaryDetection.EdgeSumCell | domijan2015/boundary_detection.py:156-163 | One pixel of the cropped sum is the number of orientations whose LBD exceeds T_r·(F + GBD) there. |
| BoundaryDetection.Assemble | domijan2015/boundary_detection.py:189-207 | R ∈ {0,1,2} with shape M×N, and R is the cropped sum R_h + R_v of the edge maps of LBD and GBD with T_r = 0.6 and F = 0.01. In extensive mode R_h and R_v are the edge maps of LBD and GBD with T_r = 0.6 and F = 0.01, and LBD and GBD are returned as given; otherwise all six are absent. |
| BoundaryDetection.LocalStages | domijan2015/boundary_detection.py:176-186 | With K = 12, L = 4 and P = 15, both LBD maps are (M+30)×(N+30) and non-negative. |
| BoundaryDetection.BoundaryStages | domijan2015/boundary_detection.py:176-187 | With Q = 5 added, all four LBD and GBD maps have the padded shape and are non-negative, so F + GBD > 0. |
| BoundaryDetection.BcsSpec | domijan2015/boundary_detection.py:170-207 | BCS returns R ∈ {0,1,2} of shape M×N. Every optional entry is present exactly in extensive mode. There the returned LBD and GBD maps have the padded shape, GBD is non-negative, the returned R_h and R_v are the edge maps of the returned LBD and GBD with T_r = 0.6 and F = 0.01, and R is R_h + R_v cropped by P = 15. |
| BoundaryDetection.ExtensiveKeepsR | domijan2015/boundary_detection.py:196-205 | The extensive flag only adds entries: R is the same in both modes. |
| BoundaryDetection.Bcs | domijan2015/boundary_detection.py:170-207 | The pipeline of loop methods returns exactly BcsSpec. |
| Grids.Zeros | domijan2015/boundary_detection.py:43 | `np.zeros([rows, cols])` has that shape, every element is 0, and it is non-negative. |
| Grids.Add | domijan2015/boundary_detection.py:74 | Elementwise `a + b`: same shape, each element the sum, non-negative when both are. |
| Grids.Product | domijan2015/filling_in.py:101 | Elementwise `a * b`: same shape, each element the product. |
| Grids.PointMax | domijan2015/filling_in.py:92-101 | `np.maximum(a, b)`: same shape, each element the larger of the two. |
| Grids.Rectified | domijan2015/boundary_detection.py:55-57 | `utils.threshold` elementwise: each element becomes max(x, 0). |
| Grids.Steps | domijan2015/filling_in.py:52 | `utils.heaviside` elementwise: each element becomes 1 if x > 0, else 0. |
| Grids.Shifted | domijan2015/filling_in.py:108 | Adding a scalar shifts every element by it. |
| Grids.Scaled | domijan2015/filling_in.py:109 | Dividing by a non-zero scalar divides every element by it. |
| Grids.SliceBlock | domijan2015/boundary_detection.py:100 | A numpy slice `[rs:re, cs:ce]` selects exactly the indices in both ranges and inside the array. |
| Grids.WindowMax | domijan2015/boundary_detection.py:100 | maximum_filter at one cell is ≥ the cell and ≥ every element of its clipped window. It equals an element of the block within the window's reach. |
| Grids.MaxFilterInto | domijan2015/boundary_detection.py:99-100 | Slice assignment of a filtered block sets the window maximum inside the block and leaves everything outside unchanged. |
| Grids.Masked | domijan2015/boundary_detection.py:101 | heaviside(m)·x is x where m > 0 and 0 elsewhere. |
| Grids.Pad | domijan2015/boundary_detection.py:86-87 | The padded array is the input in the centre block and zero elsewhere. |
| Grids.Crop | domijan2015/boundary_detection.py:163 | The centre block at offset p. |
| Grids.PadCrop | domijan2015/boundary_detection.py:86-87 | Cropping a padded grid gives the grid back, and padding keeps non-negativity. |
| Grids.GridMax | domijan2015/filling_in.py:109 | `.max()` is ≥ every element and is attained. |
| Grids.GridMin | domijan2015/filling_in.py:108 | `.min()` is ≤ every element and is attained. |
| FillingIn.Passed | domijan2015/filling_in.py:79-82 | With non-negative edges, a passed value lies between 0 and the neighbour's value. It passes undiminished when either edge is 0, and is divided by at least 11 when both edges are ≥ 1. |
| FillingIn.AttenuationBounds | domijan2015/filling_in.py:79-82 | The divisor 1 + eps·e·e is ≥ 1, and ≥ 11 when both edges are ≥ 1 (eps = 10). |
| FillingIn.Pass | domijan2015/filling_in.py:79-82 | What an interior cell receives from side s is read from the neighbour on that side. It lies between 0 and that neighbour's value (whatever its sign), and equals it when either edge is 0. |
| FillingIn.Neighbour | domijan2015/filling_in.py:79-89 | `top_ON` etc. are 0 on the border. In the interior each holds the passed value from that side, read from the previous grid. |
| FillingIn.Incoming | domijan2015/filling_in.py:92-99 | The running maximum over top, bottom, left and right is one of the four and ≥ each. It is non-negative for non-negative activations, and 0 when all activations are 0. |
| FillingIn.Candidate | domijan2015/filling_in.py:92-99 | `M_ON_temp` after a step: Incoming in the interior, 0 on the border. |
| FillingIn.WriteInterior | domijan2015/filling_in.py:92-94 | `X[1:M+1, 1:N+1] = Y[...]` takes the interior from Y and keeps X's border. |
| FillingIn.FillStep | domijan2015/filling_in.py:101-102 | One step never lowers a cell. A cell with mask > 0 becomes max(old, candidate); any other cell becomes max(old, 0). |
| FillingIn.FillIter | domijan2015/filling_in.py:75-102 | A channel after n synchronous steps keeps the (M+2)×(N+2) shape. |
| FillingIn.FillIterLast | domijan2015/filling_in.py:75-102 | Step n+1 is one more step applied to step n. |
| FillingIn.FillIterStepUp | domijan2015/filling_in.py:101-102 | Each of the steps leaves every cell ≥ its previous value. |
| FillingIn.FillIterAboveStart | domijan2015/filling_in.py:75-102 | Every step is pointwise ≥ the initial activation. |
| FillingIn.FillIterFrozen | domijan2015/filling_in.py:101-102 | A cell whose mask is 0 and whose initial value is ≥ 0 never changes. |
| FillingIn.StepCell | domijan2015/filling_in.py:101-102 | One step at one cell keeps a masked non-negative value. With a 0/1 mask the new value stays ≤ u whenever u ≥ 0 bounds the old grid, whatever the signs of the old values. |
| FillingIn.FillIterNonNeg | domijan2015/filling_in.py:75-102 | A non-negative start stays non-negative at every step. |
| FillingIn.FillIterBounded | domijan2015/filling_in.py:79-102 | With non-negative edges and a 0/1 mask, every step stays ≤ any bound u ≥ 0 of the start. |
| FillingIn.IncomingBounded | domijan2015/filling_in.py:79-99 | A cell receives no more than any non-negative bound of the grid around it. |
| FillingIn.FillBelowInitialMax | domijan2015/filling_in.py:41-102 | For any sigmoid, every step of a channel lies pointwise between its initial activation and the maximum of that activation. |
| FillingIn.EdgeGrid | domijan2015/filling_in.py:37-38 | `edge` is R in the interior of a zero (M+2)×(N+2) array: non-negative, and its interior is R. |
| FillingIn.InitialActivity | domijan2015/filling_in.py:41-47 | `M_ON` starts as sigmoid(14, m) in the interior and 0 on the border. |
| FillingIn.ActivityMask | domijan2015/filling_in.py:51-55 | The mask is binary. It is 1 exactly at interior cells whose input exceeds T_f = 3. |
| FillingIn.ChannelFrozenCells | domijan2015/filling_in.py:41-102 | The 1-pixel border of both channels stays 0 through all steps. An interior cell with input ≤ T_f keeps its non-negative initial activation. |
| FillingIn.RawBrightness | domijan2015/filling_in.py:107 | The interior of threshold(ON − T_f) − threshold(OFF − T_f) has shape M×N. It is positive only where ON > T_f and negative only where OFF > T_f. |
| FillingIn.Normalize | domijan2015/filling_in.py:107-109 | An empty image fails, because `.min()` raises. A flat map at or below 0 fails on 0/0. Otherwise `bright` is M×N, lies in [0,1], reaches 1 and keeps the order of the raw values. It reaches 0 exactly when some raw value is ≤ 0, because the shift adds abs(min), not −min. |
| FillingIn.ShiftFacts | domijan2015/filling_in.py:108 | After adding abs(min), every value is ≥ 0. A value is 0 exactly at a non-positive minimum. The shifted maximum is 0 exactly when the raw map is flat at or below 0. |
| FillingIn.ScaleFacts | domijan2015/filling_in.py:109 | Dividing by the positive maximum maps into [0,1], reaches 1, keeps zeros and preserves order. |
| FillingIn.ChannelStep | domijan2015/filling_in.py:79-102 | One loop iteration of one channel produces exactly FillStep. The neighbour arrays are read from the previous grid, and the running maximum lands in `temp`. For a 0/1 mask, `mask * temp` equals the masked candidate. |
| FillingIn.FillIn | domijan2015/filling_in.py:22-110 | The 300-step loop leaves each channel at its own FillIter, so ON and OFF never read each other. `bright` is Normalize of their combination. |

## Left out

- `get_gabor` (`domijan2015/boundary_detection.py:12-29`) builds its kernel from `sin` and `exp` in floating point.
- The FFT convolutions and `rot90` (`domijan2015/boundary_detection.py:54-57`) are scipy numerics. Their outputs `A_temp` and `B_temp` are inputs indexed by the loop variable k.
- `ON`/`OFF` (`domijan2015/boundary_detection.py:38-39`) only feed the convolutions.
- The `utils` and `retina` modules are not part of this model. `threshold` is taken as max(x, 0) and `heaviside` as 1 for x > 0, else 0.
- `sigmoid` is a function parameter. Nothing is assumed about its values; `FillingIn.InitialActivity` applies it cell by cell to the M×N input, as `utils.sigmoid(14., m_ON)` does elementwise.
- `domijan2015/main.py`, the demos, the tests and `setup.py` are wiring, plotting, file I/O and packaging.
- `M_ON_vid`/`M_OFF_vid` (`domijan2015/filling_in.py:70-71,104-105`) are diagnostic buffers that are never returned.
- Floating-point rounding: pixel values are exact reals. `0/0`, which numpy turns into NaN values, and `.min()` of an empty array, which raises, are the error cases of `FillingIn.Normalize`.
- Arrays updated in place are modelled as values, except the two channel-filling loops, which write into an array. Aliasing of `LBD_h_temp`, `temp_h` and `LBD_h`, and of `GBD_h_temp` and `GBD_h` in the first step, is harmless: each filtered block is computed before it is written. The model states that each step is a function of the previous grid.
- Statement order in `fill_in`: the source interleaves the ON and OFF statements of one iteration. `FillingIn.ChannelStep` runs one whole channel and then the other; the channels share no state.
- BoundaryDetection.Lbd: requires L ≥ 1 and K ≥ 6, as BCS provides (L = 4, K = 12). With L = 0 a negative slice start would wrap around in numpy.
- BoundaryDetection.GbdBlockH: requires Q ≤ P, as BCS provides (Q = 5, P = 15). `GbdBlockV` has the same requirement.
- BoundaryDetection.LbdGbdInteraction: requires F + GBD > 0 everywhere, which BCS guarantees because GBD ≥ 0 and F = 0.01. The division by zero that other arguments could cause is not modelled.
- FillingIn.FillIn: requires R ≥ 0, as BCS's R ∈ {0, 1, 2} always is. With negative edges, `1 + eps·e·e` could be 0.
- FillingIn.ChannelFrozenCells: states the frozen value only for cells whose sigmoid value is ≥ 0. A negative initial value at a mask-0 cell is raised to 0 by the first step, as `np.maximum` does, so it is not frozen.
