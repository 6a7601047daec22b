# Mandelbrot set: escape-time model

A Dafny model of the escape-time core of the Mandelbrot-Set script
`MandelbrotSet.py`. A point c = a + bi is iterated under z := z² + c, written
on real/imaginary pairs (`new_a = a_z² − b_z² + a`, `new_b = 2·a_z·b_z + b`),
and stops at the first update whose norm is strictly greater than 2.

- Module `Escape` (`escape.dfy`) holds the two per-point routines as pure
  recursive functions, mirroring the tail-recursive `helper`s:
  - `Threshold` / `ThresholdFrom` is `MiniMandelbrot_threshold`, the count mode.
  - `Membership` / `MembershipFrom` is `MiniMandelbrot_1_0`, the binary mode.
  An independent specification sits beside them: `Orbit(c, n)`, the iterate at
  counter n, with `Orbit(c, 0) = c`; `Update(c, k) = Orbit(c, k + 1)`, the value
  tested at counter k; `BoundedThrough`; and `IsEscapeCount`. Lemmas connect
  the routines to that specification.
- Module `Grid` (`grid.dfy`) holds the grid fillers `Mandelbrot_threshold` and
  `Mandelbrot_1_0` as imperative methods over `array2<real>` meshgrids. They
  allocate a fresh `array2<int>`, run the nested `i`/`j` loops, fill a zeroed
  row buffer `temp` and copy it into output row `i`. Apart from their
  diagnostic prints, the two source functions differ only in the per-point
  routine they call. So they share one walk, `FillGrid`, selected by a `Mode`.

Conventions:
- The norm test `np.linalg.norm([new_a, new_b]) > 2` is the exact-real test
  `new_a² + new_b² > 4`. `NormTestEquivalent` proves the two agree for any
  non-negative norm t with t² equal to the squared norm.
- Cell (i, j) of the output holds the point `(ma[i, j], mb[i, j])`. With a
  meshgrid built from axes x and y, row i is the imaginary sample y[i] and
  column j is the real sample x[j].

Where the program's own comments and docstrings and its code disagree, the
model follows the code:
- The comment at `MandelbrotSet.py:16` says z = 0. The code enters the helper
  as `helper(0, a, b)` (`:51`, `:111`), so the iteration starts at z = c and
  the first tested value is c² + c.
- The docstring at `:34` says the binary mode decides "after J iterations".
  The counter starts at 0, so up to J + 1 updates are made, and the bound
  J = 0 still makes one.
- The docstring at `:92` says a count of 0 means the first computation
  already exceeds 2. Under the bound J = 0 the count is also 0 when it does
  not (`ThresholdZero`).

One property the code does not have: the binary result is not 1 wherever the
count is J. A point escaping exactly at counter J has count J and binary
result 0 (`SaturatedCountButNotMember`).

## Model

| member | source | states |
|---|---|---|
| Escape.ThresholdFrom | MandelbrotSet.py:95-110 | entered at a counter at most J, the helper returns a value between that counter and J |
| Escape.Threshold | MandelbrotSet.py:88-111 | the escape count of a point lies in [0, J] |
| Escape.ThresholdFromIsEscapeCount | MandelbrotSet.py:95-110 | entered at counter k holding the k-th iterate, with updates 0..k-1 bounded, the helper returns the escape count |
| Escape.ThresholdIsFirstEscape | MandelbrotSet.py:88-111 | the count is r exactly when updates 0..r-1 have norm at most 2 and, unless r = J, update r has norm above 2 (both directions) |
| Escape.ThresholdZero | MandelbrotSet.py:91-105 | the count is 0 exactly when J = 0 or the first update c² + c already has norm above 2 |
| Escape.ThresholdStable | MandelbrotSet.py:103-108 | a count k < J is returned unchanged under every larger bound |
| Escape.ThresholdMonotone | MandelbrotSet.py:103-110 | raising the bound never lowers the count |
| Escape.MembershipFrom | MandelbrotSet.py:36-50 | the binary helper returns 0 or 1 |
| Escape.Membership | MandelbrotSet.py:31-51 | the binary result is 0 or 1 |
| Escape.MembershipFromIsBoundedness | MandelbrotSet.py:36-50 | entered at counter k holding the k-th iterate, with updates 0..k-1 bounded, the helper returns 1 exactly when updates 0..J are all bounded |
| Escape.MembershipIsBoundedness | MandelbrotSet.py:31-51 | the binary result is 1 exactly when all J + 1 updates have norm at most 2, and 0 exactly when one of them exceeds 2 |
| Escape.MembershipVsThreshold | MandelbrotSet.py:44-50 | binary 1 holds exactly when the count is J and update J is bounded; binary 1 implies count J; a count below J implies binary 0 |
| Escape.MembershipAntitone | MandelbrotSet.py:44-50 | raising the bound can turn a binary 1 into 0 but never a 0 into 1 |
| Escape.SaturatedCountButNotMember | MandelbrotSet.py:103-110 | some point and bound give count J and binary result 0, so the converse of the one-way agreement fails |
| Escape.StepSquaresNorm | MandelbrotSet.py:96-97 | the square part of an update has squared norm SqNorm(z)², and a real iterate with a real c gives a real update |
| Escape.EscapedByParts | MandelbrotSet.py:98-103 | a real or imaginary part beyond 2 in magnitude makes the norm test fire; a point that fires has a part whose square exceeds 2 |
| Escape.NormTestEquivalent | MandelbrotSet.py:98-103 | for a norm t ≥ 0 whose square is the squared norm, `t > 2` holds exactly when the squared norm exceeds 4 |
| Escape.ThreeEscapesAtOnce | MandelbrotSet.py:96-105 | for c = 3 the first update is 12, so the count is 0 and the binary result is 0 for every J |
| Escape.OriginNeverEscapes | MandelbrotSet.py:95-111 | the origin is a fixed point: count J and binary result 1 for every J |
| Escape.BoundaryNeverEscapes | MandelbrotSet.py:103-110 | for c = −2 every update has norm exactly 2; the strict test keeps it bounded: count J, binary 1 |
| Escape.EscapesAtCounterOne | MandelbrotSet.py:95-111 | a point whose first update is bounded and whose second escapes has count 1 for J ≥ 1 and 0 for J = 0, and binary result 1 only for J = 0 |
| Escape.OneEscapesAtCounterOne | MandelbrotSet.py:95-111 | for c = 1 the first update (2) has norm exactly 2 and the second (5) escapes; the count is 1 for J ≥ 1 and 0 for J = 0; the binary result is 1 only for J = 0 |
| Grid.CellValue | MandelbrotSet.py:136-139 | a cell value is at most J in count mode and at most 1 in binary mode |
| Grid.FillGrid | MandelbrotSet.py:132-141 | the output is a fresh n×n grid whose cell (i, j) holds the per-point value of (ma[i, j], mb[i, j]) |
| Grid.MandelbrotThreshold | MandelbrotSet.py:113-141 | a fresh n×n grid whose every cell holds the escape count of its point, in [0, J] |
| Grid.MandelbrotBinary | MandelbrotSet.py:55-82 | a fresh n×n grid whose every cell holds the binary result of its point, 0 or 1 |

## Left out

- Plotting and image output (`contourf`, `savefig`, `show`): pure I/O.
- The diagnostic prints in both grid fillers. They do not affect the returned grid.
- The module-level sampling with `np.arange` and `np.meshgrid`, and the top-level calls. These are library calls with float rounding; the grid methods take the meshgrid arrays as parameters.
- IEEE double arithmetic: rounding, overflow to infinity and NaN. The model computes over exact reals. With NaN neither `test > 2` nor `test <= 2` holds and the source helper returns `None`; that path does not exist in the model.
- Escape.Threshold: negative bounds are excluded by the type `nat`. For J < 0 the source returns 0 when the first update escapes and `None` otherwise.
- Escape.Membership: negative bounds are excluded as for `Threshold`.
- Grid.FillGrid: only square grids are accepted. The output is allocated with the transposed shape and the row buffer has the width of the row count, so a non-square grid raises an index or broadcast error in the source.
- Grid.FillGrid: `mb` smaller than `ma` in either dimension is excluded. On that input the source raises an `IndexError` at `meshg_b[i][j]` (`MandelbrotSet.py:78`, `:136`).
- Grid.FillGrid: for an empty grid the source raises an `IndexError` on `meshg_a[0]`; the model returns an empty grid.
- The output grid holds integers; the source stores them in a float array created by `np.zeros`.
- Python's recursion depth limit: it does not affect the values computed.
