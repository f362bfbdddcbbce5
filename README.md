# Harris chessboard-corner detector, modelled in Dafny

This project models `HarrisChessCornersDetector`, the corner detector of the
chessboard-detector repository. The detector takes an 8-bit grayscale image
through a fixed sequence of stages, each of which resizes public grid fields
of the object and then fills them in nested loops:

1. `computeGradients` writes the Sobel gradients, their magnitude and their
   orientation.
2. One of two corner responses:
   - `cornerResponse_method1` smooths a cross term and the magnitude with a
     Gaussian, scores every interior cell, and keeps a running maximum and
     its location.
   - `cornerResponse_method2` scores every interior cell from the products of
     its own gradients.
3. `thresholding` marks every cell whose response is strictly above a fraction
   of the stored maximum.
4. `nonMaximalSuppression` keeps each marked cell that equals the maximum of
   its window, and appends its coordinate to a list that is never cleared.

The object is the class `Detector.HarrisChessCornersDetector`. Its fields
mirror the C++ members. Each stage is a method whose loops reassign those
fields cell by cell. Each method is proved against a specification function
of its inputs and of the old field values; its `ensures` has the shape
`field == Overlay(Resized(old(field), h, w, d), Target, h, w, margin)`. Here
`Resized` is `std::vector::resize`, which keeps existing cells and pads with
`d`. `Overlay` says that cells at least `margin` from every edge now hold
`Target`, and that all other cells keep their value. Lemmas about the
specification functions state what the stages promise.

Modules (one file each):
- `Grid` (grid.dfy): grids, `resize`, row-major enumerations, and the loop
  bookkeeping every stage shares.
- `Sobel` (sobel.dfy): the kernels and the per-pixel sums.
- `Gaussian` (gaussian.dfy): the smoothing helper.
- `Response` (response.dfy): both response formulas and the running maximum.
- `Threshold` (threshold.dfy): the thresholding mask.
- `Suppression` (suppression.dfy): the window maximum and the corner list.
- `Detector` (detector.dfy): the class and its stage methods.

Values:
- Image pixels are integers 0..255.
- The Sobel sums are exact integers. The source stores them in `float`, but
  they are at most 1020 in magnitude, so the `float` holds them exactly.
- Responses, `k`, the smoothing weights and the threshold are `real`.
- `sqrt`, `atan`, `cos`, `sin` and `exp` are function parameters of the
  methods that call them. The only assumption about `exp` is that it is
  positive.
- `std::numeric_limits<float>::min()` (2^-126) is an exact real constant.

## Model

| member | source | states |
|---|---|---|
| Detector.HarrisChessCornersDetector.constructor | src/harris/harrisdetector.hpp:20-83 | every grid and the corner list start empty; the peak value is whatever the caller gives, since the member has no initialiser; the peak location is (0, 0) |
| Detector.HarrisChessCornersDetector.ComputeGradients | src/harris/harrisdetector.cpp:14-76 | the four gradient grids are resized to the image (old cells kept, new ones 0); each cell one or more away from every edge holds the Sobel-X sum, the Sobel-Y sum, the magnitude and the orientation of that pixel; the other cells keep their value |
| Detector.FreshGradients | src/harris/harrisdetector.cpp:19-64 | on a fresh detector both gradient grids take the image's size; rows 0 and h-1 and columns 0 and w-1 hold 0; every interior cell is the 3x3 Sobel convolution, between -1020 and 1020 |
| Sobel.SobelSums | src/harris/harrisdetector.cpp:54-61 | the nested j, i loop accumulates exactly the closed-form Sobel-X and Sobel-Y sums of the pixel |
| Sobel.GradX | src/harris/harrisdetector.cpp:56-61 | the horizontal Sobel sum of an 8-bit image lies in [-1020, 1020] |
| Sobel.GradY | src/harris/harrisdetector.cpp:56-61 | the vertical Sobel sum of an 8-bit image lies in [-1020, 1020] |
| Sobel.GradGridsAreConvolutions | src/harris/harrisdetector.cpp:40-61 | every interior cell of the gradient grids is the image's 3x3 window weighted by the Sobel-X (resp. Sobel-Y) kernel |
| Sobel.GradGridsCell | src/harris/harrisdetector.cpp:63-64 | at an interior cell the gradient grids hold the closed-form Sobel sums, each within [-1020, 1020] |
| Sobel.GradientGridsCell | src/harris/harrisdetector.cpp:63-73 | at an interior cell, magnitude is sqrt(gx^2 + gy^2) and orientation is atan(gy/gx), or atan(gy/FLOAT_MIN) when gx is 0 |
| Sobel.UniformImageHasNoGradient | src/harris/harrisdetector.cpp:40-61 | an image of a single intensity has gradient 0 in both directions at every interior cell |
| Sobel.KernelsTransposed | src/harris/harrisdetector.cpp:40-49 | the Sobel-Y kernel is the transpose of the Sobel-X kernel |
| Sobel.GradYIsTransposedGradX | src/harris/harrisdetector.cpp:56-59 | gradY of an image at (y, x) equals gradX of the transposed image at (x, y) |
| Grid.ResizeGrid | src/harris/harrisdetector.cpp:22-25 | the `resize(height)` then `row.resize(width, d)` loop yields the grid `Resized` describes |
| Grid.ResizeKeepsExisting | src/harris/harrisdetector.cpp:22-25 | resizing neither clears nor overwrites an existing cell; on a grid with no cells every cell becomes the default |
| Grid.CellsComplete | src/harris/harrisdetector.cpp:184-185 | the row-major enumeration of a nested loop visits exactly the cells of its index rectangle |
| Grid.CellsSorted | src/harris/harrisdetector.cpp:184-185 | that enumeration is strictly increasing in row-major order, so no cell is visited twice |
| Detector.HarrisChessCornersDetector.CrossProducts | src/harris/harrisdetector.cpp:92-99 | M is a fresh zero grid whose interior cells hold (mag cos ori)(mag sin ori) |
| Detector.HarrisChessCornersDetector.ApplyGaussianSmoothing | src/harris/harrisdetector.cpp:204-248 | the output has the input's size, is 0 within sigma of every edge, and holds the normalised-kernel window sum elsewhere; the kernel weights are positive |
| Gaussian.BuildKernel | src/harris/harrisdetector.cpp:217-225 | kernel[y+r][x+r] = weight(x, y) for x, y in [-r, r]; the running sum is the total of all weights in row-major order |
| Gaussian.NormaliseKernel | src/harris/harrisdetector.cpp:227-232 | every kernel entry is divided by the total |
| Gaussian.GaussianKernel | src/harris/harrisdetector.cpp:214-232 | the normalised (2r+1)x(2r+1) kernel has positive entries summing to exactly 1 |
| Gaussian.NormalisedSum | src/harris/harrisdetector.cpp:228-232 | dividing every weight by s divides the total by s |
| Gaussian.GaussWeightPositive | src/harris/harrisdetector.cpp:221 | the weight exp(-(x^2+y^2)/(2 sigma^2)) is positive for every offset |
| Gaussian.WindowSum | src/harris/harrisdetector.cpp:237-242 | the j, i loop accumulates the kernel-weighted sum of the window centred on (y, x) |
| Gaussian.Smoothed | src/harris/harrisdetector.cpp:209-245 | the smoothed grid has the input's size and is 0 at every cell within r of an edge |
| Gaussian.SmoothingKeepsConstant | src/harris/harrisdetector.cpp:234-245 | because the kernel sums to 1, a constant image stays that constant at every cell at least r from the edges |
| Detector.HarrisChessCornersDetector.CornerResponseMethod1 | src/harris/harrisdetector.cpp:78-120 | the response grid is resized to the magnitude grid and its interior holds the method-1 response; (peak value, location) is the strict-greater running maximum over the interior in row-major order, from the old peak |
| Detector.HarrisChessCornersDetector.ScoreMethod1 | src/harris/harrisdetector.cpp:106-119 | the scoring loop writes every interior response and leaves the peak at the running maximum of the interior scan |
| Detector.HarrisChessCornersDetector.ScoreMethod1Row | src/harris/harrisdetector.cpp:109-118 | one row of the scoring loop extends both the written cells and the running maximum by exactly that row |
| Response.ScoreCell | src/harris/harrisdetector.cpp:110-117 | one cell: its response is written, and the peak moves to it exactly when the response is strictly greater |
| Response.ScanMaxSnoc | src/harris/harrisdetector.cpp:113-117 | visiting one more cell changes the peak to that cell exactly when its value is strictly greater |
| Response.ScanMaxBounds | src/harris/harrisdetector.cpp:108-118 | the scan ends at least at the start value and at least every visited value; if nothing beats the start, value and location are unchanged |
| Response.ScanMaxLocation | src/harris/harrisdetector.cpp:108-118 | if some visited value beats the start, the peak is a visited cell holding the final value, and every earlier visited cell is strictly smaller |
| Response.InteriorPeakBounds | src/harris/harrisdetector.cpp:108-118 | after the interior scan the peak value is at least the start and every interior response, and is either the start or some interior response, so it is max(start, every interior response); with no interior response above the start the peak is the start |
| Response.InteriorPeakLocation | src/harris/harrisdetector.cpp:108-118 | when some interior response beats the start, the location is the first interior cell in row-major order attaining the final maximum |
| Detector.HarrisChessCornersDetector.Products | src/harris/harrisdetector.cpp:131-141 | dxdx, dxdy and dydy are zero grids whose interior holds gx*gx, gx*gy and gy*gy |
| Detector.HarrisChessCornersDetector.CornerResponseMethod2 | src/harris/harrisdetector.cpp:122-151 | the response grid is resized to the magnitude grid and its interior holds a*c - b^2 - k(a+c)^2 of the pixel's own products; border cells keep their value; the peak value and location are unchanged |
| Response.SingleWindowResponse | src/harris/harrisdetector.cpp:145-148 | with unsmoothed products a*c = b^2, so the response is -k(gx^2+gy^2)^2, never positive when k >= 0 |
| Response.Method2GridNonPositive | src/harris/harrisdetector.cpp:135-150 | every interior cell method 2 writes is -k(gx^2+gy^2)^2, at most 0 when k >= 0 |
| Detector.HarrisChessCornersDetector.Thresholding | src/harris/harrisdetector.cpp:153-172 | the mask is resized to the response grid, and every cell (borders included) is set when its response > percent * maxResponse; no cell is cleared |
| Threshold.MarkedCells | src/harris/harrisdetector.cpp:157-171 | on a fresh mask a cell is set exactly when response > percent * maxResponse; on any mask every cell already set stays set |
| Threshold.LowerPercentage | src/harris/harrisdetector.cpp:162-169 | with a non-negative maximum a lower percentage marks a superset of cells; with a negative maximum a subset |
| Threshold.ZeroCellMarkedOnlyBelowZero | src/harris/harrisdetector.cpp:162-169 | a cell with response 0, such as an unwritten border cell, becomes set only when the maximum is negative |
| Threshold.PeakIsMarked | src/harris/harrisdetector.hpp:55-57 | with a percentage below 1, the cell holding a positive maximum is marked |
| Threshold.FullPercentMarksNothing | src/harris/harrisdetector.hpp:55-57 | with a percentage of at least 1 and a non-negative maximum bounding every response, nothing new is marked |
| Detector.HarrisChessCornersDetector.NonMaximalSuppression | src/harris/harrisdetector.cpp:174-202 | the suppressed mask is resized and gains exactly the corners' cells; the corner list is its old contents followed by this call's corners in row-major order |
| Detector.HarrisChessCornersDetector.SuppressRow | src/harris/harrisdetector.cpp:184-200 | one row of the suppression loop extends the mask and the corner list by exactly that row's corners |
| Detector.HarrisChessCornersDetector.SuppressAt | src/harris/harrisdetector.cpp:185-199 | one cell: a non-candidate is skipped; a candidate is kept (mask set, (x, y) appended) exactly when it equals its window maximum |
| Suppression.WindowMaximum | src/harris/harrisdetector.cpp:188-193 | the window loop computes the `std::max` fold from 0.0 over the (2 wo + 1)-square window centred on the pixel |
| Suppression.RowMaxSpec | src/harris/harrisdetector.cpp:190-192 | folding a row into the accumulator gives at least the accumulator and at least each cell, and equals one of them |
| Suppression.WindowRowsSpec | src/harris/harrisdetector.cpp:188-193 | the window accumulator is >= 0.0 and >= every window cell, and is 0.0 or some window cell's value |
| Suppression.WindowMaxIff | src/harris/harrisdetector.cpp:188-196 | a cell equals its window maximum exactly when its response is >= 0 and >= every response in the window, so ties survive |
| Suppression.EmittedSpec | src/harris/harrisdetector.cpp:195-199 | the appended coordinates are exactly the visited cells that pass the corner test, in visiting order |
| Suppression.CornerMember | src/harris/harrisdetector.cpp:184-198 | (x, y) is appended exactly when it is at least wo from every edge, is a candidate, and is a non-negative local maximum of its window |
| Suppression.CornersSorted | src/harris/harrisdetector.cpp:184-198 | the coordinates one call appends are strictly increasing in row-major order, so none repeats |
| Suppression.SuppressedCell | src/harris/harrisdetector.cpp:178-197 | a mask cell is set afterwards exactly when it was set before or it is a corner |
| Suppression.SuppressedBorder | src/harris/harrisdetector.cpp:178-185 | cells closer than wo to an edge keep their value |
| Suppression.SuppressCell | src/harris/harrisdetector.cpp:186-198 | one visited cell: kept when it is a candidate equal to its window maximum, and mask and list then grow by it alone |
| Detector.FreshCorners | src/harris/harrisdetector.cpp:162-198 | thresholding a fresh mask and then suppressing reports (x, y) exactly when it is at least wo from every edge, above percent * maxResponse, and a non-negative window maximum |

The default arguments (sigma 1, k 0.04, threshold percentage 0.5, window
offset 1; src/harris/harrisdetector.hpp:44, 53, 58, 64, 88) are the constants
`Detector.DEFAULT_SIGMA`, `DEFAULT_K`, `DEFAULT_THRESHOLD_PERCENT` and
`DEFAULT_WINDOW_OFFSET`. They are the default values of the matching
parameters of `CornerResponseMethod1`, `CornerResponseMethod2`,
`Thresholding`, `NonMaximalSuppression` and `ApplyGaussianSmoothing`, so
`Thresholding()` and `NonMaximalSuppression()` mean what the C++ calls
without arguments mean.

## Left out

- Floating point: arithmetic is exact over `real`, so IEEE rounding of the
  products, responses and kernel weights is not modelled. `DEFAULT_K` is
  exactly 0.04, while `0.04F` in the source is not.
- Sobel.Orientation: when sumX is 0 the model passes `atan` the finite real
  sumY / 2^-126. In `float` that quotient overflows to plus or minus infinity
  once |sumY| >= 4, so the source gives the same orientation for every such
  sumY of one sign, while the model may give different ones.
- `sqrt`, `atan`, `cos`, `sin` and `exp` are uninterpreted parameters,
  because their numerical behaviour is not the point of the detector.
  `exp` is only required to be positive.
- Non-integer `sigma` in `applyGaussianSmoothing` and `cornerResponse_method1`
  is not modelled. The source truncates `2 * sigma + 1` to an int and
  converts `sigma` to int in its loop bounds. The model takes an integer
  radius `sigma >= 1`; with sigma 0 the source divides 0 by 0.
- Detector.HarrisChessCornersDetector.NonMaximalSuppression: takes the window
  offset as a `nat`. A negative offset in the source makes the loops read
  outside the grid.
- Undefined behaviour is excluded by preconditions rather than modelled:
  - an empty image or grid (the source reads `image[0]`);
  - ragged rows;
  - calling a stage before the stage whose grids it reads has sized them.
- Detector.HarrisChessCornersDetector.Thresholding: does not require the
  documented range (0, 1) of the percentage, since the code does not check
  it. Threshold.PeakIsMarked and Threshold.FullPercentMarksNothing show what
  goes wrong outside it.
- Detector.HarrisChessCornersDetector.CornerResponseMethod2: `sigma` and
  `windowOffset` are accepted and unused, exactly as in the source.
- The indeterminate initial `m_maxResponse` becomes the constructor's
  argument. Any value the caller's initialisation leaves there can be
  supplied, and every method-1 property is stated relative to it.
- Response.ScanMax passes over coordinates outside the grid. The interior
  enumeration never produces one (Grid.CellsBounds).
- The row and cell helper methods (ScoreMethod1Row, SuppressRow, SuppressAt)
  are the source's inner loops split out for the proof. They do not add behaviour.
- Method 1 computes det = smoothedM - smoothedMag and
  trace = 2 * smoothedMag (lines 110-111), which is not the textbook Harris
  determinant. The model follows the code as written.
- src/cornerdebugger/ (OpenCV drawing and image files) and app/main.cpp
  (image loading and OpenCV's reference detector) are not part of this
  model: they are rendering and I/O over a library outside the repository.
