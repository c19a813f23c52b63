# Soccer player tracking and scouting: a Dafny model

This project models the two computational cores of a small soccer analysis and
scouting application, and proves properties of them in Dafny.

- **Movement tracking** (`tracker.dfy`, module `MovementTracker`). A video is
  read frame by frame. Each grey frame is thresholded at 200: pixels above 200
  become 255 and all others become 0. The raw image moments m00, m10 and m01 of
  the binary image are computed. When m00 is non-zero, the point
  (int(m10/m00), int(m01/m00)) is appended to the movement path. The method
  `AnalyzeVideoForMovement` keeps the source's loop: it runs while the capture is
  open and stops at the first failed read. It is proved equal to the functional
  path `MovementPath` of the frames read before that failure. The lemmas prove
  what the path means:
  - a frame contributes a point exactly when it has a pixel brighter than 200;
  - that point is the floor of the mean column and the mean row of the bright pixels,
    each bright pixel counted once;
  - the point lies in the bounding box of the bright pixels and inside the frame;
  - only the set of bright pixels matters;
  - the points appear in frame order.
- **Scouting** (`scouting.dfy`, module `Scouting`). The sample player table is
  built from twelve equal-length columns, and the model accepts it only when
  every column has the length of `name`, as a DataFrame does. The injury-risk
  label marks a player 1 when they have more than three injuries. The search
  keeps the players aged at most 25, with 150 to 200 games, of the chosen
  position and preferred foot, in table order. It shows them, or reports that
  no player matches when none is left.

`wrappers.dfy` (module `Wrappers`) holds the shared `Option` and `Result` types.

A grey frame is a sequence of rows of values in 0..255, indexed `f[y][x]`. Row y
is the image's y coordinate and the position in a row is x, so m10 sums x and
m01 sums y, as cv2 does. A video source is a `VideoCapture` value. It holds
whether the source opened and the result of each successive read, where
`None` stands for a read that returns `ret == False`. Reading past the last
result fails.

## Model

| member | source | states |
|---|---|---|
| MovementTracker.Binarize | soccer_analysis_app.py:47 | a pixel becomes 255 exactly when its grey value exceeds 200, and 0 exactly when it does not |
| MovementTracker.ThresholdRow | soccer_analysis_app.py:47 | thresholding a row keeps its length and binarizes every pixel at its position |
| MovementTracker.ThresholdFrame | soccer_analysis_app.py:47 | thresholding a frame keeps its row count and thresholds every row |
| MovementTracker.TruncDiv | soccer_analysis_app.py:52-53 | int() of the quotient equals floor division for the non-negative numerator and positive m00 the moments supply |
| MovementTracker.BrightPixelsMembers | soccer_analysis_app.py:47-50 | the listed bright pixels are exactly the in-frame positions whose value exceeds 200 |
| MovementTracker.MomentsOfBright | soccer_analysis_app.py:47-50 | the moments of the binary image are 255 times the count, the column sum and the row sum of the bright pixels |
| MovementTracker.RowSum | soccer_analysis_app.py:50 | m00 of one row; no ensures of its own, specified by RowSumOfBright and MomentsOfBright |
| MovementTracker.RowXSum | soccer_analysis_app.py:50 | m10 of one row; no ensures of its own, specified by RowXSumOfBright and MomentsOfBright |
| MovementTracker.ImageMoments | soccer_analysis_app.py:50 | cv2.moments of a whole image; no ensures of its own, specified by MomentsOfThresholded and MomentsOfBright |
| MovementTracker.RowSumOfBright | soccer_analysis_app.py:47-50 | m00 of a thresholded row is 255 times the number of its bright pixels |
| MovementTracker.RowXSumOfBright | soccer_analysis_app.py:47-50 | m10 of a thresholded row is 255 times the sum of its bright columns |
| MovementTracker.MomentsOfThresholded | soccer_analysis_app.py:47-50 | any row-by-row thresholding of a frame has m00, m10, m01 equal to 255 times the bright count, column sum and row sum |
| MovementTracker.DetectCentroid | soccer_analysis_app.py:46-53 | the per-frame step; no ensures of its own, specified by CentroidIsMeanOfBright and DetectsIffBright |
| MovementTracker.BrightInRowIncreasing | soccer_analysis_app.py:47-50 | a row's bright pixels are listed with strictly increasing columns |
| MovementTracker.BrightPixelsRowMajor | soccer_analysis_app.py:47-50 | a frame's bright pixels are listed in strict row-major order, so none appears twice |
| MovementTracker.BrightPixelCount | soccer_analysis_app.py:47-50 | the length of the bright-pixel list is the number of bright positions of the frame, so n in CentroidIsMeanOfBright is that count |
| MovementTracker.CentroidIsMeanOfBright | soccer_analysis_app.py:47-53 | the frame step yields (⌊Σx/n⌋, ⌊Σy/n⌋) over its n bright pixels, and nothing when n is 0 |
| MovementTracker.DetectsIffBright | soccer_analysis_app.py:47-53 | a frame yields a point if and only if some pixel exceeds 200 |
| MovementTracker.CentroidInBox | soccer_analysis_app.py:50-53 | the point lies in any box that contains every bright pixel |
| MovementTracker.CentroidInFrame | soccer_analysis_app.py:50-53 | in a rectangular frame the point lies inside the frame |
| MovementTracker.SingleBrightPixel | soccer_analysis_app.py:47-53 | a frame whose only bright pixel is (x0, y0) yields exactly (x0, y0) |
| MovementTracker.SameBrightPixelsSameCentroid | soccer_analysis_app.py:47-53 | two frames of the same shape with the same bright set yield the same result |
| MovementTracker.PixelChangeOnSameSide | soccer_analysis_app.py:47 | changing a pixel to a value on the same side of 200 does not change the result |
| MovementTracker.MovementPath | soccer_analysis_app.py:35-54 | the path built from a sequence of frames has at most one point per frame |
| MovementTracker.Read | soccer_analysis_app.py:39 | one cap.read(): the i-th read result, and a failed read past the last; no ensures of its own, specified through FramesBeforeFailure and AnalyzeVideoForMovement |
| MovementTracker.FramesBeforeFailure | soccer_analysis_app.py:38-41 | the frames processed are the read results up to the first failed read, and the read after them failed whenever any is left |
| MovementTracker.FramesBeforeFailureUnique | soccer_analysis_app.py:38-41 | any frame list meeting those conditions is the one the loop processes |
| MovementTracker.FramesRead | soccer_analysis_app.py:38-41 | no more frames are processed than the source has read results |
| MovementTracker.AnalyzeVideoForMovement | soccer_analysis_app.py:30-56 | the loop returns the path of the frames read before the first failure, no longer than that frame count, and empty when the source did not open |
| MovementTracker.MovementPathAppend | soccer_analysis_app.py:37-54 | the path of two consecutive runs of frames is the concatenation of their paths |
| MovementTracker.MovementPathOfFrame | soccer_analysis_app.py:51-54 | one frame adds its point exactly when it has a bright pixel, and adds nothing otherwise |
| MovementTracker.Detections | soccer_analysis_app.py:37-53 | there is one per-frame result for each frame |
| MovementTracker.MovementPathIsSomes | soccer_analysis_app.py:37-54 | the path is the per-frame results with the empty ones dropped |
| MovementTracker.MovementPathFrameOrder | soccer_analysis_app.py:37-54 | path entry j comes from frame idx[j], the indices increase, and every frame with a point is among them |
| MovementTracker.MovementPathDetectedFrames | soccer_analysis_app.py:37-54 | the path's source frames are, in increasing order, exactly the frames with a bright pixel |
| MovementTracker.PathWithinFrames | soccer_analysis_app.py:50-54 | for width-by-height frames every path point lies in [0, width) × [0, height) |
| MovementTracker.StopsAtFirstFailure | soccer_analysis_app.py:38-41 | results after the first failed read are never processed, and an open source with only successful reads processes all of them |
| Scouting.ToDataFrame | app.py:22-36 | the columns become a table exactly when all twelve have the same length, and the table's columns are the given ones |
| Scouting.ColumnsOf | app.py:22-36 | splitting a table into columns gives twelve columns of the table's length |
| Scouting.TableColumnsRoundTrip | app.py:22-36 | building a table from a table's own columns gives back that table |
| Scouting.SampleColumns | app.py:22-35 | the sample dictionary's twelve columns; no ensures of its own, specified by SampleTableShape |
| Scouting.FetchPlayerData | app.py:21-36 | the sample DataFrame; no ensures of its own, specified by SampleTableShape, SampleInjuryLabels and SampleSearches |
| Scouting.SampleTableShape | app.py:21-36 | the sample data has five players, every column has five entries, and the table holds those columns |
| Scouting.InjuryRiskLabel | app.py:43 | the label is 1 exactly when the injury record exceeds 3, and 0 exactly when it does not |
| Scouting.InjuryRiskLabels | app.py:43 | there is one label per player, and each is 1 exactly when that player's record exceeds 3 |
| Scouting.SampleInjuryLabels | app.py:43 | the sample players' labels are 0, 1, 0, 0, 1 |
| Scouting.Eligible | app.py:166-170 | the five conditions of one row; no ensures of its own, used by FilterSound and FilterComplete |
| Scouting.EligibilityMask | app.py:165-171 | the mask has one entry per player |
| Scouting.Select | app.py:165-171 | boolean indexing keeps at most as many rows as it is given |
| Scouting.SelectIndices | app.py:165-171 | boolean indexing keeps, in increasing original position, exactly the rows whose mask is true |
| Scouting.FilterPlayers | app.py:165-171 | `df[mask]`; no ensures of its own, specified by FilterSound, FilterComplete and FilterKeepsOrder |
| Scouting.FilterSound | app.py:165-171 | every selected player is in the table, is at most 25, has between 150 and 200 games, and has the chosen position and foot |
| Scouting.FilterComplete | app.py:165-171 | every player of the table meeting all five conditions is selected |
| Scouting.FilterKeepsOrder | app.py:165-171 | selected player j is table row idx[j], the indices increase, and a row is among them exactly when it is eligible |
| Scouting.SearchPlayers | app.py:173-207 | the no-match message is shown exactly when no player is eligible; otherwise the shown players are the filtered table, which is non-empty |
| Scouting.SampleSearches | app.py:165-207 | on the sample table, right-footed forwards finds player A only, and right-footed goalkeepers finds nobody |

## Left out

- Video decoding, `cv2.VideoCapture`, `cap.read()` and `cap.release()` are not modelled. A video source is represented by its open flag and the sequence of its read results.
- `isOpened()` is treated as constant during the loop. The source never closes a capture inside the loop.
- `cv2.cvtColor` from BGR to grey is left out. Frames enter the model already grey, as rows of values in 0..255.
- The floating-point quotient `m10 / m00` before `int()` is modelled as exact truncation toward zero. The moments are exact integers, so the model's quotient is their exact floor. A double division can differ from that floor in only two cases, and neither arises at any real frame size. In the first, an exact quotient just below an integer rounds up onto it. In the second, the moments exceed 2^53 and are rounded themselves. The model does not capture either case.
- MovementTracker.TruncDiv: its contract states only the case of a non-negative numerator and a positive divisor. That is the only case the moments produce. The negative cases are in its body but no contract states them.
- The plot of the path and its temporary image are left out (soccer_analysis_app.py:58-70). So is the `zip(*movement_path)` failure on an empty path: the model returns the empty path.
- `player_number` is used only in the plot title (soccer_analysis_app.py:62), which is left out, so the model has no such parameter.
- The statistics stub, the PDF report, the heat map, the player-stat charts, and the Streamlit inputs and output calls are I/O and are left out.
- Training, tuning and predicting with the gradient-boosting and XGBoost models are left out. The model keeps only the injury label those models are trained on (app.py:43).
- The position and preferred foot are parameters, standing for the Streamlit select box and text input.
- The tracker takes the moments of the whole binary image. It selects no connected region, applies no minimum area and skips no frames. The program has no pose, event, zone or statistics-aggregation code, so the model has none either.
