# ViewportPerspective, modelled in Dafny

ViewportPerspective is a Unity image effect that warps the camera image onto four corner handles: the
user drags or nudges the corners at runtime, and the effect maps the unit square onto them through a
homography (a projective 4x4 matrix) solved by Gaussian elimination. This project models the
component's state handling and the solver, and proves what each operation does.

- `Vectors` (`vectors.dfy`): Unity's Vector2, Vector4 and Matrix4x4 over exact reals, and the two
  maps between viewport space [0,1]² and clip space [-1,1]².
- `TextTokens` (`text_tokens.dfy`): the .NET string operations the component relies on:
  `IndexOf`, `LastIndexOf`, `Split(char)`, and `Join`, which is how the save loop concatenates.
- `LinearSystems` (`linear_systems.dfy`): the theory of a flat row-major augmented matrix. It covers
  rows and cells, the three row operations, solution sets ("equivalent" systems), the echelon shape
  elimination leaves, and why back substitution solves a unit upper-triangular system.
- `HomographyMath` (`homography.dfy`): `Math.cs`. `GaussianElimination` works in place on an
  `array<real>`, one method per source loop, and each method is proved against a function on
  sequences. `FindHomography` builds the 8×9 system and places the solution in the matrix.
- `Interaction` (`interaction.dfy`): the pure rules of the component:
  - the hit test's nearest-corner scan and its sibling rule;
  - the Tab cycle through `Mathf.Repeat`;
  - the drag/nudge step;
  - the aspect-ratio lookup that sizes the editing grid.
- `CornerPersistence` (`persistence.dfy`): how corners are stored:
  - the `Data` record (corners flattened to floats), with its `Flatten`/`Unflatten` loops;
  - the streaming-assets path and its directory;
  - the PlayerPrefs string of eight space-separated numbers.
- `Viewport` (`viewport.dfy`): the `ViewportPerspective` class itself. Its fields are:
  - `corners`, an `array<Vec2>` in clip space;
  - `isDirty`, `matrix`, `selectedIndex`, `hoveredIndex`, `interactable`, `serialization`, `saveKey`
    and `name`.

  Its methods `Reset`, `SetCorner`, `SetInteractable`, `CycleSelection`, `HitTest`,
  `UpdateInteraction`, `Update`, `Render`, `TryLoadRuntimeSettings`, `SaveRuntimeSettings` and
  `Awake` update those fields in place.

Unity itself is not modelled: input, time, the camera's screen-to-viewport mapping, the material, the
PlayerPrefs store (a `map<string, string>`) and the streaming-assets folder (a
`map<string, FileContent>`) are all passed in. Whatever the component would write to a store is
returned. Floats are Dafny `real`s: the solver's properties hold under exact arithmetic, the same
setting in which the source's own comments state them.

Three behaviours follow the code, although a reader of the code might expect a consistent scale, a dirty flag set only on real movement, and a failed load when the string is malformed:
- The hit test compares local distances measured in clip space with sibling distances measured in
  viewport space. A sibling's squared distances are therefore a quarter of what the same geometry
  gives locally, and `Interaction.IdenticalSiblingBlocks` shows that an identical sibling takes the pointer whenever it is inside the viewport and not exactly on a corner.
- `UpdateInteraction` marks the matrix dirty whenever a corner is selected and the mouse or an arrow
  key is held, even when the nudge is zero.
- Loading from PlayerPrefs reports success whenever the key exists, even when the string does not
  split into eight tokens. In that case the corners are left as they were, and `Awake` does not reset
  them.

## Model

| member | source | states |
|---|---|---|
| Vectors.ViewportClipRoundTrip | Assets/ViewportPerspective/ViewportPerspective.cs:168-183 | the viewport→clip map `p*2-1` and the clip→viewport map `p*0.5+0.5` are inverse to each other |
| Vectors.ClipDistanceIsFourTimesViewport | Assets/ViewportPerspective/ViewportPerspective.cs:497-509 | squared distances in clip space are exactly four times those in viewport space |
| TextTokens.IndexOf | Assets/ViewportPerspective/ViewportPerspective.cs:277 | the first position of the character, or -1 exactly when it does not occur |
| TextTokens.LastIndexOf | Assets/ViewportPerspective/ViewportPerspective.cs:560 | the last position of the character, or -1 exactly when it does not occur |
| TextTokens.Split | Assets/ViewportPerspective/ViewportPerspective.cs:277 | the result of String.Split is never empty and no piece contains the separator |
| TextTokens.JoinSplit | Assets/ViewportPerspective/ViewportPerspective.cs:277 | joining the pieces of a split gives back the string |
| TextTokens.SplitAfterPrefix | Assets/ViewportPerspective/ViewportPerspective.cs:277 | splitting at the first separator peels off the piece in front of it |
| TextTokens.SplitJoin | Assets/ViewportPerspective/ViewportPerspective.cs:277 | splitting the join of separator-free pieces gives back the same pieces |
| TextTokens.JoinSnoc | Assets/ViewportPerspective/ViewportPerspective.cs:296 | appending a piece to the save string adds one separator and the piece |
| LinearSystems.RowAt | Assets/ViewportPerspective/Base/Math/Math.cs:88 | cell (r, c) of the flat m×n matrix is `A[r*n+c]` |
| LinearSystems.CellsDetermine | Assets/ViewportPerspective/Base/Math/Math.cs:77 | two m×n matrices agreeing on every (r, c) are equal |
| LinearSystems.SwapRows | Assets/ViewportPerspective/Base/Math/Math.cs:92-97 | the specification of the row exchange; the length is kept |
| LinearSystems.RowOfSwap | Assets/ViewportPerspective/Base/Math/Math.cs:92-97 | after the exchange, row i is old row k, row k is old row i, and every other row is unchanged |
| LinearSystems.DivideRow | Assets/ViewportPerspective/Base/Math/Math.cs:101-102 | the specification of dividing one row by the pivot; the length is kept |
| LinearSystems.RowOfDivide | Assets/ViewportPerspective/Base/Math/Math.cs:101-102 | only row i changes, to its cells divided by p |
| LinearSystems.SubtractRow | Assets/ViewportPerspective/Base/Math/Math.cs:107-108 | the specification of subtracting f times row i from row u; the length is kept |
| LinearSystems.RowOfSubtract | Assets/ViewportPerspective/Base/Math/Math.cs:107-108 | only row u changes, to row u less f times row i |
| LinearSystems.SwapEquivalent | Assets/ViewportPerspective/Base/Math/Math.cs:91-97 | exchanging two rows keeps the solution set |
| LinearSystems.DivideEquivalent | Assets/ViewportPerspective/Base/Math/Math.cs:99-102 | dividing a row by a non-zero pivot keeps the solution set |
| LinearSystems.SubtractEquivalent | Assets/ViewportPerspective/Base/Math/Math.cs:105-110 | subtracting a multiple of another row keeps the solution set |
| LinearSystems.EquivalentTransitive | Assets/ViewportPerspective/Base/Math/Math.cs:85-114 | solution-set equality chains across successive steps |
| LinearSystems.PivotedSkip | Assets/ViewportPerspective/Base/Math/Math.cs:90-113 | skipping a column that is zero from row i down keeps the echelon shape |
| LinearSystems.PivotedAdvance | Assets/ViewportPerspective/Base/Math/Math.cs:104-111 | a leading 1 at (i, j) with zeros below it extends the echelon shape by one pivot |
| LinearSystems.BackSubstitutionSolves | Assets/ViewportPerspective/Base/Math/Math.cs:117 | with a leading 1 on every diagonal cell, the back-substituted last column solves the system |
| LinearSystems.UnitUpperUniqueSolution | Assets/ViewportPerspective/Base/Math/Math.cs:33-36 | a unit upper-triangular system has at most one solution |
| HomographyMath.Cell | Assets/ViewportPerspective/Base/Math/Math.cs:88 | reading `A[r*n+c]` gives cell (r, c) of the matrix the array holds |
| HomographyMath.PivotRow | Assets/ViewportPerspective/Base/Math/Math.cs:87-88 | the pivot row lies in [i, m), has the largest absolute value in column j, and is the first such row |
| HomographyMath.PivotScanFirstMax | Assets/ViewportPerspective/Base/Math/Math.cs:88 | the left-to-right scan with strict `>` ends on the first row of maximal absolute value |
| HomographyMath.FindPivot | Assets/ViewportPerspective/Base/Math/Math.cs:87-88 | the loop returns exactly that pivot row |
| HomographyMath.SwapRowsInPlace | Assets/ViewportPerspective/Base/Math/Math.cs:92-97 | the in-place loop leaves exactly the row exchange in the array |
| HomographyMath.DivideRowInPlace | Assets/ViewportPerspective/Base/Math/Math.cs:101-102 | the in-place loop leaves exactly the row division in the array |
| HomographyMath.SubtractRowInPlace | Assets/ViewportPerspective/Base/Math/Math.cs:107-108 | the in-place loop leaves exactly the row subtraction in the array |
| HomographyMath.EliminateFromRows | Assets/ViewportPerspective/Base/Math/Math.cs:105-110 | eliminating below row i clears column j in each treated row and leaves rows up to i alone |
| HomographyMath.EliminateFromEquivalent | Assets/ViewportPerspective/Base/Math/Math.cs:105-110 | elimination below the pivot keeps the solution set |
| HomographyMath.EliminateBelow | Assets/ViewportPerspective/Base/Math/Math.cs:105-110 | the loop over rows below i performs exactly that elimination |
| HomographyMath.PivotStepColumn | Assets/ViewportPerspective/Base/Math/Math.cs:99-110 | after swap, divide and eliminate, A[i,j] = 1, A[u,j] = 0 for every u in (i, m), and rows above i are unchanged |
| HomographyMath.PivotStepEquivalent | Assets/ViewportPerspective/Base/Math/Math.cs:90-110 | one pivot step keeps the solution set |
| HomographyMath.ForwardFromEquivalent | Assets/ViewportPerspective/Base/Math/Math.cs:85-114 | the whole forward pass keeps the solution set |
| HomographyMath.PivotStepPivoted | Assets/ViewportPerspective/Base/Math/Math.cs:90-111 | a pivot step extends the echelon shape by the pivot in column j |
| HomographyMath.ZeroPivotColumn | Assets/ViewportPerspective/Base/Math/Math.cs:88-90 | a zero at the chosen pivot means column j is zero from row i down |
| HomographyMath.ForwardFromPivoted | Assets/ViewportPerspective/Base/Math/Math.cs:85-114 | the forward pass ends in echelon form with the pivots it recorded |
| HomographyMath.ForwardKeepsSolutions | Assets/ViewportPerspective/Base/Math/Math.cs:85-114 | forward elimination of the whole (n-1)×n system keeps its solutions |
| HomographyMath.ForwardEchelon | Assets/ViewportPerspective/Base/Math/Math.cs:85-114 | forward elimination of the whole system ends in echelon form |
| HomographyMath.EliminationStep | Assets/ViewportPerspective/Base/Math/Math.cs:86-112 | one pass of the while body reports whether the pivot was non-zero and leaves the pivot step or nothing |
| HomographyMath.ForwardEliminate | Assets/ViewportPerspective/Base/Math/Math.cs:81-114 | the while loop from i = j = 0 leaves exactly the forward pass in the array |
| HomographyMath.SubstituteRow | Assets/ViewportPerspective/Base/Math/Math.cs:117 | the inner loop changes only cell (i, m), lowering it by the sum of the coefficients times the known values |
| HomographyMath.BackSubstitute | Assets/ViewportPerspective/Base/Math/Math.cs:117 | rows m-2 down to 0 get their back-substituted right-hand side, and no coefficient changes |
| HomographyMath.GaussianSolves | Assets/ViewportPerspective/Base/Math/Math.cs:33-36 | an equivalent echelon system with diagonal pivots, back-substituted, gives the one and only solution of the original |
| HomographyMath.GaussianElimination | Assets/ViewportPerspective/Base/Math/Math.cs:77-119 | the in-place solver keeps the eliminated coefficients and back-substitutes the last column; with a pivot on every diagonal cell, column 8 is the unique solution of the original system |
| HomographyMath.RowOfEquations | Assets/ViewportPerspective/Base/Math/Math.cs:38-48 | rows 2k and 2k+1 of the 72-cell system are the x and y equations of correspondence k, whose last cells are -dst[k].x and -dst[k].y |
| HomographyMath.BuildSystem | Assets/ViewportPerspective/Base/Math/Math.cs:38-48 | the system has 8×9 = 72 cells |
| HomographyMath.NewSystem | Assets/ViewportPerspective/Base/Math/Math.cs:38-48 | the fresh array holds exactly that system |
| HomographyMath.Placement | Assets/ViewportPerspective/Base/Math/Math.cs:55-73 | the placed matrix has 0 in every fixed cell (row 2 and [2,2] included), 1 at [3,3], and its eight free cells in the order h11…h32 are the solution |
| HomographyMath.PlacementOfCoefficients | Assets/ViewportPerspective/Base/Math/Math.cs:55-73 | a matrix of that shape is determined by its eight free cells |
| HomographyMath.LastColumnCells | Assets/ViewportPerspective/Base/Math/Math.cs:55-71 | column 8 of the solved system is P[8], P[17], …, P[71] |
| HomographyMath.ReadTransform | Assets/ViewportPerspective/Base/Math/Math.cs:55-73 | reading the slots gives the placement of the solved column |
| HomographyMath.PlacementImage | Assets/ViewportPerspective/Base/Math/Math.cs:26-31 | the placed matrix maps (x, y, 0, 1) to (h11 x + h12 y + h13, h21 x + h22 y + h23, 0, h31 x + h32 y + 1) |
| HomographyMath.EquationXHolds | Assets/ViewportPerspective/Base/Math/Math.cs:30-39 | an x row holds for h exactly when the placed matrix maps the source point's x onto the destination's |
| HomographyMath.EquationYHolds | Assets/ViewportPerspective/Base/Math/Math.cs:31-40 | a y row holds for h exactly when the placed matrix maps the source point's y onto the destination's |
| HomographyMath.CorrespondenceRows | Assets/ViewportPerspective/Base/Math/Math.cs:38-48 | correspondence k is mapped exactly when both of its rows hold |
| HomographyMath.SolutionsAreFits | Assets/ViewportPerspective/Base/Math/Math.cs:26-48 | h solves the system if and only if its placement maps all four source points onto their destinations |
| HomographyMath.UniqueFit | Assets/ViewportPerspective/Base/Math/Math.cs:33-36 | a unique solution gives a placement that fits, and is the only fitting placement |
| HomographyMath.FindHomography | Assets/ViewportPerspective/Base/Math/Math.cs:20-74 | the result always has the placement shape; when every column got a diagonal pivot, it maps the four sources onto the destinations and is the only such matrix |
| Interaction.CornerInViewport | Assets/ViewportPerspective/ViewportPerspective.cs:168-172 | (0,0) for an index outside 0..3, otherwise the viewport point whose clip image is the stored corner |
| Interaction.Nearest | Assets/ViewportPerspective/ViewportPerspective.cs:494-502 | the scan's index is -1 or a valid corner |
| Interaction.NearestIsFirstMinimum | Assets/ViewportPerspective/ViewportPerspective.cs:494-502 | the scan finds the lowest index of strictly minimal squared distance below 999999, and gives -1 exactly when no corner is that near |
| Interaction.IdenticalSiblingBlocks | Assets/ViewportPerspective/ViewportPerspective.cs:497-513 | with distances mixed across scales, an identical sibling takes the pointer whenever the pointer is inside and off the corners |
| Interaction.Repeat | Assets/ViewportPerspective/ViewportPerspective.cs:223 | Mathf.Repeat stays in [0, length] |
| Interaction.RepeatFourIsMod | Assets/ViewportPerspective/ViewportPerspective.cs:223 | `(int) Mathf.Repeat(t, 4)` on a whole number is t mod 4, also for t = -1 |
| Interaction.TabSelectionCycles | Assets/ViewportPerspective/ViewportPerspective.cs:220-227 | with a selection, Tab steps it by +1 (or -1 with left shift) mod 4, staying in 0..3; without one, it takes the hovered index |
| Interaction.NudgeVelocityScale | Assets/ViewportPerspective/ViewportPerspective.cs:461-463 | the nudge moves by (h, v·aspect) times 1 with shift, 0.02 with control, and 0.1 otherwise |
| Interaction.DragOrNudge | Assets/ViewportPerspective/ViewportPerspective.cs:453-463 | with the mouse held the corner lands on the pointer; otherwise it moves by the nudge velocity times the frame time |
| Interaction.FirstMatchFinds | Assets/ViewportPerspective/ViewportPerspective.cs:522-536 | the first-match search finds an entry whose window holds the aspect, or -1 exactly when none does |
| Interaction.AspectWindowsDisjoint | Assets/ViewportPerspective/ViewportPerspective.cs:522-546 | no aspect lies in the open ±0.002 windows of two different ratios |
| Interaction.AspectComponentsFromTable | Assets/ViewportPerspective/ViewportPerspective.cs:522-537 | GetAspectComponents answers the unique matching table entry's tiles, and (false, 0, 0) when nothing matches |
| Interaction.GridTiles | Assets/ViewportPerspective/ViewportPerspective.cs:247-248 | the grid is the tile counts of the first aspect-table entry within ±0.002 of the aspect, and 10×10 when no entry matches |
| CornerPersistence.Flattened | Assets/ViewportPerspective/ViewportPerspective.cs:564-565 | the flat array has 2n floats |
| CornerPersistence.FlattenedLayout | Assets/ViewportPerspective/ViewportPerspective.cs:565 | corner c's x is at 2c and its y at 2c+1 |
| CornerPersistence.LayoutIsFlattened | Assets/ViewportPerspective/ViewportPerspective.cs:565 | any array with that layout is the flattened corners |
| CornerPersistence.UnflattenFlatten | Assets/ViewportPerspective/ViewportPerspective.cs:564-594 | unflattening the flattened corners gives them back |
| CornerPersistence.FlattenUnflatten | Assets/ViewportPerspective/ViewportPerspective.cs:564-594 | an even-length float array survives the trip through corners |
| CornerPersistence.Data.Flatten | Assets/ViewportPerspective/ViewportPerspective.cs:564-565 | the nested loops leave a fresh array holding the flattened corners, and the corners untouched |
| CornerPersistence.Data.Unflatten | Assets/ViewportPerspective/ViewportPerspective.cs:593-594 | the loop leaves a fresh corner array holding the unflattened floats |
| CornerPersistence.Data.Serialize | Assets/ViewportPerspective/ViewportPerspective.cs:557-572 | the directory is the path before its last '/', and what gets written is the flattened corners |
| CornerPersistence.Data.Deserialize | Assets/ViewportPerspective/ViewportPerspective.cs:575-597 | null exactly for a missing file; an unreadable file gives an empty record; otherwise the record's corners are its floats unflattened |
| CornerPersistence.DirectoryOf | Assets/ViewportPerspective/ViewportPerspective.cs:560 | the path is the directory, a '/', and a last part without '/' |
| CornerPersistence.AssetPathHasDirectory | Assets/ViewportPerspective/ViewportPerspective.cs:186 | every streaming-assets path contains a '/' |
| CornerPersistence.AssetDirectory | Assets/ViewportPerspective/ViewportPerspective.cs:560 | for an object name without '/', the directory is `<streamingAssets>/<type name>` |
| CornerPersistence.StoredCornersRoundTrip | Assets/ViewportPerspective/ViewportPerspective.cs:564-594 | corners written to a record come back unchanged |
| CornerPersistence.ThreeCornerRecordAccepted | Assets/ViewportPerspective/ViewportPerspective.cs:282 | a six-float record yields three corners, which the load as written accepts |
| CornerPersistence.AcceptedRecords | Assets/ViewportPerspective/ViewportPerspective.cs:282 | the corrected check accepts exactly the records of 8 or 9 floats, and every saved set of four corners |
| CornerPersistence.CornerTokens | Assets/ViewportPerspective/ViewportPerspective.cs:296 | there are two tokens per corner |
| CornerPersistence.EncodeCorners | Assets/ViewportPerspective/ViewportPerspective.cs:295-296 | the save loop builds the eight tokens x0 y0 … x3 y3 joined by single spaces |
| CornerPersistence.DecodeCorners | Assets/ViewportPerspective/ViewportPerspective.cs:277-278 | the load gives corners exactly when the string splits into eight tokens, and then four of them |
| CornerPersistence.ParseTokens | Assets/ViewportPerspective/ViewportPerspective.cs:278 | corner c is parsed back from tokens 2c and 2c+1 |
| CornerPersistence.PlayerPrefsRoundTrip | Assets/ViewportPerspective/ViewportPerspective.cs:277-296 | with a space-free number format that parsing undoes, loading the saved string gives the four corners back |
| Viewport.UniqueSaveKey | Assets/ViewportPerspective/ViewportPerspective.cs:395-398 | the key is "ViewportPerspective " followed by exactly the GUID, and so is never empty |
| Viewport.ResetIsSourceInClipSpace | Assets/ViewportPerspective/ViewportPerspective.cs:155-162 | the reset corners are the homography's unit-square sources moved to clip space |
| Viewport.ViewportPerspective.constructor | Assets/ViewportPerspective/ViewportPerspective.cs:24-46 | four zero corners, dirty, no selection or hover, not interactable, PlayerPrefs storage |
| Viewport.ViewportPerspective.Reset | Assets/ViewportPerspective/ViewportPerspective.cs:155-162 | the corners become (-1,-1), (-1,1), (1,1), (1,-1), and the matrix is marked dirty; nothing else changes |
| Viewport.ViewportPerspective.GetCorner | Assets/ViewportPerspective/ViewportPerspective.cs:168-172 | (0,0) outside 0..3; otherwise the viewport position of the stored corner |
| Viewport.ViewportPerspective.SetCorner | Assets/ViewportPerspective/ViewportPerspective.cs:178-183 | for 0..3 only that corner changes, GetCorner then returns p, and dirty is set; any other index changes nothing, the flag included |
| Viewport.ViewportPerspective.SetInteractable | Assets/ViewportPerspective/ViewportPerspective.cs:104-117 | interactable takes the value, and switching it off at runtime clears the selection |
| Viewport.ViewportPerspective.CycleSelection | Assets/ViewportPerspective/ViewportPerspective.cs:220-227 | the selection becomes the Tab rule's result and stays in -1..3 |
| Viewport.ViewportPerspective.HitTest | Assets/ViewportPerspective/ViewportPerspective.cs:473-519 | the two loops return exactly the hit-test rule's hover, in -1..3, and change nothing |
| Viewport.ViewportPerspective.UpdateInteraction | Assets/ViewportPerspective/ViewportPerspective.cs:441-470 | hover from the hit test; selection from hover on mouse down; while the mouse or an arrow is held, only the selected corner moves (dragged or nudged) and dirty is set; otherwise no corner and no flag changes |
| Viewport.ViewportPerspective.Update | Assets/ViewportPerspective/ViewportPerspective.cs:207-231 | nothing in edit mode; the hotkey without command toggles interaction, and switching it off drops the selection. While interactable, the corners start from the reset square when reset is pressed; Tab cycles the old selection using the old hover; the hover is the hit test on those corners; mouse down selects the hover; the selected corner is dragged or nudged while the mouse or an arrow is held; the flag is set exactly when it was set, reset was pressed or a corner moved |
| Viewport.ViewportPerspective.Render | Assets/ViewportPerspective/ViewportPerspective.cs:234-250 | without a shader nothing changes; otherwise the matrix is recomputed only when dirty, when a material was just created, or when the editor's material lacks it. A recomputed matrix is a placement fitting the corners in the non-degenerate case, the flag is then clear, and the matrix is kept otherwise. The grid size is sent only while interacting at runtime |
| Viewport.ViewportPerspective.TryLoadRuntimeSettings | Assets/ViewportPerspective/ViewportPerspective.cs:271-287 | None loads nothing. PlayerPrefs succeeds exactly when the key exists and overwrites the corners only for an eight-token string. Streaming assets takes a readable record as the new corner array. Unlike line 282, a record must give exactly four corners (see Findings) |
| Viewport.ViewportPerspective.LoadCorners | Assets/ViewportPerspective/ViewportPerspective.cs:277-278 | an eight-token string overwrites the four corners in place with its decoded values; any other string leaves them |
| Viewport.ViewportPerspective.LoadRecord | Assets/ViewportPerspective/ViewportPerspective.cs:281-284 | loading succeeds exactly when the file exists and its record gives four corners; the corner array is then a fresh array holding them, and otherwise is untouched |
| Viewport.ViewportPerspective.RecomputeMatrix | Assets/ViewportPerspective/ViewportPerspective.cs:241-243 | the new matrix is a placement that fits the corners whenever elimination pivots on every diagonal cell, and the flag is clear |
| Viewport.ViewportPerspective.StoreRecord | Assets/ViewportPerspective/ViewportPerspective.cs:300-302 | the files map gains the flattened corners at the component's path, and nothing else changes |
| Viewport.ViewportPerspective.SaveRuntimeSettings | Assets/ViewportPerspective/ViewportPerspective.cs:290-305 | PlayerPrefs stores the eight-token string under the save key, made first when empty; streaming assets stores the flattened corners at the component's path |
| Viewport.ViewportPerspective.Awake | Assets/ViewportPerspective/ViewportPerspective.cs:189-195 | a save key is ensured, then the corners are loaded, or reset when loading reports failure. For PlayerPrefs with the key present, the corners are decoded or kept and the flag is unchanged. For streaming assets, an accepted record becomes the corners and the flag is unchanged; otherwise the corners are reset and the flag is set |
| Viewport.PlayerPrefsSaveLoad | Assets/ViewportPerspective/ViewportPerspective.cs:276-297 | what SaveRuntimeSettings stores in PlayerPrefs, TryLoadRuntimeSettings reads back as the same four corners |
| Viewport.StreamingAssetsSaveLoad | Assets/ViewportPerspective/ViewportPerspective.cs:280-302 | what SaveRuntimeSettings stores in streaming assets is accepted on load and gives back the same four corners |

## Left out

- Floating point: all arithmetic is over exact reals. Rounding, `Mathf.Abs` on floats, and the
  solver's behaviour on nearly singular systems are not modelled.
- `Pbefore` in FindHomography (Math.cs:50-51) is a copy that is never read; it is not modelled.
- HomographyMath.FindHomography: the conclusion is proved only when every column got a pivot on the
  diagonal. That non-singular systems always lead to diagonal pivots is not proved.
- HomographyMath.FindHomography: requires at least four source and four destination points, as the
  source indexes src[0..3] and dst[0..3].
- HomographyMath.GaussianElimination: requires the array to hold exactly (n-1)·n cells. That is the
  shape the source indexes, and its only caller passes 72 cells with n = 9.
- HomographyMath.SubtractRowInPlace: requires u ≠ i. The source only calls it with u > i.
- HomographyMath.GaussianElimination returns the same array it was given, so the model mutates it in
  place and returns nothing.
- Multi-display handling via `Display.RelativeMouseAt` (ViewportPerspective.cs:478-489) is a
  platform call. The pointer arrives already in this camera's viewport space, so the
  `_multiDisplayOffset` bookkeeping and the early -1 for another display are not modelled.
- Sibling discovery (`UpdateOtherViewsLookup`, `FindObjectsOfType`) is an engine call. The siblings
  arrive as a sequence of (corners, pointer in the sibling's viewport) values.
- Unity input polling, `Time.deltaTime` and `ScreenToViewportPoint` are engine calls; they arrive as
  an `InputStep`/`Frame` value.
- Rendering is engine work and is not modelled:
  - `Graphics.Blit`, the material keywords and colours (the `edgeAntialiasing`/`backgroundColor`
    setters, `OnValidate`);
  - the command buffer, `PrepareForRuntime` and `UpdateUIMeshes`, which are visual handle geometry.
- Render models `TryCreateBlitMaterial` only through its effect on the dirty flag. The material comes
  in as a `MaterialState`.
- File and PlayerPrefs I/O, the BinaryFormatter, and `Directory.CreateDirectory` are engine and
  runtime calls. Stores are maps, and what a file holds is a `FileContent`.
- Exceptions other than an IOException while deserializing are not modelled. Neither is a failing
  `float.Parse`.
- `float.ToString`/`float.Parse` are the function parameters `format` and `parse`. The round trips
  assume a space-free format that parsing undoes.
- GUID generation is passed in as a string.
- `OnApplicationQuit` only calls SaveRuntimeSettings and is not modelled separately.
- A null save key is modelled as the empty string.
- Viewport.ViewportPerspective.TryLoadRuntimeSettings: the streaming-assets branch differs from
  ViewportPerspective.cs:282. The source accepts any record that gives at least one corner. The model
  accepts only a record that gives exactly four corners, through `LoadRecord` and
  `CornerPersistence.AcceptsLoaded`. So a six-float record loads as three corners in the source but
  is rejected here, and `Awake` then resets. The as-written rule is kept as
  `CornerPersistence.AcceptsLoadedAsWritten` (see Findings).
- Viewport.ViewportPerspective.Awake: follows the same four-corner rule for streaming assets.
- CornerPersistence.DirectoryOf: requires a '/' in the path. Without one the source's `Substring`
  throws, and every streaming-assets path has one.

## Findings

| source | as written | input that shows it | evidently intended | confidence | as-written member | corrected member |
|---|---|---|---|---|---|---|
| Assets/ViewportPerspective/ViewportPerspective.cs:282-283 | the streaming-assets load accepts any non-empty corner array and installs it as `_cornerPoints` | a record of six floats gives three corners and is accepted; `GetCorner(3)` and `FindHomography` (which reads `dst[3]`) then index past the array | accept only a record that gives exactly four corners | medium, not executed | CornerPersistence.ThreeCornerRecordAccepted | CornerPersistence.AcceptedRecords |

The class uses the corrected rule (`CornerPersistence.AcceptsLoaded`) in
`Viewport.ViewportPerspective.TryLoadRuntimeSettings`, so the four-corner invariant `Valid()` holds
after every load.
