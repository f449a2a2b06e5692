# Lab exercises: quadtree codec, Reversi boards, KenKen regions, merchants, Tiny Turtle

This project models, in Dafny, the sequential logic of a set of small Java and
Python lab exercises and proves what that logic promises.

- **Quadtree image codec** (`qtree.dfy`, module `QuadTree`). A square grayscale
  image is compressed into a quadtree whose nodes are leaves with a pixel value
  or `QUAD_SPLIT` (-1) nodes with four children: upper left, upper right, lower
  left, lower right. The tree is written as preorder tokens, parsed back by
  recursive descent, and painted back into a raw image. The class `QTree`
  keeps the source's fields (`root`, `DIM`, the `image` grid, `rawSize`,
  `compressedSize`). Parsing and serialising are functions; compression and
  uncompression fill and read an `array2`.
- **Reversi server board** (`reversi.dfy`, module `ServerReversi`). A class
  holding the board, whose turn it is and the move count. It places validated
  moves, flips bracketed runs in the eight directions, tests for the end of the
  game and counts the winner.
- **Reversi client board** (`board.dfy`, module `ClientBoard`). The client's
  copy, with allocation, set-up, move checking, unchecked replay of the
  server's moves, and the turn and status state machine.
- **Shared grid reasoning** (`grids.dfy`, module `Grids`). Both boards are
  specified over one description of a board as rows of cells: counting cells,
  the starting position, rays in the eight directions, which cells a move flips
  (`FlipsVia`) and the board after a move (`Played`). The direction-walking
  loops shared by both `flipPieces` are the methods `FlipRay` and `FlipRun`.
- **KenKen regions** (`regions.dfy`, module `Regions`). A region holds a number,
  a target and a list of values, and checks the values against the target by
  sum, "max minus the rest", product, or "max divided by the rest". Java's
  32-bit `int` arithmetic is modelled with `Wrap32` and `TruncDiv`.
- **Merchants** (`merchants.dfy`, module `Merchants`). A three-way partition by
  location, quicksort and quickselect. The random pivot is a caller-supplied
  index function.
- **Tiny Turtle macro expansion** (`tinyturtle.dfy`, module `TinyTurtle`). The
  two string rewriters: polygon commands become iterate commands, and iterate
  commands are unrolled innermost first.
- `wrappers.dfy` holds `Option`, `Result` and `Outcome`. The exceptions the
  source raises in the modelled operations become `Err`/`Fail` results, except
  where "Left out" names a precondition instead. `decimal.dfy` holds the decimal rendering
  and parsing of integers used by the string-building code.

Where the source and its documentation disagree, the model follows the code.
The quadtree's `compressedSize` is one more than the number of nodes, because
it starts at 1 (for the size line of the file) and each region counts itself;
the model follows that count, not a count of nodes alone.

## Model

| member | source | states |
|---|---|---|
| QuadTree.Preorder | Labs/Lab9/src/QTree.java:304-314 | emits one token per node, the node's own value first |
| QuadTree.Parse | Labs/Lab9/src/QTree.java:96-106 | every successful parse consumes at least one token |
| QuadTree.ParseSound | Labs/Lab9/src/QTree.java:96-106 | a successful parse yields a well-formed tree, and the consumed tokens are exactly that tree's preorder, followed by the unread rest |
| QuadTree.ParsePreorder | Labs/Lab9/src/QTree.java:96-106 | parsing the preorder of any well-formed tree, followed by anything, returns that tree and exactly the rest (round trip) |
| QuadTree.ParseShortSplit | Labs/Lab9/src/QTree.java:103 | a `QUAD_SPLIT` followed by fewer than four tokens fails with "not enough data" |
| QuadTree.LeavesAndSplits | Labs/Lab9/src/QTree.java:261-264 | each split has four children, so a tree has 3 x splits + 1 leaves |
| QuadTree.IntSqrt | Labs/Lab9/src/QTree.java:284 | the integer square root: r*r <= n < (r+1)*(r+1) |
| QuadTree.SqrtOfQuarter | Labs/Lab9/src/QTree.java:260-264 | the side of `size/4` is half the side of `size`, for every size, so recursing on quarters is recursing on halved sides |
| QuadTree.CompressedLeaf | Labs/Lab9/src/QTree.java:253-266 | compression yields a leaf exactly when the region is uniform, and that leaf holds the region's first pixel |
| QuadTree.CompressedSplit | Labs/Lab9/src/QTree.java:258-265 | a region that is not uniform becomes a split whose children are the trees of its four quadrants, in the order UL, UR, LL, LR |
| QuadTree.CompressedPaints | Labs/Lab9/src/QTree.java:134-150 | painting the compressed tree of a power-of-two region reproduces every pixel of that region |
| QuadTree.CompressedWellFormed | Labs/Lab9/src/QTree.java:253-266 | with no pixel equal to -1, the compressed tree is well formed |
| QuadTree.CompressedIsMinimal | Labs/Lab9/src/QTree.java:253-266 | no split of a compressed tree has four leaves with the same value |
| QuadTree.CompressRoundTrip | Labs/Lab9/src/QTree.java:134-150 | compress, write and parse give back the same tree with no tokens left over, and uncompressing it gives back the image |
| QuadTree.RowMajorBound | Labs/Lab9/src/QTree.java:286-290 | the row-major index of an in-range cell lies within the n*n values read |
| QuadTree.QTree.constructor | Labs/Lab9/src/QTree.java:42-48 | an empty tree: no root, dimension and both sizes zero |
| QuadTree.QTree.UncompressRegion | Labs/Lab9/src/QTree.java:134-150 | paints every cell of the node's region with the value the tree gives it, and no cell outside the region |
| QuadTree.QTree.Uncompress | Labs/Lab9/src/QTree.java:167-179 | reads the side from the size token; on a parse error keeps root and image; otherwise the root is the parsed tree and the image is the painted tree (unpainted cells 0); leftover tokens are ignored and the size counters are untouched |
| QuadTree.QTree.Write | Labs/Lab9/src/QTree.java:206-213 | fails with no tree; otherwise outputs rawSize followed by the preorder tokens, whose count equals compressedSize after compression |
| QuadTree.QTree.CanCompressBlock | Labs/Lab9/src/QTree.java:224-234 | true iff every pixel of the region equals its first pixel |
| QuadTree.QTree.CompressRegion | Labs/Lab9/src/QTree.java:253-266 | returns the compressed tree of the region of the image and adds its node count to compressedSize |
| QuadTree.QTree.Compress | Labs/Lab9/src/QTree.java:277-293 | rawSize is the number of values, the image is filled row-major, and the root is the compressed image with compressedSize = 1 + node count; with no values it fails after setting the counters |
| Grids.StartCount | Labs/Lab8/src/reversi/Reversi.java:48-66 | the starting position has exactly n*n - 4 empty cells |
| Grids.RunEnd | Labs/Lab8/src/reversi/Reversi.java:119-127 | the walk along a direction stops at the first step that is off the board or not an opponent disc |
| Grids.FlipsIff | Labs/Lab8/src/reversi/Reversi.java:105-144 | a cell flips iff, in some direction, it lies in a run of opponent discs that ends on the board at a disc of the mover |
| Grids.FlipsOnlyOther | Labs/Lab8/src/reversi/Reversi.java:105-144 | only opponent discs on the board, never the moved-to cell or an empty cell, are flipped |
| Grids.PlayedCount | Labs/Lab8/src/reversi/Reversi.java:168-173 | placing a disc on an empty cell and flipping removes exactly one empty cell |
| Grids.PlaceThenFlip | Labs/Lab8/src/reversi2/Board.java:312-326 | placing the disc, then flipping from it, gives the board after the move |
| Grids.FlipRay | Labs/Lab8/src/reversi/Reversi.java:119-141 | walks one direction and flips its run exactly when it is bracketed, leaving every other cell as it was |
| Grids.FlipRun | Labs/Lab8/src/reversi/Reversi.java:133-140 | turns every disc of a bracketed run into the mover's colour |
| ServerReversi.Opposing | Labs/Lab8/src/reversi/Reversi.java:107-108 | the colour flipped is a player, and never the mover's |
| ServerReversi.Mover | Labs/Lab8/src/reversi/Reversi.java:170 | the colour placed is a player's |
| ServerReversi.NewBoard | Labs/Lab8/src/reversi/Reversi.java:48-66 | a new DIM x DIM board, every cell empty but the centre four: player one on the main diagonal, player two on the other |
| ServerReversi.Reversi.constructor | Labs/Lab8/src/reversi/Reversi.java:48-66 | every cell empty but the centre four (player one on the diagonal), four moves made, player one to move, and the empty-cell invariant holds |
| ServerReversi.Reversi.OccupiedNeighbor | Labs/Lab8/src/reversi/Reversi.java:83-96 | true iff one of the eight on-board neighbours, not the cell itself, holds a disc |
| ServerReversi.Reversi.FlipPieces | Labs/Lab8/src/reversi/Reversi.java:105-144 | each cell becomes the mover's colour iff it flips in one of the eight directions, and otherwise keeps its value |
| ServerReversi.Reversi.MakeMove | Labs/Lab8/src/reversi/Reversi.java:154-176 | rejects, in order, a bad row, a bad column, an occupied cell and a cell with no neighbour, and then changes nothing; succeeds iff the move is legal, and then counts the move, places the mover's disc, flips and passes the turn, keeping the empty-cell invariant |
| ServerReversi.Reversi.Place | Labs/Lab8/src/reversi/Reversi.java:168-175 | a legal move counts itself, places and flips, and toggles the turn |
| ServerReversi.Reversi.GameOver | Labs/Lab8/src/reversi/Reversi.java:183-185 | true iff numMoves = DIM*DIM, and equally iff no cell is empty |
| ServerReversi.Reversi.GetWinner | Labs/Lab8/src/reversi/Reversi.java:193-215 | the winner by player one's discs against all other cells (empty cells count for player two) |
| ServerReversi.WinnerOfFullBoard | Labs/Lab8/src/reversi/Reversi.java:193-215 | on a full board the other cells are exactly player two's discs, and the two counts add to n*n |
| ClientBoard.Move.Opponent | Labs/Lab8/src/reversi2/Board.java:31-37 | swaps the players and keeps NONE |
| ClientBoard.OpponentTwice | Labs/Lab8/src/reversi2/Board.java:31-37 | the opponent of the opponent is the player |
| ClientBoard.DirsAreUnits | Labs/Lab8/src/reversi2/Board.java:44-54 | the eight directions are exactly the eight neighbour steps, each once |
| ClientBoard.DirIndex | Labs/Lab8/src/reversi2/Board.java:44-54 | every neighbour step is the step of some direction |
| ClientBoard.Board.constructor | Labs/Lab8/src/reversi2/Board.java:78-102 | before allocation there is no board, no status, no current piece and it is not this player's turn |
| ClientBoard.Board.Allocate | Labs/Lab8/src/reversi2/Board.java:112-122 | refuses a board smaller than MIN_DIM and changes nothing; otherwise a new DIM x DIM board, every move still to make, status NOT_OVER, not this player's turn |
| ClientBoard.Board.InitializeGame | Labs/Lab8/src/reversi2/Board.java:129-153 | the starting position, four fewer moves left, player one's piece next, not this player's turn |
| ClientBoard.Board.DidMyTurn | Labs/Lab8/src/reversi2/Board.java:184-186 | clears myTurn and touches nothing else |
| ClientBoard.Board.MakeMove | Labs/Lab8/src/reversi2/Board.java:299-305 | sets myTurn and touches nothing else |
| ClientBoard.Board.FlipPieces | Labs/Lab8/src/reversi2/Board.java:213-256 | each cell becomes the mover's colour iff it flips along one of the Dir directions, and otherwise keeps its value |
| ClientBoard.Board.OccupiedNeighbor | Labs/Lab8/src/reversi2/Board.java:266-277 | true iff one of the eight on-board neighbours holds a disc |
| ClientBoard.Board.IsValidMove | Labs/Lab8/src/reversi2/Board.java:288-294 | true iff the cell is on the board, empty and has an occupied neighbour |
| ClientBoard.Board.MoveMade | Labs/Lab8/src/reversi2/Board.java:312-326 | without checking, one move fewer left in every case; a cell off the board fails with an index error and changes nothing else; with no current piece yet it fails (a null-pointer error) leaving every other cell, the turn and the piece as they were; otherwise the current piece is placed and flipped, the current piece becomes its opponent, and it is not this player's turn |
| ClientBoard.Board.GameWon | Labs/Lab8/src/reversi2/Board.java:331-335 | status becomes I_WON, nothing else changes |
| ClientBoard.Board.GameLost | Labs/Lab8/src/reversi2/Board.java:340-344 | status becomes I_LOST, nothing else changes |
| ClientBoard.Board.GameTied | Labs/Lab8/src/reversi2/Board.java:349-353 | status becomes TIE, nothing else changes |
| ClientBoard.Board.Error | Labs/Lab8/src/reversi2/Board.java:360-365 | status becomes ERROR, nothing else changes |
| Regions.Wrap32 | Labs/Lab4/src/regions/AddRegion.java:14-20 | the 32-bit result is in int range, congruent to the exact value, and equal to it when that is in range |
| Regions.WrapAdd | Labs/Lab4/src/regions/AddRegion.java:16-18 | wrapping after every addition equals wrapping once at the end |
| Regions.WrapMul | Labs/Lab4/src/regions/MultiplyRegion.java:16-18 | wrapping after every multiplication equals wrapping once at the end |
| Regions.Max | Labs/Lab4/src/regions/SubtractRegion.java:17 | the maximum is one of the values and no value exceeds it |
| Regions.QuotientIsDivisionByProduct | Labs/Lab4/src/regions/DivideRegion.java:17-23 | for positive values, dividing max in turn by every non-max value equals dividing it once by their product |
| Regions.QuotientStep | Labs/Lab4/src/regions/DivideRegion.java:21 | one truncating division step by a positive value stays exact |
| Regions.EmptyRegions | Labs/Lab4/src/regions/AddRegion.java:14-20 | with no values: add holds iff target = 0, multiply iff target = 1, subtract and divide fail as Collections.max does |
| Regions.ZeroDivisor | Labs/Lab4/src/regions/DivideRegion.java:21 | a zero among the non-max values makes divide fail with division by zero |
| Regions.ZeroProduct | Labs/Lab4/src/regions/MultiplyRegion.java:16-18 | any zero value makes the product 0 |
| Regions.SubtractTwo | Labs/Lab4/src/regions/SubtractRegion.java:17-24 | for two distinct 32-bit values, subtract holds iff the target is their distance wrapped to a Java `int`, which is the distance itself when it is at most INT_MAX |
| Regions.SubtractWraps | Labs/Lab4/src/regions/SubtractRegion.java:17-24 | `max - value` wraps: the region [INT_MAX, -1] holds for the target INT_MIN |
| Regions.SkipsEveryMax | Labs/Lab4/src/regions/SubtractRegion.java:19-23 | every copy of max is skipped: a region of equal values leaves max unchanged |
| Regions.DivideTwo | Labs/Lab4/src/regions/DivideRegion.java:17-24 | for two distinct positive values, divide holds iff max / min is the target |
| Regions.JoinLast | Labs/Lab4/src/regions/Region.java:46-52 | the joined string ends with the last value and no trailing separator, and is non-empty |
| Regions.TermsFront | Labs/Lab4/src/regions/Region.java:46-52 | each value but the last is followed by ", " |
| Regions.Region.constructor | Labs/Lab4/src/regions/Region.java:20-24 | stores number, target and the operator, with no values |
| Regions.Region.AddValue | Labs/Lab4/src/regions/Region.java:30-32 | appends the value at the end; number and target stay |
| Regions.Region.GetNumber | Labs/Lab4/src/regions/Region.java:38-40 | returns the region's number |
| Regions.Region.GetValuesString | Labs/Lab4/src/regions/Region.java:46-52 | the values joined by ", " ("" for none) |
| Regions.Region.VerifyAdd | Labs/Lab4/src/regions/AddRegion.java:14-20 | true iff the 32-bit sum equals the target |
| Regions.Region.VerifySubtract | Labs/Lab4/src/regions/SubtractRegion.java:16-25 | fails on no values; otherwise true iff max minus every non-max value equals the target |
| Regions.Region.VerifyMultiply | Labs/Lab4/src/regions/MultiplyRegion.java:14-20 | true iff the 32-bit product equals the target |
| Regions.Region.VerifyDivide | Labs/Lab4/src/regions/DivideRegion.java:16-25 | fails on no values or a zero divisor; otherwise true iff max truncating-divided by every non-max value equals the target |
| Regions.Region.Verify | Labs/Lab4/src/regions/Region.java:59 | dispatches to the check of the region's operator |
| Regions.Region.ToString | Labs/Lab4/src/regions/AddRegion.java:23-25 | "Region n: {target: t, values: v op: c, b}" with the operator's symbol and the verdict; the verdict's failure propagates |
| Merchants.Partition | Labs/Lab3/src/merchants.py:107-123 | the three lists are exactly the elements below, at and above the pivot's location, each in input order |
| Merchants.PartMembers | Labs/Lab3/src/merchants.py:116-122 | an element is in a part iff it is in the input and on that side of the pivot |
| Merchants.PartSplit | Labs/Lab3/src/merchants.py:107-123 | the three parts together are a permutation of the input |
| Merchants.QuickSort | Labs/Lab3/src/merchants.py:93-104 | keeps the length, terminating on strictly shorter parts |
| Merchants.QuickSortCorrect | Labs/Lab3/src/merchants.py:93-104 | the result is a permutation of the input, sorted by location |
| Merchants.QuickSelect | Labs/Lab3/src/merchants.py:75-91 | for any pivot choice, succeeds iff 0 <= k < len, with an element of the input; for any other k, including every k on an empty list, the descent reaches an empty part and fails with the ValueError of `randint(0, -1)` |
| Merchants.QuickSelectIsKth | Labs/Lab3/src/merchants.py:75-91 | the result's location is the k-th smallest: at most k locations lie below it and more than k lie at or below it |
| Merchants.SelectMatchesSort | Labs/Lab3/src/merchants.py:42-49 | quickselect and quicksort agree on the location of the k-th merchant, so both median searches give the same location |
| Decimal.NatToString | Labs/Lab1/src/tinyturtle.py:76 | the decimal rendering is non-empty, all digits, with no leading zero |
| Decimal.DigitValue | Labs/Lab1/src/tinyturtle.py:72 | a digit's value is below 10 and renders back as the digit |
| TinyTurtle.Find | Labs/Lab1/src/tinyturtle.py:51-52 | an index at or after `from` holding the character, or -1 |
| TinyTurtle.FindFirst | Labs/Lab1/src/tinyturtle.py:51-52 | no occurrence lies between `from` and the index found, and none after `from` when -1 is returned, so Find is the first occurrence |
| TinyTurtle.IndexOf | Labs/Lab1/src/tinyturtle.py:56 | str.index: for a character in the text, the first index holding it |
| TinyTurtle.SliceIs | Labs/Lab1/src/tinyturtle.py:74 | Python slicing: the plain slice in range, clamped at the end |
| TinyTurtle.RepeatChars | Labs/Lab1/src/tinyturtle.py:59 | a string written n times is n times as long and contains only characters of the original |
| TinyTurtle.RStripIs | Labs/Lab1/src/tinyturtle.py:60 | a prefix with no trailing whitespace, the removed part being all whitespace |
| TinyTurtle.PolygonTextFewerP | Labs/Lab1/src/tinyturtle.py:76 | the rewrite holds fewer 'P' than before |
| TinyTurtle.PolygonStepFewerP | Labs/Lab1/src/tinyturtle.py:71-76 | one rewrite of the first polygon command removes a 'P' |
| TinyTurtle.ExpandPolygons | Labs/Lab1/src/tinyturtle.py:69-77 | a successful expansion has no 'P' left; text without 'P' comes back unchanged |
| TinyTurtle.ExpandPolygon | Labs/Lab1/src/tinyturtle.py:62-77 | the loop computes ExpandPolygons |
| TinyTurtle.PolygonShape | Labs/Lab1/src/tinyturtle.py:71-76 | "P<n> <3 chars>" becomes "I<n> F<3 chars> L<360 div n> @" in place |
| TinyTurtle.PolygonErrors | Labs/Lab1/src/tinyturtle.py:72-73 | a zero side count divides by zero; a missing or non-digit count is a value error |
| TinyTurtle.InnerStartIsI | Labs/Lab1/src/tinyturtle.py:55-56 | the inner loop ends on an 'I' at or after the first one |
| TinyTurtle.InnermostFirst | Labs/Lab1/src/tinyturtle.py:51-56 | the iterate expanded is the last 'I' before the first '@', or the first 'I' when none lies before it |
| TinyTurtle.IterateErrors | Labs/Lab1/src/tinyturtle.py:57 | with a single 'I' in the text, an 'I' that ends the text is an IndexError and an 'I' followed by a non-digit is a ValueError |
| TinyTurtle.IterateShape | Labs/Lab1/src/tinyturtle.py:51-59 | "I<n> body@ " with no command in its body and no '@' before it becomes body repeated n times, wherever other iterations open before it; text before and after is kept |
| TinyTurtle.NestedStep | Labs/Lab1/src/tinyturtle.py:51-59 | nested iterations expand innermost first: "I2 I3 F1 @ @ " becomes "I2 F1 F1 F1 @ " |
| TinyTurtle.InnerStartReaches | Labs/Lab1/src/tinyturtle.py:55-56 | from an earlier 'I', the inner loop stops at the last 'I' before the '@' |
| TinyTurtle.ExpandIterate | Labs/Lab1/src/tinyturtle.py:42-60 | the nested loops compute ExpandIterations; a successful expansion has no 'I' and no trailing whitespace, and text with no 'I' comes back right-stripped |
| TinyTurtle.EndlessStep | Labs/Lab1/src/tinyturtle.py:51-59 | on "@ I2 F1 " (its '@' before its 'I') one pass of the loop gives back the same text |
| TinyTurtle.FixedPointEndless | Labs/Lab1/src/tinyturtle.py:50-59 | text that one pass rewrites to itself still holds an 'I' after any number of passes, so the loop never ends on it |
| TinyTurtle.EndlessExpansion | Labs/Lab1/src/tinyturtle.py:50-59 | no bound on the number of passes finishes "@ I2 F1 " |
| TinyTurtle.ExpandInnermost | Labs/Lab1/src/tinyturtle.py:51-59 | one pass of the outer loop is one IterateStep: the innermost iteration unrolled, or its error |
| TinyTurtle.InnermostIteration | Labs/Lab1/src/tinyturtle.py:55-56 | the inner loop stops on the 'I' InnerStart describes |

## Left out

- File reading and writing in the quadtree codec: raw images and compressed files are sequences of integers, and `write` returns its tokens.
- `Math.sqrt` is replaced by the exact integer square root; for the non-negative sizes that occur, its truncated value is the same.
- QuadTree.QTree.CompressRegion: works on the region's side length rather than its pixel count; `SqrtOfQuarter` shows the two recursions visit the same regions.
- QuadTree.CompressRoundTrip: requires a power-of-two side and no pixel of the image equal to -1, since a leaf of value -1 serialises like a split.
- The compressor's proofs reason about the image as a value (`Pixels`, the grid of its cells), which compression only reads; `CompressRegion` receives that grid as a ghost argument.
- The `QTNode` and `Coordinate` classes are not part of this model; nodes are a datatype and coordinates are pairs of naturals.
- ClientBoard.Board.constructor: the source leaves the board array null until `allocate`; the model starts with a 0x0 array, so `MoveMade` before `allocate` reports `CellOutOfRange` where the source raises a null-pointer error. The same holds for the image of `QuadTree.QTree.constructor`, which no modelled operation reads before it is set.
- ClientBoard.Board.Allocate: the source leaves the new cells null; the model says nothing about the cells until `InitializeGame`.
- ServerReversi.Reversi.constructor: requires DIM >= 2; for smaller boards the source fails on an array index and no board exists.
- ServerReversi.Opposing: gives player one for any mover that is not player one, as the source does, including NONE.
- ServerReversi.Reversi.Place: a step of `makeMove` split out for the proof; Grids.FlipRay and Grids.FlipRun are the loops of both `flipPieces`.
- Observable notifications, `Status` messages, the board `toString` and its symbol map are presentation and are not modelled.
- DIM is not required to be even, as in the source.
- The region subclasses are one class with an operator field; `Verify` and `ToString` dispatch on it.
- Regions.Region.VerifySubtract: requires every stored value to be a 32-bit int (`Valid`), which the Java types guarantee.
- Java exceptions (`Collections.max` on no values, division by zero, `QTException`, `ReversiException`, and the index and null-pointer errors of the client's `moveMade`) become error results.
- ClientBoard.Board.MoveMade: with no current piece the source stores null in the cell before it fails; `Move` has no null, so the model leaves that cell as it was and its contract says nothing about it.
- ClientBoard.Board.InitializeGame: requires an allocated board, as its documented precondition says; before `allocate` the source has no board to fill.
- Merchants.QuickSelect: the random pivot is a caller-supplied function that picks an index of the list.
- `main` and `read_merchants` in merchants.py, and `evaluate` and `main` in tinyturtle.py, are input, output and drawing.
- TinyTurtle.ExpandIterate: takes a fuel bound and fails with OutOfFuel when it is spent; the source loops forever on some input: "@ I2 F1 ", whose '@' lies two or more characters before its 'I', is rewritten to itself (`EndlessExpansion`), and "I2 I3 x", with no '@', grows with every pass.
- Python's `int()` also accepts non-ASCII digits; the model accepts only '0' to '9'.
