/**
 * Square game boards shared by the two Reversi models: the contents of a board
 * as rows of cells, counting the cells that satisfy a test, and the eight rays
 * from a cell along which discs are flipped.
 */
module Grids {
  import opened Wrappers

  /** Whether (r, c) is a cell of an n x n board. */
  predicate OnBoard(n: int, r: int, c: int) {
    0 <= r < n && 0 <= c < n
  }

  /** n rows of n cells each. */
  ghost predicate IsSquare<T>(g: seq<seq<T>>, n: nat) {
    |g| == n && forall i :: 0 <= i < n ==> |g[i]| == n
  }

  /** The cells of a two-dimensional array, row by row. */
  ghost function Snapshot<T>(a: array2<T>): (g: seq<seq<T>>)
    reads a
    ensures |g| == a.Length0
    ensures forall i :: 0 <= i < a.Length0 ==> |g[i]| == a.Length1
    ensures forall i, j :: 0 <= i < a.Length0 && 0 <= j < a.Length1 ==> g[i][j] == a[i, j]
  {
    seq(a.Length0, i requires 0 <= i < a.Length0 reads a =>
      seq(a.Length1, j requires 0 <= j < a.Length1 reads a => a[i, j]))
  }

  // ---------------------------------------------------------------------------
  // Counting cells
  // ---------------------------------------------------------------------------

  /** How many cells of a row pass the test p. */
  function CountRow<T>(row: seq<T>, p: T -> bool): (k: nat)
    ensures k <= |row|
  {
    if row == [] then 0
    else CountRow(row[..|row| - 1], p) + (if p(row[|row| - 1]) then 1 else 0)
  }

  /** How many cells of a board pass the test p. */
  function Count<T>(g: seq<seq<T>>, p: T -> bool): nat {
    if g == [] then 0 else Count(g[..|g| - 1], p) + CountRow(g[|g| - 1], p)
  }

  /** Extending a prefix of a row by one cell adds that cell's contribution to the count. */
  lemma CountRowPrefix<T>(row: seq<T>, k: nat, p: T -> bool)
    requires k < |row|
    ensures CountRow(row[..k + 1], p) == CountRow(row[..k], p) + (if p(row[k]) then 1 else 0)
  {
    assert row[..k + 1][..k] == row[..k];
  }

  /** Extending a prefix of a board by one row adds that row's count. */
  lemma CountPrefix<T>(g: seq<seq<T>>, k: nat, p: T -> bool)
    requires k < |g|
    ensures Count(g[..k + 1], p) == Count(g[..k], p) + CountRow(g[k], p)
  {
    assert g[..k + 1][..k] == g[..k];
  }

  /** Rows that pass two tests at the same cells have equal counts. */
  lemma {:induction false} CountRowSame<T>(r1: seq<T>, r2: seq<T>, p: T -> bool, q: T -> bool)
    requires |r1| == |r2| && forall j :: 0 <= j < |r1| ==> p(r1[j]) == q(r2[j])
    ensures CountRow(r1, p) == CountRow(r2, q)
    decreases |r1|
  {
    if r1 != [] {
      CountRowSame(r1[..|r1| - 1], r2[..|r2| - 1], p, q);
    }
  }

  /** Boards of one shape that pass two tests at the same cells have equal counts. */
  lemma {:induction false} CountSame<T>(g1: seq<seq<T>>, g2: seq<seq<T>>, p: T -> bool, q: T -> bool)
    requires |g1| == |g2| && forall i :: 0 <= i < |g1| ==> |g1[i]| == |g2[i]|
    requires forall i, j :: 0 <= i < |g1| && 0 <= j < |g1[i]| ==> p(g1[i][j]) == q(g2[i][j])
    ensures Count(g1, p) == Count(g2, q)
    decreases |g1|
  {
    if g1 != [] {
      var m := |g1| - 1;
      CountSame(g1[..m], g2[..m], p, q);
      CountRowSame(g1[m], g2[m], p, q);
    }
  }

  /** Overwriting one cell of a row changes its count by what the old and new cell contribute. */
  lemma {:induction false} CountRowUpdate<T>(row: seq<T>, j: nat, x: T, p: T -> bool)
    requires j < |row|
    ensures CountRow(row[j := x], p) ==
      CountRow(row, p) - (if p(row[j]) then 1 else 0) + (if p(x) then 1 else 0)
    decreases |row|
  {
    var m := |row| - 1;
    var row' := row[j := x];
    if j < m {
      assert row'[..m] == row[..m][j := x];
      CountRowUpdate(row[..m], j, x, p);
    } else {
      assert row'[..m] == row[..m];
    }
  }

  /** Overwriting one cell of a board changes its count by what the old and new cell contribute. */
  lemma {:induction false} CountUpdate<T>(g: seq<seq<T>>, i: nat, j: nat, x: T, p: T -> bool)
    requires i < |g| && j < |g[i]|
    ensures Count(g[i := g[i][j := x]], p) ==
      Count(g, p) - (if p(g[i][j]) then 1 else 0) + (if p(x) then 1 else 0)
    decreases |g|
  {
    var m := |g| - 1;
    var g' := g[i := g[i][j := x]];
    if i < m {
      assert g'[..m] == g[..m][i := g[i][j := x]];
      CountUpdate(g[..m], i, j, x, p);
    } else {
      assert g'[..m] == g[..m];
      CountRowUpdate(g[m], j, x, p);
    }
  }

  /** On an n x n board, the cells that pass a test and the cells that fail it number n * n together. */
  lemma {:induction false} CountComplement<T>(g: seq<seq<T>>, n: nat, p: T -> bool, q: T -> bool)
    requires IsSquare(g, n)
    requires forall i, j :: 0 <= i < n && 0 <= j < n ==> q(g[i][j]) == !p(g[i][j])
    ensures Count(g, p) + Count(g, q) == n * n
  {
    CountComplementRows(g, n, |g|, p, q);
  }

  lemma {:induction false} CountComplementRows<T>(g: seq<seq<T>>, n: nat, m: nat, p: T -> bool, q: T -> bool)
    requires |g| == m && forall i :: 0 <= i < m ==> |g[i]| == n
    requires forall i, j :: 0 <= i < m && 0 <= j < n ==> q(g[i][j]) == !p(g[i][j])
    ensures Count(g, p) + Count(g, q) == m * n
    decreases m
  {
    if m > 0 {
      CountComplementRows(g[..m - 1], n, m - 1, p, q);
      CountRowComplement(g[m - 1], p, q);
    }
  }

  lemma {:induction false} CountRowComplement<T>(row: seq<T>, p: T -> bool, q: T -> bool)
    requires forall j :: 0 <= j < |row| ==> q(row[j]) == !p(row[j])
    ensures CountRow(row, p) + CountRow(row, q) == |row|
    decreases |row|
  {
    if row != [] {
      CountRowComplement(row[..|row| - 1], p, q);
    }
  }

  /** A board with no cell passing a test counts zero; one whose every cell passes counts n * n. */
  lemma CountAllOrNone<T>(g: seq<seq<T>>, n: nat, p: T -> bool)
    requires IsSquare(g, n)
    ensures (forall i, j :: 0 <= i < n && 0 <= j < n ==> !p(g[i][j])) ==> Count(g, p) == 0
    ensures (forall i, j :: 0 <= i < n && 0 <= j < n ==> p(g[i][j])) ==> Count(g, p) == n * n
  {
    var never := (x: T) => false;
    var always := (x: T) => true;
    CountComplement(g, n, never, always);
    if forall i, j :: 0 <= i < n && 0 <= j < n ==> !p(g[i][j]) {
      CountSame(g, g, p, never);
      CountZero(g, never);
    }
    if forall i, j :: 0 <= i < n && 0 <= j < n ==> p(g[i][j]) {
      CountSame(g, g, p, always);
      CountZero(g, never);
    }
  }

  lemma {:induction false} CountZero<T>(g: seq<seq<T>>, never: T -> bool)
    requires forall x :: !never(x)
    ensures Count(g, never) == 0
    decreases |g|
  {
    if g != [] {
      CountZero(g[..|g| - 1], never);
      CountRowZero(g[|g| - 1], never);
    }
  }

  lemma {:induction false} CountRowZero<T>(row: seq<T>, never: T -> bool)
    requires forall x :: !never(x)
    ensures CountRow(row, never) == 0
    decreases |row|
  {
    if row != [] {
      CountRowZero(row[..|row| - 1], never);
    }
  }

  /** A board whose count is zero has no cell that passes the test. */
  lemma {:induction false} CountZeroNone<T>(g: seq<seq<T>>, p: T -> bool)
    requires Count(g, p) == 0
    ensures forall i, j :: 0 <= i < |g| && 0 <= j < |g[i]| ==> !p(g[i][j])
    decreases |g|
  {
    if g != [] {
      var m := |g| - 1;
      CountZeroNone(g[..m], p);
      CountRowZeroNone(g[m], p);
      assert forall i :: 0 <= i < m ==> g[i] == g[..m][i];
    }
  }

  lemma {:induction false} CountRowZeroNone<T>(row: seq<T>, p: T -> bool)
    requires CountRow(row, p) == 0
    ensures forall j :: 0 <= j < |row| ==> !p(row[j])
    decreases |row|
  {
    if row != [] {
      var m := |row| - 1;
      CountRowZeroNone(row[..m], p);
      assert forall j :: 0 <= j < m ==> row[j] == row[..m][j];
    }
  }

  // ---------------------------------------------------------------------------
  // The starting position
  // ---------------------------------------------------------------------------

  /** The cell (i, j) of a fresh n x n game: the centre four hold discs, one colour on each diagonal. */
  function StartCell<T>(n: int, i: int, j: int, one: T, two: T, empty: T): T {
    var a, b := n / 2 - 1, n / 2;
    if (i == a && j == a) || (i == b && j == b) then one
    else if (i == a && j == b) || (i == b && j == a) then two
    else empty
  }

  /** A fresh n x n game. */
  function StartGrid<T>(n: nat, one: T, two: T, none: T): seq<seq<T>> {
    seq(n, i => seq(n, j => StartCell(n, i, j, one, two, none)))
  }

  /** A fresh game leaves all but four of its n * n cells empty. */
  lemma StartCount<T>(g: seq<seq<T>>, n: nat, one: T, two: T, none: T, empty: T -> bool)
    requires n >= 2 && IsSquare(g, n)
    requires forall i, j :: 0 <= i < n && 0 <= j < n ==> g[i][j] == StartCell(n, i, j, one, two, none)
    requires empty(none) && !empty(one) && !empty(two)
    ensures Count(g, empty) == n * n - 4
  {
    var s := StartGrid(n, one, two, none);
    StartGridCount(n, one, two, none, empty);
    assert forall i, j :: 0 <= i < |g| && 0 <= j < |g[i]| ==> empty(g[i][j]) == empty(s[i][j]);
    CountSame(g, s, empty, empty);
  }

  lemma StartGridCount<T>(n: nat, one: T, two: T, none: T, empty: T -> bool)
    requires n >= 2 && empty(none) && !empty(one) && !empty(two)
    ensures Count(StartGrid(n, one, two, none), empty) == n * n - 4
  {
    var a, b := n / 2 - 1, n / 2;
    var blank := Blank(n, none);
    CountAllOrNone(blank, n, empty);
    assert Count(blank, empty) == n * n;
    var g1 := Put(blank, a, a, one);
    PutEmpty(blank, n, a, a, one, empty);
    var g2 := Put(g1, b, b, one);
    PutEmpty(g1, n, b, b, one, empty);
    var g3 := Put(g2, a, b, two);
    PutEmpty(g2, n, a, b, two, empty);
    var g4 := Put(g3, b, a, two);
    PutEmpty(g3, n, b, a, two, empty);
    assert Count(g4, empty) == n * n - 4;
    StartGridPuts(n, one, two, none);
    assert g4 == StartGrid(n, one, two, none);
  }

  /** The n x n grid with every cell `none`. */
  function Blank<T>(n: nat, none: T): seq<seq<T>> {
    seq(n, i => seq(n, j => none))
  }

  /** The grid with cell (i, j) replaced by x. */
  function Put<T>(g: seq<seq<T>>, i: nat, j: nat, x: T): seq<seq<T>>
    requires i < |g| && j < |g[i]|
  {
    g[i := g[i][j := x]]
  }

  /** Filling an empty cell of a square grid keeps it square, removes one empty cell and changes no other cell. */
  lemma PutEmpty<T>(g: seq<seq<T>>, n: nat, i: nat, j: nat, x: T, empty: T -> bool)
    requires IsSquare(g, n) && i < n && j < n && empty(g[i][j]) && !empty(x)
    ensures IsSquare(Put(g, i, j, x), n)
    ensures Count(Put(g, i, j, x), empty) == Count(g, empty) - 1
    ensures forall r, c :: 0 <= r < n && 0 <= c < n && !(r == i && c == j) ==> Put(g, i, j, x)[r][c] == g[r][c]
  {
    CountUpdate(g, i, j, x, empty);
  }

  /** The starting grid is the blank grid with its four centre discs put in. */
  lemma StartGridPuts<T>(n: nat, one: T, two: T, none: T)
    requires n >= 2
    ensures
      var a, b := n / 2 - 1, n / 2;
      Put(Put(Put(Put(Blank(n, none), a, a, one), b, b, one), a, b, two), b, a, two) == StartGrid(n, one, two, none)
  {
    var a, b := n / 2 - 1, n / 2;
    var g4 := Put(Put(Put(Put(Blank(n, none), a, a, one), b, b, one), a, b, two), b, a, two);
    forall i | 0 <= i < n
      ensures g4[i] == StartGrid(n, one, two, none)[i]
    {
    }
  }

  // ---------------------------------------------------------------------------
  // The eight rays from a cell
  // ---------------------------------------------------------------------------

  /** Whether a cell within one row and one column of (row, col), other than (row, col) itself, holds a disc. */
  ghost predicate OccupiedAround<T>(g: seq<seq<T>>, n: nat, row: int, col: int, empty: T)
    requires IsSquare(g, n)
  {
    exists r, c :: row - 1 <= r <= row + 1 && col - 1 <= c <= col + 1 && !(r == row && c == col) &&
      OnBoard(n, r, c) && g[r][c] != empty
  }

  /** A step between neighbouring cells: row and column change by -1, 0 or +1. */
  datatype Delta = Delta(dr: int, dc: int)

  /** One of the eight directions to a neighbour (the cell itself is excluded). */
  predicate IsUnit(d: Delta) {
    -1 <= d.dr <= 1 && -1 <= d.dc <= 1 && (d.dr != 0 || d.dc != 0)
  }

  /** All eight directions. */
  const Units: set<Delta> :=
    set a, b | -1 <= a <= 1 && -1 <= b <= 1 && (a != 0 || b != 0) :: Delta(a, b)

  lemma UnitsAreAll(d: Delta)
    ensures d in Units <==> IsUnit(d)
  {
    if IsUnit(d) {
      assert d == Delta(d.dr, d.dc);
    }
  }

  /** The coordinate reached from x after k steps of dx (dx being -1, 0 or +1). */
  function Shift(x: int, dx: int, k: nat): int {
    if dx > 0 then x + k else if dx < 0 then x - k else x
  }

  /** A cell on a ray: its direction and its distance from the ray's origin. */
  datatype RayPos = RayPos(d: Delta, k: nat)

  function Sign(x: int): int {
    if x > 0 then 1 else if x < 0 then -1 else 0
  }

  function Abs(x: int): nat {
    if x < 0 then -x else x
  }

  /** Which of the eight rays from (row, col) passes through (i, j), and at what distance. */
  function RayOf(row: int, col: int, i: int, j: int): (p: Option<RayPos>)
    ensures p.Some? ==>
      && IsUnit(p.value.d) && p.value.k >= 1
      && i == Shift(row, p.value.d.dr, p.value.k) && j == Shift(col, p.value.d.dc, p.value.k)
  {
    var di, dj := i - row, j - col;
    if di == 0 && dj == 0 then None
    else if di != 0 && dj != 0 && Abs(di) != Abs(dj) then None
    else Some(RayPos(Delta(Sign(di), Sign(dj)), if di != 0 then Abs(di) else Abs(dj)))
  }

  /** Every cell k >= 1 steps along a ray lies on that ray and no other: rays from one cell do not meet. */
  lemma RayOfShift(row: int, col: int, d: Delta, k: nat)
    requires IsUnit(d) && k >= 1
    ensures RayOf(row, col, Shift(row, d.dr, k), Shift(col, d.dc, k)) == Some(RayPos(d, k))
  {
  }

  /** Distance along a ray never exceeds the board while the ray is on it. */
  lemma ShiftOnBoard(n: nat, row: int, col: int, d: Delta, k: nat)
    requires IsUnit(d) && OnBoard(n, row, col) && OnBoard(n, Shift(row, d.dr, k), Shift(col, d.dc, k))
    ensures k < n
  {
  }

  /**
   * The first distance >= k along the ray from (row, col) in direction d whose
   * cell is off the board or does not hold `other`.
   */
  function RunEnd<T(==)>(g: seq<seq<T>>, n: nat, row: int, col: int, d: Delta, other: T, k: nat): (e: nat)
    requires IsSquare(g, n) && OnBoard(n, row, col) && IsUnit(d)
    ensures e >= k
    ensures forall m :: k <= m < e ==>
      OnBoard(n, Shift(row, d.dr, m), Shift(col, d.dc, m)) && g[Shift(row, d.dr, m)][Shift(col, d.dc, m)] == other
    ensures !(OnBoard(n, Shift(row, d.dr, e), Shift(col, d.dc, e)) && g[Shift(row, d.dr, e)][Shift(col, d.dc, e)] == other)
    decreases n - k
  {
    var r, c := Shift(row, d.dr, k), Shift(col, d.dc, k);
    if OnBoard(n, r, c) && g[r][c] == other then
      ShiftOnBoard(n, row, col, d, k);
      RunEnd(g, n, row, col, d, other, k + 1)
    else k
  }

  /** The run end is the first cell from k on that does not hold `other`, whatever way it is found. */
  lemma {:induction false} RunEndIsFirst<T>(g: seq<seq<T>>, n: nat, row: int, col: int, d: Delta, other: T, k: nat, e: nat)
    requires IsSquare(g, n) && OnBoard(n, row, col) && IsUnit(d) && k <= e
    requires forall m :: k <= m < e ==>
      OnBoard(n, Shift(row, d.dr, m), Shift(col, d.dc, m)) && g[Shift(row, d.dr, m)][Shift(col, d.dc, m)] == other
    requires !(OnBoard(n, Shift(row, d.dr, e), Shift(col, d.dc, e)) && g[Shift(row, d.dr, e)][Shift(col, d.dc, e)] == other)
    ensures RunEnd(g, n, row, col, d, other, k) == e
    decreases e - k
  {
    if k < e {
      RunEndIsFirst(g, n, row, col, d, other, k + 1, e);
    }
  }

  /** Whether the run of `other` discs leaving (row, col) in direction d stops on the board at a `me` disc. */
  function Bracketed<T(==)>(g: seq<seq<T>>, n: nat, row: int, col: int, d: Delta, me: T, other: T): bool
    requires IsSquare(g, n) && OnBoard(n, row, col) && IsUnit(d)
  {
    var e := RunEnd(g, n, row, col, d, other, 1);
    var r, c := Shift(row, d.dr, e), Shift(col, d.dc, e);
    OnBoard(n, r, c) && g[r][c] == me
  }

  /** Whether the cell k steps along direction d lies inside a bracketed run. */
  function FlipsAlong<T(==)>(g: seq<seq<T>>, n: nat, row: int, col: int, d: Delta, me: T, other: T, k: nat): bool
    requires IsSquare(g, n) && OnBoard(n, row, col) && IsUnit(d)
  {
    1 <= k < RunEnd(g, n, row, col, d, other, 1) && Bracketed(g, n, row, col, d, me, other)
  }

  /** Whether (i, j) is flipped by a move at (row, col) when the directions in `dirs` are walked. */
  function FlipsVia<T(==)>(g: seq<seq<T>>, n: nat, row: int, col: int, me: T, other: T, dirs: set<Delta>, i: int, j: int): bool
    requires IsSquare(g, n) && OnBoard(n, row, col)
  {
    match RayOf(row, col, i, j)
    case None => false
    case Some(p) => p.d in dirs && FlipsAlong(g, n, row, col, p.d, me, other, p.k)
  }

  /**
   * A cell is flipped exactly when it holds `other` and some ray from the move
   * passes it within an unbroken line of `other` discs closed by a `me` disc:
   * the bracketing rule, stated without walking the board.
   */
  lemma FlipsIff<T>(g: seq<seq<T>>, n: nat, row: int, col: int, me: T, other: T, i: int, j: int)
    requires IsSquare(g, n) && OnBoard(n, row, col) && me != other
    ensures FlipsVia(g, n, row, col, me, other, Units, i, j) <==>
      exists d: Delta, k: nat, e: nat :: IsUnit(d) && 1 <= k < e && Between(g, n, row, col, d, me, other, e) &&
        i == Shift(row, d.dr, k) && j == Shift(col, d.dc, k)
  {
    if FlipsVia(g, n, row, col, me, other, Units, i, j) {
      var p := RayOf(row, col, i, j).value;
      var e := RunEnd(g, n, row, col, p.d, other, 1);
      assert Between(g, n, row, col, p.d, me, other, e);
    }
    if exists d: Delta, k: nat, e: nat :: IsUnit(d) && 1 <= k < e && Between(g, n, row, col, d, me, other, e) &&
        i == Shift(row, d.dr, k) && j == Shift(col, d.dc, k) {
      var d: Delta, k: nat, e: nat :| IsUnit(d) && 1 <= k < e && Between(g, n, row, col, d, me, other, e) &&
        i == Shift(row, d.dr, k) && j == Shift(col, d.dc, k);
      RunEndIsFirst(g, n, row, col, d, other, 1, e);
      RayOfShift(row, col, d, k);
      UnitsAreAll(d);
    }
  }

  /** Cells 1 .. e-1 along direction d hold `other` and cell e is a `me` disc on the board. */
  ghost predicate Between<T>(g: seq<seq<T>>, n: nat, row: int, col: int, d: Delta, me: T, other: T, e: nat)
    requires IsSquare(g, n)
  {
    && (forall m :: 1 <= m < e ==>
         OnBoard(n, Shift(row, d.dr, m), Shift(col, d.dc, m)) && g[Shift(row, d.dr, m)][Shift(col, d.dc, m)] == other)
    && OnBoard(n, Shift(row, d.dr, e), Shift(col, d.dc, e)) && g[Shift(row, d.dr, e)][Shift(col, d.dc, e)] == me
  }

  /** Flipping only ever turns an `other` disc, never the moved-on cell and never a cell off the board. */
  lemma FlipsOnlyOther<T>(g: seq<seq<T>>, n: nat, row: int, col: int, me: T, other: T, dirs: set<Delta>, i: int, j: int)
    requires IsSquare(g, n) && OnBoard(n, row, col)
    requires FlipsVia(g, n, row, col, me, other, dirs, i, j)
    ensures OnBoard(n, i, j) && !(i == row && j == col) && g[i][j] == other
  {
  }

  /** The cell (i, j) after a move by `me` at (row, col) on board g. */
  function Played<T(==)>(g: seq<seq<T>>, n: nat, row: int, col: int, me: T, other: T, i: int, j: int): T
    requires IsSquare(g, n) && OnBoard(n, row, col) && OnBoard(n, i, j)
  {
    if i == row && j == col then me
    else if FlipsVia(g, n, row, col, me, other, Units, i, j) then me
    else g[i][j]
  }

  /**
   * A move on an empty cell by a player whose colours are not empty leaves one
   * empty cell fewer: flips only recolour discs.
   */
  lemma PlayedCount<T>(g: seq<seq<T>>, g': seq<seq<T>>, n: nat, row: int, col: int, me: T, other: T, empty: T -> bool)
    requires IsSquare(g, n) && IsSquare(g', n) && OnBoard(n, row, col)
    requires forall i, j :: 0 <= i < n && 0 <= j < n ==> g'[i][j] == Played(g, n, row, col, me, other, i, j)
    requires empty(g[row][col]) && !empty(me) && !empty(other)
    ensures Count(g', empty) == Count(g, empty) - 1
  {
    var placed := g[row := g[row][col := me]];
    CountUpdate(g, row, col, me, empty);
    forall i, j | 0 <= i < n && 0 <= j < n
      ensures empty(g'[i][j]) == empty(placed[i][j])
    {
      if FlipsVia(g, n, row, col, me, other, Units, i, j) {
        FlipsOnlyOther(g, n, row, col, me, other, Units, i, j);
      }
    }
    CountSame(g', placed, empty, empty);
  }

  /**
   * Placing `me` at (row, col) and then flipping from there gives the board
   * `Played` describes in terms of the board before the disc was placed.
   */
  lemma PlaceThenFlip<T>(g0: seq<seq<T>>, g1: seq<seq<T>>, g2: seq<seq<T>>, n: nat, row: int, col: int, me: T, other: T)
    requires IsSquare(g0, n) && IsSquare(g1, n) && IsSquare(g2, n) && OnBoard(n, row, col)
    requires forall i, j :: OnBoard(n, i, j) ==> g1[i][j] == if i == row && j == col then me else g0[i][j]
    requires forall i, j :: OnBoard(n, i, j) ==>
      g2[i][j] == if FlipsVia(g1, n, row, col, me, other, Units, i, j) then me else g1[i][j]
    ensures forall i, j :: OnBoard(n, i, j) ==> g2[i][j] == Played(g0, n, row, col, me, other, i, j)
  {
    forall i, j | OnBoard(n, i, j)
      ensures g2[i][j] == Played(g0, n, row, col, me, other, i, j)
    {
      FlipsIgnoreOrigin(g0, g1, n, row, col, me, other, Units, i, j);
      if i == row && j == col {
        assert !FlipsVia(g1, n, row, col, me, other, Units, i, j);
      }
    }
  }

  /** Flipping depends only on the cells along the rays, never on the moved-on cell itself. */
  lemma FlipsIgnoreOrigin<T>(g: seq<seq<T>>, g': seq<seq<T>>, n: nat, row: int, col: int, me: T, other: T, dirs: set<Delta>, i: int, j: int)
    requires IsSquare(g, n) && IsSquare(g', n) && OnBoard(n, row, col)
    requires forall a, b :: OnBoard(n, a, b) && !(a == row && b == col) ==> g'[a][b] == g[a][b]
    ensures FlipsVia(g', n, row, col, me, other, dirs, i, j) == FlipsVia(g, n, row, col, me, other, dirs, i, j)
  {
    match RayOf(row, col, i, j)
    case None =>
    case Some(p) =>
      var e := RunEnd(g, n, row, col, p.d, other, 1);
      RunEndIsFirst(g', n, row, col, p.d, other, 1, e);
  }

  // ---------------------------------------------------------------------------
  // Flipping one ray in place
  // ---------------------------------------------------------------------------

  /** Whether (i, j) lies on the ray in direction d at a distance 1 .. k-1. */
  predicate OnRayBefore(row: int, col: int, d: Delta, k: nat, i: int, j: int) {
    match RayOf(row, col, i, j)
    case None => false
    case Some(p) => p.d == d && p.k < k
  }

  /**
   * Walks from (row, col) in direction d over the `other` discs, and when the
   * walk stops on a `me` disc walks the same cells again turning each to `me`.
   * The board is compared with `g0`, the board before any ray was flipped:
   * on entry the rays in `done` are flipped, on exit d is too.
   */
  method FlipRay<T(==)>(board: array2<T>, row: int, col: int, d: Delta, me: T, other: T,
                         ghost g0: seq<seq<T>>, ghost done: set<Delta>)
    requires board.Length0 == board.Length1 && IsSquare(g0, board.Length0)
    requires OnBoard(board.Length0, row, col) && IsUnit(d) && d !in done
    requires forall i, j :: OnBoard(board.Length0, i, j) ==>
      board[i, j] == if FlipsVia(g0, board.Length0, row, col, me, other, done, i, j) then me else g0[i][j]
    modifies board
    ensures forall i, j :: OnBoard(board.Length0, i, j) ==>
      board[i, j] == if FlipsVia(g0, board.Length0, row, col, me, other, done + {d}, i, j) then me else g0[i][j]
  {
    var n := board.Length0;
    var r, c := row + d.dr, col + d.dc;
    ghost var k: nat := 1;
    while 0 <= r < n && 0 <= c < n && board[r, c] == other
      invariant 1 <= k && r == Shift(row, d.dr, k) && c == Shift(col, d.dc, k)
      invariant RunEnd(g0, n, row, col, d, other, k) == RunEnd(g0, n, row, col, d, other, 1)
      invariant unchanged(board)
      decreases n - k
    {
      assert g0[r][c] == other by {
        RayOfShift(row, col, d, k);
      }
      ShiftOnBoard(n, row, col, d, k);
      r, c := r + d.dr, c + d.dc;
      k := k + 1;
    }
    ghost var e := k;
    assert e == RunEnd(g0, n, row, col, d, other, 1) by {
      if OnBoard(n, r, c) {
        RayOfShift(row, col, d, k);
      }
    }
    if 0 <= r < n && 0 <= c < n && board[r, c] == me {
      assert Bracketed(g0, n, row, col, d, me, other) by {
        RayOfShift(row, col, d, e);
      }
      FlipRun(board, row, col, d, me, other, g0, done);
    } else {
      assert !Bracketed(g0, n, row, col, d, me, other) by {
        if OnBoard(n, r, c) {
          RayOfShift(row, col, d, e);
        }
      }
    }
  }

  /**
   * The second walk of FlipRay, taken when the run in direction d is bracketed:
   * turns every `other` disc of the run to `me`.
   */
  method FlipRun<T(==)>(board: array2<T>, row: int, col: int, d: Delta, me: T, other: T,
                         ghost g0: seq<seq<T>>, ghost done: set<Delta>)
    requires board.Length0 == board.Length1 && IsSquare(g0, board.Length0)
    requires OnBoard(board.Length0, row, col) && IsUnit(d) && d !in done
    requires Bracketed(g0, board.Length0, row, col, d, me, other)
    requires forall i, j :: OnBoard(board.Length0, i, j) ==>
      board[i, j] == if FlipsVia(g0, board.Length0, row, col, me, other, done, i, j) then me else g0[i][j]
    modifies board
    ensures forall i, j :: OnBoard(board.Length0, i, j) ==>
      board[i, j] == if FlipsVia(g0, board.Length0, row, col, me, other, done + {d}, i, j) then me else g0[i][j]
  {
    var n := board.Length0;
    ghost var e := RunEnd(g0, n, row, col, d, other, 1);
    var r, c := row + d.dr, col + d.dc;
    ghost var k: nat := 1;
    while 0 <= r < n && 0 <= c < n && board[r, c] == other
      invariant 1 <= k <= e && r == Shift(row, d.dr, k) && c == Shift(col, d.dc, k)
      invariant forall i, j :: OnBoard(n, i, j) ==>
        board[i, j] == if FlipsVia(g0, n, row, col, me, other, done, i, j) || OnRayBefore(row, col, d, k, i, j)
                       then me else g0[i][j]
      decreases e - k
    {
      RayOfShift(row, col, d, k);
      board[r, c] := me;
      r, c := r + d.dr, c + d.dc;
      k := k + 1;
    }
    assert k == e by {
      if k < e {
        RayOfShift(row, col, d, k);
      }
    }
    forall i, j | OnBoard(n, i, j)
      ensures board[i, j] == if FlipsVia(g0, n, row, col, me, other, done + {d}, i, j) then me else g0[i][j]
    {
      FlipsViaAdd(g0, n, row, col, me, other, done, d, i, j);
    }
  }

  /** Walking one more bracketed direction adds exactly the cells of its run to those flipped. */
  lemma FlipsViaAdd<T>(g: seq<seq<T>>, n: nat, row: int, col: int, me: T, other: T, dirs: set<Delta>, d: Delta, i: int, j: int)
    requires IsSquare(g, n) && OnBoard(n, row, col) && IsUnit(d) && Bracketed(g, n, row, col, d, me, other)
    ensures FlipsVia(g, n, row, col, me, other, dirs + {d}, i, j) ==
      (FlipsVia(g, n, row, col, me, other, dirs, i, j) || OnRayBefore(row, col, d, RunEnd(g, n, row, col, d, other, 1), i, j))
  {
  }
}
