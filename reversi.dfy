/**
 * The server's Reversi board (Lab 8, reversi/Reversi.java): validated moves,
 * flipping of bracketed discs, the end-of-game test and the winner count.
 *
 * The board is a DIM x DIM array of moves.  Its invariant ties the number of
 * empty cells to the number of moves made: every accepted move fills exactly
 * one empty cell, and flipping only recolours discs.
 */
module ServerReversi {
  import opened Wrappers
  import opened Grids

  /** What a cell holds: a disc of either player, or nothing (NONE in the source). */
  datatype Move = PlayerOne | PlayerTwo | Empty {
    /** The character the board is drawn with. */
    function Symbol(): char {
      match this
      case PlayerOne => 'O'
      case PlayerTwo => 'X'
      case Empty => '.'
    }
  }

  predicate IsEmpty(m: Move) { m == Empty }
  predicate IsPlayerOne(m: Move) { m == PlayerOne }
  predicate NotPlayerOne(m: Move) { m != PlayerOne }
  predicate IsPlayerTwo(m: Move) { m == PlayerTwo }

  /** The colour whose discs a mover of colour `me` flips (player one for anything but player one). */
  function Opposing(me: Move): (o: Move)
    ensures o != Empty && (me != Empty ==> o != me)
  {
    if me == PlayerOne then PlayerTwo else PlayerOne
  }

  /** Why a move is refused, checked in this order. */
  datatype MoveError =
    | InvalidRow(row: int)
    | InvalidColumn(col: int)
    | CellOccupied(row: int, col: int)
    | NoNeighbor(row: int, col: int)

  /** The player with more discs, NONE for a tie; every cell that is not player one's counts for player two. */
  function Winner(p1Disks: int, p2Disks: int): Move {
    if p1Disks == p2Disks then Empty
    else if p1Disks > p2Disks then PlayerOne
    else PlayerTwo
  }

  class Reversi {
    /** square dimensions of the board */
    var dim: int
    /** the board */
    var board: array2<Move>
    /** whether it is player one's turn */
    var p1Turn: bool
    /** how many discs have been placed, the four starting discs included */
    var numMoves: int

    /** The board is dim x dim. */
    ghost predicate Shaped()
      reads this
    {
      dim >= 2 && board.Length0 == dim && board.Length1 == dim
    }

    /** The board is dim x dim and holds exactly dim * dim - numMoves empty cells. */
    ghost predicate Valid()
      reads this, board
    {
      Shaped() && Count(Snapshot(board), IsEmpty) == dim * dim - numMoves
    }

    /** A board with the four starting discs in the centre, player one to move. */
    constructor (DIM: int)
      requires DIM >= 2
      ensures Valid() && fresh(board)
      ensures dim == DIM && p1Turn && numMoves == 4
      ensures forall i, j :: OnBoard(dim, i, j) ==> board[i, j] == StartCell(dim, i, j, PlayerOne, PlayerTwo, Empty)
    {
      var b := NewBoard(DIM);
      board := b;
      dim := DIM;
      p1Turn := true;
      numMoves := 4;
      StartCount(Snapshot(b), DIM, PlayerOne, PlayerTwo, Empty, IsEmpty);
    }

    /** Whether any of the up to eight cells around (row, col) on the board holds a disc. */
    method OccupiedNeighbor(row: int, col: int) returns (b: bool)
      requires Valid()
      ensures b <==> OccupiedAround(Snapshot(board), dim, row, col, Empty)
    {
      for r := row - 1 to row + 2
        invariant forall a, c ::
          (row - 1 <= a < r && col - 1 <= c <= col + 1 && !(a == row && c == col) && OnBoard(dim, a, c)) ==>
          board[a, c] == Empty
      {
        for c := col - 1 to col + 2
          invariant forall a, e ::
            (((row - 1 <= a < r && col - 1 <= e <= col + 1) || (a == r && col - 1 <= e < c)) &&
             !(a == row && e == col) && OnBoard(dim, a, e)) ==>
            board[a, e] == Empty
        {
          if !(r == row && c == col) {
            if r >= 0 && r < dim && c >= 0 && c < dim && board[r, c] != Empty {
              assert Snapshot(board)[r][c] != Empty;
              return true;
            }
          }
        }
      }
      return false;
    }

    /**
     * Flips, in all eight directions from (row, col), every run of the
     * opponent's discs that ends on the board at a disc of the mover, the
     * mover being the colour already at (row, col).
     */
    method FlipPieces(row: int, col: int)
      requires Shaped() && OnBoard(dim, row, col)
      modifies board
      ensures forall i, j :: OnBoard(dim, i, j) ==>
        board[i, j] == if FlipsVia(old(Snapshot(board)), dim, row, col, old(board[row, col]),
                                   Opposing(old(board[row, col])), Units, i, j)
                       then old(board[row, col]) else old(board[i, j])
    {
      var me := board[row, col];
      var other := if me == PlayerOne then PlayerTwo else PlayerOne;
      ghost var g0 := Snapshot(board);
      ghost var done: set<Delta> := {};
      for rd := -1 to 2
        invariant forall e :: e in done <==> IsUnit(e) && e.dr < rd
        invariant forall i, j :: OnBoard(dim, i, j) ==>
          board[i, j] == if FlipsVia(g0, dim, row, col, me, other, done, i, j) then me else g0[i][j]
      {
        for cd := -1 to 2
          invariant forall e :: e in done <==> IsUnit(e) && (e.dr < rd || (e.dr == rd && e.dc < cd))
          invariant forall i, j :: OnBoard(dim, i, j) ==>
            board[i, j] == if FlipsVia(g0, dim, row, col, me, other, done, i, j) then me else g0[i][j]
        {
          if rd == 0 && cd == 0 {
            continue;
          }
          FlipRay(board, row, col, Delta(rd, cd), me, other, g0, done);
          done := done + {Delta(rd, cd)};
        }
      }
      assert done == Units by {
        forall e
          ensures e in done <==> e in Units
        {
          UnitsAreAll(e);
        }
      }
    }

    /**
     * Places the disc of the player to move at (row, col), flips, and passes the
     * turn.  A move off the board, onto a disc, or away from every disc is
     * refused, and then nothing changes.
     */
    method MakeMove(row: int, col: int) returns (r: Outcome<MoveError>)
      requires Valid()
      modifies this, board
      ensures Valid() && board == old(board) && dim == old(dim)
      ensures !(0 <= row < dim) ==> r == Fail(InvalidRow(row))
      ensures 0 <= row < dim && !(0 <= col < dim) ==> r == Fail(InvalidColumn(col))
      ensures OnBoard(dim, row, col) && old(board[row, col]) != Empty ==> r == Fail(CellOccupied(row, col))
      ensures OnBoard(dim, row, col) && old(board[row, col]) == Empty && !OccupiedAround(old(Snapshot(board)), dim, row, col, Empty) ==>
        r == Fail(NoNeighbor(row, col))
      ensures r.Fail? ==> unchanged(this) && unchanged(board)
      ensures r == Pass <==>
        OnBoard(dim, row, col) && old(board[row, col]) == Empty && OccupiedAround(old(Snapshot(board)), dim, row, col, Empty)
      ensures r == Pass ==>
        && numMoves == old(numMoves) + 1 && p1Turn == !old(p1Turn)
        && forall i, j :: OnBoard(dim, i, j) ==>
             board[i, j] == Played(old(Snapshot(board)), dim, row, col, Mover(old(p1Turn)), Opposing(Mover(old(p1Turn))), i, j)
    {
      if row < 0 || row >= dim {
        return Fail(InvalidRow(row));
      } else if col < 0 || col >= dim {
        return Fail(InvalidColumn(col));
      } else if board[row, col] != Empty {
        return Fail(CellOccupied(row, col));
      } else {
        var near := OccupiedNeighbor(row, col);
        if !near {
          return Fail(NoNeighbor(row, col));
        }
      }
      Place(row, col);
      r := Pass;
    }

    /** The accepted part of a move: places the mover's disc, flips and passes the turn. */
    method Place(row: int, col: int)
      requires Valid() && OnBoard(dim, row, col) && board[row, col] == Empty
      modifies this, board
      ensures Valid() && board == old(board) && dim == old(dim)
      ensures numMoves == old(numMoves) + 1 && p1Turn == !old(p1Turn)
      ensures forall i, j :: OnBoard(dim, i, j) ==>
        board[i, j] == Played(old(Snapshot(board)), dim, row, col, Mover(old(p1Turn)), Opposing(Mover(old(p1Turn))), i, j)
    {
      ghost var g0 := Snapshot(board);
      var piece := Mover(p1Turn);
      numMoves := numMoves + 1;
      board[row, col] := piece;
      ghost var g1 := Snapshot(board);
      FlipPieces(row, col);
      p1Turn := !p1Turn;
      ghost var g2 := Snapshot(board);
      PlaceThenFlip(g0, g1, g2, dim, row, col, piece, Opposing(piece));
      PlayedCount(g0, g2, dim, row, col, piece, Opposing(piece), IsEmpty);
    }

    /** The game is over once every cell holds a disc. */
    method GameOver() returns (over: bool)
      requires Valid()
      ensures over <==> numMoves == dim * dim
      ensures over <==> forall i, j :: OnBoard(dim, i, j) ==> board[i, j] != Empty
    {
      over := numMoves == dim * dim;
      ghost var g := Snapshot(board);
      if over {
        CountZeroNone(g, IsEmpty);
      } else {
        CountAllOrNone(g, dim, IsEmpty);
      }
    }

    /**
     * Counts player one's discs against every other cell and returns the side
     * with more, or NONE for a tie.
     */
    method GetWinner() returns (w: Move)
      requires Valid()
      ensures w == Winner(Count(Snapshot(board), IsPlayerOne), Count(Snapshot(board), NotPlayerOne))
    {
      ghost var g := Snapshot(board);
      var p1Disks, p2Disks := 0, 0;
      for row := 0 to dim
        invariant p1Disks == Count(g[..row], IsPlayerOne) && p2Disks == Count(g[..row], NotPlayerOne)
      {
        for col := 0 to dim
          invariant p1Disks == Count(g[..row], IsPlayerOne) + CountRow(g[row][..col], IsPlayerOne)
          invariant p2Disks == Count(g[..row], NotPlayerOne) + CountRow(g[row][..col], NotPlayerOne)
        {
          CountRowPrefix(g[row], col, IsPlayerOne);
          CountRowPrefix(g[row], col, NotPlayerOne);
          if board[row, col] == PlayerOne {
            p1Disks := p1Disks + 1;
          } else {
            p2Disks := p2Disks + 1;
          }
        }
        assert g[row][..dim] == g[row];
        CountPrefix(g, row, IsPlayerOne);
        CountPrefix(g, row, NotPlayerOne);
      }
      assert g[..dim] == g;
      if p1Disks == p2Disks {
        return Empty;
      } else if p1Disks > p2Disks {
        return PlayerOne;
      } else {
        return PlayerTwo;
      }
    }
  }

  /** A DIM x DIM board holding only the four starting discs. */
  method NewBoard(DIM: int) returns (b: array2<Move>)
    requires DIM >= 2
    ensures fresh(b) && b.Length0 == DIM && b.Length1 == DIM
    ensures forall i, j :: OnBoard(DIM, i, j) ==> b[i, j] == StartCell(DIM, i, j, PlayerOne, PlayerTwo, Empty)
  {
    b := new Move[DIM, DIM];
    for row := 0 to DIM
      invariant forall i, j :: 0 <= i < row && 0 <= j < DIM ==> b[i, j] == Empty
    {
      for col := 0 to DIM
        invariant forall i, j :: (0 <= i < row && 0 <= j < DIM) || (i == row && 0 <= j < col) ==> b[i, j] == Empty
      {
        b[row, col] := Empty;
      }
    }
    b[DIM / 2 - 1, DIM / 2 - 1] := PlayerOne;
    b[DIM / 2, DIM / 2] := PlayerOne;
    b[DIM / 2 - 1, DIM / 2] := PlayerTwo;
    b[DIM / 2, DIM / 2 - 1] := PlayerTwo;
  }

  /** The colour placed by the player to move. */
  function Mover(p1Turn: bool): (m: Move)
    ensures m != Empty
  {
    if p1Turn then PlayerOne else PlayerTwo
  }

  /**
   * Once the board is full, the cells counted against player one are exactly
   * player two's discs, so the winner is the player with more discs.
   */
  lemma WinnerOfFullBoard(g: seq<seq<Move>>, n: nat)
    requires IsSquare(g, n) && Count(g, IsEmpty) == 0
    ensures Count(g, NotPlayerOne) == Count(g, IsPlayerTwo)
    ensures Count(g, IsPlayerOne) + Count(g, IsPlayerTwo) == n * n
  {
    CountZeroNone(g, IsEmpty);
    CountSame(g, g, NotPlayerOne, IsPlayerTwo);
    CountComplement(g, n, IsPlayerOne, NotPlayerOne);
  }
}
