/**
 * The client's copy of the Reversi board (Lab 8, reversi2/Board.java).  The
 * server decides which moves are legal; the client checks a move before it
 * sends it, replays every move the server announces without checking it, and
 * keeps a small state machine of whose turn it is and how the game ended.
 */
module ClientBoard {
  import opened Wrappers
  import opened Grids

  /** The board size required to place the starting discs. */
  const MIN_DIM: int := 2

  /** A disc of either player, or nothing (NONE in the source); also whose turn it is. */
  datatype Move = PlayerOne | PlayerTwo | Empty {
    /** The other player; NONE stays NONE. */
    function Opponent(): (m: Move)
      ensures this == Empty <==> m == Empty
      ensures this != Empty ==> m != this
    {
      match this
      case PlayerOne => PlayerTwo
      case PlayerTwo => PlayerOne
      case Empty => this
    }
  }

  /** Taking the opponent twice gives back the player. */
  lemma OpponentTwice(m: Move)
    ensures m.Opponent().Opponent() == m
  {
  }

  /** The eight directions, with their row and column deltas. */
  datatype Dir = N | NE | E | SE | S | SW | W | NW {
    function Rd(): int {
      match this
      case N => -1 case NE => -1 case E => 0 case SE => 1
      case S => 1 case SW => 1 case W => 0 case NW => -1
    }
    function Cd(): int {
      match this
      case N => 0 case NE => 1 case E => 1 case SE => 1
      case S => 0 case SW => -1 case W => -1 case NW => -1
    }
    function Step(): Delta {
      Delta(Rd(), Cd())
    }
  }

  /** The directions in declaration order. */
  const Dirs: seq<Dir> := [N, NE, E, SE, S, SW, W, NW]

  /** The directions are the eight neighbour steps, each exactly once. */
  lemma DirsAreUnits()
    ensures (set k | 0 <= k < |Dirs| :: Dirs[k].Step()) == Units
    ensures forall k, m :: 0 <= k < m < |Dirs| ==> Dirs[k].Step() != Dirs[m].Step()
  {
    forall e
      ensures e in Units <==> e in (set k | 0 <= k < |Dirs| :: Dirs[k].Step())
    {
      UnitsAreAll(e);
      if IsUnit(e) {
        var k :=
          if e == N.Step() then 0 else if e == NE.Step() then 1 else if e == E.Step() then 2
          else if e == SE.Step() then 3 else if e == S.Step() then 4 else if e == SW.Step() then 5
          else if e == W.Step() then 6 else 7;
        assert Dirs[k].Step() == e;
      }
    }
  }

  /** Possible statuses of the game (Failed is ERROR in the source). */
  datatype Status = NotOver | IWon | ILost | Tie | Failed

  /** Why a board operation fails, after the exception the source raises. */
  datatype BoardError =
    | BoardTooSmall                       // allocate: a board below MIN_DIM
    | CellOutOfRange(row: int, col: int)  // moveMade: the array index is off the board
    | NoCurrentPiece                      // moveMade: no piece yet, before initializeGame

  class Board {
    /** how many moves are left to make before the end of the game */
    var movesLeft: int
    /** square dimension of the board */
    var dim: int
    /** whether the server has told this player to move */
    var myTurn: bool
    /** the colour of the next disc placed, absent until the game is initialised */
    var currentPiece: Option<Move>
    /** the game status, absent until the board is allocated */
    var status: Option<Status>
    /** the board, empty until it is allocated */
    var board: array2<Move>

    /** The board is dim x dim. */
    ghost predicate Shaped()
      reads this
    {
      dim >= 0 && board.Length0 == dim && board.Length1 == dim
    }

    /** A board not yet allocated. */
    constructor ()
      ensures Shaped() && dim == 0 && movesLeft == 0 && !myTurn
      ensures currentPiece == None && status == None
    {
      movesLeft := 0;
      dim := 0;
      myTurn := false;
      currentPiece := None;
      status := None;
      board := new Move[0, 0];
    }

    /**
     * Sets up an empty DIM x DIM board with every move still to make; refuses a
     * board too small for the starting discs and then changes nothing.
     */
    method Allocate(DIM: int) returns (r: Outcome<BoardError>)
      modifies this
      ensures DIM < MIN_DIM ==> r == Fail(BoardTooSmall) && unchanged(this)
      ensures DIM >= MIN_DIM ==>
        && r == Pass && Shaped() && fresh(board) && dim == DIM
        && movesLeft == DIM * DIM && status == Some(NotOver) && !myTurn
        && currentPiece == old(currentPiece)
    {
      if DIM < MIN_DIM {
        return Fail(BoardTooSmall);
      }
      board := new Move[DIM, DIM];
      dim := DIM;
      movesLeft := DIM * DIM;
      status := Some(NotOver);
      myTurn := false;
      r := Pass;
    }

    /** Fills in the starting position; player one moves first, and it is not yet this player's turn. */
    method InitializeGame()
      requires Shaped() && dim >= MIN_DIM
      modifies this, board
      ensures Shaped() && board == old(board) && dim == old(dim)
      ensures forall i, j :: OnBoard(dim, i, j) ==> board[i, j] == StartCell(dim, i, j, PlayerOne, PlayerTwo, Empty)
      ensures movesLeft == old(movesLeft) - 4
      ensures !myTurn && currentPiece == Some(PlayerOne) && status == Some(NotOver)
    {
      for row := 0 to dim
        invariant unchanged(this)
        invariant forall i, j :: 0 <= i < row && 0 <= j < dim ==> board[i, j] == Empty
      {
        for col := 0 to dim
          invariant unchanged(this)
          invariant forall i, j :: (0 <= i < row && 0 <= j < dim) || (i == row && 0 <= j < col) ==> board[i, j] == Empty
        {
          board[row, col] := Empty;
        }
      }
      board[dim / 2 - 1, dim / 2 - 1] := PlayerOne;
      board[dim / 2, dim / 2] := PlayerOne;
      board[dim / 2 - 1, dim / 2] := PlayerTwo;
      board[dim / 2, dim / 2 - 1] := PlayerTwo;
      movesLeft := movesLeft - 4;
      myTurn := false;
      currentPiece := Some(PlayerOne);
      status := Some(NotOver);
    }

    /** The player has chosen a move: it is no longer this player's turn. */
    method DidMyTurn()
      modifies this`myTurn
      ensures !myTurn
    {
      myTurn := false;
    }

    /** The server asks this player for a move. */
    method MakeMove()
      modifies this`myTurn
      ensures myTurn
    {
      myTurn := true;
    }

    /**
     * Flips, in each of the eight directions from (row, col), the run of the
     * opponent's discs that ends on the board at a disc of the colour at (row, col).
     */
    method FlipPieces(row: int, col: int)
      requires Shaped() && OnBoard(dim, row, col)
      modifies board
      ensures forall i, j :: OnBoard(dim, i, j) ==>
        board[i, j] == if FlipsVia(old(Snapshot(board)), dim, row, col, old(board[row, col]),
                                   old(board[row, col]).Opponent(), Units, i, j)
                       then old(board[row, col]) else old(board[i, j])
    {
      var me := board[row, col];
      var opp := me.Opponent();
      ghost var g0 := Snapshot(board);
      ghost var done: set<Delta> := {};
      DirsAreUnits();
      for k := 0 to |Dirs|
        invariant done == set m | 0 <= m < k :: Dirs[m].Step()
        invariant forall i, j :: OnBoard(dim, i, j) ==>
          board[i, j] == if FlipsVia(g0, dim, row, col, me, opp, done, i, j) then me else g0[i][j]
      {
        var d := Dirs[k];
        UnitsAreAll(d.Step());
        FlipRay(board, row, col, d.Step(), me, opp, g0, done);
        done := done + {d.Step()};
        assert done == set m | 0 <= m < k + 1 :: Dirs[m].Step();
      }
    }

    /** Whether any of the eight neighbours of (row, col) on the board holds a disc. */
    method OccupiedNeighbor(row: int, col: int) returns (b: bool)
      requires Shaped()
      ensures b <==> OccupiedAround(Snapshot(board), dim, row, col, Empty)
    {
      for k := 0 to |Dirs|
        invariant forall m :: 0 <= m < k ==>
          !(OnBoard(dim, row + Dirs[m].Rd(), col + Dirs[m].Cd()) && board[row + Dirs[m].Rd(), col + Dirs[m].Cd()] != Empty)
      {
        var d := Dirs[k];
        var r := row + d.Rd();
        var c := col + d.Cd();
        if r >= 0 && r < dim && c >= 0 && c < dim && board[r, c] != Empty {
          assert Snapshot(board)[r][c] != Empty;
          return true;
        }
      }
      if OccupiedAround(Snapshot(board), dim, row, col, Empty) {
        var r, c :| row - 1 <= r <= row + 1 && col - 1 <= c <= col + 1 && !(r == row && c == col) &&
          OnBoard(dim, r, c) && Snapshot(board)[r][c] != Empty;
        var m := DirIndex(r - row, c - col);
        assert false;
      }
      return false;
    }

    /** Whether the server would accept a move at (row, col): an empty cell on the board next to a disc. */
    method IsValidMove(row: int, col: int) returns (b: bool)
      requires Shaped()
      ensures b <==> OnBoard(dim, row, col) && board[row, col] == Empty && OccupiedAround(Snapshot(board), dim, row, col, Empty)
    {
      b := (row >= 0 && row < dim) && (col >= 0 && col < dim) && board[row, col] == Empty;
      if b {
        b := OccupiedNeighbor(row, col);
      }
    }

    /**
     * Replays a move announced by the server, without checking it: places the
     * current piece, flips, and passes the turn to the opponent.  The move is
     * counted first, so a cell off the board, or a call before the game has a
     * current piece, fails with one move fewer left.
     */
    method MoveMade(row: int, col: int) returns (r: Outcome<BoardError>)
      requires Shaped()
      modifies this, board
      ensures Shaped() && board == old(board) && dim == old(dim) && status == old(status)
      ensures movesLeft == old(movesLeft) - 1
      ensures !OnBoard(dim, row, col) ==>
        && r == Fail(CellOutOfRange(row, col))
        && myTurn == old(myTurn) && currentPiece == old(currentPiece) && unchanged(board)
      ensures OnBoard(dim, row, col) && old(currentPiece) == None ==>
        && r == Fail(NoCurrentPiece)
        && myTurn == old(myTurn) && currentPiece == None
        && forall i, j :: OnBoard(dim, i, j) && !(i == row && j == col) ==> board[i, j] == old(board[i, j])
      ensures OnBoard(dim, row, col) && old(currentPiece).Some? ==>
        && r == Pass && !myTurn
        && currentPiece == Some(old(currentPiece.value).Opponent())
        && forall i, j :: OnBoard(dim, i, j) ==>
             board[i, j] == Played(old(Snapshot(board)), dim, row, col, old(currentPiece.value),
                                   old(currentPiece.value).Opponent(), i, j)
    {
      movesLeft := movesLeft - 1;
      if row < 0 || row >= dim || col < 0 || col >= dim {
        return Fail(CellOutOfRange(row, col));
      }
      if currentPiece == None {
        return Fail(NoCurrentPiece);
      }
      ghost var g0 := Snapshot(board);
      var piece := currentPiece.value;
      board[row, col] := piece;
      ghost var g1 := Snapshot(board);
      FlipPieces(row, col);
      currentPiece := Some(piece.Opponent());
      myTurn := false;
      ghost var g2 := Snapshot(board);
      PlaceThenFlip(g0, g1, g2, dim, row, col, piece, piece.Opponent());
      r := Pass;
    }

    /** The game has been won by this player. */
    method GameWon()
      modifies this`status
      ensures status == Some(IWon)
    {
      status := Some(IWon);
    }

    /** The game has been won by the other player. */
    method GameLost()
      modifies this`status
      ensures status == Some(ILost)
    {
      status := Some(ILost);
    }

    /** The game has been tied. */
    method GameTied()
      modifies this`status
      ensures status == Some(Tie)
    {
      status := Some(Tie);
    }

    /** The server reported an error; its message is not kept. */
    method Error(arguments: string)
      modifies this`status
      ensures status == Some(Failed)
    {
      status := Some(Failed);
    }
  }

  /** The direction whose deltas are (dr, dc), for a neighbour step. */
  function DirIndex(dr: int, dc: int): (k: nat)
    requires -1 <= dr <= 1 && -1 <= dc <= 1 && !(dr == 0 && dc == 0)
    ensures k < |Dirs| && Dirs[k].Rd() == dr && Dirs[k].Cd() == dc
  {
    if dr == -1 then (if dc == 0 then 0 else if dc == 1 then 1 else 7)
    else if dr == 0 then (if dc == 1 then 2 else 6)
    else (if dc == 1 then 3 else if dc == 0 then 4 else 5)
  }
}
