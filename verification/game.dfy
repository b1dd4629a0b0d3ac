/** The tap-driven game controller: one immutable state record replaced on
    every square tap and every clock tick. */
module Game {

  import opened Optional
  import opened Grid
  import opened Moves
  import opened Clock

  datatype Player = White | Black

  function Opponent(p: Player): Player
  {
    if p == White then Black else White
  }

  /** The only piece letter a player may select: their own pawn. */
  function PawnOf(p: Player): Cell
  {
    if p == White then "P" else "p"
  }

  datatype GameState = GameState(
    board: Board,
    selected: Option<Square>,
    validMoves: seq<Square>,
    player: Player,
    whiteTime: int,
    blackTime: int)

  /** What every handler needs of a state: an 8x8 board and, if a square is
      selected, a selection that lies on it. */
  predicate Tappable(s: GameState)
  {
    WellFormed(s.board) && (s.selected.Some? ==> OnBoard(s.selected.value))
  }

  /** The state every reachable state satisfies: destinations are present only
      under a selection, the selection holds the active player's pawn, the
      destinations are exactly those generated for it, and both clocks are
      non-negative. */
  predicate Valid(s: GameState)
  {
    && Tappable(s)
    && (s.selected.None? ==> s.validMoves == [])
    && (s.selected.Some? ==>
          var sq := s.selected.value;
          && At(s.board, sq) == PawnOf(s.player)
          && s.validMoves == ValidMoves(s.board, PawnOf(s.player), sq.row, sq.col))
    && s.whiteTime >= 0
    && s.blackTime >= 0
  }

  function Initial(): (s: GameState)
    ensures s.player == White
    ensures s.selected == None && s.validMoves == []
    ensures s.whiteTime == InitialSeconds && s.blackTime == InitialSeconds
    ensures s.board == InitialBoard()
  {
    GameState(InitialBoard(), None, [], White, InitialSeconds, InitialSeconds)
  }

  /** A tap commits when a square is selected and the tapped square is one of
      its destinations. */
  predicate IsCommit(s: GameState, row: int, col: int)
  {
    s.selected.Some? && Square(row, col) in s.validMoves
  }

  /** The handler for a tap on (row, col): commit a pending move, select the
      active player's pawn, or clear the selection. */
  function Tap(s: GameState, row: int, col: int): (r: GameState)
    requires Tappable(s)
    requires OnBoard(Square(row, col))
    ensures Tappable(r)
    ensures r.whiteTime == s.whiteTime && r.blackTime == s.blackTime
    ensures r.validMoves != [] ==> r.selected.Some?
    // commit: the piece moves, the selection clears and the turn passes
    ensures IsCommit(s, row, col) ==>
      var from, to := s.selected.value, Square(row, col);
      && At(r.board, to) == At(s.board, from)
      && (from != to ==> At(r.board, from) == "")
      && (forall i, j :: 0 <= i < Size && 0 <= j < Size && Square(i, j) != from && Square(i, j) != to
            ==> r.board[i][j] == s.board[i][j])
      && r.selected == None && r.validMoves == []
      && r.player == Opponent(s.player)
    // any other tap leaves the board and the turn alone
    ensures !IsCommit(s, row, col) ==> r.board == s.board && r.player == s.player
    // and selects exactly the active player's pawns
    ensures !IsCommit(s, row, col) ==>
      (r.selected.Some? <==> s.board[row][col] == PawnOf(s.player))
    ensures !IsCommit(s, row, col) && r.selected.Some? ==>
      r.selected == Some(Square(row, col))
      && r.validMoves == ValidMoves(s.board, PawnOf(s.player), row, col)
  {
    var piece := s.board[row][col];
    if s.selected.Some? && Square(row, col) in s.validMoves then
      var newBoard := Move(s.board, s.selected.value, Square(row, col));
      GameState(newBoard, None, [], Opponent(s.player), s.whiteTime, s.blackTime)
    else if (s.player == White && piece == "P") || (s.player == Black && piece == "p") then
      s.(selected := Some(Square(row, col)), validMoves := ValidMoves(s.board, piece, row, col))
    else
      s.(selected := None, validMoves := [])
  }

  /** One second of the active player's clock. */
  function Tick(s: GameState): (r: GameState)
    ensures r.board == s.board && r.selected == s.selected && r.validMoves == s.validMoves
    ensures r.player == s.player
    ensures s.player == White ==> r.blackTime == s.blackTime && r.whiteTime == TickClock(s.whiteTime)
    ensures s.player == Black ==> r.whiteTime == s.whiteTime && r.blackTime == TickClock(s.blackTime)
  {
    if s.player == White then s.(whiteTime := TickClock(s.whiteTime))
    else s.(blackTime := TickClock(s.blackTime))
  }

  /** The state after `n` consecutive ticks. */
  function Ticks(s: GameState, n: nat): GameState
    decreases n
  {
    if n == 0 then s else Ticks(Tick(s), n - 1)
  }

  /** `n` ticks run the active player's clock through `n` steps of its
      countdown and touch nothing else. */
  lemma {:induction false} TicksCountDown(s: GameState, n: nat)
    ensures var r := Ticks(s, n);
      && r.board == s.board && r.player == s.player
      && r.selected == s.selected && r.validMoves == s.validMoves
      && (s.player == White ==> r.whiteTime == Countdown(s.whiteTime, n) && r.blackTime == s.blackTime)
      && (s.player == Black ==> r.blackTime == Countdown(s.blackTime, n) && r.whiteTime == s.whiteTime)
    decreases n
  {
    if n > 0 {
      TicksCountDown(Tick(s), n - 1);
    }
  }

  /** Ticks drain only the active player's clock, saturating at zero. */
  lemma TicksDrainActiveClock(s: GameState, n: nat)
    requires s.whiteTime >= 0 && s.blackTime >= 0
    ensures var r := Ticks(s, n);
      && r.board == s.board && r.player == s.player
      && (s.player == White ==> r.whiteTime == Max(0, s.whiteTime - n) && r.blackTime == s.blackTime)
      && (s.player == Black ==> r.blackTime == Max(0, s.blackTime - n) && r.whiteTime == s.whiteTime)
  {
    TicksCountDown(s, n);
    CountdownFormula(s.whiteTime, n);
    CountdownFormula(s.blackTime, n);
  }

  /** From the opening position, `n` ticks leave white with `max(0, 3600 - n)`
      seconds and black untouched. */
  lemma InitialTicks(n: nat)
    ensures Ticks(Initial(), n).whiteTime == Max(0, InitialSeconds - n) >= 0
    ensures Ticks(Initial(), n).blackTime == InitialSeconds
  {
    TicksDrainActiveClock(Initial(), n);
  }

  /** Every destination of a valid state is on the board, empty, and not the
      selected square. */
  lemma ValidDestinations(s: GameState)
    requires Valid(s)
    ensures forall m :: m in s.validMoves ==>
      s.selected.Some? && OnBoard(m) && At(s.board, m) == "" && m != s.selected.value
  {
  }

  lemma InitialValid()
    ensures Valid(Initial())
    ensures |Pieces(Initial().board)| == 32
  {
    InitialPieces();
  }

  lemma TapPreservesValid(s: GameState, row: int, col: int)
    requires Valid(s) && OnBoard(Square(row, col))
    ensures Valid(Tap(s, row, col))
  {
  }

  lemma TickPreservesValid(s: GameState)
    requires Valid(s)
    ensures Valid(Tick(s))
  {
  }

  /** No tap creates or destroys a piece: a commit moves the selected pawn onto
      a square that was empty when its destinations were generated. */
  lemma TapKeepsPieces(s: GameState, row: int, col: int)
    requires Valid(s) && OnBoard(Square(row, col))
    ensures Pieces(Tap(s, row, col).board) == Pieces(s.board)
    ensures |Pieces(Tap(s, row, col).board)| == |Pieces(s.board)|
  {
    if IsCommit(s, row, col) {
      ValidDestinations(s);
      MoveToEmptyKeepsPieces(s.board, s.selected.value, Square(row, col));
    }
  }

  /** The two events the controller reacts to. */
  datatype Event = Press(row: int, col: int) | Second

  predicate EventsOnBoard(events: seq<Event>)
  {
    forall k :: 0 <= k < |events| && events[k].Press? ==> OnBoard(Square(events[k].row, events[k].col))
  }

  function Step(s: GameState, e: Event): (r: GameState)
    requires Tappable(s)
    requires e.Press? ==> OnBoard(Square(e.row, e.col))
    ensures Tappable(r)
  {
    match e
    case Press(row, col) => Tap(s, row, col)
    case Second => Tick(s)
  }

  /** The state after handling `events` in order, each to completion. */
  function Run(s: GameState, events: seq<Event>): GameState
    requires Tappable(s)
    requires EventsOnBoard(events)
    decreases |events|
  {
    if |events| == 0 then s else Run(Step(s, events[0]), events[1..])
  }

  /** Any run of taps and ticks keeps the state valid and the pieces unchanged. */
  lemma {:induction false} RunPreservesValid(s: GameState, events: seq<Event>)
    requires Valid(s)
    requires EventsOnBoard(events)
    ensures Valid(Run(s, events))
    ensures Pieces(Run(s, events).board) == Pieces(s.board)
    decreases |events|
  {
    if |events| > 0 {
      var e := events[0];
      match e {
        case Press(row, col) =>
          TapPreservesValid(s, row, col);
          TapKeepsPieces(s, row, col);
        case Second =>
          TickPreservesValid(s);
      }
      assert EventsOnBoard(events[1..]) by {
        forall k | 0 <= k < |events[1..]| && events[1..][k].Press?
          ensures OnBoard(Square(events[1..][k].row, events[1..][k].col))
        {
          assert events[1..][k] == events[k + 1];
        }
      }
      RunPreservesValid(Step(s, e), events[1..]);
    }
  }

  /** Every state reachable from the opening position is valid and still
      holds its 32 pieces. */
  lemma ReachableStates(events: seq<Event>)
    requires EventsOnBoard(events)
    ensures Valid(Run(Initial(), events))
    ensures |Pieces(Run(Initial(), events).board)| == 32
  {
    InitialValid();
    RunPreservesValid(Initial(), events);
  }

  /** Opening scenario: white selects the e-pawn, which has the single
      destination one rank up; tapping it moves the pawn and passes the turn. */
  lemma OpeningPawnPush()
    ensures Tap(Initial(), 6, 4).selected == Some(Square(6, 4))
    ensures Tap(Initial(), 6, 4).validMoves == [Square(5, 4)]
    ensures var s := Tap(Tap(Initial(), 6, 4), 5, 4);
      s.player == Black && s.board[5][4] == "P" && s.board[6][4] == "" && s.selected == None
  {
    var s1 := Tap(Initial(), 6, 4);
    assert Square(5, 4) in s1.validMoves;
  }

  /** Only pawns are selectable: tapping any white back-rank piece at the
      start, the rook and knight included, selects nothing. */
  lemma BackRankNotSelectable(col: int)
    requires 0 <= col < Size
    ensures Tap(Initial(), 7, col).selected == None
    ensures Tap(Initial(), 7, col).validMoves == []
  {
  }

}
