# Tap-driven chess controller

A Dafny model of the game controller inside the `App` component of a React
Native chess app (`App.tsx`). The controller keeps one state record:

- an 8x8 board of one-letter piece codes, with `""` for an empty square;
- the selected square, if any;
- the destinations of that selection (`validMoves`);
- the active player;
- two clocks, in seconds.

Two events drive it:

- a tap on a square (`handleSquarePress`), which commits a pending move,
  selects the active player's pawn, or clears the selection;
- a one-second tick, which counts the active player's clock down and stops
  at zero.

Each handler is a pure function on an immutable `GameState`. Each clock is
shown as `MM:SS` by `formatTime`, a pure view of the state that is also
modelled.

Modules:

- `Optional`: the `Option` type, for JavaScript's `null` and `undefined`.
- `Grid`: the board, squares, the optional-chaining lookup, the board
  rebuild on a commit, and the multiset of pieces on the board.
- `Moves`: destination generation (`calculateValidMoves`).
- `Clock`: the saturating countdown.
- `TimeFormat`: `formatTime`, with JavaScript's `Math.floor`, `%`,
  `toString` and `padStart` written out for integers.
- `Game`: the state record, the initial state, `Tap`, `Tick`, runs of
  events, and the invariants that every tap and tick preserves.

The code has exactly one movement rule: a pawn steps one square forward onto an
empty square. Only the active player's pawn (`P` for white, `p` for black)
can be selected. There are no other piece moves, no double step, no diagonal
capture, and so no capture at all. The model has only these rules and proves
that no tap ever removes a piece.

## Model

| member | source | states |
|---|---|---|
| Grid.InitialBoard | App.tsx:73-82 | the starting layout: black back rank, row 1 all `p`, rows 2-5 empty, row 6 all `P`, white back rank |
| Grid.InitialPieces | App.tsx:73-82 | the starting layout holds exactly 32 pieces |
| Grid.Lookup | App.tsx:137 | `board[r]?.[c]` is defined exactly when (r, c) is on the board, and is then that square's content |
| Grid.Move | App.tsx:109-115 | the rebuilt board: the target holds the origin's piece, the origin is empty, all other squares are copied |
| Grid.MoveIsTwoPuts | App.tsx:109-115 | for distinct squares, the rebuild is the same as placing the piece on the target and then clearing the origin |
| Grid.MoveToEmptyKeepsPieces | App.tsx:109-115 | moving onto an empty square leaves the multiset of pieces, and so the number of occupied squares, unchanged |
| Moves.ValidMoves | App.tsx:132-143 | at most one destination; a square is a destination iff the piece is a pawn, the square is one row forward (-1 for `P`, +1 for `p`) in the same column, on the board, and empty; so never the origin and never off the board |
| Clock.TickClock | App.tsx:89-93 | one tick never yields a negative reading, and takes a non-negative reading to `max(0, prev - 1)` |
| Clock.CountdownFormula | App.tsx:89-93 | n ticks from t >= 0 give `max(0, t - n)` |
| TimeFormat.NumberToString | App.tsx:102 | `toString` of an integer: a non-empty numeral without leading zeros whose digits read back as the number, after a `-` when negative |
| TimeFormat.PadStart | App.tsx:102 | `padStart(width, fill)`: the input, ending the result, after enough fill characters to reach the width |
| TimeFormat.JsRem | App.tsx:101 | JavaScript `%` by a positive divisor n: the result differs from the dividend by a multiple of n, lies strictly between -n and n, and has the dividend's sign |
| TimeFormat.FormatTime | App.tsx:99-103 | for t >= 0: a minutes field of at least two digits with value `t / 60`, a colon, then exactly two seconds digits with value `t % 60`; parsing the text, which recombines `minutes * 60 + seconds`, gives back t. Padding never adds zeros beyond two minute digits: a longer minutes field starts with a non-zero digit, and every t below 6000 renders as exactly five characters |
| TimeFormat.RenderedFields | App.tsx:102 | zero-padded numerals of a minute count and a second count below 60, around a colon, show both values and parse back to `minutes * 60 + seconds`; the text is five characters when minutes are below 100, and otherwise starts with a non-zero digit |
| TimeFormat.FormatHour | App.tsx:99-103 | 3600 seconds render as `60:00` |
| TimeFormat.DecimalRoundTrip | App.tsx:102 | reading the decimal digits of n gives back n |
| TimeFormat.LeadingZeros | App.tsx:102 | zero padding does not change a numeral's value |
| Game.Initial | App.tsx:67-82 | white to move, no selection, no destinations, both clocks at 3600, the starting layout |
| Game.InitialValid | App.tsx:67-82 | the initial state satisfies the controller invariant and holds 32 pieces |
| Game.Tap | App.tsx:105-130 | a tap on a destination of the selection moves the piece, empties the origin, keeps the other squares, clears the selection and destinations, and flips the player. Any other tap leaves the board, the player and the clocks alone. It selects the square, with that square's generated destinations, iff the square holds the active player's pawn. Otherwise it clears the selection. Destinations never exist without a selection |
| Game.Tick | App.tsx:88-93 | only the active player's clock changes, by one saturating tick; the board, selection and player are untouched |
| Game.TicksCountDown | App.tsx:88-93 | n ticks run the active clock through n steps of its countdown and leave the other clock, the board, the selection and the player untouched |
| Game.TicksDrainActiveClock | App.tsx:87-97 | n ticks take the active clock from t >= 0 to `max(0, t - n)` and leave the other clock untouched |
| Game.InitialTicks | App.tsx:71-93 | from the opening state, n ticks give white `max(0, 3600 - n)`, never negative, and leave black at 3600 |
| Game.ValidDestinations | App.tsx:135-140 | in a valid state every destination is on the board, empty, not the selected square, and exists only under a selection |
| Game.TapPreservesValid | App.tsx:105-130 | every tap keeps the invariant: 8x8 board, selection holds the active pawn, its destinations are exactly the generated ones, clocks non-negative |
| Game.TickPreservesValid | App.tsx:88-93 | every tick keeps the invariant |
| Game.TapKeepsPieces | App.tsx:108-119 | no tap creates or removes a piece, so there are no captures |
| Game.RunPreservesValid | App.tsx:87-130 | any sequence of taps and ticks keeps the invariant and the multiset of pieces |
| Game.ReachableStates | App.tsx:67-130 | every state reachable from the opening is valid and holds 32 pieces |
| Game.BackRankNotSelectable | App.tsx:120-129 | at the start, a tap on any white back-rank piece (rook, knight, bishop, queen, king) selects nothing and leaves no destinations |
| Game.OpeningPawnPush | App.tsx:105-143 | tapping the white e-pawn selects it with the single destination (5, 4); tapping that square moves the pawn and passes the turn to black |

## Left out

- Rendering (`Section`, `RenderItem`, the `FlatList` board, status bar, styles, colour theme): presentation only. The highlight test in `RenderItem` (App.tsx:148) checks only membership in `validMoves`, with no test of the selection. In every `Valid` state it agrees with `IsCommit`, because destinations exist only under a selection.
- `mockData`/`articles` and the empty `handlePlayerAction`: unused or placeholder code.
- `setInterval`/`clearInterval`/`useEffect` scheduling and React state batching: one tick is a pure function, each tap is handled atomically, and `Run` processes events in order.
- Taps outside the board: taps come only from the rendered squares (App.tsx:155), so every call site meets `Tap`'s requirement of an on-board square and an on-board selection. Called directly, `handleSquarePress` would throw on an off-board row. With an on-board row and an off-board column it reads `undefined` and clears the selection (App.tsx:106, 126-128). The model covers neither case.
- Moves.ValidMoves: `piece.toLowerCase() === 'p'` is modelled as "the piece is `P` or `p`". Other strings that lower-case to `p` do not occur on the board.
- TimeFormat.NumberToString: only integers of magnitude below 1e21 are modelled; JavaScript writes larger magnitudes in exponent notation, and clocks stay within 0..3600.
- TimeFormat.FormatTime: modelled for integer readings only. Fractional JavaScript numbers cannot arise, because clocks start at 3600 and only ever lose whole seconds.
- Knight, bishop, rook, queen and king moves, the pawn double step, diagonal captures, en passant, promotion, check and time-out: none of these is in the code, so none is modelled.
