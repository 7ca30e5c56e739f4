# Ultimate Tic-Tac-Toe rules engine in Dafny

This project models the rules engine of a Rust Ultimate Tic-Tac-Toe player
and proves properties of it. The board is a 3x3 grid of 3x3 sub-boards. A
move places the mover's mark in one cell. The cell's position inside its
sub-board names the sub-board the opponent must play in next, unless that
sub-board is closed. In that case the opponent may play in any open
sub-board.

The engine has five parts, and each has its own Dafny module:

- `TicTacToe` (`tic_tac_toe.dfy`) is the grid and slot layer.
  - The three-valued `PieceType`, with its derived ordering O < Empty < X.
  - `GridSlot`, a row-major index 0..8, plus the free sentinel `ANY_SLOT` = 9.
  - Its conversions to and from (row, column). The 8-bit `from` wraps modulo 256.
  - The tables `ALL_SLOTS` and `ALL_LINES`.
  - The generic `Grid3x3` with slot-addressed read and write.
  - The hand-written row-major lexicographic `cmp`, as a loop method `Cmp` proved equal to the function `Compare`.
- `BoardScoring` and `BoardScoringFacts` (`board_score.dfy`) are the recursive scorer. It applies at both levels, and its result is `WinnerX | WinnerO | Draw | InProgress(v)`.
  - The line loop and the grid loop are methods. Each is proved equal to a declarative definition: `LineScore`, and `CombineLines` over the 8 `LineScores`.
  - The facts module proves the short-circuit rules, the fallback averages, the bound on values, and the colour symmetry of scoring.
- `Playable` (`playable.dfy`) decides whether a grid accepts moves. A won grid is closed. Otherwise a grid is open iff some child is open. There is no Draw check.
- `Tools` (`tools.dfy`) is the text form.
  - `StringUltragrid` is the nested append loop. It is proved equal to `Render`.
  - `ParseUltragrid` is the four nested loops with an inner character scan. It is proved equal to `ParseSpec`: the 81 accepted characters are placed in big_row, small_row, big_col, small_col order, and too short an input gives `None`.
  - The round trip `ParseSpec(Render(g)) == Some(g)` is proved.
- `NodeUttt` (`node_uttt.dfy`) is the game state: its field order, `Default`, the `to_string` text, and the derived ordering.
- `GameUttt` (`game_uttt.dfy`) holds the four operations a search needs.
  - **Move generation:** a method that appends to the caller's list. It is proved to produce exactly the rule's moves, in ascending order.
  - **Move application:** a pure successor function. The slot invariant and strict alternation are proved to be preserved.
  - **Terminal test:** the result is mapped to the player to move or the player who just moved.
  - **Evaluation:** scaled by 32766, truncated toward zero, then seen from the mover's side.

Three behaviours of the code are worth stating outright:

* `apply` overwrites the chosen cell without a legality check, and so does `Apply`.
* A sub-board that scores Draw stays playable while it has an Empty cell, because no Draw check is made (`DrawWithEmptyCellPlayable`).
* A state that is not over, and keeps the slot invariant, always has a generated move (`NotTerminalHasMoves`). The converse fails: a won state that keeps both state invariants can still have generated moves (`TerminalWithMoves`).

## Model

| member | source | states |
|---|---|---|
| TicTacToe.DefaultPiece | src/template/tic_tac_toe.rs:6-11 | the default piece is Empty |
| TicTacToe.ComparePiece | src/template/tic_tac_toe.rs:6-11 | the derived piece ordering is Equal exactly on equal pieces, and Less exactly when O comes before Empty or X, or Empty before X (by discriminant, O < Empty < X) |
| TicTacToe.ComparePieceAntisymmetric | src/template/tic_tac_toe.rs:6-11 | swapping the arguments flips the piece ordering |
| TicTacToe.GridSlot.Into | src/template/tic_tac_toe.rs:38-42 | (row, column) recombine to the index as row * 3 + column; a proper slot gives row and column below 3 |
| TicTacToe.FromPair | src/template/tic_tac_toe.rs:33-37 | the slot index is row * 3 + column whenever that fits in 8 bits |
| TicTacToe.SlotPairRoundTrip | src/template/tic_tac_toe.rs:33-42 | for row and column below 3, converting to a slot and back is the identity, and the slot is proper |
| TicTacToe.SlotRoundTrip | src/template/tic_tac_toe.rs:33-42 | for every slot, converting to (row, column) and back is the identity |
| TicTacToe.AnySlotInto | src/template/tic_tac_toe.rs:16 | the free slot is 9 and converts to (3, 0), outside the grid |
| TicTacToe.AllSlotsAscending | src/template/tic_tac_toe.rs:17-21 | the slot table has 9 entries and entry k is slot k, so each slot appears once, in ascending order |
| TicTacToe.AllLinesBounded | src/template/tic_tac_toe.rs:22-31 | the line table has 8 lines of 3 proper, pairwise distinct slots |
| TicTacToe.AllLinesGeometry | src/template/tic_tac_toe.rs:22-31 | the lines are the three rows, the three columns, the main diagonal and the anti-diagonal, in that order |
| TicTacToe.Grid3x3.Set | src/template/tic_tac_toe.rs:76-79 | after a write of v at slot s, reading s gives v and every other slot is unchanged |
| TicTacToe.Grid3x3.Get | src/template/tic_tac_toe.rs:71-74 | the read of cell (s / 3, s % 3) for a proper slot; Grid3x3.Set and GridExtensional characterise it |
| TicTacToe.EmptyBoard | src/template/tic_tac_toe.rs:50-53 | the default sub-board holds only Empty cells |
| TicTacToe.EmptyUltra | src/game/node_uttt.rs:19 | the default grid of sub-boards holds only Empty cells |
| TicTacToe.LexCompare | src/template/tic_tac_toe.rs:56-66 | the first non-Equal comparison of corresponding elements; characterised by LexCompareFirst and LexCompareEqualIff |
| TicTacToe.Compare | src/template/tic_tac_toe.rs:54-67 | the grid ordering, LexCompare of the nine cells in row-major order; characterised by CompareEqualIff, and Cmp is proved equal to it |
| TicTacToe.LexCompareFirst | src/template/tic_tac_toe.rs:56-66 | the comparison is the first non-Equal comparison of corresponding cells, or Equal when there is none |
| TicTacToe.LexCompareEqualIff | src/template/tic_tac_toe.rs:56-66 | the comparison is Equal iff every corresponding pair of cells compares Equal |
| TicTacToe.CompareEqualIff | src/template/tic_tac_toe.rs:54-67 | the grid comparison is Equal iff all nine cells compare Equal |
| TicTacToe.CompareEqualIffSame | src/template/tic_tac_toe.rs:54-67 | with a cell ordering that is Equal only on equal cells, the grid comparison is Equal only on equal grids |
| TicTacToe.LexCompareAntisymmetric | src/template/tic_tac_toe.rs:56-66 | an antisymmetric cell ordering gives an antisymmetric grid ordering |
| TicTacToe.CompareSub | src/template/tic_tac_toe.rs:54-67 | the sub-board ordering is Equal exactly on equal sub-boards |
| TicTacToe.CompareUltra | src/template/tic_tac_toe.rs:54-67 | the super-board ordering is Equal exactly on equal grids |
| TicTacToe.CompareSubAntisymmetric | src/template/tic_tac_toe.rs:54-67 | swapping two sub-boards flips their comparison |
| TicTacToe.CompareUltraAntisymmetric | src/template/tic_tac_toe.rs:54-67 | swapping two grids flips their comparison |
| TicTacToe.Cmp | src/template/tic_tac_toe.rs:54-67 | the nested row-major loop with early return computes the lexicographic comparison |
| BoardScoring.PieceScore | src/game/game_uttt.rs:22-32 | X scores WinnerX, O scores WinnerO and Empty scores InProgress(0), each in both directions; a piece never scores Draw |
| BoardScoring.LineScore | src/game/game_uttt.rs:37-68 | the line rule; its five outcomes are stated by LineScoreCases, and ComputeLineScore is proved equal to it |
| BoardScoring.CombineLines | src/game/game_uttt.rs:70-92 | the combination of the 8 line scores; its cases are stated by ScoreFirstDecisiveLine and ScoreWithoutDecisiveLine |
| BoardScoring.Score | src/game/game_uttt.rs:33-94 | the grid score from the 8 lines in ALL_LINES order; ComputeScore is proved equal to it |
| BoardScoring.SubScore | src/game/game_uttt.rs:22-94 | the score of a sub-board whose cells score by PieceScore; bounded by SubScoreBounded, negated by SubScoreSwap |
| BoardScoring.UltraScore | src/game/game_uttt.rs:33-94 | the score of the super-board whose cells score by SubScore; bounded by UltraScoreBounded, negated by UltraScoreSwap |
| BoardScoring.FirstDecisive | src/game/game_uttt.rs:75-79 | a found score is decisive and is one of the line scores |
| BoardScoring.ComputeLineScore | src/game/game_uttt.rs:37-68 | the accumulating line loop, with its early Draw return and its classification by counts, computes LineScore |
| BoardScoring.ComputeScore | src/game/game_uttt.rs:70-92 | the grid loop over the lines, with its early decisive return and its fallback, computes the grid score |
| BoardScoring.FirstDecisiveExtends | src/game/game_uttt.rs:75-79 | once a prefix contains a decisive line, later lines do not change the first decisive one |
| BoardScoringFacts.LineScoreCases | src/game/game_uttt.rs:44-67 | a Draw member makes the line Draw; three X wins give WinnerX; three O wins give WinnerO; an X win beside an O win gives Draw; otherwise the line is InProgress of the sum of contributions over 3 |
| BoardScoringFacts.LineScoreBounded | src/game/game_uttt.rs:60-67 | members whose values lie in [-1, 1] give a line whose value lies in [-1, 1] |
| BoardScoringFacts.FirstDecisiveIsEarliest | src/game/game_uttt.rs:75-79 | the earliest decisive line is the one found |
| BoardScoringFacts.NoDecisiveInPrefix | src/game/game_uttt.rs:75-79 | no decisive line is found iff no line in the prefix is decisive |
| BoardScoringFacts.ScoreFirstDecisiveLine | src/game/game_uttt.rs:75-79 | the first decisive line in canonical order is the grid's score, whatever the later lines are |
| BoardScoringFacts.MixedLineDraw | src/game/game_uttt.rs:64-65 | a line with an X win and an O win among its members scores Draw |
| BoardScoringFacts.TopLineWins | src/game/game_uttt.rs:75-79 | three X wins along the top row give WinnerX for the grid, whatever the other children are |
| BoardScoringFacts.ScoreWithoutDecisiveLine | src/game/game_uttt.rs:80-92 | with no decisive line, the grid is InProgress of the sum of InProgress line values over 8 when one exists, and Draw when every line is Draw |
| BoardScoringFacts.SumInProgressBounded | src/game/game_uttt.rs:81-84 | the sum of n bounded InProgress values lies in [-n, n] |
| BoardScoringFacts.ScoreBounded | src/game/game_uttt.rs:60-92 | children whose values lie in [-1, 1] give a grid whose value lies in [-1, 1] |
| BoardScoringFacts.CombineLinesBounded | src/game/game_uttt.rs:88-92 | eight bounded line scores combine to a bounded grid score |
| BoardScoringFacts.SubScoreBounded | src/game/game_uttt.rs:22-94 | every sub-board value lies in [-1, 1] |
| BoardScoringFacts.UltraScoreBounded | src/game/game_uttt.rs:33-94 | every super-board value lies in [-1, 1] |
| BoardScoringFacts.NegateCounts | src/game/game_uttt.rs:44-58 | negating the members swaps the X and O counts and negates the sum |
| BoardScoringFacts.NegateLineSums | src/game/game_uttt.rs:75-85 | negating the line scores negates their InProgress sum and the first decisive one |
| BoardScoringFacts.NegateMembership | src/game/game_uttt.rs:52-53 | negation keeps which members are InProgress and which are Draw |
| BoardScoringFacts.LineScoreNegate | src/game/game_uttt.rs:37-68 | negating the members negates the line score |
| BoardScoringFacts.CombineLinesNegate | src/game/game_uttt.rs:70-92 | negating the line scores negates the grid score |
| BoardScoringFacts.ScoreNegate | src/game/game_uttt.rs:33-94 | a grid whose children score as the negations of another's scores as the negation |
| BoardScoringFacts.SubScoreSwap | src/game/game_uttt.rs:22-94 | swapping X and O on a sub-board negates its score |
| BoardScoringFacts.UltraScoreSwap | src/game/game_uttt.rs:33-94 | swapping X and O everywhere negates the super-board score |
| BoardScoringFacts.FullBoardDecided | src/game/game_uttt.rs:60-92 | a sub-board with no Empty cell is won or Draw, never InProgress |
| BoardScoringFacts.FullLinelessDraw | src/game/game_uttt.rs:60-92 | a full sub-board with no three equal marks on a line scores Draw |
| Playable.PiecePlayable | src/game/playable.rs:9-13 | a cell accepts a move only when Empty; SubPlayableIff uses this |
| Playable.AnyChildPlayable | src/game/playable.rs:24-27 | the slot loop returning true at the first playable child; characterised by AnyChildPlayableIff |
| Playable.GridPlayable | src/game/playable.rs:15-29 | closed when decisively won, otherwise open when a child is; characterised by GridPlayableIff |
| Playable.SubPlayable | src/game/playable.rs:15-29 | playability of a sub-board; characterised by SubPlayableIff |
| Playable.UltraPlayable | src/game/playable.rs:15-29 | playability of the super-board; characterised by UltraPlayableIff |
| Playable.AnyChildPlayableIff | src/game/playable.rs:24-27 | the slot loop returns true iff some child from the k-th slot on is playable |
| Playable.GridPlayableIff | src/game/playable.rs:15-29 | a grid is playable iff its score is not decisive and some child is playable |
| Playable.SubPlayableIff | src/game/playable.rs:9-29 | a sub-board is playable iff it is not won and has an Empty cell |
| Playable.UltraPlayableIff | src/game/playable.rs:15-29 | the super-board is playable iff it is not won and some sub-board is playable |
| Playable.WonNotPlayable | src/game/playable.rs:17-22 | a grid won by either side is not playable, whatever its cells |
| Playable.FullNotPlayable | src/game/playable.rs:24-27 | a sub-board without an Empty cell is not playable |
| Playable.TopRowWonClosed | src/game/playable.rs:17-22 | a sub-board won by X on its top row is closed although it still has Empty cells |
| Playable.BlockedStraightLines | src/game/game_uttt.rs:64-65 | on a blocked example board, every row and column scores Draw |
| Playable.BlockedDiagonals | src/game/game_uttt.rs:64-65 | on the same board, both diagonals score Draw |
| Playable.BlockedBoardStillPlayable | src/game/playable.rs:17-27 | an example sub-board with every line blocked scores Draw and is still playable with its one Empty cell |
| Playable.DrawWithEmptyCellPlayable | src/game/playable.rs:17-27 | every sub-board that scores Draw and still has an Empty cell is playable, because there is no Draw check |
| Playable.NoThreeInLineOpen | src/game/playable.rs:17-27 | a sub-board with an Empty cell and no line of three equal marks is playable |
| Tools.Token | src/game/tools.rs:15-21 | every cell token is three characters long |
| Tools.CellAt | src/game/tools.rs:11-13 | the cell shown at text row i, column j; characterised by CellAtIsAt |
| Tools.Render | src/game/tools.rs:6-28 | the rendered text; StringUltragrid is proved equal to it, RenderLayout gives its layout and RenderParseRoundTrip its inverse |
| Tools.RowCells | src/game/tools.rs:10-13 | text row i holds n cells |
| Tools.CellAtIsAt | src/game/tools.rs:11-13 | the cell at text row i, column j is at super-slot (i/3, j/3), local slot (i%3, j%3) |
| Tools.StringUltragrid | src/game/tools.rs:6-28 | the nested append loop produces the rendered text |
| Tools.PushRowText | src/game/tools.rs:10-23 | the inner loop appends one text row: the bars and the nine tokens |
| Tools.RowTextStep | src/game/tools.rs:14-21 | a text row grows by the optional bar and one cell token per column |
| Tools.RowTextLayout | src/game/tools.rs:10-23 | a text row is 29 characters long, has the token of column j at offset 3j + j/3, and has bars at offsets 9 and 19 |
| Tools.RenderLayout | src/game/tools.rs:6-28 | the text is a newline, then nine rows each ending in a newline, with a dash line after rows 2 and 5 only, 331 characters in all |
| Tools.AcceptedConcat | src/game/tools.rs:44-53 | the accepted characters of a concatenation are those of each part in order |
| Tools.NoneAccepted | src/game/tools.rs:49 | a text without 'X', 'O' or '.' contributes no cells |
| Tools.Accepted | src/game/tools.rs:44-53 | the pieces of the accepted characters in order; characterised by AcceptedConcat, NoneAccepted and AcceptedSingle |
| Tools.ParseSpec | src/game/tools.rs:30-61 | the parse result; ParseUltragrid is proved equal to it, RenderParseRoundTrip shows it inverts Render |
| Tools.FromCells | src/game/tools.rs:39-54 | cell k goes to big_row, small_row, big_col, small_col with k = 27 big_row + 9 small_row + 3 big_col + small_col |
| Tools.SetAt | src/game/tools.rs:54 | the assignment writes one cell and leaves the other 80 unchanged |
| Tools.NextPiece | src/game/tools.rs:44-53 | the scan loop consumes non-piece characters up to and including the next piece; at the end of the input there is none |
| Tools.ParseTextRow | src/game/tools.rs:41-56 | the two inner loops fill the nine cells of one text row, or report that the input ran out |
| Tools.ParseUltragrid | src/game/tools.rs:30-61 | the parse loops compute ParseSpec: the first 81 accepted characters in nesting order, or None when there are fewer |
| Tools.AcceptedRowOf | src/game/tools.rs:14-21 | the text of a row of cells accepts exactly those cells |
| Tools.AcceptedToken | src/game/tools.rs:15-21 | each token holds exactly its piece's character |
| Tools.AcceptedLineEnd | src/game/tools.rs:24-25 | the newline and the dash line add no cells |
| Tools.AcceptedRowLine | src/game/tools.rs:9-25 | one text row line accepts exactly that row's nine cells |
| Tools.AcceptedBoardText | src/game/tools.rs:6-28 | the first n text rows accept their cells in row order |
| Tools.AcceptedRender | src/game/tools.rs:11-13 | the rendered text accepts exactly 81 cells, and cell k is the one the parser assigns to position k |
| Tools.RenderParseRoundTrip | src/game/tools.rs:6-61 | parsing the rendering of any grid gives the same grid back |
| Tools.ParseIgnoresTail | src/game/tools.rs:39-51 | once 81 cells have been accepted, whatever follows does not change the parse |
| Tools.ParseSkipsOtherCharacters | src/game/tools.rs:45-52 | a character other than 'X', 'O' and '.' can be inserted anywhere without changing the parse |
| Tools.ParseNeedsEightyOne | src/game/tools.rs:45 | the parse fails iff fewer than 81 characters are accepted |
| NodeUttt.Default | src/game/node_uttt.rs:16-24 | the starting state has an all-Empty grid, X to move and the free slot |
| NodeUttt.DecimalText | src/game/node_uttt.rs:31 | an integer prints as a non-empty digit string, one digit below 10 |
| NodeUttt.DecimalRoundTrip | src/game/node_uttt.rs:31 | reading the printed digits back gives the integer |
| NodeUttt.ToText | src/game/node_uttt.rs:25-34 | the three appends produce the grid text, the player line and the slot line |
| NodeUttt.StateText | src/game/node_uttt.rs:25-34 | the state text; ToText is proved equal to it, StateTextParses and PlayerCharAt read it back |
| NodeUttt.TextJoin | src/game/node_uttt.rs:29-31 | the state text is the grid text followed by the two appended lines |
| NodeUttt.AnySlotText | src/game/node_uttt.rs:28 | the free slot prints as (3, 0) |
| NodeUttt.StateTextSplit | src/game/node_uttt.rs:29-31 | the state text is the 331-character grid text followed by the player and slot lines |
| NodeUttt.StateTextParses | src/game/node_uttt.rs:29 | parsing a state's text gives back its grid |
| NodeUttt.PlayerCharAt | src/game/node_uttt.rs:30 | character 348 of a state's text is X or O, the side to move |
| NodeUttt.StateTextDistinguishes | src/game/node_uttt.rs:25-34 | states with equal texts have equal grids and movers |
| NodeUttt.CompareBool | src/game/node_uttt.rs:10 | the derived bool ordering is Equal on equal values and puts false before true |
| NodeUttt.CompareState | src/game/node_uttt.rs:10-15 | the derived state ordering is Equal exactly on equal states |
| NodeUttt.CompareStateAntisymmetric | src/game/node_uttt.rs:10-15 | swapping two states flips their comparison |
| NodeUttt.CompareStateByGridFirst | src/game/node_uttt.rs:10-15 | the grid decides the order, then the mover, then the slot |
| GameUttt.Generated | src/game/game_uttt.rs:102-122 | the move rule, free or forced slot; LegalMovesExactly proves the generator yields exactly these moves |
| GameUttt.LegalMoves | src/game/game_uttt.rs:102-122 | the generated moves; GenerateMoves is proved to append them, LegalMovesExactly and LegalMovesAscending characterise them |
| GameUttt.FreeMoves | src/game/game_uttt.rs:104-114 | the free-choice moves; characterised by FreeMovesMembers and FreeMovesAscending |
| GameUttt.FreeBlock | src/game/game_uttt.rs:105-113 | the moves of one sub-board under free choice; PushFreeBlock is proved to append them |
| GameUttt.KeyPairAt | src/game/game_uttt.rs:105-111 | every pair of proper slots has a position below 81 in the ascending order |
| GameUttt.EmptyCells | src/game/game_uttt.rs:109-113 | a scan of n cells yields at most n moves |
| GameUttt.EmptyCellsMembers | src/game/game_uttt.rs:109-113 | the cell scan yields exactly the moves (s1, s) with s Empty in sub-board s1 |
| GameUttt.FreeMovesMembers | src/game/game_uttt.rs:104-114 | the free-choice loop yields exactly the moves into Empty cells of playable sub-boards |
| GameUttt.LegalMovesExactly | src/game/game_uttt.rs:102-122 | a move is generated iff it follows the rule: with the free slot, an Empty cell of a playable sub-board; with a forced slot, an Empty cell of that sub-board |
| GameUttt.EmptyCellsAscending | src/game/game_uttt.rs:109-113 | the cell scan yields moves in ascending cell order |
| GameUttt.FreeMovesAscending | src/game/game_uttt.rs:104-114 | the free-choice loop yields moves in ascending (s1, s2) order |
| GameUttt.LegalMovesAscending | src/game/game_uttt.rs:102-122 | the generated moves are in strictly ascending (s1, s2) order, so without repeats |
| GameUttt.ForcedMovesStayInSlot | src/game/game_uttt.rs:115-121 | with a forced slot, every generated move plays into an Empty cell of that sub-board |
| GameUttt.PushEmptyCells | src/game/game_uttt.rs:109-113 | the inner loop appends the moves of the cell scan |
| GameUttt.PushFreeBlock | src/game/game_uttt.rs:105-113 | a closed sub-board is skipped and an open one is scanned |
| GameUttt.PushFreeMoves | src/game/game_uttt.rs:104-114 | the free-choice loop appends the free moves |
| GameUttt.GenerateMoves | src/game/game_uttt.rs:102-122 | the generator appends the legal moves to the caller's list |
| GameUttt.EmptyBoardPlayable | src/game/playable.rs:15-29 | an empty sub-board scores InProgress(0) and is playable |
| GameUttt.DefaultMoves | src/game/game_uttt.rs:104-114 | from the starting position, all 81 cells are generated in ascending order |
| GameUttt.OpenGridMoves | src/game/game_uttt.rs:104-114 | with the free slot and every sub-board empty, all 81 cells are generated in ascending order |
| GameUttt.Mover | src/game/game_uttt.rs:127 | X when crosses_turn, otherwise O; Apply writes it into the chosen cell |
| GameUttt.Apply | src/game/game_uttt.rs:124-144 | the successor has the mover's piece in the chosen cell, every other cell unchanged, the turn passed, and the next slot set to the cell's slot if that sub-board is open, otherwise the free slot |
| GameUttt.DefaultSlotInvariant | src/game/node_uttt.rs:16-24 | the starting state satisfies the slot invariant |
| GameUttt.ApplySlotInvariant | src/game/game_uttt.rs:130-135 | after any move, the forced slot is free or names an open sub-board |
| GameUttt.ApplyClosedTargetFrees | src/game/game_uttt.rs:130-135 | a move whose target sub-board is full or won frees the choice |
| GameUttt.CellCountChange | src/game/game_uttt.rs:128 | writing a mark over an Empty cell changes each piece count of that sub-board by one cell |
| GameUttt.PieceCountChange | src/game/game_uttt.rs:128 | writing a mark over an Empty cell moves one cell from the Empty count to that mark's count |
| GameUttt.ApplyFillsOneCell | src/game/game_uttt.rs:124-141 | a generated move fills exactly one Empty cell |
| GameUttt.DefaultAlternating | src/game/node_uttt.rs:16-24 | the starting state has as many X as O pieces, with X to move |
| GameUttt.ApplyAlternates | src/game/game_uttt.rs:124-141 | a generated move keeps strict alternation of the piece counts |
| GameUttt.GetWinner | src/game/game_uttt.rs:146-166 | no winner iff the grid is InProgress; Draw iff it is Draw; the player to move wins iff the mover's mark won; the player who just moved wins iff the other mark won |
| GameUttt.GetWinnerOtherMover | src/game/game_uttt.rs:146-166 | passing the turn on the same grid swaps the two kinds of win |
| GameUttt.GetWinnerColourSymmetric | src/game/game_uttt.rs:146-166 | swapping X and O and passing the turn leaves the outcome unchanged |
| GameUttt.WinningMoveReported | src/game/game_uttt.rs:146-155 | a move that wins the whole board for the mover is reported as a win for the player who just moved |
| GameUttt.NotTerminalHasMoves | src/game/game_uttt.rs:102-122 | a state that is not over and satisfies the slot invariant has a move |
| GameUttt.InProgressUltraPlayable | src/game/playable.rs:15-29 | an InProgress super-board is playable |
| GameUttt.InProgressSubPlayable | src/game/playable.rs:15-29 | an InProgress sub-board is playable |
| GameUttt.InProgressChild | src/game/game_uttt.rs:80-92 | an InProgress grid has a child that scores InProgress |
| GameUttt.TopRowTakenWon | src/game/game_uttt.rs:75-79 | an example grid won by X on its top row of sub-boards still has an open sub-board 4 with an Empty cell |
| GameUttt.TerminalWithMoves | src/game/game_uttt.rs:102-114 | a state with 9 X and 8 O pieces, O to move and the free slot keeps the slot invariant and strict alternation, is won by X, and still generates a move |
| GameUttt.TopRowTakenCounts | src/game/game_uttt.rs:124-141 | the example grid has 9 X and 8 O pieces, as strict alternation requires with O to move |
| GameUttt.Truncate | src/game/game_uttt.rs:184 | the float-to-integer cast truncates toward zero |
| GameUttt.TruncateOdd | src/game/game_uttt.rs:184 | truncation commutes with negation |
| GameUttt.ToInt16 | src/game/game_uttt.rs:184 | the cast saturates to the 16-bit range and keeps values inside it |
| GameUttt.ScoreValue | src/game/game_uttt.rs:178-183 | the value of a bounded score lies in [-1, 1] |
| GameUttt.Scaled | src/game/game_uttt.rs:184 | a value in [-1, 1] scales to within plus or minus 32766 |
| GameUttt.ScaleBounded | src/game/game_uttt.rs:184 | the truncated scaled value lies within plus or minus 32766 |
| GameUttt.ValueNegate | src/game/game_uttt.rs:178-183 | a negated score has the negated value |
| GameUttt.ScaledOdd | src/game/game_uttt.rs:184 | scaling commutes with negation |
| GameUttt.Evaluate | src/game/game_uttt.rs:175-190 | the evaluation lies within plus or minus 32766 |
| GameUttt.EvaluateIs | src/game/game_uttt.rs:175-190 | the evaluation is the scaled grid value, negated when O is to move |
| GameUttt.SwappedValue | src/game/game_uttt.rs:184-189 | a negated score seen from the other side has the same evaluation |
| GameUttt.EvaluateOtherMover | src/game/game_uttt.rs:185-189 | the same grid with the other side to move evaluates to the negation |
| GameUttt.EvaluateColourSymmetric | src/game/game_uttt.rs:175-190 | swapping X and O and passing the turn keeps the evaluation |
| GameUttt.EvaluateDecided | src/game/game_uttt.rs:178-189 | a won board evaluates to plus or minus 32766 from the mover's side, and a drawn board to 0 |
| GameUttt.EvaluateSign | src/game/game_uttt.rs:184-189 | an InProgress board the mover leads by at least one scale step evaluates positive |

## Left out

- Floating point: `InProgress` values and the /3, /8 averages are exact `real`s, with no `f64` rounding. The float-to-16-bit cast is modelled as truncation toward zero with saturation.
- The `minimax` crate search, its `Game` and `Evaluator` traits, `main.rs` (argument parsing, logging, JSON) and the Python front end are not part of this model. The four operations are plain functions and methods.
- Serde and `Hash` derives have no behaviour to specify. `UtttEvaluator`'s unused `name` field and its constructor are not modelled.
- TicTacToe.Grid3x3.Set: the write through `get_mut` is modelled as a value update of the nested sequence, not in place. Grids are `Copy` values and `apply` writes into a clone, so no aliasing is lost.
- TicTacToe.FromPair: wraps modulo 256, as a release build does. A debug build would panic on overflow. This cannot happen for row and column below 3.
- GameUttt.GenerateMoves: the caller's `Vec` is passed in as a sequence and returned extended, rather than mutated in place. The method requires a forced slot index of at most 9, because a larger index would make the Rust code panic on an out-of-bounds read. The loops over sub-boards and cells are split into the helper methods PushFreeMoves, PushFreeBlock and PushEmptyCells.
- GameUttt.Apply: requires proper slots, because the Rust write would panic out of bounds otherwise. Like the code, it does no legality check. The legality facts (ApplyFillsOneCell, ApplyAlternates) take a generated move as a precondition.
- Tools.ParseUltragrid: a panic on too short an input is modelled as the result `None`. The grid is a local value that the loops reassign. The two inner loops are the helper method ParseTextRow, and the character scan is NextPiece.
- Tools.StringUltragrid: the inner loop is the helper method PushRowText.
- NodeUttt.ToText: the `{:?}` formatting of the `(u8, u8)` tuple is modelled as "(r, c)" with decimal digits.
- GameUttt.NotTerminalHasMoves: "the move list is empty iff the state is terminal" is proved in one direction only. The other direction is false for the code, even under the slot invariant and strict alternation (see TerminalWithMoves). Which states are reachable from the start is not characterised beyond those two invariants.
