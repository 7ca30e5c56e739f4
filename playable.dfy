/** Playability: whether a piece, a sub-board or the super-board still
    accepts a move. */
module Playable {
  import opened TicTacToe
  import opened BoardScoring
  import opened BoardScoringFacts

  /** A cell accepts a move only when Empty. */
  function PiecePlayable(p: PieceType): bool
  {
    p == Empty
  }

  /** Whether a child at ALL_SLOTS[k], ALL_SLOTS[k + 1], ... is playable: the
      slot loop that returns true at the first playable child. */
  function AnyChildPlayable<T>(g: Grid3x3<T>, playable: T -> bool, k: nat): bool
    requires g.Valid() && k <= 9
    decreases 9 - k
  {
    AllSlotsAscending();
    k < 9 && (playable(g.Get(ALL_SLOTS[k])) || AnyChildPlayable(g, playable, k + 1))
  }

  /** A grid is closed once decisively won; otherwise open when a child is. */
  function GridPlayable<T>(g: Grid3x3<T>, score: T -> BoardScore, playable: T -> bool): bool
    requires g.Valid()
  {
    var winner := Score(g, score);
    if IsDecisive(winner) then false
    else AnyChildPlayable(g, playable, 0)
  }

  function SubPlayable(b: SubBoard): bool
  {
    GridPlayable(b, PieceScore, PiecePlayable)
  }

  function UltraPlayable(u: UltraGrid): bool
  {
    GridPlayable(u, SubScore, SubPlayable)
  }

  lemma {:induction false} AnyChildPlayableIff<T>(g: Grid3x3<T>, playable: T -> bool, k: nat)
    requires g.Valid() && k <= 9
    ensures AnyChildPlayable(g, playable, k) <==>
      exists s: GridSlot :: k <= s.index as int < 9 && playable(g.Get(s))
    decreases 9 - k
  {
    AllSlotsAscending();
    if k < 9 {
      AnyChildPlayableIff(g, playable, k + 1);
      var here := GridSlot(k as Byte);
      assert ALL_SLOTS[k] == here;
      if exists s: GridSlot :: k <= s.index as int < 9 && playable(g.Get(s)) {
        var s: GridSlot :| k <= s.index as int < 9 && playable(g.Get(s));
        if s != here {
          assert k + 1 <= s.index as int;
        }
      }
    }
  }

  /** The playability rule: not decisively won, and some child playable. */
  lemma GridPlayableIff<T>(g: Grid3x3<T>, score: T -> BoardScore, playable: T -> bool)
    requires g.Valid()
    ensures GridPlayable(g, score, playable) <==>
      !IsDecisive(Score(g, score)) && exists s: GridSlot :: s.index < 9 && playable(g.Get(s))
  {
    AnyChildPlayableIff(g, playable, 0);
  }

  /** A sub-board is open iff it is not won and has an Empty cell. */
  lemma SubPlayableIff(b: SubBoard)
    ensures SubPlayable(b) <==> !IsDecisive(SubScore(b)) && exists s: GridSlot :: s.index < 9 && b.Get(s) == Empty
  {
    GridPlayableIff(b, PieceScore, PiecePlayable);
  }

  /** The super-board is open iff it is not won and some sub-board is open. */
  lemma UltraPlayableIff(u: UltraGrid)
    ensures UltraPlayable(u) <==> !IsDecisive(UltraScore(u)) && exists s: GridSlot :: s.index < 9 && SubPlayable(u.Get(s))
  {
    GridPlayableIff(u, SubScore, SubPlayable);
  }

  /** A grid won by either side is closed, whatever its cells. */
  lemma WonNotPlayable<T>(g: Grid3x3<T>, score: T -> BoardScore, playable: T -> bool)
    requires g.Valid() && IsDecisive(Score(g, score))
    ensures !GridPlayable(g, score, playable)
  {
  }

  /** A sub-board without an Empty cell is never open. */
  lemma FullNotPlayable(b: SubBoard)
    requires Full(b)
    ensures !SubPlayable(b)
  {
    SubPlayableIff(b);
  }

  /** X on the top row of an otherwise Empty sub-board: won by X and closed,
      although six cells are still Empty. */
  lemma TopRowWonClosed()
    ensures var b: SubBoard := Grid3x3([[X, X, X], [Empty, Empty, Empty], [Empty, Empty, Empty]]);
      SubScore(b) == WinnerX && !SubPlayable(b) && b.Get(GridSlot(8)) == Empty
  {
    var b: SubBoard := Grid3x3([[X, X, X], [Empty, Empty, Empty], [Empty, Empty, Empty]]);
    TopLineWins(b, PieceScore);
  }

  /** The rows and columns of the board below each hold an X and an O. */
  lemma BlockedStraightLines(b: SubBoard)
    requires b.grid == [[X, O, X], [X, O, O], [O, X, Empty]]
    ensures forall k :: 0 <= k < 6 ==> LineScores(b, PieceScore)[k] == Draw
  {
    MixedLineDraw(b, PieceScore, 0, 0, 1);
    MixedLineDraw(b, PieceScore, 1, 0, 1);
    MixedLineDraw(b, PieceScore, 2, 1, 0);
    MixedLineDraw(b, PieceScore, 3, 0, 2);
    MixedLineDraw(b, PieceScore, 4, 2, 0);
    MixedLineDraw(b, PieceScore, 5, 0, 1);
  }

  /** And so do its diagonals. */
  lemma BlockedDiagonals(b: SubBoard)
    requires b.grid == [[X, O, X], [X, O, O], [O, X, Empty]]
    ensures LineScores(b, PieceScore)[6] == Draw && LineScores(b, PieceScore)[7] == Draw
  {
    MixedLineDraw(b, PieceScore, 6, 0, 1);
    MixedLineDraw(b, PieceScore, 7, 0, 1);
  }

  /** There is no explicit Draw check: a sub-board that scores Draw is still
      open while it has an Empty cell. */
  lemma DrawWithEmptyCellPlayable(b: SubBoard, s: GridSlot)
    requires SubScore(b) == Draw && s.index < 9 && b.Get(s) == Empty
    ensures SubPlayable(b)
  {
    SubPlayableIff(b);
  }

  /** A sub-board with an Empty cell and no line of three equal marks is open:
      no line, and so not the board, is decisive. */
  lemma NoThreeInLineOpen(b: SubBoard, s: GridSlot)
    requires forall k :: 0 <= k < 8 ==>
      !(b.Get(ALL_LINES[k][0]) != Empty && b.Get(ALL_LINES[k][0]) == b.Get(ALL_LINES[k][1]) &&
        b.Get(ALL_LINES[k][1]) == b.Get(ALL_LINES[k][2]))
    requires s.index < 9 && b.Get(s) == Empty
    ensures SubPlayable(b)
  {
    var ls := LineScores(b, PieceScore);
    AllLinesBounded();
    forall k | 0 <= k < 8 ensures !IsDecisive(ls[k]) {
      Unroll3(LineMembers(b, PieceScore, k));
    }
    NoDecisiveInPrefix(ls, 8);
    assert ls[..8] == ls;
    SubPlayableIff(b);
  }

  /** An example: a sub-board whose every line is blocked scores Draw but is
      still open, with one Empty cell left. */
  lemma BlockedBoardStillPlayable()
    ensures var b: SubBoard := Grid3x3([[X, O, X], [X, O, O], [O, X, Empty]]);
      SubScore(b) == Draw && SubPlayable(b)
  {
    var b: SubBoard := Grid3x3([[X, O, X], [X, O, O], [O, X, Empty]]);
    BlockedStraightLines(b);
    BlockedDiagonals(b);
    ScoreWithoutDecisiveLine(b, PieceScore);
    assert b.Get(GridSlot(8)) == Empty;
    DrawWithEmptyCellPlayable(b, GridSlot(8));
  }
}
