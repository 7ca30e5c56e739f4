/** The recursive scorer: one algorithm over the 8 lines of a 3x3 grid whose
    cells can themselves be scored, applied to sub-boards (cells are pieces)
    and to the super-board (cells are sub-boards). */
module BoardScoring {
  import opened TicTacToe

  /** InProgress carries a heuristic value from X's side (+1 is an X win). */
  datatype BoardScore = WinnerX | WinnerO | Draw | InProgress(value: real)

  predicate IsDecisive(b: BoardScore)
  {
    b.WinnerX? || b.WinnerO?
  }

  /** A lone piece: X and O are decided, an Empty cell is open with value 0. */
  function PieceScore(p: PieceType): (b: BoardScore)
    ensures p == X <==> b == WinnerX
    ensures p == O <==> b == WinnerO
    ensures p == Empty <==> b == InProgress(0.0)
    ensures !b.Draw?
  {
    match p
    case X => WinnerX
    case O => WinnerO
    case Empty => InProgress(0.0)
  }

  // Aggregates over a sequence of scores, defined from the back so that they
  // follow a loop over a growing prefix.

  function CountX(ms: seq<BoardScore>): (n: nat)
    ensures n <= |ms|
  {
    if ms == [] then 0 else CountX(ms[..|ms| - 1]) + (if ms[|ms| - 1].WinnerX? then 1 else 0)
  }

  function CountO(ms: seq<BoardScore>): (n: nat)
    ensures n <= |ms|
  {
    if ms == [] then 0 else CountO(ms[..|ms| - 1]) + (if ms[|ms| - 1].WinnerO? then 1 else 0)
  }

  /** What a member adds to a line's sum: +1 for X, -1 for O, v for InProgress(v). */
  function Contribution(b: BoardScore): real
  {
    match b
    case WinnerX => 1.0
    case WinnerO => -1.0
    case Draw => 0.0
    case InProgress(v) => v
  }

  function SumContributions(ms: seq<BoardScore>): real
  {
    if ms == [] then 0.0 else SumContributions(ms[..|ms| - 1]) + Contribution(ms[|ms| - 1])
  }

  /** The score of one line of three members. */
  function LineScore(ms: seq<BoardScore>): BoardScore
    requires |ms| == 3
  {
    if Draw in ms then Draw
    else if CountX(ms) == 3 then WinnerX
    else if CountO(ms) == 3 then WinnerO
    else if CountX(ms) > 0 && CountO(ms) > 0 then Draw
    else InProgress(SumContributions(ms) / 3.0)
  }

  /** The first decisive score of a sequence, if any. */
  function FirstDecisive(ls: seq<BoardScore>): (r: Option<BoardScore>)
    ensures r.Some? ==> IsDecisive(r.value) && r.value in ls
  {
    if ls == [] then None
    else match FirstDecisive(ls[..|ls| - 1])
      case Some(d) => Some(d)
      case None => if IsDecisive(ls[|ls| - 1]) then Some(ls[|ls| - 1]) else None
  }

  predicate HasInProgress(ls: seq<BoardScore>)
  {
    exists k :: 0 <= k < |ls| && ls[k].InProgress?
  }

  /** The sum of the values of the InProgress scores (Draw lines add 0). */
  function SumInProgress(ls: seq<BoardScore>): real
  {
    if ls == [] then 0.0
    else SumInProgress(ls[..|ls| - 1]) + (if ls[|ls| - 1].InProgress? then ls[|ls| - 1].value else 0.0)
  }

  /** The grid's score from its 8 line scores in canonical order. */
  function CombineLines(ls: seq<BoardScore>): BoardScore
    requires |ls| == 8
  {
    match FirstDecisive(ls)
    case Some(d) => d
    case None => if HasInProgress(ls) then InProgress(SumInProgress(ls) / 8.0) else Draw
  }

  /** The scores of the three members of line k. */
  function LineMembers<T>(g: Grid3x3<T>, child: T -> BoardScore, k: nat): (ms: seq<BoardScore>)
    requires g.Valid() && k < 8
    ensures |ms| == 3
    ensures forall m :: 0 <= m < 3 ==> ms[m] == child(g.Get(ALL_LINES[k][m]))
  {
    AllLinesBounded();
    var line := ALL_LINES[k];
    [child(g.Get(line[0])), child(g.Get(line[1])), child(g.Get(line[2]))]
  }

  /** The 8 line scores in canonical order. */
  function LineScores<T>(g: Grid3x3<T>, child: T -> BoardScore): (ls: seq<BoardScore>)
    requires g.Valid()
    ensures |ls| == 8
    ensures forall k :: 0 <= k < 8 ==> ls[k] == LineScore(LineMembers(g, child, k))
  {
    seq(8, k requires 0 <= k < 8 => LineScore(LineMembers(g, child, k)))
  }

  /** The score of a grid whose cells score as child says. */
  function Score<T>(g: Grid3x3<T>, child: T -> BoardScore): BoardScore
    requires g.Valid()
  {
    CombineLines(LineScores(g, child))
  }

  function SubScore(b: SubBoard): BoardScore
  {
    Score(b, PieceScore)
  }

  function UltraScore(u: UltraGrid): BoardScore
  {
    Score(u, SubScore)
  }

  // ---- The loops -------------------------------------------------------

  /** The line loop: accumulate over the members, a Draw member returns Draw
      at once, then classify by the counts. */
  method ComputeLineScore(ms: seq<BoardScore>) returns (r: BoardScore)
    requires |ms| == 3
    ensures r == LineScore(ms)
  {
    var score := 0.0;
    var hasX := 0;
    var hasO := 0;
    for k := 0 to 3
      invariant Draw !in ms[..k]
      invariant hasX == CountX(ms[..k]) && hasO == CountO(ms[..k])
      invariant score == SumContributions(ms[..k])
    {
      assert ms[..k + 1][..k] == ms[..k];
      match ms[k]
      case WinnerX =>
        hasX := hasX + 1;
        score := score + 1.0;
      case WinnerO =>
        hasO := hasO + 1;
        score := score - 1.0;
      case Draw =>
        return Draw;
      case InProgress(v) =>
        score := score + v;
    }
    assert ms[..3] == ms;
    if hasX == 3 {
      return WinnerX;
    } else if hasO == 3 {
      return WinnerO;
    } else if hasX > 0 && hasO > 0 {
      return Draw;
    }
    return InProgress(score / 3.0);
  }

  /** The grid loop: lines in canonical order, the first decisive line is
      returned at once; otherwise the average of the InProgress lines over 8,
      or Draw when every line is Draw. */
  method ComputeScore<T>(g: Grid3x3<T>, child: T -> BoardScore) returns (r: BoardScore)
    requires g.Valid()
    ensures r == Score(g, child)
  {
    ghost var ls := LineScores(g, child);
    var score := 0.0;
    var isWinnable := false;
    for k := 0 to 8
      invariant FirstDecisive(ls[..k]) == None
      invariant isWinnable == HasInProgress(ls[..k])
      invariant score == SumInProgress(ls[..k])
    {
      var lScore := ComputeLineScore(LineMembers(g, child, k));
      ScanStep(ls, k);
      match lScore
      case WinnerX =>
        return WinnerX;
      case WinnerO =>
        return WinnerO;
      case Draw =>
        score := score + 0.0;
      case InProgress(v) =>
        isWinnable := true;
        score := score + v;
    }
    ScanDone(ls);
    if isWinnable {
      return InProgress(score / 8.0);
    } else {
      return Draw;
    }
  }

  /** One step of the grid loop: a decisive line score is the result, any
      other extends the three running aggregates. */
  lemma ScanStep(ls: seq<BoardScore>, k: nat)
    requires |ls| == 8 && k < 8 && FirstDecisive(ls[..k]) == None
    ensures IsDecisive(ls[k]) ==> CombineLines(ls) == ls[k]
    ensures !IsDecisive(ls[k]) ==> FirstDecisive(ls[..k + 1]) == None
    ensures HasInProgress(ls[..k + 1]) <==> HasInProgress(ls[..k]) || ls[k].InProgress?
    ensures SumInProgress(ls[..k + 1]) == SumInProgress(ls[..k]) + (if ls[k].InProgress? then ls[k].value else 0.0)
  {
    assert ls[..k + 1][..k] == ls[..k];
    HasInProgressSnoc(ls, k);
    if IsDecisive(ls[k]) {
      FirstDecisiveExtends(ls, k + 1);
    }
  }

  /** After the eighth line the aggregates cover the whole sequence. */
  lemma ScanDone(ls: seq<BoardScore>)
    requires |ls| == 8 && FirstDecisive(ls[..8]) == None
    ensures CombineLines(ls) == if HasInProgress(ls[..8]) then InProgress(SumInProgress(ls[..8]) / 8.0) else Draw
  {
    assert ls[..8] == ls;
  }

  lemma HasInProgressSnoc(ls: seq<BoardScore>, k: nat)
    requires k < |ls|
    ensures HasInProgress(ls[..k + 1]) <==> HasInProgress(ls[..k]) || ls[k].InProgress?
  {
    assert ls[..k + 1][k] == ls[k];
    if HasInProgress(ls[..k]) {
      var i :| 0 <= i < k && ls[..k][i].InProgress?;
      assert ls[..k + 1][i] == ls[..k][i];
    }
    if HasInProgress(ls[..k + 1]) && !ls[k].InProgress? {
      var i :| 0 <= i < k + 1 && ls[..k + 1][i].InProgress?;
      assert ls[..k][i] == ls[..k + 1][i];
    }
  }

  /** A decisive score found in a prefix stays the first decisive score. */
  lemma {:induction false} FirstDecisiveExtends(ls: seq<BoardScore>, n: nat)
    requires n <= |ls| && FirstDecisive(ls[..n]).Some?
    ensures FirstDecisive(ls) == FirstDecisive(ls[..n])
    decreases |ls| - n
  {
    if n < |ls| {
      assert ls[..n + 1][..n] == ls[..n];
      FirstDecisiveExtends(ls, n + 1);
    } else {
      assert ls[..n] == ls;
    }
  }
}

/** Properties of the scorer. */
module BoardScoringFacts {
  import opened TicTacToe
  import opened BoardScoring

  // ---- Lines -------------------------------------------------------------

  /** The line rule in terms of its three members. */
  lemma LineScoreCases(ms: seq<BoardScore>)
    requires |ms| == 3
    ensures (exists m :: 0 <= m < 3 && ms[m].Draw?) ==> LineScore(ms) == Draw
    ensures Draw !in ms && (forall m :: 0 <= m < 3 ==> ms[m].WinnerX?) ==> LineScore(ms) == WinnerX
    ensures Draw !in ms && (forall m :: 0 <= m < 3 ==> ms[m].WinnerO?) ==> LineScore(ms) == WinnerO
    ensures Draw !in ms && (exists m :: 0 <= m < 3 && ms[m].WinnerX?) && (exists m :: 0 <= m < 3 && ms[m].WinnerO?)
      ==> LineScore(ms) == Draw
    ensures Draw !in ms && !((exists m :: 0 <= m < 3 && ms[m].WinnerX?) && (exists m :: 0 <= m < 3 && ms[m].WinnerO?))
      && !(forall m :: 0 <= m < 3 ==> ms[m].WinnerX?) && !(forall m :: 0 <= m < 3 ==> ms[m].WinnerO?)
      ==> LineScore(ms) == InProgress((Contribution(ms[0]) + Contribution(ms[1]) + Contribution(ms[2])) / 3.0)
  {
    Unroll3(ms);
  }

  lemma Unroll3(ms: seq<BoardScore>)
    requires |ms| == 3
    ensures CountX(ms) == (if ms[0].WinnerX? then 1 else 0) + (if ms[1].WinnerX? then 1 else 0) + (if ms[2].WinnerX? then 1 else 0)
    ensures CountO(ms) == (if ms[0].WinnerO? then 1 else 0) + (if ms[1].WinnerO? then 1 else 0) + (if ms[2].WinnerO? then 1 else 0)
    ensures SumContributions(ms) == Contribution(ms[0]) + Contribution(ms[1]) + Contribution(ms[2])
    ensures Draw in ms <==> ms[0].Draw? || ms[1].Draw? || ms[2].Draw?
  {
    var p2, p1 := ms[..2], ms[..2][..1];
    assert ms[..|ms| - 1] == p2 && p2[..|p2| - 1] == p1 && p1[..|p1| - 1] == [];
    assert p2 == [ms[0], ms[1]] && p1 == [ms[0]];
    assert SumContributions(p1) == Contribution(ms[0]);
    assert SumContributions(p2) == Contribution(ms[0]) + Contribution(ms[1]);
  }

  /** The InProgress value of a score, if it has one, lies in [-1, 1]. */
  predicate Bounded(b: BoardScore)
  {
    b.InProgress? ==> -1.0 <= b.value <= 1.0
  }

  lemma LineScoreBounded(ms: seq<BoardScore>)
    requires |ms| == 3
    requires forall m :: 0 <= m < 3 ==> Bounded(ms[m])
    ensures Bounded(LineScore(ms))
  {
    Unroll3(ms);
    assert forall m :: 0 <= m < 3 ==> -1.0 <= Contribution(ms[m]) <= 1.0;
  }

  // ---- Grids -------------------------------------------------------------

  /** FirstDecisive picks the earliest decisive score. */
  lemma {:induction false} FirstDecisiveIsEarliest(ls: seq<BoardScore>, k: nat)
    requires k < |ls| && IsDecisive(ls[k])
    requires forall j :: 0 <= j < k ==> !IsDecisive(ls[j])
    ensures FirstDecisive(ls) == Some(ls[k])
  {
    NoDecisiveInPrefix(ls, k);
    assert ls[..k + 1][..k] == ls[..k];
    assert FirstDecisive(ls[..k + 1]) == Some(ls[k]);
    FirstDecisiveExtends(ls, k + 1);
  }

  /** FirstDecisive is None exactly when no score is decisive. */
  lemma {:induction false} NoDecisiveInPrefix(ls: seq<BoardScore>, n: nat)
    requires n <= |ls|
    ensures FirstDecisive(ls[..n]) == None <==> forall j :: 0 <= j < n ==> !IsDecisive(ls[j])
  {
    if n > 0 {
      NoDecisiveInPrefix(ls, n - 1);
      assert ls[..n][..n - 1] == ls[..n - 1];
      if FirstDecisive(ls[..n - 1]).Some? {
        var j :| 0 <= j < n - 1 && IsDecisive(ls[j]);
      }
    }
  }

  /** The first decisive line, in canonical order, decides the grid; the
      lines after it are not consulted. */
  lemma ScoreFirstDecisiveLine<T>(g: Grid3x3<T>, child: T -> BoardScore, k: nat)
    requires g.Valid() && k < 8
    requires IsDecisive(LineScores(g, child)[k])
    requires forall j :: 0 <= j < k ==> !IsDecisive(LineScores(g, child)[j])
    ensures Score(g, child) == LineScores(g, child)[k]
  {
    FirstDecisiveIsEarliest(LineScores(g, child), k);
  }

  /** A line holding both an X and an O win, and no Draw, is blocked: it
      scores Draw. */
  lemma MixedLineDraw<T>(g: Grid3x3<T>, child: T -> BoardScore, k: nat, i: nat, j: nat)
    requires g.Valid() && k < 8 && i < 3 && j < 3
    requires child(g.Get(ALL_LINES[k][i])) == WinnerX && child(g.Get(ALL_LINES[k][j])) == WinnerO
    ensures LineScores(g, child)[k] == Draw
  {
    AllLinesBounded();
    var ms := LineMembers(g, child, k);
    assert ms[i].WinnerX? && ms[j].WinnerO?;
    LineScoreCases(ms);
  }

  /** Three children along the top row, the first line in canonical order,
      all won by X: the grid is won by X, whatever the other children are. */
  lemma TopLineWins<T>(g: Grid3x3<T>, child: T -> BoardScore)
    requires g.Valid()
    requires child(g.Get(GridSlot(0))) == WinnerX
    requires child(g.Get(GridSlot(1))) == WinnerX
    requires child(g.Get(GridSlot(2))) == WinnerX
    ensures Score(g, child) == WinnerX
  {
    AllLinesBounded();
    var ms := LineMembers(g, child, 0);
    assert ALL_LINES[0] == [GridSlot(0), GridSlot(1), GridSlot(2)];
    assert ms == [WinnerX, WinnerX, WinnerX];
    LineScoreCases(ms);
    ScoreFirstDecisiveLine(g, child, 0);
  }

  /** With no decisive line the grid averages its InProgress lines over 8, or
      is Draw when every line is Draw. */
  lemma ScoreWithoutDecisiveLine<T>(g: Grid3x3<T>, child: T -> BoardScore)
    requires g.Valid()
    requires forall k :: 0 <= k < 8 ==> !IsDecisive(LineScores(g, child)[k])
    ensures HasInProgress(LineScores(g, child)) ==>
      Score(g, child) == InProgress(SumInProgress(LineScores(g, child)) / 8.0)
    ensures (forall k :: 0 <= k < 8 ==> LineScores(g, child)[k] == Draw) ==> Score(g, child) == Draw
  {
    var ls := LineScores(g, child);
    NoDecisiveInPrefix(ls, 8);
    assert ls[..8] == ls;
  }

  lemma {:induction false} SumInProgressBounded(ls: seq<BoardScore>)
    requires forall k :: 0 <= k < |ls| ==> Bounded(ls[k])
    ensures -(|ls| as real) <= SumInProgress(ls) <= |ls| as real
  {
    if ls != [] {
      SumInProgressBounded(ls[..|ls| - 1]);
    }
  }

  /** Bounded cells give a bounded grid score. */
  lemma ScoreBounded<T>(g: Grid3x3<T>, child: T -> BoardScore)
    requires g.Valid()
    requires forall s: GridSlot :: s.index < 9 ==> Bounded(child(g.Get(s)))
    ensures Bounded(Score(g, child))
  {
    var ls := LineScores(g, child);
    AllLinesBounded();
    forall k | 0 <= k < 8 ensures Bounded(ls[k]) {
      LineScoreBounded(LineMembers(g, child, k));
    }
    CombineLinesBounded(ls);
  }

  /** Bounded line scores combine to a bounded score. */
  lemma CombineLinesBounded(ls: seq<BoardScore>)
    requires |ls| == 8 && forall k :: 0 <= k < 8 ==> Bounded(ls[k])
    ensures Bounded(CombineLines(ls))
  {
    SumInProgressBounded(ls);
  }

  /** Every sub-board score is bounded. */
  lemma SubScoreBounded(b: SubBoard)
    ensures Bounded(SubScore(b))
  {
    ScoreBounded(b, PieceScore);
  }

  /** Every super-board score is bounded. */
  lemma UltraScoreBounded(u: UltraGrid)
    ensures Bounded(UltraScore(u))
  {
    forall s: GridSlot | s.index < 9 ensures Bounded(SubScore(u.Get(s))) {
      SubScoreBounded(u.Get(s));
    }
    ScoreBounded(u, SubScore);
  }

  // ---- Swapping X and O ----------------------------------------------------

  function Negate(b: BoardScore): BoardScore
  {
    match b
    case WinnerX => WinnerO
    case WinnerO => WinnerX
    case Draw => Draw
    case InProgress(v) => InProgress(-v)
  }

  function NegateAll(ms: seq<BoardScore>): (r: seq<BoardScore>)
    ensures |r| == |ms| && forall i :: 0 <= i < |ms| ==> r[i] == Negate(ms[i])
  {
    seq(|ms|, i requires 0 <= i < |ms| => Negate(ms[i]))
  }

  lemma {:induction false} NegateCounts(ms: seq<BoardScore>)
    ensures CountX(NegateAll(ms)) == CountO(ms) && CountO(NegateAll(ms)) == CountX(ms)
    ensures SumContributions(NegateAll(ms)) == -SumContributions(ms)
  {
    if ms != [] {
      var n := |ms| - 1;
      assert NegateAll(ms)[..n] == NegateAll(ms[..n]);
      NegateCounts(ms[..n]);
    }
  }

  lemma {:induction false} NegateLineSums(ls: seq<BoardScore>)
    ensures SumInProgress(NegateAll(ls)) == -SumInProgress(ls)
    ensures FirstDecisive(NegateAll(ls)) == match FirstDecisive(ls) case Some(d) => Some(Negate(d)) case None => None
  {
    if ls != [] {
      var n := |ls| - 1;
      assert NegateAll(ls)[..n] == NegateAll(ls[..n]);
      NegateLineSums(ls[..n]);
    }
  }

  lemma NegateMembership(ms: seq<BoardScore>)
    ensures HasInProgress(NegateAll(ms)) == HasInProgress(ms)
    ensures (Draw in NegateAll(ms)) == (Draw in ms)
  {
    if HasInProgress(ms) {
      var k :| 0 <= k < |ms| && ms[k].InProgress?;
      assert NegateAll(ms)[k].InProgress?;
    }
    if HasInProgress(NegateAll(ms)) {
      var k :| 0 <= k < |ms| && NegateAll(ms)[k].InProgress?;
      assert ms[k].InProgress?;
    }
    if Draw in ms {
      var k :| 0 <= k < |ms| && ms[k] == Draw;
      assert NegateAll(ms)[k] == Draw;
    }
    if Draw in NegateAll(ms) {
      var k :| 0 <= k < |ms| && NegateAll(ms)[k] == Draw;
      assert ms[k] == Draw;
    }
  }

  /** Negating the three members negates the line. */
  lemma LineScoreNegate(ms: seq<BoardScore>)
    requires |ms| == 3
    ensures LineScore(NegateAll(ms)) == Negate(LineScore(ms))
  {
    NegateCounts(ms);
    NegateMembership(ms);
  }

  /** Negating the eight lines negates their combination. */
  lemma CombineLinesNegate(ls: seq<BoardScore>)
    requires |ls| == 8
    ensures CombineLines(NegateAll(ls)) == Negate(CombineLines(ls))
  {
    NegateLineSums(ls);
    NegateMembership(ls);
  }

  /** If every cell of h scores as the negation of the matching cell of g, the
      score of h is the negation of the score of g. */
  lemma ScoreNegate<T, U>(g: Grid3x3<T>, c1: T -> BoardScore, h: Grid3x3<U>, c2: U -> BoardScore)
    requires g.Valid() && h.Valid()
    requires forall s: GridSlot :: s.index < 9 ==> c2(h.Get(s)) == Negate(c1(g.Get(s)))
    ensures Score(h, c2) == Negate(Score(g, c1))
  {
    AllLinesBounded();
    var ls := LineScores(g, c1);
    forall k | 0 <= k < 8 ensures LineScores(h, c2)[k] == Negate(ls[k]) {
      var ms := LineMembers(g, c1, k);
      assert LineMembers(h, c2, k) == NegateAll(ms);
      LineScoreNegate(ms);
    }
    assert LineScores(h, c2) == NegateAll(ls);
    CombineLinesNegate(ls);
  }


  function SwapPiece(p: PieceType): PieceType
  {
    match p
    case X => O
    case O => X
    case Empty => Empty
  }

  function SwapBoard(b: SubBoard): SubBoard
  {
    b.Map(SwapPiece)
  }

  function SwapUltra(u: UltraGrid): UltraGrid
  {
    u.Map(SwapBoard)
  }

  /** Swapping the marks of a sub-board negates its score. */
  lemma SubScoreSwap(b: SubBoard)
    ensures SubScore(SwapBoard(b)) == Negate(SubScore(b))
  {
    ScoreNegate(b, PieceScore, SwapBoard(b), PieceScore);
  }

  /** Swapping every mark of the board negates the super-board score:
      WinnerX and WinnerO trade places, Draw stays, values change sign. */
  lemma UltraScoreSwap(u: UltraGrid)
    ensures UltraScore(SwapUltra(u)) == Negate(UltraScore(u))
  {
    forall s: GridSlot | s.index < 9 ensures SubScore(SwapUltra(u).Get(s)) == Negate(SubScore(u.Get(s))) {
      SubScoreSwap(u.Get(s));
    }
    ScoreNegate(u, SubScore, SwapUltra(u), SubScore);
  }

  // ---- Full sub-boards -----------------------------------------------------

  ghost predicate Full(b: SubBoard)
  {
    forall s: GridSlot :: s.index < 9 ==> b.Get(s) != Empty
  }

  /** A full sub-board is decided: won, or Draw. */
  lemma FullBoardDecided(b: SubBoard)
    requires Full(b)
    ensures !SubScore(b).InProgress?
  {
    var ls := LineScores(b, PieceScore);
    AllLinesBounded();
    forall k | 0 <= k < 8 ensures !ls[k].InProgress? {
      Unroll3(LineMembers(b, PieceScore, k));
    }
    assert !HasInProgress(ls);
  }

  /** A full sub-board with no three equal marks on a line scores Draw. */
  lemma FullLinelessDraw(b: SubBoard)
    requires Full(b)
    requires forall k :: 0 <= k < 8 ==>
      !(b.Get(ALL_LINES[k][0]) == b.Get(ALL_LINES[k][1]) == b.Get(ALL_LINES[k][2]))
    ensures SubScore(b) == Draw
  {
    var ls := LineScores(b, PieceScore);
    AllLinesBounded();
    forall k | 0 <= k < 8 ensures ls[k] == Draw {
      Unroll3(LineMembers(b, PieceScore, k));
    }
    ScoreWithoutDecisiveLine(b, PieceScore);
  }
}
