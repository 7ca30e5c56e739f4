/** The four operations a game-tree search needs: move generation, move
    application, the terminal test and the static evaluation. */
module GameUttt {
  import opened TicTacToe
  import opened BoardScoring
  import opened BoardScoringFacts
  import opened Playable
  import opened NodeUttt

  /** A move: the sub-board slot, then the cell slot inside it. */
  type Move = (GridSlot, GridSlot)

  // ---- Move generation ---------------------------------------------------

  /** The move generation rule. With the free slot: any Empty cell of a
      playable sub-board. With a forced slot: any Empty cell of that
      sub-board, whether or not it is playable. */
  predicate Generated(st: UtttState, m: Move)
  {
    var u := st.ultraGrid;
    m.0.index < 9 && m.1.index < 9 &&
    (if st.currentPlaySlot == ANY_SLOT then SubPlayable(u.Get(m.0)) else m.0 == st.currentPlaySlot) &&
    u.Get(m.0).Get(m.1) == Empty
  }

  /** The k-th of the 81 pairs in ascending (s1, s2) order. */
  function PairAt(k: nat): (m: Move)
    requires k < 81
    ensures m.0.index as int == k / 9 && m.1.index as int == k % 9
  {
    (GridSlot((k / 9) as Byte), GridSlot((k % 9) as Byte))
  }

  /** The position of a pair of proper slots in ascending (s1, s2) order. */
  function Key(m: Move): int
  {
    9 * m.0.index as int + m.1.index as int
  }

  lemma KeyPairAt(m: Move)
    requires m.0.index < 9 && m.1.index < 9
    ensures 0 <= Key(m) < 81 && PairAt(Key(m)) == m
  {
    var a, b := m.0.index as int, m.1.index as int;
    assert (9 * a + b) / 9 == a && (9 * a + b) % 9 == b;
  }

  /** The moves (s1, s) for the Empty cells s < n of sub-board b, in slot
      order: what the inner loop pushes. */
  function EmptyCells(b: SubBoard, s1: GridSlot, n: nat): (ms: seq<Move>)
    requires n <= 9
    ensures |ms| <= n
  {
    if n == 0 then []
    else
      var s := GridSlot((n - 1) as Byte);
      EmptyCells(b, s1, n - 1) + (if b.Get(s) == Empty then [(s1, s)] else [])
  }

  /** The free-choice moves in sub-board s1: its Empty cells when it is
      playable, none otherwise. */
  function FreeBlock(u: UltraGrid, s1: GridSlot): seq<Move>
    requires s1.index < 9
  {
    if SubPlayable(u.Get(s1)) then EmptyCells(u.Get(s1), s1, 9) else []
  }

  /** The free-choice moves from the first n sub-boards. */
  function FreeMoves(u: UltraGrid, n: nat): (ms: seq<Move>)
    requires n <= 9
  {
    if n == 0 then [] else FreeMoves(u, n - 1) + FreeBlock(u, GridSlot((n - 1) as Byte))
  }

  /** The moves generated from a state. A forced slot outside the grid, which
      the generator refuses, has none. */
  function LegalMoves(st: UtttState): seq<Move>
  {
    var u, p := st.ultraGrid, st.currentPlaySlot;
    if p == ANY_SLOT then FreeMoves(u, 9)
    else if p.index < 9 then EmptyCells(u.Get(p), p, 9)
    else []
  }

  lemma {:induction false} EmptyCellsMembers(b: SubBoard, s1: GridSlot, n: nat)
    requires n <= 9
    ensures forall m :: m in EmptyCells(b, s1, n) <==> m.0 == s1 && m.1.index as int < n && b.Get(m.1) == Empty
  {
    if n > 0 {
      EmptyCellsMembers(b, s1, n - 1);
      forall m: Move | m.1.index as int == n - 1 ensures m.1 == GridSlot((n - 1) as Byte) {
      }
    }
  }

  lemma {:induction false} FreeMovesMembers(u: UltraGrid, n: nat)
    requires n <= 9
    ensures forall m :: m in FreeMoves(u, n) <==>
      m.0.index as int < n && m.1.index < 9 && SubPlayable(u.Get(m.0)) && u.Get(m.0).Get(m.1) == Empty
  {
    if n > 0 {
      FreeMovesMembers(u, n - 1);
      var s1 := GridSlot((n - 1) as Byte);
      EmptyCellsMembers(u.Get(s1), s1, 9);
      forall m: Move | m.0.index as int == n - 1 ensures m.0 == s1 {
      }
    }
  }

  /** The generated moves are exactly the moves of the rule. */
  lemma LegalMovesExactly(st: UtttState, m: Move)
    ensures m in LegalMoves(st) <==> Generated(st, m)
  {
    var u, p := st.ultraGrid, st.currentPlaySlot;
    if p == ANY_SLOT {
      FreeMovesMembers(u, 9);
    } else if p.index < 9 {
      EmptyCellsMembers(u.Get(p), p, 9);
    }
  }

  /** Ascending (s1, s2) order, sub-board first. */
  predicate Precedes(m1: Move, m2: Move)
  {
    m1.0.index < m2.0.index || (m1.0 == m2.0 && m1.1.index < m2.1.index)
  }

  predicate Ascending(ms: seq<Move>)
  {
    forall i, j :: 0 <= i < j < |ms| ==> Precedes(ms[i], ms[j])
  }

  lemma {:induction false} EmptyCellsAscending(b: SubBoard, s1: GridSlot, n: nat)
    requires n <= 9
    ensures Ascending(EmptyCells(b, s1, n))
    ensures forall i :: 0 <= i < |EmptyCells(b, s1, n)| ==>
      EmptyCells(b, s1, n)[i].0 == s1 && EmptyCells(b, s1, n)[i].1.index as int < n
  {
    if n > 0 {
      EmptyCellsAscending(b, s1, n - 1);
    }
  }

  lemma {:induction false} FreeMovesAscending(u: UltraGrid, n: nat)
    requires n <= 9
    ensures Ascending(FreeMoves(u, n))
    ensures forall i :: 0 <= i < |FreeMoves(u, n)| ==> FreeMoves(u, n)[i].0.index as int < n
  {
    if n > 0 {
      FreeMovesAscending(u, n - 1);
      var s1 := GridSlot((n - 1) as Byte);
      EmptyCellsAscending(u.Get(s1), s1, 9);
    }
  }

  /** They come in strictly ascending (s1, s2) order, so without repeats. */
  lemma LegalMovesAscending(st: UtttState)
    ensures Ascending(LegalMoves(st))
  {
    var u, p := st.ultraGrid, st.currentPlaySlot;
    if p == ANY_SLOT {
      FreeMovesAscending(u, 9);
    } else if p.index < 9 {
      EmptyCellsAscending(u.Get(p), p, 9);
    }
  }

  /** With a forced slot every move plays in that sub-board. */
  lemma ForcedMovesStayInSlot(st: UtttState, m: Move)
    requires st.currentPlaySlot != ANY_SLOT && m in LegalMoves(st)
    ensures m.0 == st.currentPlaySlot && m.0.index < 9 && m.1.index < 9
    ensures st.ultraGrid.Get(m.0).Get(m.1) == Empty
  {
    LegalMovesExactly(st, m);
  }

  /** The inner scan: push (s1, s) for every Empty cell s of sub-board b. */
  method PushEmptyCells(b: SubBoard, s1: GridSlot, moves: seq<Move>) returns (out: seq<Move>)
    ensures out == moves + EmptyCells(b, s1, 9)
  {
    out := moves;
    AllSlotsAscending();
    for j := 0 to 9
      invariant out == moves + EmptyCells(b, s1, j)
    {
      var s := ALL_SLOTS[j];
      assert s == GridSlot(j as Byte);
      if b.Get(s) == Empty {
        out := out + [(s1, s)];
      }
    }
  }

  /** One pass of the free-choice loop: a closed sub-board is skipped, an open
      one scanned. */
  method PushFreeBlock(u: UltraGrid, s1: GridSlot, moves: seq<Move>) returns (out: seq<Move>)
    requires s1.index < 9
    ensures out == moves + FreeBlock(u, s1)
  {
    if !SubPlayable(u.Get(s1)) {
      return moves;
    }
    out := PushEmptyCells(u.Get(s1), s1, moves);
  }

  lemma FreeLegalMoves(st: UtttState)
    requires st.currentPlaySlot == ANY_SLOT
    ensures LegalMoves(st) == FreeMoves(st.ultraGrid, 9)
  {
  }

  lemma ForcedLegalMoves(st: UtttState)
    requires st.currentPlaySlot != ANY_SLOT && st.currentPlaySlot.index < 9
    ensures LegalMoves(st) == EmptyCells(st.ultraGrid.Get(st.currentPlaySlot), st.currentPlaySlot, 9)
  {
  }

  lemma FreeMovesStep(u: UltraGrid, a: nat, prev: seq<Move>, moves: seq<Move>)
    requires a < 9 && prev == moves + FreeMoves(u, a)
    ensures prev + FreeBlock(u, GridSlot(a as Byte)) == moves + FreeMoves(u, a + 1)
  {
  }

  /** The free-choice loop over the sub-boards in slot order. */
  method PushFreeMoves(u: UltraGrid, moves: seq<Move>) returns (out: seq<Move>)
    ensures out == moves + FreeMoves(u, 9)
  {
    AllSlotsAscending();
    out := moves;
    for a := 0 to 9
      invariant out == moves + FreeMoves(u, a)
    {
      var s1 := ALL_SLOTS[a];
      assert s1 == GridSlot(a as Byte);
      FreeMovesStep(u, a, out, moves);
      out := PushFreeBlock(u, s1, out);
    }
  }

  /** The generation routine, appending to the caller's list of moves. A
      forced slot index above 9 would read outside the grid. */
  method GenerateMoves(st: UtttState, moves: seq<Move>) returns (out: seq<Move>)
    requires st.currentPlaySlot.index <= 9
    ensures out == moves + LegalMoves(st)
  {
    var primarySlot := st.currentPlaySlot;
    if primarySlot == ANY_SLOT {
      out := PushFreeMoves(st.ultraGrid, moves);
      FreeLegalMoves(st);
    } else {
      out := PushEmptyCells(st.ultraGrid.Get(primarySlot), primarySlot, moves);
      ForcedLegalMoves(st);
    }
  }

  /** An empty sub-board is open: every line scores InProgress(0). */
  lemma EmptyBoardPlayable()
    ensures SubScore(EmptyBoard()) == InProgress(0.0)
    ensures SubPlayable(EmptyBoard())
  {
    var b := EmptyBoard();
    var ls := LineScores(b, PieceScore);
    AllLinesBounded();
    forall k | 0 <= k < 8 ensures ls[k] == InProgress(0.0) {
      var ms := LineMembers(b, PieceScore, k);
      assert ms == [InProgress(0.0), InProgress(0.0), InProgress(0.0)];
      Unroll3(ms);
    }
    assert FirstDecisive(ls) == None by {
      NoDecisiveInPrefix(ls, 8);
      assert ls[..8] == ls;
    }
    assert ls[0].InProgress?;
    assert SumInProgress(ls[..1]) == 0.0;
    assert SumInProgress(ls) == 0.0 by {
      assert forall n :: 0 <= n <= 8 ==> SumInProgress(ls[..n]) == 0.0 by {
        forall n | 0 <= n <= 8 ensures SumInProgress(ls[..n]) == 0.0 {
          SumOfZeros(ls, n);
        }
      }
      assert ls[..8] == ls;
    }
    SubPlayableIff(b);
    assert b.Get(GridSlot(0)) == Empty;
  }

  lemma {:induction false} SumOfZeros(ls: seq<BoardScore>, n: nat)
    requires n <= |ls| && forall k :: 0 <= k < |ls| ==> ls[k] == InProgress(0.0)
    ensures SumInProgress(ls[..n]) == 0.0
  {
    if n > 0 {
      SumOfZeros(ls, n - 1);
      assert ls[..n][..n - 1] == ls[..n - 1];
    }
  }

  /** From the starting position all 81 cells are moves, in order. */
  lemma DefaultMoves()
    ensures |LegalMoves(Default())| == 81
    ensures forall k :: 0 <= k < 81 ==> LegalMoves(Default())[k] == PairAt(k)
  {
    DefaultBoards();
    OpenGridMoves(Default());
  }

  /** With no forced slot and every sub-board empty, all 81 cells are moves,
      in order. */
  lemma OpenGridMoves(st: UtttState)
    requires st.currentPlaySlot == ANY_SLOT
    requires forall s: GridSlot :: s.index < 9 ==> st.ultraGrid.Get(s) == EmptyBoard()
    ensures |LegalMoves(st)| == 81
    ensures forall k :: 0 <= k < 81 ==> LegalMoves(st)[k] == PairAt(k)
  {
    EmptyBoardPlayable();
    FreeLegalMoves(st);
    AllFreeMoves(st.ultraGrid, 9);
  }

  lemma DefaultBoards()
    ensures forall s: GridSlot :: s.index < 9 ==> Default().ultraGrid.Get(s) == EmptyBoard()
  {
    var u := EmptyUltra();
    forall s: GridSlot | s.index < 9 ensures u.Get(s) == EmptyBoard() {
    }
  }

  lemma {:induction false} AllEmptyCells(b: SubBoard, s1: GridSlot, n: nat)
    requires n <= 9 && forall s: GridSlot :: s.index < 9 ==> b.Get(s) == Empty
    ensures |EmptyCells(b, s1, n)| == n
    ensures forall j :: 0 <= j < n ==> EmptyCells(b, s1, n)[j] == (s1, GridSlot(j as Byte))
  {
    if n > 0 {
      AllEmptyCells(b, s1, n - 1);
      assert b.Get(GridSlot((n - 1) as Byte)) == Empty;
    }
  }

  lemma {:induction false} AllFreeMoves(u: UltraGrid, n: nat)
    requires n <= 9 && forall s: GridSlot :: s.index < 9 ==> u.Get(s) == EmptyBoard()
    requires SubPlayable(EmptyBoard())
    ensures |FreeMoves(u, n)| == 9 * n
    ensures forall k :: 0 <= k < 9 * n ==> FreeMoves(u, n)[k] == PairAt(k)
  {
    if n > 0 {
      AllFreeMoves(u, n - 1);
      var s1 := GridSlot((n - 1) as Byte);
      assert u.Get(s1) == EmptyBoard();
      AllEmptyCells(EmptyBoard(), s1, 9);
      var front, block := FreeMoves(u, n - 1), EmptyCells(EmptyBoard(), s1, 9);
      assert FreeMoves(u, n) == front + block;
      var base := 9 * (n - 1);
      assert |front| == base && base + 9 == 9 * n;
      forall k | base <= k < base + 9 ensures (front + block)[k] == PairAt(k) {
        var j := k - base;
        var m := (s1, GridSlot(j as Byte));
        assert (front + block)[k] == block[j] == m;
        assert Key(m) == k;
        KeyPairAt(m);
      }
    }
  }

  // ---- Move application --------------------------------------------------

  /** The piece of the side to move. */
  function Mover(st: UtttState): PieceType
  {
    if st.crossesTurn then X else O
  }

  /** The successor state: the mover's piece written into cell m.1 of
      sub-board m.0 of a copy of the grid, the turn passed, and the next
      forced slot m.1 unless that sub-board is now closed. Slots must be
      proper slots, otherwise the write would index outside the grid; the
      cell is overwritten whether or not the move was generated. */
  function Apply(st: UtttState, m: Move): (r: Option<UtttState>)
    requires m.0.index < 9 && m.1.index < 9
    ensures r.Some?
    ensures r.value.ultraGrid.Get(m.0).Get(m.1) == Mover(st)
    ensures forall s: GridSlot, t: GridSlot :: s.index < 9 && t.index < 9 && (s, t) != m ==>
      r.value.ultraGrid.Get(s).Get(t) == st.ultraGrid.Get(s).Get(t)
    ensures r.value.crossesTurn == !st.crossesTurn
    ensures r.value.currentPlaySlot == (if SubPlayable(r.value.ultraGrid.Get(m.1)) then m.1 else ANY_SLOT)
  {
    var (i, j) := m;
    var lastPiecePlaced := if st.crossesTurn then X else O;
    var sub: SubBoard := st.ultraGrid.Get(i).Set(j, lastPiecePlaced);
    var newGrid: UltraGrid := st.ultraGrid.Set(i, sub);
    var currentPlaySlot := if !SubPlayable(newGrid.Get(j)) then ANY_SLOT else j;
    Some(UtttState(newGrid, !st.crossesTurn, currentPlaySlot))
  }

  /** The state invariant: the forced slot is free or names a sub-board that
      is still open. */
  predicate SlotInvariant(st: UtttState)
  {
    st.currentPlaySlot == ANY_SLOT ||
    (st.currentPlaySlot.index < 9 && SubPlayable(st.ultraGrid.Get(st.currentPlaySlot)))
  }

  lemma DefaultSlotInvariant()
    ensures SlotInvariant(Default())
  {
  }

  /** Every application establishes the invariant, whatever the state. */
  lemma ApplySlotInvariant(st: UtttState, m: Move)
    requires m.0.index < 9 && m.1.index < 9
    ensures SlotInvariant(Apply(st, m).value)
    ensures Apply(st, m).value.currentPlaySlot.index <= 9
  {
  }

  /** The move sends the opponent to slot m.1 exactly when that sub-board is
      still open; a closed target frees the choice. */
  lemma ApplyClosedTargetFrees(st: UtttState, m: Move)
    requires m.0.index < 9 && m.1.index < 9
    requires Full(Apply(st, m).value.ultraGrid.Get(m.1)) || IsDecisive(SubScore(Apply(st, m).value.ultraGrid.Get(m.1)))
    ensures Apply(st, m).value.currentPlaySlot == ANY_SLOT
  {
    var b := Apply(st, m).value.ultraGrid.Get(m.1);
    if Full(b) {
      FullNotPlayable(b);
    }
  }

  /** The number of cells s < n of sub-board b holding p. */
  function CellCount(b: SubBoard, p: PieceType, n: nat): (c: nat)
    requires n <= 9
    ensures c <= n
  {
    if n == 0 then 0 else CellCount(b, p, n - 1) + (if b.Get(GridSlot((n - 1) as Byte)) == p then 1 else 0)
  }

  /** The number of cells holding p in the sub-boards s < n. */
  function GridCount(u: UltraGrid, p: PieceType, n: nat): (c: nat)
    requires n <= 9
    ensures c <= 9 * n
  {
    if n == 0 then 0 else GridCount(u, p, n - 1) + CellCount(u.Get(GridSlot((n - 1) as Byte)), p, 9)
  }

  /** The number of cells of the whole grid holding p. */
  function PieceCount(u: UltraGrid, p: PieceType): (c: nat)
    ensures c <= 81
  {
    GridCount(u, p, 9)
  }

  /** The change in a count when q is written over the Empty cell t, and when
      it is not counted. */
  function Delta(p: PieceType, q: PieceType, counted: bool): int
  {
    if counted then (if p == q then 1 else 0) - (if p == Empty then 1 else 0) else 0
  }

  lemma {:induction false} CellCountChange(b: SubBoard, c: SubBoard, t: GridSlot, q: PieceType, p: PieceType, n: nat)
    requires t.index < 9 && n <= 9
    requires b.Get(t) == Empty && c.Get(t) == q && q != Empty
    requires forall s: GridSlot :: s.index < 9 && s != t ==> c.Get(s) == b.Get(s)
    ensures CellCount(c, p, n) == CellCount(b, p, n) + Delta(p, q, t.index as int < n)
    decreases n
  {
    if n > 0 {
      CellCountChange(b, c, t, q, p, n - 1);
      var s := GridSlot((n - 1) as Byte);
      CellStep(b, c, t, q, p, s);
      assert (s == t) == (t.index as int == n - 1);
    }
  }

  /** What one cell adds to the count before and after the write. */
  lemma CellStep(b: SubBoard, c: SubBoard, t: GridSlot, q: PieceType, p: PieceType, s: GridSlot)
    requires t.index < 9 && s.index < 9
    requires b.Get(t) == Empty && c.Get(t) == q && q != Empty
    requires s != t ==> c.Get(s) == b.Get(s)
    ensures (if c.Get(s) == p then 1 else 0) == (if b.Get(s) == p then 1 else 0) + Delta(p, q, s == t)
  {
  }

  /** v is u with at most cell m.1 of sub-board m.0 changed. */
  ghost predicate OnlyCellChanged(u: UltraGrid, v: UltraGrid, m: Move)
  {
    forall s: GridSlot, t: GridSlot :: s.index < 9 && t.index < 9 && (s, t) != m ==>
      v.Get(s).Get(t) == u.Get(s).Get(t)
  }

  /** The one sub-board that changes changes its count by Delta. */
  lemma BoardCountChange(u: UltraGrid, v: UltraGrid, m: Move, q: PieceType, p: PieceType)
    requires m.0.index < 9 && m.1.index < 9
    requires u.Get(m.0).Get(m.1) == Empty && v.Get(m.0).Get(m.1) == q && q != Empty
    requires OnlyCellChanged(u, v, m)
    ensures CellCount(v.Get(m.0), p, 9) == CellCount(u.Get(m.0), p, 9) + Delta(p, q, true)
  {
    var b, c := u.Get(m.0), v.Get(m.0);
    forall t: GridSlot | t.index < 9 && t != m.1 ensures c.Get(t) == b.Get(t) {
      assert (m.0, t) != m;
    }
    CellCountChange(b, c, m.1, q, p, 9);
  }

  /** Every other sub-board is unchanged. */
  lemma BoardUnchanged(u: UltraGrid, v: UltraGrid, m: Move, s: GridSlot)
    requires s.index < 9 && s != m.0
    requires OnlyCellChanged(u, v, m)
    ensures v.Get(s) == u.Get(s)
  {
    forall t: GridSlot | t.index < 9 ensures v.Get(s).Get(t) == u.Get(s).Get(t) {
      assert (s, t) != m;
    }
    GridExtensional(v.Get(s), u.Get(s));
  }

  lemma {:induction false} GridCountChange(u: UltraGrid, v: UltraGrid, m: Move, q: PieceType, p: PieceType, n: nat)
    requires m.0.index < 9 && m.1.index < 9 && n <= 9
    requires u.Get(m.0).Get(m.1) == Empty && v.Get(m.0).Get(m.1) == q && q != Empty
    requires OnlyCellChanged(u, v, m)
    ensures GridCount(v, p, n) == GridCount(u, p, n) + Delta(p, q, m.0.index as int < n)
  {
    if n > 0 {
      GridCountChange(u, v, m, q, p, n - 1);
      var s := GridSlot((n - 1) as Byte);
      if s == m.0 {
        BoardCountChange(u, v, m, q, p);
      } else {
        BoardUnchanged(u, v, m, s);
      }
    }
  }

  /** Writing q over an Empty cell moves one cell from the Empty count to
      the count of q. */
  lemma PieceCountChange(u: UltraGrid, v: UltraGrid, m: Move, q: PieceType, p: PieceType)
    requires m.0.index < 9 && m.1.index < 9
    requires u.Get(m.0).Get(m.1) == Empty && v.Get(m.0).Get(m.1) == q && q != Empty
    requires OnlyCellChanged(u, v, m)
    ensures PieceCount(v, p) == PieceCount(u, p) + (if p == q then 1 else 0) - (if p == Empty then 1 else 0)
  {
    GridCountChange(u, v, m, q, p, 9);
  }

  /** A generated move fills exactly one Empty cell. */
  lemma ApplyFillsOneCell(st: UtttState, m: Move)
    requires m in LegalMoves(st)
    ensures m.0.index < 9 && m.1.index < 9
    ensures PieceCount(Apply(st, m).value.ultraGrid, Empty) == PieceCount(st.ultraGrid, Empty) - 1
  {
    LegalMovesExactly(st, m);
    PieceCountChange(st.ultraGrid, Apply(st, m).value.ultraGrid, m, Mover(st), Empty);
  }

  /** Strict alternation from the starting position: X has as many pieces
      as O when X is to move, and one more when O is to move. */
  predicate Alternating(st: UtttState)
  {
    var x := PieceCount(st.ultraGrid, X);
    var o := PieceCount(st.ultraGrid, O);
    if st.crossesTurn then x == o else x == o + 1
  }

  lemma {:induction false} NoCells(b: SubBoard, p: PieceType, n: nat)
    requires n <= 9 && p != Empty
    requires forall s: GridSlot :: s.index < 9 ==> b.Get(s) == Empty
    ensures CellCount(b, p, n) == 0
  {
    if n > 0 {
      NoCells(b, p, n - 1);
      assert b.Get(GridSlot((n - 1) as Byte)) == Empty;
    }
  }

  lemma {:induction false} NoPieces(u: UltraGrid, p: PieceType, n: nat)
    requires n <= 9 && p != Empty
    requires forall s: GridSlot, t: GridSlot :: s.index < 9 && t.index < 9 ==> u.Get(s).Get(t) == Empty
    ensures GridCount(u, p, n) == 0
  {
    if n > 0 {
      NoPieces(u, p, n - 1);
      NoCells(u.Get(GridSlot((n - 1) as Byte)), p, 9);
    }
  }

  lemma DefaultAlternating()
    ensures Alternating(Default())
  {
    NoPieces(Default().ultraGrid, X, 9);
    NoPieces(Default().ultraGrid, O, 9);
  }

  /** A generated move keeps the alternation. */
  lemma ApplyAlternates(st: UtttState, m: Move)
    requires Alternating(st) && m in LegalMoves(st)
    ensures m.0.index < 9 && m.1.index < 9
    ensures Alternating(Apply(st, m).value)
  {
    LegalMovesExactly(st, m);
    var v := Apply(st, m).value.ultraGrid;
    PieceCountChange(st.ultraGrid, v, m, Mover(st), X);
    PieceCountChange(st.ultraGrid, v, m, Mover(st), O);
  }

  // ---- Terminal test -----------------------------------------------------

  /** The outcome from the point of view of the side to move. */
  datatype Winner = PlayerToMove | PlayerJustMoved | Draw

  function GetWinner(st: UtttState): (w: Option<Winner>)
    ensures w.None? <==> UltraScore(st.ultraGrid).InProgress?
    ensures w == Some(Winner.Draw) <==> UltraScore(st.ultraGrid) == BoardScore.Draw
    ensures w == Some(PlayerToMove) <==> UltraScore(st.ultraGrid) == (if st.crossesTurn then WinnerX else WinnerO)
    ensures w == Some(PlayerJustMoved) <==> UltraScore(st.ultraGrid) == (if st.crossesTurn then WinnerO else WinnerX)
  {
    match UltraScore(st.ultraGrid)
    case WinnerX => if st.crossesTurn then Some(PlayerToMove) else Some(PlayerJustMoved)
    case WinnerO => if st.crossesTurn then Some(PlayerJustMoved) else Some(PlayerToMove)
    case Draw => Some(Winner.Draw)
    case InProgress(_) => None
  }

  /** Passing the turn on the same grid swaps the two kinds of win. */
  lemma GetWinnerOtherMover(st: UtttState)
    ensures var flipped := st.(crossesTurn := !st.crossesTurn);
      GetWinner(flipped) == match GetWinner(st)
        case Some(PlayerToMove) => Some(PlayerJustMoved)
        case Some(PlayerJustMoved) => Some(PlayerToMove)
        case w => w
  {
  }

  /** Swapping X and O everywhere and passing the turn leaves the outcome. */
  lemma GetWinnerColourSymmetric(st: UtttState)
    ensures GetWinner(UtttState(SwapUltra(st.ultraGrid), !st.crossesTurn, st.currentPlaySlot)) == GetWinner(st)
  {
    UltraScoreSwap(st.ultraGrid);
  }

  /** A move that wins the whole board is reported as a win of the player
      who just moved. */
  lemma WinningMoveReported(st: UtttState, m: Move)
    requires m.0.index < 9 && m.1.index < 9
    requires UltraScore(Apply(st, m).value.ultraGrid) == (if st.crossesTurn then WinnerX else WinnerO)
    ensures GetWinner(Apply(st, m).value) == Some(PlayerJustMoved)
  {
  }

  /** A state that is not over, and whose forced slot is free or open, has
      a move. */
  lemma NotTerminalHasMoves(st: UtttState)
    requires SlotInvariant(st) && GetWinner(st).None?
    ensures |LegalMoves(st)| > 0
  {
    var u := st.ultraGrid;
    var s: GridSlot;
    if st.currentPlaySlot == ANY_SLOT {
      UltraPlayableIff(u);
      InProgressUltraPlayable(u);
      s :| s.index < 9 && SubPlayable(u.Get(s));
    } else {
      s := st.currentPlaySlot;
    }
    SubPlayableIff(u.Get(s));
    var t: GridSlot :| t.index < 9 && u.Get(s).Get(t) == Empty;
    LegalMovesExactly(st, (s, t));
  }

  /** An InProgress grid has an InProgress line, hence an InProgress member:
      a sub-board that is InProgress, and such a sub-board is open. */
  lemma InProgressUltraPlayable(u: UltraGrid)
    requires UltraScore(u).InProgress?
    ensures UltraPlayable(u)
  {
    var s := InProgressChild(u, SubScore);
    InProgressSubPlayable(u.Get(s));
    UltraPlayableIff(u);
  }

  lemma InProgressSubPlayable(b: SubBoard)
    requires SubScore(b).InProgress?
    ensures SubPlayable(b)
  {
    var s := InProgressChild(b, PieceScore);
    SubPlayableIff(b);
  }

  /** An InProgress score comes from a child that scores InProgress. */
  lemma InProgressChild<T>(g: Grid3x3<T>, child: T -> BoardScore) returns (s: GridSlot)
    requires g.Valid() && Score(g, child).InProgress?
    ensures s.index < 9 && child(g.Get(s)).InProgress?
  {
    var ls := LineScores(g, child);
    AllLinesBounded();
    assert FirstDecisive(ls).None?;
    assert HasInProgress(ls);
    var k :| 0 <= k < 8 && ls[k].InProgress?;
    var ms := LineMembers(g, child, k);
    LineScoreCases(ms);
    Unroll3(ms);
    var j: nat := if ms[0].InProgress? then 0 else if ms[1].InProgress? then 1 else 2;
    s := ALL_LINES[k][j];
  }

  /** X has won sub-boards 0, 1 and 2 on their top rows. O has a mark in cell
      0 of every other sub-board and a second one in cell 1 of sub-boards 3
      and 6: 9 X pieces, 8 O pieces and no O line. */
  function TopRowTaken(): UltraGrid
  {
    var won: SubBoard := Grid3x3([[X, X, X], [Empty, Empty, Empty], [Empty, Empty, Empty]]);
    var one: SubBoard := Grid3x3([[O, Empty, Empty], [Empty, Empty, Empty], [Empty, Empty, Empty]]);
    var two: SubBoard := Grid3x3([[O, O, Empty], [Empty, Empty, Empty], [Empty, Empty, Empty]]);
    Grid3x3([[won, won, won], [two, one, one], [two, one, one]])
  }

  lemma TopRowTakenWon()
    ensures UltraScore(TopRowTaken()) == WinnerX
    ensures SubPlayable(TopRowTaken().Get(GridSlot(4))) && TopRowTaken().Get(GridSlot(4)).Get(GridSlot(8)) == Empty
  {
    var u := TopRowTaken();
    var won: SubBoard := Grid3x3([[X, X, X], [Empty, Empty, Empty], [Empty, Empty, Empty]]);
    TopRowWonClosed();
    assert u.Get(GridSlot(0)) == won && u.Get(GridSlot(1)) == won && u.Get(GridSlot(2)) == won;
    TopLineWins(u, SubScore);
    OneMarkOpen(u.Get(GridSlot(4)));
  }

  /** A sub-board with a single O in cell 0 is open. */
  lemma OneMarkOpen(b: SubBoard)
    requires b.grid == [[O, Empty, Empty], [Empty, Empty, Empty], [Empty, Empty, Empty]]
    ensures SubPlayable(b) && b.Get(GridSlot(8)) == Empty
  {
    AllLinesGeometry();
    assert b.Get(GridSlot(8)) == Empty;
    NoThreeInLineOpen(b, GridSlot(8));
  }

  function Holds(b: SubBoard, p: PieceType, j: nat): nat
    requires j < 9
  {
    if b.Get(GridSlot(j as Byte)) == p then 1 else 0
  }

  lemma CellCountStep(b: SubBoard, p: PieceType, n: nat)
    requires n < 9
    ensures CellCount(b, p, n + 1) == CellCount(b, p, n) + Holds(b, p, n)
  {
  }

  /** The count of a sub-board written out cell by cell. */
  lemma CellCountNine(b: SubBoard, p: PieceType)
    ensures CellCount(b, p, 9) == Holds(b, p, 0) + Holds(b, p, 1) + Holds(b, p, 2) + Holds(b, p, 3) +
      Holds(b, p, 4) + Holds(b, p, 5) + Holds(b, p, 6) + Holds(b, p, 7) + Holds(b, p, 8)
  {
    CellCountStep(b, p, 0); CellCountStep(b, p, 1); CellCountStep(b, p, 2);
    CellCountStep(b, p, 3); CellCountStep(b, p, 4); CellCountStep(b, p, 5);
    CellCountStep(b, p, 6); CellCountStep(b, p, 7); CellCountStep(b, p, 8);
  }

  function BoardHolds(u: UltraGrid, p: PieceType, j: nat): nat
    requires j < 9
  {
    CellCount(u.Get(GridSlot(j as Byte)), p, 9)
  }

  lemma GridCountStep(u: UltraGrid, p: PieceType, n: nat)
    requires n < 9
    ensures GridCount(u, p, n + 1) == GridCount(u, p, n) + BoardHolds(u, p, n)
  {
  }

  /** The count of the whole grid written out sub-board by sub-board. */
  lemma GridCountNine(u: UltraGrid, p: PieceType)
    ensures GridCount(u, p, 9) == BoardHolds(u, p, 0) + BoardHolds(u, p, 1) + BoardHolds(u, p, 2) +
      BoardHolds(u, p, 3) + BoardHolds(u, p, 4) + BoardHolds(u, p, 5) + BoardHolds(u, p, 6) +
      BoardHolds(u, p, 7) + BoardHolds(u, p, 8)
  {
    GridCountStep(u, p, 0); GridCountStep(u, p, 1); GridCountStep(u, p, 2);
    GridCountStep(u, p, 3); GridCountStep(u, p, 4); GridCountStep(u, p, 5);
    GridCountStep(u, p, 6); GridCountStep(u, p, 7); GridCountStep(u, p, 8);
  }

  /** The piece counts of the three kinds of sub-board in TopRowTaken. */
  lemma SubBoardCounts(b: SubBoard)
    requires b.grid == [[X, X, X], [Empty, Empty, Empty], [Empty, Empty, Empty]] ||
      b.grid == [[O, Empty, Empty], [Empty, Empty, Empty], [Empty, Empty, Empty]] ||
      b.grid == [[O, O, Empty], [Empty, Empty, Empty], [Empty, Empty, Empty]]
    ensures CellCount(b, X, 9) == (if b.grid[0][0] == X then 3 else 0)
    ensures CellCount(b, O, 9) == (if b.grid[0][0] == X then 0 else if b.grid[0][1] == O then 2 else 1)
  {
    CellCountNine(b, X);
    CellCountNine(b, O);
  }

  /** X has 9 pieces and O has 8, so O is to move under alternation. */
  lemma TopRowTakenCounts()
    ensures PieceCount(TopRowTaken(), X) == 9 && PieceCount(TopRowTaken(), O) == 8
  {
    var u := TopRowTaken();
    var won, one, two := u.Get(GridSlot(0)), u.Get(GridSlot(4)), u.Get(GridSlot(3));
    SubBoardCounts(won);
    SubBoardCounts(one);
    SubBoardCounts(two);
    assert u.Get(GridSlot(1)) == won && u.Get(GridSlot(2)) == won;
    assert u.Get(GridSlot(5)) == one && u.Get(GridSlot(7)) == one && u.Get(GridSlot(8)) == one;
    assert u.Get(GridSlot(6)) == two;
    GridCountNine(u, X);
    GridCountNine(u, O);
  }

  /** The converse fails: a state that keeps the slot invariant and strict
      alternation has a won board, yet the free slot still offers a cell of
      sub-board 4. */
  lemma TerminalWithMoves()
    ensures var st := UtttState(TopRowTaken(), false, ANY_SLOT);
      SlotInvariant(st) && Alternating(st) &&
      GetWinner(st) == Some(PlayerJustMoved) && (GridSlot(4), GridSlot(8)) in LegalMoves(st)
  {
    var st := UtttState(TopRowTaken(), false, ANY_SLOT);
    TopRowTakenWon();
    TopRowTakenCounts();
    LegalMovesExactly(st, (GridSlot(4), GridSlot(8)));
  }

  // ---- Evaluation --------------------------------------------------------

  /** The evaluation ceiling, one below the largest 16-bit value. */
  const SCALE: int := 32766

  /** Truncation toward zero of a real. */
  function Truncate(x: real): (n: int)
    ensures x >= 0.0 ==> 0 <= n && n as real <= x < n as real + 1.0
    ensures x < 0.0 ==> n <= 0 && n as real - 1.0 < x <= n as real
  {
    if x >= 0.0 then x.Floor else -((-x).Floor)
  }

  lemma TruncateOdd(x: real)
    ensures Truncate(-x) == -Truncate(x)
  {
  }

  /** A float-to-16-bit cast saturates at the ends of the range. */
  function ToInt16(n: int): (r: int)
    ensures -32768 <= r <= 32767
    ensures -32768 <= n <= 32767 ==> r == n
  {
    if n < -32768 then -32768 else if n > 32767 then 32767 else n
  }

  /** The value of a score from X's side: 1 and -1 for the wins, 0 for a
      draw, the average itself while in progress. */
  function ScoreValue(score: BoardScore): (v: real)
    ensures Bounded(score) ==> -1.0 <= v <= 1.0
  {
    match score
    case WinnerX => 1.0
    case WinnerO => -1.0
    case Draw => 0.0
    case InProgress(val) => val
  }

  /** A value in [-1, 1] scaled to the evaluation range and cast to 16 bits. */
  function Scaled(v: real): (n: int)
    requires -1.0 <= v <= 1.0
    ensures -SCALE <= n <= SCALE
  {
    ScaleBounded(v);
    ToInt16(Truncate(v * SCALE as real))
  }

  /** The value of the grid from X's side, scaled and truncated, and then
      seen from the side to move. */
  function Evaluate(st: UtttState): (r: int)
    ensures -SCALE <= r <= SCALE
  {
    UltraScoreBounded(st.ultraGrid);
    var res := Scaled(ScoreValue(UltraScore(st.ultraGrid)));
    if st.crossesTurn then res else -res
  }

  lemma ScaleBounded(v: real)
    requires -1.0 <= v <= 1.0
    ensures -SCALE <= Truncate(v * SCALE as real) <= SCALE
  {
  }

  /** Negating a score negates its value. */
  lemma ValueNegate(score: BoardScore)
    ensures ScoreValue(Negate(score)) == -ScoreValue(score)
  {
  }

  /** Scaling commutes with negation: truncation is toward zero. */
  lemma ScaledOdd(v: real)
    requires -1.0 <= v <= 1.0
    ensures Scaled(-v) == -Scaled(v)
  {
    TruncateOdd(v * SCALE as real);
    assert -v * SCALE as real == -(v * SCALE as real);
  }

  /** The same grid with the other side to move evaluates to the negation. */
  lemma EvaluateOtherMover(st: UtttState)
    ensures Evaluate(st.(crossesTurn := !st.crossesTurn)) == -Evaluate(st)
  {
  }

  /** Swapping X and O everywhere and passing the turn keeps the value. */
  lemma EvaluateColourSymmetric(st: UtttState)
    ensures Evaluate(UtttState(SwapUltra(st.ultraGrid), !st.crossesTurn, st.currentPlaySlot)) == Evaluate(st)
  {
    var swapped := UtttState(SwapUltra(st.ultraGrid), !st.crossesTurn, st.currentPlaySlot);
    UltraScoreSwap(st.ultraGrid);
    EvaluateIs(st);
    EvaluateIs(swapped);
    SwappedValue(UltraScore(st.ultraGrid), UltraScore(swapped.ultraGrid), st.crossesTurn);
  }

  /** The value of a negated score, seen from the other side, is unchanged. */
  lemma SwappedValue(a: BoardScore, b: BoardScore, turn: bool)
    requires Bounded(a) && Bounded(b) && b == Negate(a)
    ensures (if !turn then Scaled(ScoreValue(b)) else -Scaled(ScoreValue(b))) ==
      (if turn then Scaled(ScoreValue(a)) else -Scaled(ScoreValue(a)))
  {
    ValueNegate(a);
    ScaledOdd(ScoreValue(a));
  }

  lemma EvaluateIs(st: UtttState)
    ensures Bounded(UltraScore(st.ultraGrid))
    ensures Evaluate(st) == if st.crossesTurn then Scaled(ScoreValue(UltraScore(st.ultraGrid)))
      else -Scaled(ScoreValue(UltraScore(st.ultraGrid)))
  {
    UltraScoreBounded(st.ultraGrid);
  }

  /** Decided boards evaluate to the ends of the range and to 0. */
  lemma EvaluateDecided(st: UtttState)
    ensures UltraScore(st.ultraGrid) == WinnerX ==> Evaluate(st) == (if st.crossesTurn then SCALE else -SCALE)
    ensures UltraScore(st.ultraGrid) == WinnerO ==> Evaluate(st) == (if st.crossesTurn then -SCALE else SCALE)
    ensures UltraScore(st.ultraGrid) == BoardScore.Draw ==> Evaluate(st) == 0
  {
  }

  /** The side to move sees a positive value when its position is better. */
  lemma EvaluateSign(st: UtttState)
    requires UltraScore(st.ultraGrid).InProgress?
    ensures var v := UltraScore(st.ultraGrid).value;
      (if st.crossesTurn then v else -v) >= 1.0 / SCALE as real ==> Evaluate(st) > 0
  {
    UltraScoreBounded(st.ultraGrid);
  }
}
