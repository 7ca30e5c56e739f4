/** The game state: the grid of sub-boards, the side to move and the forced
    slot, with its default, its text form and its derived ordering. */
module NodeUttt {
  import opened TicTacToe
  import opened Tools

  /** Field order matters: equality and ordering compare ultraGrid, then
      crossesTurn, then currentPlaySlot. */
  datatype UtttState = UtttState(ultraGrid: UltraGrid, crossesTurn: bool, currentPlaySlot: GridSlot)

  /** The starting position: an empty grid, X to move, no forced slot. */
  function Default(): (st: UtttState)
    ensures st.crossesTurn && st.currentPlaySlot == ANY_SLOT
    ensures forall s: GridSlot, t: GridSlot :: s.index < 9 && t.index < 9 ==> st.ultraGrid.Get(s).Get(t) == Empty
  {
    UtttState(EmptyUltra(), true, ANY_SLOT)
  }

  // ---- Text form ---------------------------------------------------------

  function Digit(d: nat): char
    requires d < 10
  {
    ('0' as int + d) as char
  }

  predicate IsDigit(c: char)
  {
    '0' <= c <= '9'
  }

  /** The decimal digits of n without leading zeros, as an integer prints. */
  function DecimalText(n: nat): (s: string)
    ensures |s| > 0 && forall k :: 0 <= k < |s| ==> IsDigit(s[k])
    ensures n < 10 ==> |s| == 1
  {
    if n < 10 then [Digit(n)] else DecimalText(n / 10) + [Digit(n % 10)]
  }

  /** Reading decimal digits back: the value of a digit string. */
  function DecimalValue(s: string): nat
    requires forall k :: 0 <= k < |s| ==> IsDigit(s[k])
  {
    if s == [] then 0
    else
      assert IsDigit(s[|s| - 1]);
      10 * DecimalValue(s[..|s| - 1]) + (s[|s| - 1] as int - '0' as int)
  }

  lemma {:induction false} DecimalRoundTrip(n: nat)
    ensures DecimalValue(DecimalText(n)) == n
  {
    var s := DecimalText(n);
    if n >= 10 {
      DecimalRoundTrip(n / 10);
      assert s[..|s| - 1] == DecimalText(n / 10);
    }
  }

  /** The tuple (row, column) in the form "(r, c)". */
  function PairText(rc: (Byte, Byte)): string
  {
    "(" + DecimalText(rc.0 as nat) + ", " + DecimalText(rc.1 as nat) + ")"
  }

  function PlayerText(crossesTurn: bool): string
  {
    if crossesTurn then "X" else "O"
  }

  /** The grid text, the side to move, and the forced slot converted to
      (row, column). */
  function StateText(st: UtttState): string
  {
    Render(st.ultraGrid)
      + "\nCurrent player: " + PlayerText(st.crossesTurn) + "\n"
      + "Current play slot: " + PairText(st.currentPlaySlot.Into()) + "\n"
  }

  /** The text-building routine: three appends to an empty string. */
  method ToText(st: UtttState) returns (str: string)
    ensures str == StateText(st)
  {
    str := "";
    var playSlot := st.currentPlaySlot.Into();
    var grid := StringUltragrid(st.ultraGrid);
    str := str + grid;
    assert str == grid;
    str := str + ("\nCurrent player: " + (if st.crossesTurn then "X" else "O") + "\n");
    str := str + ("Current play slot: " + PairText(playSlot) + "\n");
    TextJoin(st, grid);
  }

  /** The state text is the grid text followed by the two appended lines. */
  lemma TextJoin(st: UtttState, grid: string)
    requires grid == Render(st.ultraGrid)
    ensures grid + ("\nCurrent player: " + PlayerText(st.crossesTurn) + "\n")
      + ("Current play slot: " + PairText(st.currentPlaySlot.Into()) + "\n") == StateText(st)
  {
    var tail := "\nCurrent player: " + PlayerText(st.crossesTurn) + "\n";
    var slot := "Current play slot: " + PairText(st.currentPlaySlot.Into()) + "\n";
    assert StateTail(st) == tail + slot;
    assert StateText(st) == grid + StateTail(st);
    ConcatAssoc(grid, tail, slot);
  }

  /** The free slot prints as (3, 0). */
  lemma AnySlotText()
    ensures PairText(ANY_SLOT.Into()) == "(3, 0)"
  {
    AnySlotInto();
  }

  /** The part after the grid text: the player line and the slot line. */
  function StateTail(st: UtttState): string
  {
    "\nCurrent player: " + PlayerText(st.crossesTurn) + "\n"
      + "Current play slot: " + PairText(st.currentPlaySlot.Into()) + "\n"
  }

  lemma StateTextSplit(st: UtttState)
    ensures StateText(st) == Render(st.ultraGrid) + StateTail(st)
    ensures |Render(st.ultraGrid)| == 331
  {
    RenderLayout(st.ultraGrid);
  }

  /** The grid can be read back from a state's text: parsing stops after the
      81st cell, before the player and slot lines. */
  lemma StateTextParses(st: UtttState)
    ensures ParseSpec(StateText(st)) == Some(st.ultraGrid)
  {
    StateTextSplit(st);
    AcceptedRender(st.ultraGrid);
    ParseIgnoresTail(Render(st.ultraGrid), StateTail(st));
    RenderParseRoundTrip(st.ultraGrid);
  }

  /** The side to move is the 18th character after the grid. */
  lemma PlayerCharAt(st: UtttState)
    ensures |StateText(st)| > 348
    ensures StateText(st)[348] == (if st.crossesTurn then 'X' else 'O')
  {
    StateTextSplit(st);
    var tail := StateTail(st);
    assert tail[17] == PlayerText(st.crossesTurn)[0];
  }

  /** Different grids or different sides to move give different texts. */
  lemma StateTextDistinguishes(a: UtttState, b: UtttState)
    requires StateText(a) == StateText(b)
    ensures a.ultraGrid == b.ultraGrid && a.crossesTurn == b.crossesTurn
  {
    StateTextParses(a);
    StateTextParses(b);
    PlayerCharAt(a);
    PlayerCharAt(b);
  }

  // ---- Derived ordering --------------------------------------------------

  /** Derived ordering on bool: false < true. */
  function CompareBool(a: bool, b: bool): (o: Ordering)
    ensures o == Equal <==> a == b
    ensures o == Less <==> !a && b
  {
    CompareInt(if a then 1 else 0, if b then 1 else 0)
  }

  /** The derived ordering: fields compared in declaration order. */
  function CompareState(a: UtttState, b: UtttState): (o: Ordering)
    ensures o == Equal <==> a == b
  {
    var g := CompareUltra(a.ultraGrid, b.ultraGrid);
    if g != Equal then g
    else
      var t := CompareBool(a.crossesTurn, b.crossesTurn);
      if t != Equal then t
      else CompareInt(a.currentPlaySlot.index as int, b.currentPlaySlot.index as int)
  }

  lemma CompareStateAntisymmetric(a: UtttState, b: UtttState)
    ensures CompareState(a, b) == Flip(CompareState(b, a))
  {
    CompareUltraAntisymmetric(a.ultraGrid, b.ultraGrid);
  }

  /** The grid decides the order; the mover only breaks ties between equal
      grids, and the slot only ties between equal grids and movers. */
  lemma CompareStateByGridFirst(a: UtttState, b: UtttState)
    ensures a.ultraGrid != b.ultraGrid ==> CompareState(a, b) == CompareUltra(a.ultraGrid, b.ultraGrid)
    ensures a.ultraGrid == b.ultraGrid && a.crossesTurn != b.crossesTurn ==>
      (CompareState(a, b) == Less <==> b.crossesTurn)
    ensures a.ultraGrid == b.ultraGrid && a.crossesTurn == b.crossesTurn ==>
      (CompareState(a, b) == Less <==> a.currentPlaySlot.index < b.currentPlaySlot.index)
  {
  }
}
