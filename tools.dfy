/** The human-readable board text: rendering a grid of sub-boards as nine
    text rows, and parsing such text back. */
module Tools {
  import opened TicTacToe

  /** The separator line printed after text rows 2 and 5. */
  const DASHES: string := "-----------------------------\n"

  function Token(p: PieceType): (t: string)
    ensures |t| == 3
  {
    match p
    case Empty => " . "
    case X => " X "
    case O => " O "
  }

  lemma DivMod3(a: int, b: int)
    requires 0 <= a && 0 <= b < 3
    ensures (3 * a + b) / 3 == a && (3 * a + b) % 3 == b
  {
  }

  /** The cell shown at text row i, text column j: sub-board (i / 3, j / 3),
      local cell (i % 3, j % 3), both addressed through slots. */
  function CellAt(g: UltraGrid, i: nat, j: nat): PieceType
    requires i < 9 && j < 9
  {
    g.Get(FromPair((i / 3) as Byte, (j / 3) as Byte)).Get(FromPair((i % 3) as Byte, (j % 3) as Byte))
  }

  /** Cell (small_row, small_col) of sub-board (big_row, big_col), indexed
      directly as the parser writes it. */
  function At(u: UltraGrid, bigRow: nat, smallRow: nat, bigCol: nat, smallCol: nat): PieceType
    requires bigRow < 3 && smallRow < 3 && bigCol < 3 && smallCol < 3
  {
    u.grid[bigRow][bigCol].grid[smallRow][smallCol]
  }

  lemma CellAtIsAt(g: UltraGrid, i: nat, j: nat)
    requires i < 9 && j < 9
    ensures CellAt(g, i, j) == At(g, i / 3, i % 3, j / 3, j % 3)
  {
    DivMod3(i / 3, j / 3);
    DivMod3(i % 3, j % 3);
  }

  /** Two grids that agree on every cell are equal. */
  lemma UltraExtensional(a: UltraGrid, b: UltraGrid)
    requires forall br, sr, bc, sc :: 0 <= br < 3 && 0 <= sr < 3 && 0 <= bc < 3 && 0 <= sc < 3 ==>
      At(a, br, sr, bc, sc) == At(b, br, sr, bc, sc)
    ensures a == b
  {
    forall br, bc | 0 <= br < 3 && 0 <= bc < 3 ensures a.grid[br][bc] == b.grid[br][bc] {
      var x, y := a.grid[br][bc], b.grid[br][bc];
      forall sr, sc | 0 <= sr < 3 && 0 <= sc < 3 ensures x.grid[sr][sc] == y.grid[sr][sc] {
        assert At(a, br, sr, bc, sc) == At(b, br, sr, bc, sc);
      }
      forall sr | 0 <= sr < 3 ensures x.grid[sr] == y.grid[sr] {
      }
    }
    forall br | 0 <= br < 3 ensures a.grid[br] == b.grid[br] {
    }
  }

  // ---- Rendering -------------------------------------------------------

  /** What the row loop appends before text column j: a "|" before columns
      3 and 6, nothing elsewhere. */
  function Sep(j: nat): string
  {
    if j % 3 == 0 && j != 0 then "|" else ""
  }

  /** The text of a row whose first |cs| cells hold the pieces cs. */
  function RowOf(cs: seq<PieceType>): string
  {
    if cs == [] then ""
    else RowOf(cs[..|cs| - 1]) + Sep(|cs| - 1) + Token(cs[|cs| - 1])
  }

  /** Text columns 0..n-1 of the cells of text row i. */
  function RowCells(g: UltraGrid, i: nat, n: nat): (cs: seq<PieceType>)
    requires i < 9 && n <= 9
    ensures |cs| == n
  {
    seq(n, j requires 0 <= j < n => CellAt(g, i, j))
  }

  /** Columns 0..n-1 of text row i rendered. */
  function RowText(g: UltraGrid, i: nat, n: nat): string
    requires i < 9 && n <= 9
  {
    RowOf(RowCells(g, i, n))
  }

  /** Text row i with its newline, and the separator after rows 2 and 5. */
  function RowLine(g: UltraGrid, i: nat): string
    requires i < 9
  {
    RowText(g, i, 9) + "\n" + (if i % 3 == 2 && i != 8 then DASHES else "")
  }

  /** The leading newline and text rows 0..n-1. */
  function BoardText(g: UltraGrid, n: nat): string
    requires n <= 9
  {
    if n == 0 then "\n" else BoardText(g, n - 1) + RowLine(g, n - 1)
  }

  function Render(g: UltraGrid): string
  {
    BoardText(g, 9)
  }

  /** The rendering loop: nine text rows of nine tokens. The inner loop,
      over the columns of one text row, is PushRowText. */
  method StringUltragrid(g: UltraGrid) returns (s: string)
    ensures s == Render(g)
  {
    s := "";
    s := s + "\n";
    for i := 0 to 9
      invariant s == BoardText(g, i)
    {
      ghost var before := s;
      s := PushRowText(g, i, s);
      s := s + "\n";
      ghost var row := s;
      if i % 3 == 2 && i != 8 {
        s := s + DASHES;
      }
      ghost var dash: string := if i % 3 == 2 && i != 8 then DASHES else "";
      assert s == row + dash;
      BoardLoopStep(g, i, before, dash);
    }
  }

  /** The column loop: appends the nine tokens of text row i, with a "|"
      before columns 3 and 6. */
  method PushRowText(g: UltraGrid, i: nat, s0: string) returns (s: string)
    requires i < 9
    ensures s == s0 + RowText(g, i, 9)
  {
    s := s0;
    for j := 0 to 9
      invariant s == s0 + RowText(g, i, j)
    {
      ghost var cur := s;
      var piece := CellAt(g, i, j);
      if j % 3 == 0 && j != 0 {
        s := s + "|";
      }
      ghost var mid := s;
      if piece == Empty {
        s := s + " . ";
      } else if piece == X {
        s := s + " X ";
      } else if piece == O {
        s := s + " O ";
      }
      assert mid == cur + Sep(j);
      assert s == mid + Token(piece) by {
        match piece
        case Empty =>
        case X =>
        case O =>
      }
      RowLoopStep(g, i, j, s0, cur);
    }
  }

  /** One pass of the column loop appends the next column's text. */
  lemma RowLoopStep(g: UltraGrid, i: nat, j: nat, before: string, cur: string)
    requires i < 9 && j < 9 && cur == before + RowText(g, i, j)
    ensures cur + Sep(j) + Token(CellAt(g, i, j)) == before + RowText(g, i, j + 1)
  {
    RowTextStep(g, i, j);
    ConcatAssoc(before, RowText(g, i, j), Sep(j));
    ConcatAssoc(before, RowText(g, i, j) + Sep(j), Token(CellAt(g, i, j)));
  }

  /** One pass of the row loop appends the next text row. */
  lemma BoardLoopStep(g: UltraGrid, i: nat, before: string, dash: string)
    requires i < 9 && before == BoardText(g, i)
    requires dash == if i % 3 == 2 && i != 8 then DASHES else ""
    ensures before + RowText(g, i, 9) + "\n" + dash == BoardText(g, i + 1)
  {
    ConcatAssoc(before, RowText(g, i, 9), "\n");
    ConcatAssoc(before, RowText(g, i, 9) + "\n", dash);
  }

  lemma ConcatAssoc(a: string, b: string, c: string)
    ensures (a + b) + c == a + (b + c)
  {
  }

  function TokenAt(g: UltraGrid, i: nat, j: nat): string
    requires i < 9 && j < 9
  {
    Token(CellAt(g, i, j))
  }

  /** Where the token of text column j starts within its text row: three
      characters per earlier column and one per earlier "|". */
  function Offset(j: nat): nat
  {
    3 * j + j / 3
  }

  /** One more column: the row text grows by its separator and token. */
  lemma RowTextStep(g: UltraGrid, i: nat, j: nat)
    requires i < 9 && j < 9
    ensures RowText(g, i, j + 1) == RowText(g, i, j) + Sep(j) + Token(CellAt(g, i, j))
  {
    var cs := RowCells(g, i, j + 1);
    assert cs[..j] == RowCells(g, i, j);
  }

  /** Three characters per token, one per "|". */
  lemma {:induction false} RowOfLength(cs: seq<PieceType>)
    ensures |RowOf(cs)| == (if cs == [] then 0 else Offset(|cs| - 1) + 3)
  {
    if cs != [] {
      RowOfLength(cs[..|cs| - 1]);
    }
  }

  /** The text of a prefix of the pieces is a prefix of the text. */
  lemma {:induction false} RowOfPrefix(cs: seq<PieceType>, m: nat)
    requires m <= |cs|
    ensures |RowOf(cs[..m])| <= |RowOf(cs)|
    ensures RowOf(cs)[..|RowOf(cs[..m])|] == RowOf(cs[..m])
    decreases |cs|
  {
    if m < |cs| {
      var init := cs[..|cs| - 1];
      PrefixOfPrefix(cs, m, |cs| - 1);
      RowOfPrefix(init, m);
      PrefixOfAppend(RowOf(init), Sep(|cs| - 1), Token(cs[|cs| - 1]), RowOf(cs[..m]));
    } else {
      WholePrefix(cs);
      WholePrefix(RowOf(cs));
    }
  }

  lemma PrefixOfPrefix<T>(cs: seq<T>, m: nat, n: nat)
    requires m <= n <= |cs|
    ensures cs[..n][..m] == cs[..m]
  {
  }

  lemma WholePrefix<T>(cs: seq<T>)
    ensures cs[..|cs|] == cs
  {
  }

  /** A prefix of a stays a prefix once more text is appended. */
  lemma PrefixOfAppend(a: string, sep: string, tok: string, p: string)
    requires |p| <= |a| && a[..|p|] == p
    ensures |p| <= |a + sep + tok| && (a + sep + tok)[..|p|] == p
  {
    assert (a + sep + tok)[..|p|] == a[..|p|];
  }

  /** A slice inside a prefix is the same slice of the prefix. */
  lemma SliceWithinPrefix(s: string, p: string, lo: nat, hi: nat)
    requires |p| <= |s| && s[..|p|] == p && lo <= hi <= |p|
    ensures s[lo..hi] == p[lo..hi]
  {
    forall k | 0 <= k < hi - lo ensures s[lo..hi][k] == p[lo..hi][k] {
      assert s[..|p|][lo + k] == s[lo + k];
    }
  }

  /** The last token of a text sits right after what precedes it. */
  lemma LastToken(a: string, tok: string)
    ensures (a + tok)[|a|..|a| + |tok|] == tok
  {
  }

  /** Offset(j) is where the text of the first j pieces and the separator
      before piece j end. */
  lemma OffsetStep(j: nat)
    ensures j == 0 ==> Offset(j) == 0
    ensures j > 0 ==> Offset(j - 1) + 3 + |Sep(j)| == Offset(j)
  {
    if j > 0 {
      var q, r := (j - 1) / 3, (j - 1) % 3;
      assert j == 3 * q + r + 1;
      if r == 2 {
        DivMod3(q + 1, 0);
      } else {
        DivMod3(q, r + 1);
      }
    }
  }

  /** The text of the first j + 1 pieces. */
  lemma RowOfSnoc(cs: seq<PieceType>, j: nat)
    requires j < |cs|
    ensures RowOf(cs[..j + 1]) == RowOf(cs[..j]) + Sep(j) + Token(cs[j])
  {
    PrefixOfPrefix(cs, j, j + 1);
  }

  /** The text before piece j is Offset(j) characters long. */
  lemma HeadLength(cs: seq<PieceType>, j: nat)
    requires j < |cs|
    ensures |RowOf(cs[..j]) + Sep(j)| == Offset(j)
  {
    RowOfLength(cs[..j]);
    OffsetStep(j);
  }

  /** The token of piece j starts at Offset(j). */
  lemma TokenInRowOf(cs: seq<PieceType>, j: nat)
    requires j < |cs|
    ensures Offset(j) + 3 <= |RowOf(cs)|
    ensures RowOf(cs)[Offset(j)..Offset(j) + 3] == Token(cs[j])
  {
    var head := RowOf(cs[..j]) + Sep(j);
    RowOfPrefix(cs, j + 1);
    RowOfSnoc(cs, j);
    HeadLength(cs, j);
    LastToken(head, Token(cs[j]));
    SliceWithinPrefix(RowOf(cs), RowOf(cs[..j + 1]), Offset(j), Offset(j) + 3);
  }

  /** A "|" just before the token of piece j when j is a positive multiple
      of 3. */
  lemma BarInRowOf(cs: seq<PieceType>, j: nat)
    requires j < |cs| && j % 3 == 0 && j != 0
    ensures 0 < Offset(j) <= |RowOf(cs)|
    ensures RowOf(cs)[Offset(j) - 1] == '|'
  {
    var prev := RowOf(cs[..j]);
    RowOfPrefix(cs, j + 1);
    RowOfSnoc(cs, j);
    HeadLength(cs, j);
    assert Sep(j) == "|";
    BarAfter(prev, Token(cs[j]));
    SliceWithinPrefix(RowOf(cs), RowOf(cs[..j + 1]), Offset(j) - 1, Offset(j));
    assert RowOf(cs)[Offset(j) - 1] == RowOf(cs)[Offset(j) - 1..Offset(j)][0];
  }

  lemma BarAfter(a: string, tok: string)
    ensures (a + "|" + tok)[|a|..|a| + 1] == "|"
  {
  }

  /** A text row is 29 characters: the nine tokens, with "|" at positions 9
      and 19. */
  lemma RowTextLayout(g: UltraGrid, i: nat)
    requires i < 9
    ensures |RowText(g, i, 9)| == 29
    ensures forall j :: 0 <= j < 9 ==> RowText(g, i, 9)[Offset(j)..Offset(j) + 3] == TokenAt(g, i, j)
    ensures RowText(g, i, 9)[9] == '|' && RowText(g, i, 9)[19] == '|'
  {
    var cs := RowCells(g, i, 9);
    RowOfLength(cs);
    forall j | 0 <= j < 9 ensures RowOf(cs)[Offset(j)..Offset(j) + 3] == TokenAt(g, i, j) {
      TokenInRowOf(cs, j);
      RowCellsIndex(g, i, 9, j);
    }
    BarInRowOf(cs, 3);
    BarInRowOf(cs, 6);
  }

  /** The whole text: a leading newline, then the nine text rows, each ending
      in a newline, with a dash line after rows 2 and 5 only. */
  lemma RenderLayout(g: UltraGrid)
    ensures Render(g) ==
      "\n" + RowLine(g, 0) + RowLine(g, 1) + RowLine(g, 2) + RowLine(g, 3) + RowLine(g, 4) +
      RowLine(g, 5) + RowLine(g, 6) + RowLine(g, 7) + RowLine(g, 8)
    ensures forall i :: 0 <= i < 9 ==>
      RowLine(g, i) == RowText(g, i, 9) + "\n" + (if i == 2 || i == 5 then DASHES else "")
    ensures |Render(g)| == 1 + 9 * 30 + 2 * 30
  {
    assert BoardText(g, 1) == "\n" + RowLine(g, 0);
    assert BoardText(g, 2) == BoardText(g, 1) + RowLine(g, 1);
    assert BoardText(g, 3) == BoardText(g, 2) + RowLine(g, 2);
    assert BoardText(g, 4) == BoardText(g, 3) + RowLine(g, 3);
    assert BoardText(g, 5) == BoardText(g, 4) + RowLine(g, 4);
    assert BoardText(g, 6) == BoardText(g, 5) + RowLine(g, 5);
    assert BoardText(g, 7) == BoardText(g, 6) + RowLine(g, 6);
    assert BoardText(g, 8) == BoardText(g, 7) + RowLine(g, 7);
    forall i | 0 <= i < 9 ensures |RowText(g, i, 9)| == 29 {
      RowTextLayout(g, i);
    }
  }

  // ---- Parsing ---------------------------------------------------------

  /** The piece a character stands for; every other character is skipped. */
  function CharPiece(c: char): Option<PieceType>
  {
    match c
    case 'X' => Some(X)
    case 'O' => Some(O)
    case '.' => Some(Empty)
    case _ => None
  }

  /** The pieces of the accepted characters of s, in order. */
  function Accepted(s: string): seq<PieceType>
  {
    if s == [] then []
    else Accepted(s[..|s| - 1]) + (match CharPiece(s[|s| - 1]) case Some(p) => [p] case None => [])
  }

  lemma {:induction false} AcceptedConcat(a: string, b: string)
    ensures Accepted(a + b) == Accepted(a) + Accepted(b)
  {
    if b != [] {
      assert (a + b)[..|a + b| - 1] == a + b[..|b| - 1];
      AcceptedConcat(a, b[..|b| - 1]);
    } else {
      assert a + b == a;
    }
  }

  lemma {:induction false} NoneAccepted(s: string)
    requires forall k :: 0 <= k < |s| ==> CharPiece(s[k]).None?
    ensures Accepted(s) == []
  {
    if s != [] {
      NoneAccepted(s[..|s| - 1]);
    }
  }

  /** The text of the first n accepted characters, as grid coordinates:
      entry k is the cell at big_row, small_row, big_col, small_col with
      k = 27 * big_row + 9 * small_row + 3 * big_col + small_col. */
  function FromCells(cs: seq<PieceType>): (u: UltraGrid)
    requires |cs| == 81
    ensures forall br, sr, bc, sc :: 0 <= br < 3 && 0 <= sr < 3 && 0 <= bc < 3 && 0 <= sc < 3 ==>
      At(u, br, sr, bc, sc) == cs[27 * br + 9 * sr + 3 * bc + sc]
  {
    var rows: seq<seq<SubBoard>> := seq(3, br requires 0 <= br < 3 =>
      seq(3, bc requires 0 <= bc < 3 =>
        var b: SubBoard := Grid3x3(seq(3, sr requires 0 <= sr < 3 =>
          seq(3, sc requires 0 <= sc < 3 => cs[27 * br + 9 * sr + 3 * bc + sc])));
        b));
    var u: Grid3x3<SubBoard> := Grid3x3(rows);
    u
  }

  /** The parse: None stands for the panic of running out of input before
      81 accepted characters; later characters are ignored. */
  function ParseSpec(input: string): Option<UltraGrid>
  {
    var acc := Accepted(input);
    if |acc| < 81 then None else Some(FromCells(acc[..81]))
  }

  ghost predicate Filled(u: UltraGrid, acc: seq<PieceType>, k: nat)
    requires k <= |acc|
  {
    forall br, sr, bc, sc :: 0 <= br < 3 && 0 <= sr < 3 && 0 <= bc < 3 && 0 <= sc < 3 ==>
      At(u, br, sr, bc, sc) == if 27 * br + 9 * sr + 3 * bc + sc < k then acc[27 * br + 9 * sr + 3 * bc + sc] else Empty
  }

  /** The assignment grid[big_row][big_col].grid[small_row][small_col] = v. */
  function SetAt(u: UltraGrid, bigRow: nat, smallRow: nat, bigCol: nat, smallCol: nat, v: PieceType): (r: UltraGrid)
    requires bigRow < 3 && smallRow < 3 && bigCol < 3 && smallCol < 3
    ensures At(r, bigRow, smallRow, bigCol, smallCol) == v
    ensures forall br, sr, bc, sc ::
      (0 <= br < 3 && 0 <= sr < 3 && 0 <= bc < 3 && 0 <= sc < 3 &&
       (br, sr, bc, sc) != (bigRow, smallRow, bigCol, smallCol)) ==> At(r, br, sr, bc, sc) == At(u, br, sr, bc, sc)
  {
    var b := u.grid[bigRow][bigCol];
    var nb: SubBoard := Grid3x3(b.grid[smallRow := b.grid[smallRow][smallCol := v]]);
    var row: seq<SubBoard> := u.grid[bigRow][bigCol := nb];
    var rows: seq<seq<SubBoard>> := u.grid[bigRow := row];
    var r: Grid3x3<SubBoard> := Grid3x3(rows);
    r
  }

  lemma FilledStep(u: UltraGrid, acc: seq<PieceType>, br: nat, sr: nat, bc: nat, sc: nat)
    requires br < 3 && sr < 3 && bc < 3 && sc < 3
    requires 27 * br + 9 * sr + 3 * bc + sc < |acc|
    requires Filled(u, acc, 27 * br + 9 * sr + 3 * bc + sc)
    ensures Filled(SetAt(u, br, sr, bc, sc, acc[27 * br + 9 * sr + 3 * bc + sc]), acc, 27 * br + 9 * sr + 3 * bc + sc + 1)
  {
  }

  lemma EmptyFilled(acc: seq<PieceType>)
    ensures Filled(EmptyUltra(), acc, 0)
  {
    forall br, sr, bc, sc | 0 <= br < 3 && 0 <= sr < 3 && 0 <= bc < 3 && 0 <= sc < 3
      ensures At(EmptyUltra(), br, sr, bc, sc) == Empty
    {
      var s, t := GridSlot((3 * br + bc) as Byte), GridSlot((3 * sr + sc) as Byte);
      DivMod3(br, bc);
      DivMod3(sr, sc);
      assert EmptyUltra().Get(s).Get(t) == Empty;
    }
  }

  /** The inner scan of the parser: advance from character `from` to just
      past the next accepted character; None when the input runs out first. */
  method NextPiece(input: string, from: nat) returns (piece: Option<PieceType>, next: nat)
    requires from <= |input|
    ensures piece.None? ==> next == |input| && Accepted(input[from..]) == []
    ensures piece.Some? ==> from < next <= |input| && Accepted(input[from..next]) == [piece.value]
  {
    next := from;
    piece := None;
    while true
      invariant from <= next <= |input| && Accepted(input[from..next]) == []
      invariant piece.None?
      decreases |input| - next
    {
      if next == |input| {
        assert input[from..next] == input[from..];
        return;
      }
      piece := CharPiece(input[next]);
      ScanOne(input, from, next);
      next := next + 1;
      if piece.Some? {
        assert Accepted(input[from..next]) == [piece.value];
        return;
      }
    }
  }

  lemma ScanOne(input: string, from: nat, next: nat)
    requires from <= next < |input|
    ensures CharPiece(input[next]).None? ==> Accepted(input[from..next + 1]) == Accepted(input[from..next])
    ensures CharPiece(input[next]).Some? ==>
      Accepted(input[from..next + 1]) == Accepted(input[from..next]) + [CharPiece(input[next]).value]
  {
    assert input[from..next + 1] == input[from..next] + [input[next]];
    AcceptedConcat(input[from..next], [input[next]]);
    AcceptedSingle(input[next]);
  }

  /** After a successful scan the next accepted character is acc[k]. */
  lemma ScanStep(input: string, charIdx: nat, next: nat, k: nat, p: PieceType)
    requires charIdx <= next <= |input| && k <= |Accepted(input)|
    requires Accepted(input[..charIdx]) == Accepted(input)[..k]
    requires Accepted(input[charIdx..next]) == [p]
    ensures k < |Accepted(input)| && Accepted(input)[k] == p
    ensures Accepted(input[..next]) == Accepted(input)[..k + 1]
  {
    var acc := Accepted(input);
    assert input[..next] == input[..charIdx] + input[charIdx..next];
    AcceptedConcat(input[..charIdx], input[charIdx..next]);
    assert input == input[..next] + input[next..];
    AcceptedConcat(input[..next], input[next..]);
    assert acc == acc[..k] + [p] + Accepted(input[next..]);
  }

  /** A failed scan: the input held only k accepted characters. */
  lemma ScanExhausted(input: string, charIdx: nat, k: nat)
    requires charIdx <= |input| && k <= |Accepted(input)|
    requires Accepted(input[..charIdx]) == Accepted(input)[..k]
    requires Accepted(input[charIdx..]) == []
    ensures |Accepted(input)| == k
  {
    assert input == input[..charIdx] + input[charIdx..];
    AcceptedConcat(input[..charIdx], input[charIdx..]);
  }

  /** What the parser has done after k cells: the characters read so far
      hold exactly the first k accepted pieces, and those fill the first k
      cells in the parser's order. */
  ghost predicate Progress(input: string, charIdx: nat, u: UltraGrid, k: nat)
  {
    var acc := Accepted(input);
    charIdx <= |input| && k <= |acc| && Accepted(input[..charIdx]) == acc[..k] && Filled(u, acc, k)
  }

  lemma ProgressStart(input: string)
    ensures Progress(input, 0, EmptyUltra(), 0)
  {
    EmptyFilled(Accepted(input));
  }

  /** One cell read: the piece found is the next accepted piece. */
  lemma ProgressStep(input: string, charIdx: nat, next: nat, u: UltraGrid, br: nat, sr: nat, bc: nat, sc: nat, p: PieceType)
    requires br < 3 && sr < 3 && bc < 3 && sc < 3
    requires Progress(input, charIdx, u, 27 * br + 9 * sr + 3 * bc + sc)
    requires charIdx <= next <= |input| && Accepted(input[charIdx..next]) == [p]
    ensures Progress(input, next, SetAt(u, br, sr, bc, sc, p), 27 * br + 9 * sr + 3 * bc + sc + 1)
  {
    var k := 27 * br + 9 * sr + 3 * bc + sc;
    ScanStep(input, charIdx, next, k, p);
    FilledStep(u, Accepted(input), br, sr, bc, sc);
  }

  /** The input ran out after k accepted pieces. */
  lemma ProgressExhausted(input: string, charIdx: nat, u: UltraGrid, k: nat)
    requires Progress(input, charIdx, u, k) && Accepted(input[charIdx..]) == []
    ensures |Accepted(input)| == k
  {
    ScanExhausted(input, charIdx, k);
  }

  /** All 81 cells read: the grid is the one the accepted pieces describe. */
  lemma ProgressDone(input: string, charIdx: nat, u: UltraGrid)
    requires Progress(input, charIdx, u, 81)
    ensures Some(u) == ParseSpec(input)
  {
    AcceptedFilledIsFromCells(u, Accepted(input));
  }

  /** The parsing loop: four nested coordinate loops, each cell taking the
      next accepted character. The two inner loops, over one text row, are
      ParseTextRow. */
  method ParseUltragrid(input: string) returns (r: Option<UltraGrid>)
    ensures r == ParseSpec(input)
  {
    var ultraGrid := EmptyUltra();
    var charIdx: nat := 0;
    ProgressStart(input);
    for bigRow := 0 to 3
      invariant Progress(input, charIdx, ultraGrid, 27 * bigRow)
    {
      for smallRow := 0 to 3
        invariant Progress(input, charIdx, ultraGrid, 27 * bigRow + 9 * smallRow)
      {
        var ok;
        ok, charIdx, ultraGrid := ParseTextRow(input, charIdx, ultraGrid, bigRow, smallRow);
        if !ok {
          return None;
        }
      }
    }
    ProgressDone(input, charIdx, ultraGrid);
    return Some(ultraGrid);
  }

  /** The loops over big_col and small_col for one (big_row, small_row):
      nine cells, or false where the scan runs out of input and the parser
      panics. */
  method ParseTextRow(input: string, charIdx0: nat, grid0: UltraGrid, bigRow: nat, smallRow: nat)
    returns (ok: bool, charIdx: nat, ultraGrid: UltraGrid)
    requires bigRow < 3 && smallRow < 3
    requires Progress(input, charIdx0, grid0, 27 * bigRow + 9 * smallRow)
    ensures ok ==> Progress(input, charIdx, ultraGrid, 27 * bigRow + 9 * smallRow + 9)
    ensures !ok ==> ParseSpec(input).None?
  {
    charIdx, ultraGrid := charIdx0, grid0;
    for bigCol := 0 to 3
      invariant Progress(input, charIdx, ultraGrid, 27 * bigRow + 9 * smallRow + 3 * bigCol)
    {
      for smallCol := 0 to 3
        invariant Progress(input, charIdx, ultraGrid, 27 * bigRow + 9 * smallRow + 3 * bigCol + smallCol)
      {
        var piece, next := NextPiece(input, charIdx);
        if piece.None? {
          // input.chars().nth(char_idx) is None and unwrap panics
          ProgressExhausted(input, charIdx, ultraGrid, 27 * bigRow + 9 * smallRow + 3 * bigCol + smallCol);
          return false, charIdx, ultraGrid;
        }
        ProgressStep(input, charIdx, next, ultraGrid, bigRow, smallRow, bigCol, smallCol, piece.value);
        ultraGrid := SetAt(ultraGrid, bigRow, smallRow, bigCol, smallCol, piece.value);
        charIdx := next;
      }
    }
    return true, charIdx, ultraGrid;
  }

  lemma AcceptedFilledIsFromCells(u: UltraGrid, acc: seq<PieceType>)
    requires |acc| >= 81 && Filled(u, acc, 81)
    ensures u == FromCells(acc[..81])
  {
    UltraExtensional(u, FromCells(acc[..81]));
  }

  // ---- Round trip --------------------------------------------------------

  /** The cells in text order: row by row, nine per row. */
  function TextCells(g: UltraGrid, n: nat): (cs: seq<PieceType>)
    requires n <= 9
    ensures |cs| == 9 * n
  {
    if n == 0 then []
    else TextCells(g, n - 1) + RowCells(g, n - 1, 9)
  }

  lemma RowCellsIndex(g: UltraGrid, i: nat, n: nat, j: nat)
    requires i < 9 && j < n <= 9
    ensures RowCells(g, i, n)[j] == CellAt(g, i, j)
  {
  }

  lemma {:induction false} TextCellsIndex(g: UltraGrid, n: nat, i: nat, j: nat)
    requires i < n <= 9 && j < 9
    ensures TextCells(g, n)[9 * i + j] == CellAt(g, i, j)
  {
    var prev, row := TextCells(g, n - 1), RowCells(g, n - 1, 9);
    if i < n - 1 {
      TextCellsIndex(g, n - 1, i, j);
      IndexAppend(prev, row, 9 * i + j);
    } else {
      IndexAppend(prev, row, 9 * i + j);
      RowCellsIndex(g, i, 9, j);
    }
  }

  lemma IndexAppend<T>(a: seq<T>, b: seq<T>, k: nat)
    requires k < |a| + |b|
    ensures (a + b)[k] == if k < |a| then a[k] else b[k - |a|]
  {
  }

  lemma AcceptedSingle(c: char)
    ensures Accepted([c]) == match CharPiece(c) case Some(p) => [p] case None => []
  {
    assert [c][..0] == [];
  }

  lemma AcceptedToken(p: PieceType)
    ensures Accepted(Token(p)) == [p]
  {
    var t := Token(p);
    assert t == [t[0]] + [t[1]] + [t[2]];
    AcceptedConcat([t[0]] + [t[1]], [t[2]]);
    AcceptedConcat([t[0]], [t[1]]);
    AcceptedSingle(t[0]);
    AcceptedSingle(t[1]);
    AcceptedSingle(t[2]);
  }

  /** The text of a row reads back as its pieces. */
  lemma {:induction false} AcceptedRowOf(cs: seq<PieceType>)
    ensures Accepted(RowOf(cs)) == cs
  {
    if cs != [] {
      AcceptedRowOf(cs[..|cs| - 1]);
      AcceptedRowOfStep(cs);
      SnocSplit(cs);
    }
  }

  lemma AcceptedRowOfStep(cs: seq<PieceType>)
    requires cs != []
    ensures Accepted(RowOf(cs)) == Accepted(RowOf(cs[..|cs| - 1])) + [cs[|cs| - 1]]
  {
    AcceptedToken(cs[|cs| - 1]);
    AcceptedAppend(RowOf(cs[..|cs| - 1]), Sep(|cs| - 1), Token(cs[|cs| - 1]));
  }

  lemma SnocSplit<T>(cs: seq<T>)
    requires cs != []
    ensures cs == cs[..|cs| - 1] + [cs[|cs| - 1]]
  {
  }

  /** A separator adds nothing, a token adds its piece. */
  lemma AcceptedAppend(prev: string, sep: string, tok: string)
    requires sep == "" || sep == "|"
    ensures Accepted(prev + sep + tok) == Accepted(prev) + Accepted(tok)
  {
    AcceptedConcat(prev, sep);
    AcceptedConcat(prev + sep, tok);
    NoneAccepted(sep);
  }

  lemma AcceptedDashes()
    ensures Accepted(DASHES) == []
  {
    NoneAccepted(DASHES);
  }

  lemma AcceptedRowLine(g: UltraGrid, i: nat)
    requires i < 9
    ensures Accepted(RowLine(g, i)) == RowCells(g, i, 9)
  {
    AcceptedRowOf(RowCells(g, i, 9));
    AcceptedLineEnd(RowText(g, i, 9), if i % 3 == 2 && i != 8 then DASHES else "");
  }

  /** The newline and the dash line add nothing. */
  lemma AcceptedLineEnd(row: string, dash: string)
    requires dash == DASHES || dash == ""
    ensures Accepted(row + "\n" + dash) == Accepted(row)
  {
    AcceptedConcat(row, "\n");
    AcceptedConcat(row + "\n", dash);
    NoneAccepted("\n");
    if dash == DASHES {
      AcceptedDashes();
    } else {
      NoneAccepted(dash);
    }
  }

  lemma {:induction false} AcceptedBoardText(g: UltraGrid, n: nat)
    requires n <= 9
    ensures Accepted(BoardText(g, n)) == TextCells(g, n)
  {
    if n == 0 {
      NoneAccepted("\n");
    } else {
      AcceptedBoardText(g, n - 1);
      AcceptedConcat(BoardText(g, n - 1), RowLine(g, n - 1));
      AcceptedRowLine(g, n - 1);
    }
  }

  /** The rendered text holds exactly the 81 cells, in the order the parser
      assigns them. */
  lemma AcceptedRender(g: UltraGrid)
    ensures |Accepted(Render(g))| == 81
    ensures forall br, sr, bc, sc :: 0 <= br < 3 && 0 <= sr < 3 && 0 <= bc < 3 && 0 <= sc < 3 ==>
      Accepted(Render(g))[27 * br + 9 * sr + 3 * bc + sc] == At(g, br, sr, bc, sc)
  {
    AcceptedBoardText(g, 9);
    forall br, sr, bc, sc | 0 <= br < 3 && 0 <= sr < 3 && 0 <= bc < 3 && 0 <= sc < 3
      ensures Accepted(Render(g))[27 * br + 9 * sr + 3 * bc + sc] == At(g, br, sr, bc, sc)
    {
      var i, j := 3 * br + sr, 3 * bc + sc;
      assert 27 * br + 9 * sr + 3 * bc + sc == 9 * i + j;
      TextCellsIndex(g, 9, i, j);
      CellAtIsAt(g, i, j);
      DivMod3(br, sr);
      DivMod3(bc, sc);
    }
  }

  /** Parsing the rendering of a grid gives the same grid back. */
  lemma RenderParseRoundTrip(g: UltraGrid)
    ensures ParseSpec(Render(g)) == Some(g)
  {
    AcceptedRender(g);
    var acc := Accepted(Render(g));
    assert acc[..81] == acc;
    UltraExtensional(FromCells(acc[..81]), g);
  }

  /** Once 81 characters have been accepted, whatever follows is ignored. */
  lemma ParseIgnoresTail(a: string, b: string)
    requires |Accepted(a)| >= 81
    ensures ParseSpec(a + b) == ParseSpec(a)
  {
    AcceptedConcat(a, b);
    assert (Accepted(a) + Accepted(b))[..81] == Accepted(a)[..81];
  }

  /** A character other than 'X', 'O' and '.' can be dropped anywhere. */
  lemma ParseSkipsOtherCharacters(a: string, c: char, b: string)
    requires c != 'X' && c != 'O' && c != '.'
    ensures ParseSpec(a + [c] + b) == ParseSpec(a + b)
  {
    AcceptedConcat(a + [c], b);
    AcceptedConcat(a, [c]);
    AcceptedConcat(a, b);
    AcceptedSingle(c);
    assert Accepted(a + [c]) == Accepted(a);
    assert Accepted(a + [c] + b) == Accepted(a + b);
  }

  /** Fewer than 81 accepted characters: the parser panics. */
  lemma ParseNeedsEightyOne(input: string)
    ensures ParseSpec(input).None? <==> |Accepted(input)| < 81
  {
  }
}
