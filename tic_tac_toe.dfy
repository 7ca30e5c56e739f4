/** The grid and slot layer: the three-valued piece, slot addressing with its
    free sentinel, the constant tables of slots and winning lines, and the
    generic 3x3 grid with its row-major lexicographic ordering. */
module TicTacToe {

  /** An optional value. */
  datatype Option<T> = None | Some(value: T)

  /** An unsigned 8-bit integer, the carrier of a slot index. */
  newtype Byte = x: int | 0 <= x < 256

  /** A cell mark. Its explicit discriminants are X = 1, O = -1, Empty = 0. */
  datatype PieceType = X | O | Empty

  /** The discriminant of a piece; the derived ordering compares these. */
  function Discriminant(p: PieceType): int
  {
    match p
    case X => 1
    case O => -1
    case Empty => 0
  }

  /** The default piece. */
  function DefaultPiece(): (p: PieceType)
    ensures p == Empty
  {
    Empty
  }

  datatype Ordering = Less | Equal | Greater

  function Flip(o: Ordering): Ordering
  {
    match o
    case Less => Greater
    case Equal => Equal
    case Greater => Less
  }

  /** Three-way comparison of two integers. */
  function CompareInt(a: int, b: int): (o: Ordering)
    ensures o == Equal <==> a == b
    ensures o == Less <==> a < b
  {
    if a < b then Less else if a == b then Equal else Greater
  }

  /** Derived ordering on pieces: by discriminant, so O < Empty < X. */
  function ComparePiece(p: PieceType, q: PieceType): (o: Ordering)
    ensures o == Equal <==> p == q
    ensures o == Less <==> (p == O && q != O) || (p == Empty && q == X)
  {
    CompareInt(Discriminant(p), Discriminant(q))
  }

  lemma ComparePieceAntisymmetric(p: PieceType, q: PieceType)
    ensures ComparePiece(p, q) == Flip(ComparePiece(q, p))
  {
  }

  /** A slot: row-major position 0..8 in a 3x3 grid; 9 is the free sentinel. */
  datatype GridSlot = GridSlot(index: Byte)
  {
    /** Conversion to (row, column) as (index / 3, index % 3). */
    function Into(): (rc: (Byte, Byte))
      ensures index < 9 ==> rc.0 < 3 && rc.1 < 3
      ensures (rc.0 as int) * 3 + rc.1 as int == index as int
      ensures rc.1 < 3
    {
      (index / 3, index % 3)
    }
  }

  const ANY_SLOT: GridSlot := GridSlot(9)

  const ALL_SLOTS: seq<GridSlot> :=
    [GridSlot(0), GridSlot(1), GridSlot(2),
     GridSlot(3), GridSlot(4), GridSlot(5),
     GridSlot(6), GridSlot(7), GridSlot(8)]

  /** Rows, columns, main diagonal, anti-diagonal. */
  const ALL_LINES: seq<seq<GridSlot>> :=
    [[GridSlot(0), GridSlot(1), GridSlot(2)],
     [GridSlot(3), GridSlot(4), GridSlot(5)],
     [GridSlot(6), GridSlot(7), GridSlot(8)],
     [GridSlot(0), GridSlot(3), GridSlot(6)],
     [GridSlot(1), GridSlot(4), GridSlot(7)],
     [GridSlot(2), GridSlot(5), GridSlot(8)],
     [GridSlot(0), GridSlot(4), GridSlot(8)],
     [GridSlot(2), GridSlot(4), GridSlot(6)]]

  /** Conversion from (row, column) as row * 3 + column in 8-bit arithmetic,
      which wraps modulo 256. */
  function FromPair(r: Byte, c: Byte): (s: GridSlot)
    ensures (r as int) * 3 + c as int < 256 ==> s.index as int == (r as int) * 3 + c as int
  {
    GridSlot((((r as int) * 3 + c as int) % 256) as Byte)
  }

  lemma SlotPairRoundTrip(r: Byte, c: Byte)
    requires r < 3 && c < 3
    ensures FromPair(r, c).Into() == (r, c)
    ensures FromPair(r, c).index < 9
  {
  }

  lemma {:induction false} SlotRoundTrip(s: GridSlot)
    ensures FromPair(s.Into().0, s.Into().1) == s
  {
    var rc := s.Into();
    assert (rc.0 as int) * 3 + rc.1 as int == s.index as int;
  }

  lemma AnySlotInto()
    ensures ANY_SLOT.index == 9
    ensures ANY_SLOT.Into() == (3, 0)
  {
  }

  lemma AllSlotsAscending()
    ensures |ALL_SLOTS| == 9
    ensures forall k :: 0 <= k < 9 ==> ALL_SLOTS[k].index as int == k
  {
  }

  /** The 8 lines: bounded slots and three distinct slots per line. */
  lemma AllLinesBounded()
    ensures |ALL_LINES| == 8
    ensures forall k :: 0 <= k < 8 ==> |ALL_LINES[k]| == 3
    ensures forall k, m :: 0 <= k < 8 && 0 <= m < |ALL_LINES[k]| ==> ALL_LINES[k][m].index < 9
    ensures forall k :: 0 <= k < 8 ==>
      ALL_LINES[k][0] != ALL_LINES[k][1] && ALL_LINES[k][1] != ALL_LINES[k][2] && ALL_LINES[k][0] != ALL_LINES[k][2]
  {
  }

  /** The order of the lines: the three rows, the three columns, the main
      diagonal and the anti-diagonal, each walked in increasing index. */
  lemma AllLinesGeometry()
    ensures forall r: Byte :: r < 3 ==> ALL_LINES[r] == [FromPair(r, 0), FromPair(r, 1), FromPair(r, 2)]
    ensures forall c: Byte :: c < 3 ==> ALL_LINES[3 + c] == [FromPair(0, c), FromPair(1, c), FromPair(2, c)]
    ensures ALL_LINES[6] == [FromPair(0, 0), FromPair(1, 1), FromPair(2, 2)]
    ensures ALL_LINES[7] == [FromPair(0, 2), FromPair(1, 1), FromPair(2, 0)]
  {
    forall r: Byte | r < 3 ensures ALL_LINES[r] == [FromPair(r, 0), FromPair(r, 1), FromPair(r, 2)] {
      assert r == 0 || r == 1 || r == 2;
    }
    forall c: Byte | c < 3 ensures ALL_LINES[3 + c] == [FromPair(0, c), FromPair(1, c), FromPair(2, c)] {
      assert c == 0 || c == 1 || c == 2;
    }
  }

  /** A 3x3 matrix addressed through slots. */
  datatype Grid3x3<T> = Grid3x3(grid: seq<seq<T>>)
  {
    predicate Valid()
    {
      |grid| == 3 && forall i :: 0 <= i < 3 ==> |grid[i]| == 3
    }

    /** Read the cell of slot s at (s / 3, s % 3); slot 9 would address row 3. */
    function Get(s: GridSlot): T
      requires Valid() && s.index < 9
    {
      var (i, j) := s.Into();
      grid[i][j]
    }

    /** Write v into the cell of slot s, the write done through get_mut. */
    function Set(s: GridSlot, v: T): (r: Grid3x3<T>)
      requires Valid() && s.index < 9
      ensures r.Valid()
      ensures r.Get(s) == v
      ensures forall t: GridSlot :: t.index < 9 && t != s ==> r.Get(t) == Get(t)
    {
      var (i, j) := s.Into();
      Grid3x3(grid[i as int := grid[i][j as int := v]])
    }

    /** The grid with f applied to every cell. */
    function Map<U>(f: T -> U): (r: Grid3x3<U>)
      requires Valid()
      ensures r.Valid()
      ensures forall s: GridSlot :: s.index < 9 ==> r.Get(s) == f(Get(s))
    {
      Grid3x3(seq(3, i requires 0 <= i < 3 => seq(3, j requires 0 <= j < 3 => f(grid[i][j]))))
    }

    /** The nine cells in row-major order. */
    function Cells(): (cs: seq<T>)
      requires Valid()
      ensures |cs| == 9
      ensures forall i, j :: 0 <= i < 3 && 0 <= j < 3 ==> cs[3 * i + j] == grid[i][j]
    {
      grid[0] + grid[1] + grid[2]
    }
  }

  /** Two valid grids that agree on every slot are equal. */
  lemma {:induction false} GridExtensional<T>(a: Grid3x3<T>, b: Grid3x3<T>)
    requires a.Valid() && b.Valid()
    requires forall s: GridSlot :: s.index < 9 ==> a.Get(s) == b.Get(s)
    ensures a == b
  {
    forall i, j | 0 <= i < 3 && 0 <= j < 3
      ensures a.grid[i][j] == b.grid[i][j]
    {
      var s := GridSlot((3 * i + j) as Byte);
      assert a.Get(s) == b.Get(s);
    }
    forall i | 0 <= i < 3 ensures a.grid[i] == b.grid[i] {
    }
  }

  type SubBoard = b: Grid3x3<PieceType> | b.Valid()
    witness Grid3x3([[Empty, Empty, Empty], [Empty, Empty, Empty], [Empty, Empty, Empty]])

  /** A grid of sub-boards. */
  type UltraGrid = u: Grid3x3<SubBoard> | u.Valid()
    witness Grid3x3([[EmptyBoard(), EmptyBoard(), EmptyBoard()],
                     [EmptyBoard(), EmptyBoard(), EmptyBoard()],
                     [EmptyBoard(), EmptyBoard(), EmptyBoard()]])

  /** The default sub-board: every cell is the default piece. */
  function EmptyBoard(): (b: SubBoard)
    ensures forall s: GridSlot :: s.index < 9 ==> b.Get(s) == Empty
  {
    var row := [DefaultPiece(), DefaultPiece(), DefaultPiece()];
    Grid3x3([row, row, row])
  }

  /** The default grid of sub-boards. */
  function EmptyUltra(): (u: UltraGrid)
    ensures forall s: GridSlot, t: GridSlot :: s.index < 9 && t.index < 9 ==> u.Get(s).Get(t) == Empty
  {
    var row := [EmptyBoard(), EmptyBoard(), EmptyBoard()];
    Grid3x3([row, row, row])
  }

  /** The hand-written ordering: the nine cells in row-major order compared
      lexicographically with the cell ordering. */
  function Compare<T>(a: Grid3x3<T>, b: Grid3x3<T>, cmp: (T, T) -> Ordering): Ordering
    requires a.Valid() && b.Valid()
  {
    LexCompare(a.Cells(), b.Cells(), cmp)
  }

  /** The first non-Equal comparison of corresponding elements, else Equal. */
  function LexCompare<T>(xs: seq<T>, ys: seq<T>, cmp: (T, T) -> Ordering): Ordering
    requires |xs| == |ys|
  {
    if xs == [] then Equal
    else if cmp(xs[0], ys[0]) != Equal then cmp(xs[0], ys[0])
    else LexCompare(xs[1..], ys[1..], cmp)
  }

  /** LexCompare returns the comparison at the first non-Equal position. */
  lemma {:induction false} LexCompareFirst<T>(xs: seq<T>, ys: seq<T>, cmp: (T, T) -> Ordering, n: nat)
    requires |xs| == |ys| && n <= |xs|
    requires forall k :: 0 <= k < n ==> cmp(xs[k], ys[k]) == Equal
    ensures n < |xs| && cmp(xs[n], ys[n]) != Equal ==> LexCompare(xs, ys, cmp) == cmp(xs[n], ys[n])
    ensures n == |xs| ==> LexCompare(xs, ys, cmp) == Equal
  {
    if n > 0 {
      assert cmp(xs[0], ys[0]) == Equal;
      LexCompareFirst(xs[1..], ys[1..], cmp, n - 1);
    }
  }

  /** Equal exactly when every corresponding pair compares Equal. */
  lemma {:induction false} LexCompareEqualIff<T>(xs: seq<T>, ys: seq<T>, cmp: (T, T) -> Ordering)
    requires |xs| == |ys|
    ensures LexCompare(xs, ys, cmp) == Equal <==> forall k :: 0 <= k < |xs| ==> cmp(xs[k], ys[k]) == Equal
  {
    if xs != [] {
      LexCompareEqualIff(xs[1..], ys[1..], cmp);
      forall k | 1 <= k < |xs| ensures xs[k] == xs[1..][k - 1] && ys[k] == ys[1..][k - 1] {
      }
    }
  }

  /** With an antisymmetric cell ordering, the grid ordering is antisymmetric. */
  lemma {:induction false} LexCompareAntisymmetric<T>(xs: seq<T>, ys: seq<T>, cmp: (T, T) -> Ordering)
    requires |xs| == |ys|
    requires forall k :: 0 <= k < |xs| ==> cmp(xs[k], ys[k]) == Flip(cmp(ys[k], xs[k]))
    ensures LexCompare(xs, ys, cmp) == Flip(LexCompare(ys, xs, cmp))
  {
    if xs != [] {
      assert cmp(xs[0], ys[0]) == Flip(cmp(ys[0], xs[0]));
      LexCompareAntisymmetric(xs[1..], ys[1..], cmp);
    }
  }

  lemma CompareEqualIff<T>(a: Grid3x3<T>, b: Grid3x3<T>, cmp: (T, T) -> Ordering)
    requires a.Valid() && b.Valid()
    ensures Compare(a, b, cmp) == Equal <==>
      forall s: GridSlot :: s.index < 9 ==> cmp(a.Get(s), b.Get(s)) == Equal
  {
    LexCompareEqualIff(a.Cells(), b.Cells(), cmp);
    if Compare(a, b, cmp) == Equal {
      forall s: GridSlot | s.index < 9 ensures cmp(a.Get(s), b.Get(s)) == Equal {
        var (i, j) := s.Into();
        assert a.Cells()[3 * i as int + j as int] == a.Get(s);
      }
    } else {
      var k :| 0 <= k < 9 && cmp(a.Cells()[k], b.Cells()[k]) != Equal;
      var s := GridSlot(k as Byte);
      assert a.Cells()[3 * (k / 3) + k % 3] == a.Get(s);
    }
  }

  /** When the cell ordering is Equal only on equal cells, so is the grid ordering. */
  lemma CompareEqualIffSame<T>(a: Grid3x3<T>, b: Grid3x3<T>, cmp: (T, T) -> Ordering)
    requires a.Valid() && b.Valid()
    requires forall x, y :: cmp(x, y) == Equal <==> x == y
    ensures Compare(a, b, cmp) == Equal <==> a == b
  {
    CompareEqualIff(a, b, cmp);
    if Compare(a, b, cmp) == Equal {
      GridExtensional(a, b);
    }
  }

  /** The ordering of sub-boards, built on the piece ordering. */
  function CompareSub(a: SubBoard, b: SubBoard): (o: Ordering)
    ensures o == Equal <==> a == b
  {
    CompareEqualIffSame(a, b, ComparePiece);
    Compare(a, b, ComparePiece)
  }

  /** The ordering of grids of sub-boards. */
  function CompareUltra(a: UltraGrid, b: UltraGrid): (o: Ordering)
    ensures o == Equal <==> a == b
  {
    CompareEqualIffSame(a, b, CompareSub);
    Compare(a, b, CompareSub)
  }

  lemma CompareSubAntisymmetric(a: SubBoard, b: SubBoard)
    ensures CompareSub(a, b) == Flip(CompareSub(b, a))
  {
    LexCompareAntisymmetric(a.Cells(), b.Cells(), ComparePiece);
  }

  lemma CompareUltraAntisymmetric(a: UltraGrid, b: UltraGrid)
    ensures CompareUltra(a, b) == Flip(CompareUltra(b, a))
  {
    forall k | 0 <= k < 9 ensures CompareSub(a.Cells()[k], b.Cells()[k]) == Flip(CompareSub(b.Cells()[k], a.Cells()[k])) {
      CompareSubAntisymmetric(a.Cells()[k], b.Cells()[k]);
    }
    LexCompareAntisymmetric(a.Cells(), b.Cells(), CompareSub);
  }

  /** The comparison loop: cells in row-major order, first non-Equal result
      returned at once. */
  method Cmp<T>(a: Grid3x3<T>, b: Grid3x3<T>, cmp: (T, T) -> Ordering) returns (o: Ordering)
    requires a.Valid() && b.Valid()
    ensures o == Compare(a, b, cmp)
  {
    ghost var xs, ys := a.Cells(), b.Cells();
    for i := 0 to 3
      invariant forall k :: 0 <= k < 3 * i ==> cmp(xs[k], ys[k]) == Equal
    {
      for j := 0 to 3
        invariant forall k :: 0 <= k < 3 * i + j ==> cmp(xs[k], ys[k]) == Equal
      {
        var val := cmp(a.grid[i][j], b.grid[i][j]);
        assert xs[3 * i + j] == a.grid[i][j] && ys[3 * i + j] == b.grid[i][j];
        if val != Equal {
          LexCompareFirst(xs, ys, cmp, 3 * i + j);
          return val;
        }
      }
    }
    LexCompareFirst(xs, ys, cmp, 9);
    return Equal;
  }
}
