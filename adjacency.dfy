/**
 * The packed lower-triangular adjacency table. The graph is undirected, so
 * only the pairs `row > col` are stored; `TableIndex` sends an unordered
 * pair of distinct cities to its slot, row by row: row 1 holds one slot,
 * row 2 two slots, and so on.
 */
module Adjacency {
  import opened CInt

  /** ConvertRowAndColToAdjacencyTableIndex: -1 for `row == col`; otherwise the
      pair is ordered so that `row > col` and the odd/even branches pick the slot. */
  function TableIndex(row: int, col: int): (index: int)
  {
    if row == col then -1
    else
      var r := if col > row then col else row;
      var c := if col > row then row else col;
      if CRem(r, 2) == 1 then r * CDiv(r, 2) + c
      else
        var t := r - 1;
        t * CDiv(t, 2) + t + c
  }

  /** Number of slots that rows `0 .. r-1` occupy, i.e. the first slot of row `r`. */
  function Triangle(r: nat): nat
  {
    if r == 0 then 0 else Triangle(r - 1) + (r - 1)
  }

  /** The closed form of `Triangle`. */
  lemma {:induction false} TriangleFormula(r: nat)
    ensures 2 * Triangle(r) == r * (r - 1)
  {
    if r > 0 {
      TriangleFormula(r - 1);
    }
  }

  /** The slot of the unordered pair `{u, v}` written without division: the first slot of the
      larger city's row plus the smaller city. */
  function Slot(u: nat, v: nat): nat
  {
    if u < v then Triangle(v) + u else Triangle(u) + v
  }

  /** The table size the source allocates: the slot count of a table of `numCities` rows. */
  function TableSize(numCities: int): int
  {
    TableIndex(numCities, 0)
  }

  lemma {:induction false} OddRow(r: int, q: int)
    requires r == 2 * q + 1 && q >= 0
    ensures r * CDiv(r, 2) == Triangle(r)
  {
    NonNegativeDivision(r, 2);
    assert CDiv(r, 2) == q;
    TriangleFormula(r);
    assert 2 * (r * q) == r * (r - 1);
  }

  lemma {:induction false} EvenRow(r: int, q: int)
    requires r == 2 * q && q >= 1
    ensures (r - 1) * CDiv(r - 1, 2) + (r - 1) == Triangle(r)
  {
    NonNegativeDivision(r - 1, 2);
    assert CDiv(r - 1, 2) == q - 1;
    TriangleFormula(r);
    assert (r - 1) * (q - 1) + (r - 1) == (r - 1) * q;
    assert 2 * ((r - 1) * q) == r * (r - 1);
  }

  /** Both branches compute `row*(row-1)/2 + col` once the pair is ordered, in either argument order. */
  lemma ClosedForm(row: int, col: int)
    requires 0 <= col < row
    ensures TableIndex(row, col) == Triangle(row) + col
    ensures TableIndex(col, row) == Triangle(row) + col
    ensures Triangle(row) == row * (row - 1) / 2
  {
    NonNegativeDivision(row, 2);
    TriangleFormula(row);
    if row % 2 == 1 {
      OddRow(row, row / 2);
    } else {
      EvenRow(row, row / 2);
    }
  }

  /** For distinct non-negative cities the C map computes the division-free `Slot`. */
  lemma SlotIsTableIndex(u: nat, v: nat)
    requires u != v
    ensures TableIndex(u, v) == Slot(u, v)
  {
    if v < u {
      ClosedForm(u, v);
    } else {
      ClosedForm(v, u);
    }
  }

  /** The allocated size is `n*(n-1)/2`, the number of unordered pairs of distinct cities below `n`. */
  lemma TableSizeFormula(numCities: int)
    requires numCities > 0
    ensures TableSize(numCities) == Triangle(numCities)
    ensures TableSize(numCities) == numCities * (numCities - 1) / 2
  {
    ClosedForm(numCities, 0);
  }

  /** On non-negative cities the sentinel -1 is returned exactly for `row == col`. */
  lemma SentinelExactlyOnDiagonal(row: int, col: int)
    requires row >= 0 && col >= 0
    ensures TableIndex(row, col) == -1 <==> row == col
    ensures row != col ==> TableIndex(row, col) >= 0
  {
    if col < row {
      ClosedForm(row, col);
    } else if row < col {
      ClosedForm(col, row);
    }
  }

  /** The map ignores the order of its arguments. */
  lemma Symmetric(row: int, col: int)
    ensures TableIndex(row, col) == TableIndex(col, row)
  {
  }

  /** Rows below `b` end no later than row `b` starts: row `a` fills `[Triangle(a), Triangle(a) + a)`. */
  lemma {:induction false} TriangleMonotone(a: nat, b: nat)
    requires a < b
    ensures Triangle(a) + a <= Triangle(b)
  {
    if a < b - 1 {
      TriangleMonotone(a, b - 1);
    }
  }

  /** Every pair of distinct cities below `n` lands inside the allocated table. */
  lemma InRange(numCities: int, row: int, col: int)
    requires 0 <= row < numCities && 0 <= col < numCities && row != col
    ensures 0 <= TableIndex(row, col) < TableSize(numCities)
  {
    TableSizeFormula(numCities);
    var r := if col > row then col else row;
    var c := if col > row then row else col;
    ClosedForm(r, c);
    TriangleMonotone(r, numCities);
  }

  /** Slots computed from ordered pairs coincide only for the same pair. */
  lemma SlotsDiffer(a1: int, b1: int, a2: int, b2: int)
    requires 0 <= b1 < a1 && 0 <= b2 < a2
    requires Triangle(a1) + b1 == Triangle(a2) + b2
    ensures a1 == a2 && b1 == b2
  {
    if a1 < a2 {
      TriangleMonotone(a1, a2);
    } else if a2 < a1 {
      TriangleMonotone(a2, a1);
    }
  }

  /** Distinct unordered pairs get distinct slots. */
  lemma Injective(r1: int, c1: int, r2: int, c2: int)
    requires 0 <= r1 && 0 <= c1 && 0 <= r2 && 0 <= c2 && r1 != c1 && r2 != c2
    requires TableIndex(r1, c1) == TableIndex(r2, c2)
    ensures (r1 == r2 && c1 == c2) || (r1 == c2 && c1 == r2)
  {
    var a1, b1 := if c1 > r1 then c1 else r1, if c1 > r1 then r1 else c1;
    var a2, b2 := if c2 > r2 then c2 else r2, if c2 > r2 then r2 else c2;
    ClosedForm(a1, b1);
    ClosedForm(a2, b2);
    assert TableIndex(r1, c1) == Triangle(a1) + b1;
    assert TableIndex(r2, c2) == Triangle(a2) + b2;
    SlotsDiffer(a1, b1, a2, b2);
  }

  /** The largest value a 32-bit C `int` holds. */
  const IntMax: int := 0x7fff_ffff

  /** The table of 65536 cities still fits a 32-bit `int`; that of 65537 cities does not. */
  lemma Int32Limit()
    ensures TableSize(65536) <= IntMax < TableSize(65537)
  {
    TableSizeFormula(65536);
    TableSizeFormula(65537);
  }

  /** Every slot of the table belongs to some pair, so the map is a bijection onto `[0, TableSize(n))`. */
  lemma {:induction false} Onto(numCities: int, index: int)
    requires numCities > 0 && 0 <= index < TableSize(numCities)
    ensures exists row, col :: 0 <= col < row < numCities && TableIndex(row, col) == index
  {
    TableSizeFormula(numCities);
    var r := numCities - 1;
    if index >= Triangle(r) {
      assert Triangle(numCities) == Triangle(r) + r;
      ClosedForm(r, index - Triangle(r));
    } else {
      TableSizeFormula(r);
      Onto(r, index);
      var row, col :| 0 <= col < row < r && TableIndex(row, col) == index;
    }
  }
}
