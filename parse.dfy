/**
 * ParseDataFile without the file: the values that successive calls of
 * CalculateNextValue return are given as `tokens` (a digit run as its
 * number, an `x` as `BlockedPath`), and a read past the last one yields
 * `EndOfFile`, as CalculateNextValue does at the end of the stream. The
 * first value is the city count; then the lower triangle is read row by
 * row into the packed table.
 */
module Parsing {
  import opened Adjacency
  import opened Graphs

  /** The other two values of the enum beside `BlockedPath`. */
  const EndOfFile: int := -2
  const FileError: int := -3

  /** The value the `position`-th call of CalculateNextValue returns. */
  function NextValue(tokens: seq<int>, position: int): int
  {
    if 0 <= position < |tokens| then tokens[position] else EndOfFile
  }

  /** The `k`-th value after the city count: what the fill loop reads for slot `k`. */
  function TableValue(tokens: seq<int>, k: int): int
  {
    NextValue(tokens, k + 1)
  }

  /** A value that the parser accepts as a table entry. */
  predicate IsEntry(v: int)
  {
    v != EndOfFile && v != FileError
  }

  /** ParseDataFile once the file is open. The fill loop writes slot `k` with the `k`-th value after
      the city count, so slots are filled in order `0, 1, 2, ...` and each exactly once; the parse
      succeeds exactly when the city count is positive and none of those values is an end-of-file
      or file-error marker, and then the result is a well-formed `Data`. */
  method ParseDataFile(tokens: seq<int>) returns (numCities: int, table: array<int>, isSuccess: bool)
    ensures numCities == NextValue(tokens, 0)
    ensures numCities > 0 ==> table.Length == TableSize(numCities)
    ensures forall k :: 0 <= k < table.Length ==> table[k] == TableValue(tokens, k)
    ensures isSuccess <==>
              numCities > 0 && forall k :: 0 <= k < TableSize(numCities) ==> IsEntry(TableValue(tokens, k))
    ensures isSuccess ==> WellFormed(Data(numCities, table[..]))
  {
    isSuccess := false;
    numCities := NextValue(tokens, 0);
    if numCities <= 0 {
      table := new int[0];
      return;
    }
    TableSizeFormula(numCities);
    table := new int[TableSize(numCities)];
    isSuccess := true;
    var position := 1;
    var row := 0;
    while row < numCities
      invariant 0 <= row <= numCities
      invariant Triangle(row) <= table.Length
      invariant position == 1 + Triangle(row)
      invariant forall k :: 0 <= k < Triangle(row) ==> table[k] == TableValue(tokens, k)
      invariant isSuccess <==> forall k :: 0 <= k < Triangle(row) ==> IsEntry(TableValue(tokens, k))
    {
      TriangleMonotone(row, numCities);
      var col := 0;
      while col < numCities
        invariant 0 <= col <= row && Triangle(row) + row <= table.Length
        invariant position == 1 + Triangle(row) + col
        invariant forall k :: 0 <= k < Triangle(row) + col ==> table[k] == TableValue(tokens, k)
        invariant isSuccess <==>
                    forall k :: 0 <= k < Triangle(row) + col ==> IsEntry(TableValue(tokens, k))
      {
        if row <= col {
          break;
        }
        ClosedForm(row, col);
        InRange(numCities, row, col);
        var adjacencyTableIndex := TableIndex(row, col);
        table[adjacencyTableIndex] := NextValue(tokens, position);
        position := position + 1;
        if table[adjacencyTableIndex] == EndOfFile || table[adjacencyTableIndex] == FileError {
          isSuccess := false;
        }
        col := col + 1;
      }
      assert Triangle(row + 1) == Triangle(row) + col;
      row := row + 1;
    }
  }
}
