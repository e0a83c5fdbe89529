/**
 * The decimal Sudoku encoding: one propositional variable per
 * (row, column, value) triple, numbered 1..729, and the clause families
 * "every cell has at least one value", "at most one value", "every house has
 * every value" and "no value twice in a house", plus one unit clause per clue.
 */
module DecimalEncoding {
  import opened Base

  /** The variable "the cell at (row, col) holds val"; 1..729 for in-range triples. */
  function CnfIdentifier(row: int, col: int, val: int): (id: int)
    ensures InRange(row) && InRange(col) && InRange(val) ==> 1 <= id <= 729
  {
    (row - 1) * 9 * 9 + (col - 1) * 9 + val
  }

  /**
   * Decodes a literal into (row, col, val); the value carries the literal's
   * sign. Rust's truncating `/` and `%` are spelled out, so the literal 0 (not
   * a variable) decodes as (1, 1, 0). Multiplying by the sign, 1 or -1, is
   * written as a negation of the value for non-positive literals.
   */
  function IdentifierToTuple(identifier: int): (t: (int, int, int))
    ensures identifier != 0 ==> t.0 >= 1 && InRange(t.1) && InRange(Abs(t.2)) && (t.2 > 0 <==> identifier > 0)
    ensures identifier == 0 ==> t == (1, 1, 0)
  {
    var id := Abs(identifier) - 1;
    var val := RustRem(id, 9) + 1;
    RustNonneg(id, 81);
    RustNonneg(id, 9);
    RustField(id, 9, 9);
    (RustDiv(id, 81) + 1, RustDiv(RustRem(id, 81), 9) + 1, if identifier > 0 then val else -val)
  }

  /** Decoding the variable of an in-range triple gives the triple back, negated value for the negated literal. */
  lemma RoundTrip(row: int, col: int, val: int)
    requires InRange(row) && InRange(col) && InRange(val)
    ensures IdentifierToTuple(CnfIdentifier(row, col, val)) == (row, col, val)
    ensures IdentifierToTuple(-CnfIdentifier(row, col, val)) == (row, col, -val)
  {
    DecodeVariable(row, col, val);
    DecodeNegated(CnfIdentifier(row, col, val));
  }

  lemma DecodeVariable(row: int, col: int, val: int)
    requires InRange(row) && InRange(col) && InRange(val)
    ensures IdentifierToTuple(CnfIdentifier(row, col, val)) == (row, col, val)
  {
    var id := CnfIdentifier(row, col, val);
    assert id == (row - 1) * 81 + (col - 1) * 9 + (val - 1) + 1;
    Decode(id, row - 1, col - 1, val - 1);
  }

  /** The negated literal decodes to the same cell with the value's sign flipped. */
  lemma DecodeNegated(identifier: int)
    requires identifier > 0
    ensures var t := IdentifierToTuple(identifier);
      IdentifierToTuple(-identifier) == (t.0, t.1, -t.2)
  {
    assert Abs(-identifier) == Abs(identifier);
  }

  /** A literal whose variable has the offset fields r, c, v decodes to (r + 1, c + 1, ±(v + 1)). */
  lemma Decode(identifier: int, r: int, c: int, v: int)
    requires 0 <= r < 9 && 0 <= c < 9 && 0 <= v < 9
    requires Abs(identifier) == r * 81 + c * 9 + v + 1
    ensures IdentifierToTuple(identifier) == (r + 1, c + 1, if identifier > 0 then v + 1 else -(v + 1))
  {
    var x := Abs(identifier) - 1;
    DivModUnique(x, 81, r, c * 9 + v);
    DivModUnique(c * 9 + v, 9, c, v);
    DivModUnique(x, 9, r * 9 + c, v);
  }

  /** Every literal of a variable in 1..729 decodes to an in-range triple that encodes it back. */
  lemma DecodeInRange(identifier: int)
    requires 1 <= Abs(identifier) <= 729
    ensures var (row, col, val) := IdentifierToTuple(identifier);
      InRange(row) && InRange(col) && InRange(Abs(val))
      && CnfIdentifier(row, col, Abs(val)) == Abs(identifier)
      && (val > 0 <==> identifier > 0)
  {
    var id := Abs(identifier) - 1;
    var r, m := id / 81, id % 81;
    var c, v := m / 9, m % 9;
    assert id == r * 81 + m && m == c * 9 + v;
    assert 0 <= r < 9 && 0 <= c < 9;
    Decode(identifier, r, c, v);
  }

  /** Distinct in-range triples get distinct variables. */
  lemma IdentifierInjective(r1: int, c1: int, v1: int, r2: int, c2: int, v2: int)
    requires InRange(r1) && InRange(c1) && InRange(v1)
    requires InRange(r2) && InRange(c2) && InRange(v2)
    requires CnfIdentifier(r1, c1, v1) == CnfIdentifier(r2, c2, v2)
    ensures r1 == r2 && c1 == c2 && v1 == v2
  {
    RoundTrip(r1, c1, v1);
    RoundTrip(r2, c2, v2);
  }

  // ---------------------------------------------------------------------
  // Clause families. Each function describes what one level of the
  // encoder's nested loops has pushed once its loop variable reached `n`.

  /** The at-least-one clause of a cell, built up to value n - 1. */
  function AloCell(row: int, col: int, n: int): Clause
  {
    ConcatMap(1, n, val => [CnfIdentifier(row, col, val)])
  }

  function AloRowUpto(row: int, n: int): seq<Clause>
  {
    ConcatMap(1, n, col => [AloCell(row, col, 10)])
  }

  function AloUpto(n: int): seq<Clause>
  {
    ConcatMap(1, n, row => AloRowUpto(row, 10))
  }

  function AmoValueUpto(row: int, col: int, val1: int, n: int): seq<Clause>
  {
    ConcatMap(val1 + 1, n, val2 => [[-CnfIdentifier(row, col, val1), -CnfIdentifier(row, col, val2)]])
  }

  function AmoCellUpto(row: int, col: int, n: int): seq<Clause>
  {
    ConcatMap(1, n, val1 => AmoValueUpto(row, col, val1, 10))
  }

  function AmoRowUpto(row: int, n: int): seq<Clause>
  {
    ConcatMap(1, n, col => AmoCellUpto(row, col, 9))
  }

  function AmoUpto(n: int): seq<Clause>
  {
    ConcatMap(1, n, row => AmoRowUpto(row, 10))
  }

  /** "Row `row` holds `val` somewhere", built up to column n - 1. */
  function RowHasValue(row: int, val: int, n: int): Clause
  {
    ConcatMap(1, n, col => [CnfIdentifier(row, col, val)])
  }

  function RowsHaveValueUpto(val: int, n: int): seq<Clause>
  {
    ConcatMap(1, n, row => [RowHasValue(row, val, 10)])
  }

  function RowsAllUpto(n: int): seq<Clause>
  {
    ConcatMap(1, n, val => RowsHaveValueUpto(val, 10))
  }

  /** "Column `col` holds `val` somewhere", built up to row n - 1. */
  function ColHasValue(col: int, val: int, n: int): Clause
  {
    ConcatMap(1, n, row => [CnfIdentifier(row, col, val)])
  }

  function ColsHaveValueUpto(val: int, n: int): seq<Clause>
  {
    ConcatMap(1, n, col => [ColHasValue(col, val, 10)])
  }

  function ColsAllUpto(n: int): seq<Clause>
  {
    ConcatMap(1, n, val => ColsHaveValueUpto(val, 10))
  }

  /** Row `row` (1..3) of sub-grid (sr, sc) inside the "sub-grid holds val" clause, up to column n - 1. */
  function BoxRowHasValue(sr: int, sc: int, val: int, row: int, n: int): Clause
  {
    ConcatMap(1, n, col => [CnfIdentifier(row + 3 * sr, col + 3 * sc, val)])
  }

  function BoxHasValue(sr: int, sc: int, val: int, n: int): Clause
  {
    ConcatMap(1, n, row => BoxRowHasValue(sr, sc, val, row, 4))
  }

  function BoxValuesUpto(sr: int, sc: int, n: int): seq<Clause>
  {
    ConcatMap(1, n, val => [BoxHasValue(sr, sc, val, 4)])
  }

  function BoxesAllRowUpto(sr: int, n: int): seq<Clause>
  {
    ConcatMap(0, n, sc => BoxValuesUpto(sr, sc, 10))
  }

  function BoxesAllUpto(n: int): seq<Clause>
  {
    ConcatMap(0, n, sr => BoxesAllRowUpto(sr, 3))
  }

  function AllValues(): seq<Clause>
  {
    RowsAllUpto(10) + ColsAllUpto(10) + BoxesAllUpto(3)
  }

  /** Two cells may not both hold val, for val up to n - 1. */
  function PairValuesUpto(row1: int, col1: int, row2: int, col2: int, n: int): seq<Clause>
  {
    ConcatMap(1, n, val => [[-CnfIdentifier(row1, col1, val), -CnfIdentifier(row2, col2, val)]])
  }

  function RowPairsUpto(row: int, col1: int, n: int): seq<Clause>
  {
    ConcatMap(col1 + 1, n, col2 => PairValuesUpto(row, col1, row, col2, 10))
  }

  function RowUniqueUpto(row: int, n: int): seq<Clause>
  {
    ConcatMap(1, n, col1 => RowPairsUpto(row, col1, 10))
  }

  function RowsUniqueUpto(n: int): seq<Clause>
  {
    ConcatMap(1, n, row => RowUniqueUpto(row, 9))
  }

  function ColPairsUpto(col: int, row1: int, n: int): seq<Clause>
  {
    ConcatMap(row1 + 1, n, row2 => PairValuesUpto(row1, col, row2, col, 10))
  }

  function ColUniqueUpto(col: int, n: int): seq<Clause>
  {
    ConcatMap(1, n, row1 => ColPairsUpto(col, row1, 10))
  }

  function ColsUniqueUpto(n: int): seq<Clause>
  {
    ConcatMap(1, n, col => ColUniqueUpto(col, 9))
  }

  function BoxPairsUpto(sr: int, sc: int, index1: int, n: int): seq<Clause>
  {
    ConcatMap(index1 + 1, n, index2 =>
      PairValuesUpto(BoxRow(sr, index1), BoxCol(sc, index1), BoxRow(sr, index2), BoxCol(sc, index2), 10))
  }

  function BoxUniqueUpto(sr: int, sc: int, n: int): seq<Clause>
  {
    ConcatMap(0, n, index1 => BoxPairsUpto(sr, sc, index1, 9))
  }

  function BoxesUniqueRowUpto(sr: int, n: int): seq<Clause>
  {
    ConcatMap(0, n, sc => BoxUniqueUpto(sr, sc, 9))
  }

  function BoxesUniqueUpto(n: int): seq<Clause>
  {
    ConcatMap(0, n, sr => BoxesUniqueRowUpto(sr, 3))
  }

  function UniqueValues(): seq<Clause>
  {
    RowsUniqueUpto(10) + ColsUniqueUpto(10) + BoxesUniqueUpto(3)
  }

  /** The unit clause of one grid entry: one clause for a clue, none for an empty cell. */
  function ClueUnit(entry: Option<int>, row: int, col: int): seq<Clause>
  {
    match entry
    case Some(val) => [[CnfIdentifier(row + 1, col + 1, val)]]
    case None => []
  }

  function LineCluesUpto(line: seq<Option<int>>, row: int, n: int): seq<Clause>
  {
    ConcatMap(0, n, col => if 0 <= col < |line| then ClueUnit(line[col], row, col) else [])
  }

  function CluesUpto(clues: Grid, n: int): seq<Clause>
  {
    ConcatMap(0, n, row => if 0 <= row < |clues| then LineCluesUpto(clues[row], row, |clues[row]|) else [])
  }

  function ClueClauses(clues: Grid): seq<Clause>
  {
    CluesUpto(clues, |clues|)
  }

  /** A rule family that a flag switches on or off. */
  function Family(enabled: bool, clauses: seq<Clause>): seq<Clause>
  {
    if enabled then clauses else []
  }

  /** The clauses `sudoku_to_cnf` returns, family by family in the order it pushes them. */
  function SudokuClauses(clues: Grid, atLeastOne: bool, atMostOne: bool, hasAllValues: bool, hasUniqueValues: bool): seq<Clause>
  {
    Family(atLeastOne, AloUpto(10))
    + Family(atMostOne, AmoUpto(10))
    + Family(hasAllValues, AllValues())
    + Family(hasUniqueValues, UniqueValues())
    + ClueClauses(clues)
  }

  // ---------------------------------------------------------------------
  // The encoder. Each helper method is one level of the nested loops of
  // `sudoku_to_cnf`; it appends to the clauses pushed so far (`c0`).

  method SudokuToCnf(clues: Grid, atLeastOne: bool, atMostOne: bool, hasAllValues: bool, hasUniqueValues: bool)
    returns (clauses: seq<Clause>)
    ensures clauses == SudokuClauses(clues, atLeastOne, atMostOne, hasAllValues, hasUniqueValues)
  {
    clauses := [];
    if atLeastOne {
      clauses := PushAtLeastOne(clauses);
      AppendEmpty(AloUpto(10));
    }
    ghost var c1 := clauses;
    if atMostOne {
      clauses := PushAtMostOne(clauses);
    } else {
      AppendEmpty(c1);
    }
    ghost var c2 := clauses;
    if hasAllValues {
      clauses := PushRowsAll(clauses);
      clauses := PushColsAll(clauses);
      clauses := PushBoxesAll(clauses);
      AppendAssoc(c2, RowsAllUpto(10), ColsAllUpto(10));
      AppendAssoc(c2, RowsAllUpto(10) + ColsAllUpto(10), BoxesAllUpto(3));
    } else {
      AppendEmpty(c2);
    }
    ghost var c3 := clauses;
    if hasUniqueValues {
      clauses := PushRowsUnique(clauses);
      clauses := PushColsUnique(clauses);
      clauses := PushBoxesUnique(clauses);
      AppendAssoc(c3, RowsUniqueUpto(10), ColsUniqueUpto(10));
      AppendAssoc(c3, RowsUniqueUpto(10) + ColsUniqueUpto(10), BoxesUniqueUpto(3));
    } else {
      AppendEmpty(c3);
    }
    clauses := PushClues(clauses, clues);
  }

  method CellCandidates(row: int, col: int) returns (cellCnf: Clause)
    ensures cellCnf == AloCell(row, col, 10)
  {
    cellCnf := [];
    for val := 1 to 10
      invariant cellCnf == AloCell(row, col, val)
    {
      cellCnf := cellCnf + [CnfIdentifier(row, col, val)];
    }
  }

  method PushAtLeastOneRow(c0: seq<Clause>, row: int) returns (clauses: seq<Clause>)
    ensures clauses == c0 + AloRowUpto(row, 10)
  {
    clauses := c0;
    for col := 1 to 10
      invariant clauses == c0 + AloRowUpto(row, col)
    {
      var cellCnf := CellCandidates(row, col);
      AppendAssoc(c0, AloRowUpto(row, col), [cellCnf]);
      clauses := clauses + [cellCnf];
    }
  }

  method PushAtLeastOne(c0: seq<Clause>) returns (clauses: seq<Clause>)
    ensures clauses == c0 + AloUpto(10)
  {
    clauses := c0;
    for row := 1 to 10
      invariant clauses == c0 + AloUpto(row)
    {
      AppendAssoc(c0, AloUpto(row), AloRowUpto(row, 10));
      clauses := PushAtLeastOneRow(clauses, row);
    }
  }

  method PushAtMostOneCell(c0: seq<Clause>, row: int, col: int) returns (clauses: seq<Clause>)
    ensures clauses == c0 + AmoCellUpto(row, col, 9)
  {
    clauses := c0;
    for val1 := 1 to 9
      invariant clauses == c0 + AmoCellUpto(row, col, val1)
    {
      ghost var c1 := clauses;
      for val2 := val1 + 1 to 10
        invariant clauses == c1 + AmoValueUpto(row, col, val1, val2)
      {
        var cellCnf := [-CnfIdentifier(row, col, val1), -CnfIdentifier(row, col, val2)];
        AppendAssoc(c1, AmoValueUpto(row, col, val1, val2), [cellCnf]);
        clauses := clauses + [cellCnf];
      }
      AppendAssoc(c0, AmoCellUpto(row, col, val1), AmoValueUpto(row, col, val1, 10));
    }
  }

  method PushAtMostOneRow(c0: seq<Clause>, row: int) returns (clauses: seq<Clause>)
    ensures clauses == c0 + AmoRowUpto(row, 10)
  {
    clauses := c0;
    for col := 1 to 10
      invariant clauses == c0 + AmoRowUpto(row, col)
    {
      AppendAssoc(c0, AmoRowUpto(row, col), AmoCellUpto(row, col, 9));
      clauses := PushAtMostOneCell(clauses, row, col);
    }
  }

  method PushAtMostOne(c0: seq<Clause>) returns (clauses: seq<Clause>)
    ensures clauses == c0 + AmoUpto(10)
  {
    clauses := c0;
    for row := 1 to 10
      invariant clauses == c0 + AmoUpto(row)
    {
      AppendAssoc(c0, AmoUpto(row), AmoRowUpto(row, 10));
      clauses := PushAtMostOneRow(clauses, row);
    }
  }

  method PushRowsHaveValue(c0: seq<Clause>, val: int) returns (clauses: seq<Clause>)
    ensures clauses == c0 + RowsHaveValueUpto(val, 10)
  {
    clauses := c0;
    for row := 1 to 10
      invariant clauses == c0 + RowsHaveValueUpto(val, row)
    {
      var rowCnf: Clause := [];
      for col := 1 to 10
        invariant rowCnf == RowHasValue(row, val, col)
      {
        rowCnf := rowCnf + [CnfIdentifier(row, col, val)];
      }
      AppendAssoc(c0, RowsHaveValueUpto(val, row), [rowCnf]);
      clauses := clauses + [rowCnf];
    }
  }

  method PushRowsAll(c0: seq<Clause>) returns (clauses: seq<Clause>)
    ensures clauses == c0 + RowsAllUpto(10)
  {
    clauses := c0;
    for val := 1 to 10
      invariant clauses == c0 + RowsAllUpto(val)
    {
      AppendAssoc(c0, RowsAllUpto(val), RowsHaveValueUpto(val, 10));
      clauses := PushRowsHaveValue(clauses, val);
    }
  }

  method PushColsHaveValue(c0: seq<Clause>, val: int) returns (clauses: seq<Clause>)
    ensures clauses == c0 + ColsHaveValueUpto(val, 10)
  {
    clauses := c0;
    for col := 1 to 10
      invariant clauses == c0 + ColsHaveValueUpto(val, col)
    {
      var colCnf: Clause := [];
      for row := 1 to 10
        invariant colCnf == ColHasValue(col, val, row)
      {
        colCnf := colCnf + [CnfIdentifier(row, col, val)];
      }
      AppendAssoc(c0, ColsHaveValueUpto(val, col), [colCnf]);
      clauses := clauses + [colCnf];
    }
  }

  method PushColsAll(c0: seq<Clause>) returns (clauses: seq<Clause>)
    ensures clauses == c0 + ColsAllUpto(10)
  {
    clauses := c0;
    for val := 1 to 10
      invariant clauses == c0 + ColsAllUpto(val)
    {
      AppendAssoc(c0, ColsAllUpto(val), ColsHaveValueUpto(val, 10));
      clauses := PushColsHaveValue(clauses, val);
    }
  }

  method PushSubgridRow(c0: Clause, sr: int, sc: int, val: int, row: int) returns (subgridCnf: Clause)
    ensures subgridCnf == c0 + BoxRowHasValue(sr, sc, val, row, 4)
  {
    subgridCnf := c0;
    for col := 1 to 4
      invariant subgridCnf == c0 + BoxRowHasValue(sr, sc, val, row, col)
    {
      AppendAssoc(c0, BoxRowHasValue(sr, sc, val, row, col), [CnfIdentifier(row + 3 * sr, col + 3 * sc, val)]);
      subgridCnf := subgridCnf + [CnfIdentifier(row + 3 * sr, col + 3 * sc, val)];
    }
  }

  method SubgridCandidates(sr: int, sc: int, val: int) returns (subgridCnf: Clause)
    ensures subgridCnf == BoxHasValue(sr, sc, val, 4)
  {
    subgridCnf := [];
    for row := 1 to 4
      invariant subgridCnf == BoxHasValue(sr, sc, val, row)
    {
      AppendAssoc([], BoxHasValue(sr, sc, val, row), BoxRowHasValue(sr, sc, val, row, 4));
      subgridCnf := PushSubgridRow(subgridCnf, sr, sc, val, row);
    }
  }

  method PushBoxValues(c0: seq<Clause>, sr: int, sc: int) returns (clauses: seq<Clause>)
    ensures clauses == c0 + BoxValuesUpto(sr, sc, 10)
  {
    clauses := c0;
    for val := 1 to 10
      invariant clauses == c0 + BoxValuesUpto(sr, sc, val)
    {
      var subgridCnf := SubgridCandidates(sr, sc, val);
      AppendAssoc(c0, BoxValuesUpto(sr, sc, val), [subgridCnf]);
      clauses := clauses + [subgridCnf];
    }
  }

  method PushBoxesAllRow(c0: seq<Clause>, sr: int) returns (clauses: seq<Clause>)
    ensures clauses == c0 + BoxesAllRowUpto(sr, 3)
  {
    clauses := c0;
    for sc := 0 to 3
      invariant clauses == c0 + BoxesAllRowUpto(sr, sc)
    {
      AppendAssoc(c0, BoxesAllRowUpto(sr, sc), BoxValuesUpto(sr, sc, 10));
      clauses := PushBoxValues(clauses, sr, sc);
    }
  }

  method PushBoxesAll(c0: seq<Clause>) returns (clauses: seq<Clause>)
    ensures clauses == c0 + BoxesAllUpto(3)
  {
    clauses := c0;
    for sr := 0 to 3
      invariant clauses == c0 + BoxesAllUpto(sr)
    {
      AppendAssoc(c0, BoxesAllUpto(sr), BoxesAllRowUpto(sr, 3));
      clauses := PushBoxesAllRow(clauses, sr);
    }
  }

  method PushPairValues(c0: seq<Clause>, row1: int, col1: int, row2: int, col2: int) returns (clauses: seq<Clause>)
    ensures clauses == c0 + PairValuesUpto(row1, col1, row2, col2, 10)
  {
    clauses := c0;
    for val := 1 to 10
      invariant clauses == c0 + PairValuesUpto(row1, col1, row2, col2, val)
    {
      var pair := [-CnfIdentifier(row1, col1, val), -CnfIdentifier(row2, col2, val)];
      AppendAssoc(c0, PairValuesUpto(row1, col1, row2, col2, val), [pair]);
      clauses := clauses + [pair];
    }
  }

  method PushRowPairs(c0: seq<Clause>, row: int, col1: int) returns (clauses: seq<Clause>)
    requires col1 < 10
    ensures clauses == c0 + RowPairsUpto(row, col1, 10)
  {
    clauses := c0;
    for col2 := col1 + 1 to 10
      invariant clauses == c0 + RowPairsUpto(row, col1, col2)
    {
      AppendAssoc(c0, RowPairsUpto(row, col1, col2), PairValuesUpto(row, col1, row, col2, 10));
      clauses := PushPairValues(clauses, row, col1, row, col2);
    }
  }

  method PushRowUnique(c0: seq<Clause>, row: int) returns (clauses: seq<Clause>)
    ensures clauses == c0 + RowUniqueUpto(row, 9)
  {
    clauses := c0;
    for col1 := 1 to 9
      invariant clauses == c0 + RowUniqueUpto(row, col1)
    {
      AppendAssoc(c0, RowUniqueUpto(row, col1), RowPairsUpto(row, col1, 10));
      clauses := PushRowPairs(clauses, row, col1);
    }
  }

  method PushRowsUnique(c0: seq<Clause>) returns (clauses: seq<Clause>)
    ensures clauses == c0 + RowsUniqueUpto(10)
  {
    clauses := c0;
    for row := 1 to 10
      invariant clauses == c0 + RowsUniqueUpto(row)
    {
      AppendAssoc(c0, RowsUniqueUpto(row), RowUniqueUpto(row, 9));
      clauses := PushRowUnique(clauses, row);
    }
  }

  method PushColPairs(c0: seq<Clause>, col: int, row1: int) returns (clauses: seq<Clause>)
    requires row1 < 10
    ensures clauses == c0 + ColPairsUpto(col, row1, 10)
  {
    clauses := c0;
    for row2 := row1 + 1 to 10
      invariant clauses == c0 + ColPairsUpto(col, row1, row2)
    {
      AppendAssoc(c0, ColPairsUpto(col, row1, row2), PairValuesUpto(row1, col, row2, col, 10));
      clauses := PushPairValues(clauses, row1, col, row2, col);
    }
  }

  method PushColUnique(c0: seq<Clause>, col: int) returns (clauses: seq<Clause>)
    ensures clauses == c0 + ColUniqueUpto(col, 9)
  {
    clauses := c0;
    for row1 := 1 to 9
      invariant clauses == c0 + ColUniqueUpto(col, row1)
    {
      AppendAssoc(c0, ColUniqueUpto(col, row1), ColPairsUpto(col, row1, 10));
      clauses := PushColPairs(clauses, col, row1);
    }
  }

  method PushColsUnique(c0: seq<Clause>) returns (clauses: seq<Clause>)
    ensures clauses == c0 + ColsUniqueUpto(10)
  {
    clauses := c0;
    for col := 1 to 10
      invariant clauses == c0 + ColsUniqueUpto(col)
    {
      AppendAssoc(c0, ColsUniqueUpto(col), ColUniqueUpto(col, 9));
      clauses := PushColUnique(clauses, col);
    }
  }

  method PushBoxPairs(c0: seq<Clause>, sr: int, sc: int, index1: int) returns (clauses: seq<Clause>)
    requires 0 <= index1 < 9
    ensures clauses == c0 + BoxPairsUpto(sr, sc, index1, 9)
  {
    clauses := c0;
    for index2 := index1 + 1 to 9
      invariant clauses == c0 + BoxPairsUpto(sr, sc, index1, index2)
    {
      var row := BoxRow(sr, index1);
      var col := BoxCol(sc, index1);
      var row2 := BoxRow(sr, index2);
      var col2 := BoxCol(sc, index2);
      AppendAssoc(c0, BoxPairsUpto(sr, sc, index1, index2), PairValuesUpto(row, col, row2, col2, 10));
      clauses := PushPairValues(clauses, row, col, row2, col2);
    }
  }

  method PushBoxUnique(c0: seq<Clause>, sr: int, sc: int) returns (clauses: seq<Clause>)
    ensures clauses == c0 + BoxUniqueUpto(sr, sc, 9)
  {
    clauses := c0;
    for index1 := 0 to 9
      invariant clauses == c0 + BoxUniqueUpto(sr, sc, index1)
    {
      AppendAssoc(c0, BoxUniqueUpto(sr, sc, index1), BoxPairsUpto(sr, sc, index1, 9));
      clauses := PushBoxPairs(clauses, sr, sc, index1);
    }
  }

  method PushBoxesUniqueRow(c0: seq<Clause>, sr: int) returns (clauses: seq<Clause>)
    ensures clauses == c0 + BoxesUniqueRowUpto(sr, 3)
  {
    clauses := c0;
    for sc := 0 to 3
      invariant clauses == c0 + BoxesUniqueRowUpto(sr, sc)
    {
      AppendAssoc(c0, BoxesUniqueRowUpto(sr, sc), BoxUniqueUpto(sr, sc, 9));
      clauses := PushBoxUnique(clauses, sr, sc);
    }
  }

  method PushBoxesUnique(c0: seq<Clause>) returns (clauses: seq<Clause>)
    ensures clauses == c0 + BoxesUniqueUpto(3)
  {
    clauses := c0;
    for sr := 0 to 3
      invariant clauses == c0 + BoxesUniqueUpto(sr)
    {
      AppendAssoc(c0, BoxesUniqueUpto(sr), BoxesUniqueRowUpto(sr, 3));
      clauses := PushBoxesUniqueRow(clauses, sr);
    }
  }

  method PushLineClues(c0: seq<Clause>, line: seq<Option<int>>, row: int) returns (clauses: seq<Clause>)
    ensures clauses == c0 + LineCluesUpto(line, row, |line|)
  {
    clauses := c0;
    for col := 0 to |line|
      invariant clauses == c0 + LineCluesUpto(line, row, col)
    {
      AppendAssoc(c0, LineCluesUpto(line, row, col), ClueUnit(line[col], row, col));
      if line[col].Some? {
        clauses := clauses + [[CnfIdentifier(row + 1, col + 1, line[col].value)]];
      }
    }
  }

  method PushClues(c0: seq<Clause>, clues: Grid) returns (clauses: seq<Clause>)
    ensures clauses == c0 + ClueClauses(clues)
  {
    clauses := c0;
    for row := 0 to |clues|
      invariant clauses == c0 + CluesUpto(clues, row)
    {
      AppendAssoc(c0, CluesUpto(clues, row), LineCluesUpto(clues[row], row, |clues[row]|));
      clauses := PushLineClues(clauses, clues[row], row);
    }
  }

  // ---------------------------------------------------------------------
  // Reading a cell back from a solver model.

  /** The smallest value whose variable is true in the model, or -1 when there is none. */
  method GetCellValue(value: Valuation, row: int, col: int) returns (cellValue: int)
    ensures cellValue == -1 <==> forall val :: 1 <= val <= 9 ==> !IsTrue(value, CnfIdentifier(row, col, val))
    ensures cellValue != -1 ==> InRange(cellValue) && IsTrue(value, CnfIdentifier(row, col, cellValue))
    ensures forall val :: 1 <= val <= 9 && (cellValue == -1 || val < cellValue) ==> !IsTrue(value, CnfIdentifier(row, col, val))
  {
    cellValue := -1;
    for val := 1 to 10
      invariant cellValue == -1
      invariant forall v :: 1 <= v < val ==> !IsTrue(value, CnfIdentifier(row, col, v))
    {
      if IsTrue(value, CnfIdentifier(row, col, val)) {
        cellValue := val;
        break;
      }
    }
  }

  // ---------------------------------------------------------------------
  // Properties of the clause families.

  lemma AloCellLayout(row: int, col: int)
    ensures |AloCell(row, col, 10)| == 9
    ensures forall val :: 1 <= val <= 9 ==> AloCell(row, col, 10)[val - 1] == CnfIdentifier(row, col, val)
  {
    var f := val => [CnfIdentifier(row, col, val)];
    ConcatMapUnits(1, 10, f, 1);
    forall val | 1 <= val <= 9
      ensures AloCell(row, col, 10)[val - 1] == CnfIdentifier(row, col, val)
    {
      ConcatMapUnits(1, 10, f, val);
    }
  }

  lemma AloRowLength(row: int)
    ensures |AloRowUpto(row, 10)| == 9
  {
    ConcatMapLength(1, 10, col => [AloCell(row, col, 10)], 1);
  }

  /**
   * The at-least-one family is 81 clauses, the one at position
   * (row - 1) * 9 + (col - 1) listing the nine positive literals of that cell.
   */
  lemma AtLeastOneLayout(row: int, col: int)
    requires InRange(row) && InRange(col)
    ensures |AloUpto(10)| == 81
    ensures var clause := AloUpto(10)[(row - 1) * 9 + (col - 1)];
      |clause| == 9 && forall val :: 1 <= val <= 9 ==> clause[val - 1] == CnfIdentifier(row, col, val)
  {
    AloLayoutUpto(row, col, 10);
    AloCellLayout(row, col);
  }

  lemma AloLayoutUpto(row: int, col: int, n: int)
    requires 1 <= row < n && InRange(col)
    ensures |AloUpto(n)| == (n - 1) * 9
    ensures AloUpto(n)[(row - 1) * 9 + (col - 1)] == AloCell(row, col, 10)
  {
    var f := r => AloRowUpto(r, 10);
    forall r | 1 <= r < n ensures |f(r)| == 9 { AloRowLength(r); }
    ConcatMapAt(1, n, f, 9, row, col - 1, (n - 1) * 9, (row - 1) * 9 + (col - 1));
    AloRowIndex(row, col, 10);
  }

  lemma AloRowIndex(row: int, col: int, n: int)
    requires 1 <= col < n
    ensures |AloRowUpto(row, n)| == n - 1 && AloRowUpto(row, n)[col - 1] == AloCell(row, col, 10)
  {
    ConcatMapUnits(1, n, c => [AloCell(row, c, 10)], col);
  }

  /** With `cell_at_least_one` set, the encoder's output starts with the at-least-one family. */
  lemma AtLeastOneFirst(clues: Grid, atMostOne: bool, hasAllValues: bool, hasUniqueValues: bool, row: int, col: int)
    requires InRange(row) && InRange(col)
    ensures |SudokuClauses(clues, true, atMostOne, hasAllValues, hasUniqueValues)| >= 81
    ensures var clause := SudokuClauses(clues, true, atMostOne, hasAllValues, hasUniqueValues)[(row - 1) * 9 + (col - 1)];
      |clause| == 9 && forall val :: 1 <= val <= 9 ==> clause[val - 1] == CnfIdentifier(row, col, val)
  {
    AtLeastOneLayout(row, col);
    var k := (row - 1) * 9 + (col - 1);
    var a := AloUpto(10);
    var m := Family(atMostOne, AmoUpto(10));
    var v := Family(hasAllValues, AllValues());
    var u := Family(hasUniqueValues, UniqueValues());
    assert SudokuClauses(clues, true, atMostOne, hasAllValues, hasUniqueValues) == a + m + v + u + ClueClauses(clues);
    PrefixIndex(a, m, k);
    PrefixIndex(a + m, v, k);
    PrefixIndex(a + m + v, u, k);
    PrefixIndex(a + m + v + u, ClueClauses(clues), k);
  }

  /** Two negative literals of one cell for two different values. */
  ghost predicate IsAtMostOnePair(clause: Clause)
  {
    exists row, col, val1, val2 :: InRange(row) && InRange(col) && 1 <= val1 < val2 <= 9
      && clause == [-CnfIdentifier(row, col, val1), -CnfIdentifier(row, col, val2)]
  }

  lemma AmoValueSound(row: int, col: int, val1: int)
    requires InRange(row) && InRange(col) && InRange(val1)
    ensures forall clause :: clause in AmoValueUpto(row, col, val1, 10) ==> IsAtMostOnePair(clause)
  {
    var f := val2 => [[-CnfIdentifier(row, col, val1), -CnfIdentifier(row, col, val2)]];
    forall val2 | val1 + 1 <= val2 < 10
      ensures forall clause :: clause in f(val2) ==> IsAtMostOnePair(clause)
    {
      assert IsAtMostOnePair([-CnfIdentifier(row, col, val1), -CnfIdentifier(row, col, val2)]);
    }
    ConcatMapForall(val1 + 1, 10, f, IsAtMostOnePair);
  }

  lemma AmoCellSound(row: int, col: int)
    requires InRange(row) && InRange(col)
    ensures forall clause :: clause in AmoCellUpto(row, col, 9) ==> IsAtMostOnePair(clause)
  {
    forall val1 | 1 <= val1 < 9
      ensures forall clause :: clause in AmoValueUpto(row, col, val1, 10) ==> IsAtMostOnePair(clause)
    {
      AmoValueSound(row, col, val1);
    }
    ConcatMapForall(1, 9, val1 => AmoValueUpto(row, col, val1, 10), IsAtMostOnePair);
  }

  lemma AmoRowSound(row: int)
    requires InRange(row)
    ensures forall clause :: clause in AmoRowUpto(row, 10) ==> IsAtMostOnePair(clause)
  {
    forall col | 1 <= col < 10
      ensures forall clause :: clause in AmoCellUpto(row, col, 9) ==> IsAtMostOnePair(clause)
    {
      AmoCellSound(row, col);
    }
    ConcatMapForall(1, 10, col => AmoCellUpto(row, col, 9), IsAtMostOnePair);
  }

  /** Every at-most-one clause forbids one cell from holding two different values. */
  lemma AtMostOneSound()
    ensures forall clause :: clause in AmoUpto(10) ==> IsAtMostOnePair(clause)
  {
    forall row | 1 <= row < 10
      ensures forall clause :: clause in AmoRowUpto(row, 10) ==> IsAtMostOnePair(clause)
    {
      AmoRowSound(row);
    }
    ConcatMapForall(1, 10, row => AmoRowUpto(row, 10), IsAtMostOnePair);
  }

  /** Conversely, every cell and every pair of distinct values has its at-most-one clause. */
  lemma AtMostOneComplete(row: int, col: int, val1: int, val2: int)
    requires InRange(row) && InRange(col) && 1 <= val1 < val2 <= 9
    ensures [-CnfIdentifier(row, col, val1), -CnfIdentifier(row, col, val2)] in AmoUpto(10)
  {
    var clause := [-CnfIdentifier(row, col, val1), -CnfIdentifier(row, col, val2)];
    var f := v2 => [[-CnfIdentifier(row, col, val1), -CnfIdentifier(row, col, v2)]];
    assert clause in f(val2);
    ConcatMapContains(val1 + 1, 10, f, val2, clause);
    assert clause in AmoValueUpto(row, col, val1, 10);
    var g := v1 => AmoValueUpto(row, col, v1, 10);
    ConcatMapContains(1, 9, g, val1, clause);
    assert clause in AmoCellUpto(row, col, 9);
    var h := c => AmoCellUpto(row, c, 9);
    ConcatMapContains(1, 10, h, col, clause);
    assert clause in AmoRowUpto(row, 10);
    var k := r => AmoRowUpto(r, 10);
    ConcatMapContains(1, 10, k, row, clause);
  }

  lemma {:induction false} AmoCellLength(row: int, col: int, n: int)
    requires 1 <= n <= 10
    ensures 2 * |AmoCellUpto(row, col, n)| == (n - 1) * (18 - n)
  {
    if n > 1 {
      AmoCellLength(row, col, n - 1);
      AmoValueLength(row, col, n - 1);
      ConcatMapStep(1, n - 1, val1 => AmoValueUpto(row, col, val1, 10));
      assert |AmoCellUpto(row, col, n)| == |AmoCellUpto(row, col, n - 1)| + (10 - n);
      assert (n - 2) * (19 - n) + 2 * (10 - n) == (n - 1) * (18 - n);
    }
  }

  lemma AmoValueLength(row: int, col: int, val1: int)
    requires 0 <= val1 <= 9
    ensures |AmoValueUpto(row, col, val1, 10)| == 9 - val1
  {
    ConcatMapLength(val1 + 1, 10, val2 => [[-CnfIdentifier(row, col, val1), -CnfIdentifier(row, col, val2)]], 1);
  }

  /** The at-most-one family has 36 clauses per cell, 2916 in all. */
  lemma AtMostOneLength()
    ensures |AmoUpto(10)| == 2916
  {
    forall row, col | 1 <= row < 10 && 1 <= col < 10
      ensures |AmoCellUpto(row, col, 9)| == 36
    {
      AmoCellLength(row, col, 9);
    }
    forall row | 1 <= row < 10
      ensures |AmoRowUpto(row, 10)| == 324
    {
      ConcatMapLength(1, 10, col => AmoCellUpto(row, col, 9), 36);
    }
    ConcatMapLength(1, 10, row => AmoRowUpto(row, 10), 324);
  }

  /** The clause "row `row` holds `val`" lists the nine cells of the row, by column. */
  lemma RowHasValueLayout(row: int, val: int)
    ensures |RowHasValue(row, val, 10)| == 9
    ensures forall col :: 1 <= col <= 9 ==> RowHasValue(row, val, 10)[col - 1] == CnfIdentifier(row, col, val)
  {
    var f := col => [CnfIdentifier(row, col, val)];
    ConcatMapUnits(1, 10, f, 1);
    forall col | 1 <= col <= 9
      ensures RowHasValue(row, val, 10)[col - 1] == CnfIdentifier(row, col, val)
    {
      ConcatMapUnits(1, 10, f, col);
    }
  }

  ghost predicate IsRowClause(clause: Clause)
  {
    exists row, val :: InRange(row) && InRange(val) && clause == RowHasValue(row, val, 10)
  }

  /** Every clause of the row part of the all-values family says that a row holds a value. */
  lemma RowsAllSound()
    ensures forall clause :: clause in RowsAllUpto(10) ==> IsRowClause(clause)
  {
    forall val | 1 <= val < 10
      ensures forall clause :: clause in RowsHaveValueUpto(val, 10) ==> IsRowClause(clause)
    {
      forall row | 1 <= row < 10
        ensures forall clause :: clause in [RowHasValue(row, val, 10)] ==> IsRowClause(clause)
      {
        assert IsRowClause(RowHasValue(row, val, 10));
      }
      ConcatMapForall(1, 10, row => [RowHasValue(row, val, 10)], IsRowClause);
    }
    ConcatMapForall(1, 10, val => RowsHaveValueUpto(val, 10), IsRowClause);
  }

  /** Every row and every value has its clause. */
  lemma RowsAllComplete(row: int, val: int)
    requires InRange(row) && InRange(val)
    ensures RowHasValue(row, val, 10) in RowsAllUpto(10)
  {
    var clause := RowHasValue(row, val, 10);
    var f := r => [RowHasValue(r, val, 10)];
    assert clause in f(row);
    ConcatMapContains(1, 10, f, row, clause);
    assert clause in RowsHaveValueUpto(val, 10);
    var g := v => RowsHaveValueUpto(v, 10);
    ConcatMapContains(1, 10, g, val, clause);
  }

  lemma RowsAllLength()
    ensures |RowsAllUpto(10)| == 81
  {
    var f := v => RowsHaveValueUpto(v, 10);
    forall v | 1 <= v < 10 ensures |f(v)| == 9 {
      ConcatMapLength(1, 10, r => [RowHasValue(r, v, 10)], 1);
    }
    ConcatMapLength(1, 10, f, 9);
  }

  /** The clause "column `col` holds `val`" lists the nine cells of the column, by row. */
  lemma ColHasValueLayout(col: int, val: int)
    ensures |ColHasValue(col, val, 10)| == 9
    ensures forall row :: 1 <= row <= 9 ==> ColHasValue(col, val, 10)[row - 1] == CnfIdentifier(row, col, val)
  {
    var f := row => [CnfIdentifier(row, col, val)];
    ConcatMapUnits(1, 10, f, 1);
    forall row | 1 <= row <= 9
      ensures ColHasValue(col, val, 10)[row - 1] == CnfIdentifier(row, col, val)
    {
      ConcatMapUnits(1, 10, f, row);
    }
  }

  ghost predicate IsColClause(clause: Clause)
  {
    exists col, val :: InRange(col) && InRange(val) && clause == ColHasValue(col, val, 10)
  }

  /** Every clause of the column part says that a column holds a value. */
  lemma ColsAllSound()
    ensures forall clause :: clause in ColsAllUpto(10) ==> IsColClause(clause)
  {
    forall val | 1 <= val < 10
      ensures forall clause :: clause in ColsHaveValueUpto(val, 10) ==> IsColClause(clause)
    {
      forall col | 1 <= col < 10
        ensures forall clause :: clause in [ColHasValue(col, val, 10)] ==> IsColClause(clause)
      {
        assert IsColClause(ColHasValue(col, val, 10));
      }
      ConcatMapForall(1, 10, col => [ColHasValue(col, val, 10)], IsColClause);
    }
    ConcatMapForall(1, 10, val => ColsHaveValueUpto(val, 10), IsColClause);
  }

  /** Every column and every value has its clause. */
  lemma ColsAllComplete(col: int, val: int)
    requires InRange(col) && InRange(val)
    ensures ColHasValue(col, val, 10) in ColsAllUpto(10)
  {
    var clause := ColHasValue(col, val, 10);
    var f := c => [ColHasValue(c, val, 10)];
    assert clause in f(col);
    ConcatMapContains(1, 10, f, col, clause);
    assert clause in ColsHaveValueUpto(val, 10);
    var g := v => ColsHaveValueUpto(v, 10);
    ConcatMapContains(1, 10, g, val, clause);
  }

  lemma ColsAllLength()
    ensures |ColsAllUpto(10)| == 81
  {
    var f := v => ColsHaveValueUpto(v, 10);
    forall v | 1 <= v < 10 ensures |f(v)| == 9 {
      ConcatMapLength(1, 10, c => [ColHasValue(c, v, 10)], 1);
    }
    ConcatMapLength(1, 10, f, 9);
  }

  /** Position of the cell (row, col), both 1..3, in a sub-grid clause read row by row. */
  function BoxCellIndex(row: int, col: int): int
  {
    (row - 1) * 3 + (col - 1)
  }

  /**
   * The clause "sub-grid (sr, sc) holds `val`" lists the nine cells of the
   * sub-grid, row by row.
   */
  lemma BoxHasValueLayout(sr: int, sc: int, val: int)
    ensures |BoxHasValue(sr, sc, val, 4)| == 9
    ensures forall row, col :: 1 <= row <= 3 && 1 <= col <= 3 ==>
      BoxHasValue(sr, sc, val, 4)[BoxCellIndex(row, col)] == CnfIdentifier(row + 3 * sr, col + 3 * sc, val)
  {
    BoxCellLayout(sr, sc, val, 1, 1);
    forall row, col | 1 <= row <= 3 && 1 <= col <= 3
      ensures BoxHasValue(sr, sc, val, 4)[BoxCellIndex(row, col)] == CnfIdentifier(row + 3 * sr, col + 3 * sc, val)
    {
      BoxCellLayout(sr, sc, val, row, col);
    }
  }

  lemma BoxCellLayout(sr: int, sc: int, val: int, row: int, col: int)
    requires 1 <= row <= 3 && 1 <= col <= 3
    ensures |BoxHasValue(sr, sc, val, 4)| == 9
    ensures BoxHasValue(sr, sc, val, 4)[BoxCellIndex(row, col)] == CnfIdentifier(row + 3 * sr, col + 3 * sc, val)
  {
    var f := r => BoxRowHasValue(sr, sc, val, r, 4);
    forall r | 1 <= r < 4 ensures |f(r)| == 3 {
      BoxRowLayout(sr, sc, val, r, 1);
    }
    ConcatMapBlock(1, 4, f, 3, row, col - 1);
    BoxRowLayout(sr, sc, val, row, col);
  }

  lemma BoxRowLayout(sr: int, sc: int, val: int, row: int, col: int)
    requires 1 <= col <= 3
    ensures |BoxRowHasValue(sr, sc, val, row, 4)| == 3
    ensures BoxRowHasValue(sr, sc, val, row, 4)[col - 1] == CnfIdentifier(row + 3 * sr, col + 3 * sc, val)
  {
    ConcatMapUnits(1, 4, c => [CnfIdentifier(row + 3 * sr, c + 3 * sc, val)], col);
  }

  ghost predicate IsBoxClause(clause: Clause)
  {
    exists sr, sc, val :: 0 <= sr < 3 && 0 <= sc < 3 && InRange(val) && clause == BoxHasValue(sr, sc, val, 4)
  }

  lemma BoxValuesSound(sr: int, sc: int)
    requires 0 <= sr < 3 && 0 <= sc < 3
    ensures forall clause :: clause in BoxValuesUpto(sr, sc, 10) ==> IsBoxClause(clause)
  {
    forall val | 1 <= val < 10
      ensures forall clause :: clause in [BoxHasValue(sr, sc, val, 4)] ==> IsBoxClause(clause)
    {
      assert IsBoxClause(BoxHasValue(sr, sc, val, 4));
    }
    ConcatMapForall(1, 10, val => [BoxHasValue(sr, sc, val, 4)], IsBoxClause);
  }

  /** Every clause of the sub-grid part says that a sub-grid holds a value. */
  lemma BoxesAllSound()
    ensures forall clause :: clause in BoxesAllUpto(3) ==> IsBoxClause(clause)
  {
    forall sr | 0 <= sr < 3
      ensures forall clause :: clause in BoxesAllRowUpto(sr, 3) ==> IsBoxClause(clause)
    {
      forall sc | 0 <= sc < 3
        ensures forall clause :: clause in BoxValuesUpto(sr, sc, 10) ==> IsBoxClause(clause)
      {
        BoxValuesSound(sr, sc);
      }
      ConcatMapForall(0, 3, sc => BoxValuesUpto(sr, sc, 10), IsBoxClause);
    }
    ConcatMapForall(0, 3, sr => BoxesAllRowUpto(sr, 3), IsBoxClause);
  }

  /** Every sub-grid and every value has its clause. */
  lemma BoxesAllComplete(sr: int, sc: int, val: int)
    requires 0 <= sr < 3 && 0 <= sc < 3 && InRange(val)
    ensures BoxHasValue(sr, sc, val, 4) in BoxesAllUpto(3)
  {
    var clause := BoxHasValue(sr, sc, val, 4);
    var f := v => [BoxHasValue(sr, sc, v, 4)];
    assert clause in f(val);
    ConcatMapContains(1, 10, f, val, clause);
    assert clause in BoxValuesUpto(sr, sc, 10);
    var g := c => BoxValuesUpto(sr, c, 10);
    ConcatMapContains(0, 3, g, sc, clause);
    assert clause in BoxesAllRowUpto(sr, 3);
    var h := r => BoxesAllRowUpto(r, 3);
    ConcatMapContains(0, 3, h, sr, clause);
  }

  lemma BoxValuesLength(sr: int, sc: int)
    ensures |BoxValuesUpto(sr, sc, 10)| == 9
  {
    ConcatMapLength(1, 10, v => [BoxHasValue(sr, sc, v, 4)], 1);
  }

  lemma BoxesAllRowLength(sr: int)
    ensures |BoxesAllRowUpto(sr, 3)| == 27
  {
    var g := c => BoxValuesUpto(sr, c, 10);
    forall c | 0 <= c < 3 ensures |g(c)| == 9 { BoxValuesLength(sr, c); }
    ConcatMapLength(0, 3, g, 9);
  }

  lemma BoxesAllLength()
    ensures |BoxesAllUpto(3)| == 81
  {
    var f := r => BoxesAllRowUpto(r, 3);
    forall r | 0 <= r < 3 ensures |f(r)| == 27 { BoxesAllRowLength(r); }
    ConcatMapLength(0, 3, f, 27);
  }

  /** The all-values family is 243 clauses: 81 for rows, then columns, then sub-grids. */
  lemma AllValuesLength()
    ensures |AllValues()| == 243
  {
    RowsAllLength();
    ColsAllLength();
    BoxesAllLength();
  }

  /** Two distinct cells of one house may not hold the same value. */
  ghost predicate IsHousePair(clause: Clause)
  {
    exists row1, col1, row2, col2, val ::
      InRange(row1) && InRange(col1) && InRange(row2) && InRange(col2) && InRange(val)
      && (row1, col1) != (row2, col2) && SameHouse(row1, col1, row2, col2)
      && clause == [-CnfIdentifier(row1, col1, val), -CnfIdentifier(row2, col2, val)]
  }

  lemma HousePairIntro(row1: int, col1: int, row2: int, col2: int, val: int)
    requires InRange(row1) && InRange(col1) && InRange(row2) && InRange(col2) && InRange(val)
    requires (row1, col1) != (row2, col2) && SameHouse(row1, col1, row2, col2)
    ensures IsHousePair([-CnfIdentifier(row1, col1, val), -CnfIdentifier(row2, col2, val)])
  {
  }

  /** A property of each clause "not both cells hold val" holds of the whole pair family. */
  lemma PairValuesForall(row1: int, col1: int, row2: int, col2: int, n: int, P: Clause -> bool)
    requires forall val :: 1 <= val < n ==> P([-CnfIdentifier(row1, col1, val), -CnfIdentifier(row2, col2, val)])
    ensures forall clause :: clause in PairValuesUpto(row1, col1, row2, col2, n) ==> P(clause)
  {
    ConcatMapForall(1, n, val => [[-CnfIdentifier(row1, col1, val), -CnfIdentifier(row2, col2, val)]], P);
  }

  lemma PairValuesSound(row1: int, col1: int, row2: int, col2: int)
    requires InRange(row1) && InRange(col1) && InRange(row2) && InRange(col2)
    requires (row1, col1) != (row2, col2) && SameHouse(row1, col1, row2, col2)
    ensures forall clause :: clause in PairValuesUpto(row1, col1, row2, col2, 10) ==> IsHousePair(clause)
  {
    forall val | 1 <= val < 10
      ensures IsHousePair([-CnfIdentifier(row1, col1, val), -CnfIdentifier(row2, col2, val)])
    {
      HousePairIntro(row1, col1, row2, col2, val);
    }
    PairValuesForall(row1, col1, row2, col2, 10, IsHousePair);
  }

  lemma RowUniqueSound(row: int)
    requires InRange(row)
    ensures forall clause :: clause in RowUniqueUpto(row, 9) ==> IsHousePair(clause)
  {
    forall col1 | 1 <= col1 < 9
      ensures forall clause :: clause in RowPairsUpto(row, col1, 10) ==> IsHousePair(clause)
    {
      forall col2 | col1 + 1 <= col2 < 10
        ensures forall clause :: clause in PairValuesUpto(row, col1, row, col2, 10) ==> IsHousePair(clause)
      {
        PairValuesSound(row, col1, row, col2);
      }
      ConcatMapForall(col1 + 1, 10, col2 => PairValuesUpto(row, col1, row, col2, 10), IsHousePair);
    }
    ConcatMapForall(1, 9, col1 => RowPairsUpto(row, col1, 10), IsHousePair);
  }

  lemma ColPairsSound(col: int, row1: int)
    requires InRange(col) && 1 <= row1 < 9
    ensures forall clause :: clause in ColPairsUpto(col, row1, 10) ==> IsHousePair(clause)
  {
    forall row2 | row1 + 1 <= row2 < 10
      ensures forall clause :: clause in PairValuesUpto(row1, col, row2, col, 10) ==> IsHousePair(clause)
    {
      PairValuesSound(row1, col, row2, col);
    }
    ConcatMapForall(row1 + 1, 10, row2 => PairValuesUpto(row1, col, row2, col, 10), IsHousePair);
  }

  lemma ColUniqueSound(col: int)
    requires InRange(col)
    ensures forall clause :: clause in ColUniqueUpto(col, 9) ==> IsHousePair(clause)
  {
    forall row1 | 1 <= row1 < 9
      ensures forall clause :: clause in ColPairsUpto(col, row1, 10) ==> IsHousePair(clause)
    {
      ColPairsSound(col, row1);
    }
    ConcatMapForall(1, 9, row1 => ColPairsUpto(col, row1, 10), IsHousePair);
  }

  lemma BoxUniqueSound(sr: int, sc: int)
    requires 0 <= sr < 3 && 0 <= sc < 3
    ensures forall clause :: clause in BoxUniqueUpto(sr, sc, 9) ==> IsHousePair(clause)
  {
    forall index1 | 0 <= index1 < 9
      ensures forall clause :: clause in BoxPairsUpto(sr, sc, index1, 9) ==> IsHousePair(clause)
    {
      forall index2 | index1 + 1 <= index2 < 9
        ensures forall clause ::
          clause in PairValuesUpto(BoxRow(sr, index1), BoxCol(sc, index1), BoxRow(sr, index2), BoxCol(sc, index2), 10)
          ==> IsHousePair(clause)
      {
        BoxCellInBox(sr, sc, index1);
        BoxCellInBox(sr, sc, index2);
        BoxCellDistinct(sr, sc, index1, index2);
        PairValuesSound(BoxRow(sr, index1), BoxCol(sc, index1), BoxRow(sr, index2), BoxCol(sc, index2));
      }
      ConcatMapForall(index1 + 1, 9, index2 =>
        PairValuesUpto(BoxRow(sr, index1), BoxCol(sc, index1), BoxRow(sr, index2), BoxCol(sc, index2), 10), IsHousePair);
    }
    ConcatMapForall(0, 9, index1 => BoxPairsUpto(sr, sc, index1, 9), IsHousePair);
  }

  lemma RowsUniqueSound()
    ensures forall clause :: clause in RowsUniqueUpto(10) ==> IsHousePair(clause)
  {
    forall row | 1 <= row < 10
      ensures forall clause :: clause in RowUniqueUpto(row, 9) ==> IsHousePair(clause)
    {
      RowUniqueSound(row);
    }
    ConcatMapForall(1, 10, row => RowUniqueUpto(row, 9), IsHousePair);
  }

  lemma ColsUniqueSound()
    ensures forall clause :: clause in ColsUniqueUpto(10) ==> IsHousePair(clause)
  {
    forall col | 1 <= col < 10
      ensures forall clause :: clause in ColUniqueUpto(col, 9) ==> IsHousePair(clause)
    {
      ColUniqueSound(col);
    }
    ConcatMapForall(1, 10, col => ColUniqueUpto(col, 9), IsHousePair);
  }

  lemma BoxesUniqueSound()
    ensures forall clause :: clause in BoxesUniqueUpto(3) ==> IsHousePair(clause)
  {
    forall sr | 0 <= sr < 3
      ensures forall clause :: clause in BoxesUniqueRowUpto(sr, 3) ==> IsHousePair(clause)
    {
      forall sc | 0 <= sc < 3
        ensures forall clause :: clause in BoxUniqueUpto(sr, sc, 9) ==> IsHousePair(clause)
      {
        BoxUniqueSound(sr, sc);
      }
      ConcatMapForall(0, 3, sc => BoxUniqueUpto(sr, sc, 9), IsHousePair);
    }
    ConcatMapForall(0, 3, sr => BoxesUniqueRowUpto(sr, 3), IsHousePair);
  }

  /** Every clause of the unique-values family forbids a value twice in one house. */
  lemma UniqueValuesSound()
    ensures forall clause :: clause in UniqueValues() ==> IsHousePair(clause)
  {
    RowsUniqueSound();
    ColsUniqueSound();
    BoxesUniqueSound();
  }

  lemma PairValuesContains(row1: int, col1: int, row2: int, col2: int, val: int)
    requires InRange(val)
    ensures [-CnfIdentifier(row1, col1, val), -CnfIdentifier(row2, col2, val)] in PairValuesUpto(row1, col1, row2, col2, 10)
  {
    var clause := [-CnfIdentifier(row1, col1, val), -CnfIdentifier(row2, col2, val)];
    var f := v => [[-CnfIdentifier(row1, col1, v), -CnfIdentifier(row2, col2, v)]];
    assert clause in f(val);
    ConcatMapContains(1, 10, f, val, clause);
  }

  lemma RowsUniqueComplete(row: int, col1: int, col2: int, val: int)
    requires InRange(row) && 1 <= col1 < col2 <= 9 && InRange(val)
    ensures [-CnfIdentifier(row, col1, val), -CnfIdentifier(row, col2, val)] in RowsUniqueUpto(10)
  {
    var clause := [-CnfIdentifier(row, col1, val), -CnfIdentifier(row, col2, val)];
    PairValuesContains(row, col1, row, col2, val);
    var f := c2 => PairValuesUpto(row, col1, row, c2, 10);
    ConcatMapContains(col1 + 1, 10, f, col2, clause);
    assert clause in RowPairsUpto(row, col1, 10);
    var g := c1 => RowPairsUpto(row, c1, 10);
    ConcatMapContains(1, 9, g, col1, clause);
    assert clause in RowUniqueUpto(row, 9);
    var h := r => RowUniqueUpto(r, 9);
    ConcatMapContains(1, 10, h, row, clause);
  }

  lemma ColsUniqueComplete(col: int, row1: int, row2: int, val: int)
    requires InRange(col) && 1 <= row1 < row2 <= 9 && InRange(val)
    ensures [-CnfIdentifier(row1, col, val), -CnfIdentifier(row2, col, val)] in ColsUniqueUpto(10)
  {
    var clause := [-CnfIdentifier(row1, col, val), -CnfIdentifier(row2, col, val)];
    PairValuesContains(row1, col, row2, col, val);
    var f := r2 => PairValuesUpto(row1, col, r2, col, 10);
    ConcatMapContains(row1 + 1, 10, f, row2, clause);
    assert clause in ColPairsUpto(col, row1, 10);
    var g := r1 => ColPairsUpto(col, r1, 10);
    ConcatMapContains(1, 9, g, row1, clause);
    assert clause in ColUniqueUpto(col, 9);
    var h := c => ColUniqueUpto(c, 9);
    ConcatMapContains(1, 10, h, col, clause);
  }

  lemma BoxUniqueContains(sr: int, sc: int, index1: int, index2: int, val: int)
    requires 0 <= index1 < index2 < 9 && InRange(val)
    ensures [-CnfIdentifier(BoxRow(sr, index1), BoxCol(sc, index1), val),
             -CnfIdentifier(BoxRow(sr, index2), BoxCol(sc, index2), val)] in BoxUniqueUpto(sr, sc, 9)
  {
    var clause := [-CnfIdentifier(BoxRow(sr, index1), BoxCol(sc, index1), val),
                   -CnfIdentifier(BoxRow(sr, index2), BoxCol(sc, index2), val)];
    PairValuesContains(BoxRow(sr, index1), BoxCol(sc, index1), BoxRow(sr, index2), BoxCol(sc, index2), val);
    var f := i2 => PairValuesUpto(BoxRow(sr, index1), BoxCol(sc, index1), BoxRow(sr, i2), BoxCol(sc, i2), 10);
    ConcatMapContains(index1 + 1, 9, f, index2, clause);
    assert clause in BoxPairsUpto(sr, sc, index1, 9);
    var g := i1 => BoxPairsUpto(sr, sc, i1, 9);
    ConcatMapContains(0, 9, g, index1, clause);
  }

  lemma BoxesUniqueComplete(sr: int, sc: int, index1: int, index2: int, val: int)
    requires 0 <= sr < 3 && 0 <= sc < 3 && 0 <= index1 < index2 < 9 && InRange(val)
    ensures [-CnfIdentifier(BoxRow(sr, index1), BoxCol(sc, index1), val),
             -CnfIdentifier(BoxRow(sr, index2), BoxCol(sc, index2), val)] in BoxesUniqueUpto(3)
  {
    var clause := [-CnfIdentifier(BoxRow(sr, index1), BoxCol(sc, index1), val),
                   -CnfIdentifier(BoxRow(sr, index2), BoxCol(sc, index2), val)];
    BoxUniqueContains(sr, sc, index1, index2, val);
    var h := c => BoxUniqueUpto(sr, c, 9);
    ConcatMapContains(0, 3, h, sc, clause);
    assert clause in BoxesUniqueRowUpto(sr, 3);
    var k := r => BoxesUniqueRowUpto(r, 3);
    ConcatMapContains(0, 3, k, sr, clause);
  }

  lemma RowPairInUnique(row: int, col1: int, col2: int, val: int)
    requires InRange(row) && 1 <= col1 < col2 <= 9 && InRange(val)
    ensures [-CnfIdentifier(row, col1, val), -CnfIdentifier(row, col2, val)] in UniqueValues()
  {
    RowsUniqueComplete(row, col1, col2, val);
    InAppend3([-CnfIdentifier(row, col1, val), -CnfIdentifier(row, col2, val)],
      RowsUniqueUpto(10), ColsUniqueUpto(10), BoxesUniqueUpto(3));
  }

  lemma ColPairInUnique(col: int, row1: int, row2: int, val: int)
    requires InRange(col) && 1 <= row1 < row2 <= 9 && InRange(val)
    ensures [-CnfIdentifier(row1, col, val), -CnfIdentifier(row2, col, val)] in UniqueValues()
  {
    ColsUniqueComplete(col, row1, row2, val);
    InAppend3([-CnfIdentifier(row1, col, val), -CnfIdentifier(row2, col, val)],
      RowsUniqueUpto(10), ColsUniqueUpto(10), BoxesUniqueUpto(3));
  }

  lemma BoxPairInUnique(row1: int, col1: int, row2: int, col2: int, val: int)
    requires InRange(row1) && InRange(col1) && InRange(row2) && InRange(col2) && InRange(val)
    requires (row1 - 1) / 3 == (row2 - 1) / 3 && (col1 - 1) / 3 == (col2 - 1) / 3
    requires BoxIndex(row1, col1) < BoxIndex(row2, col2)
    ensures [-CnfIdentifier(row1, col1, val), -CnfIdentifier(row2, col2, val)] in UniqueValues()
  {
    BoxesUniqueComplete((row1 - 1) / 3, (col1 - 1) / 3, BoxIndex(row1, col1), BoxIndex(row2, col2), val);
    InAppend3([-CnfIdentifier(row1, col1, val), -CnfIdentifier(row2, col2, val)],
      RowsUniqueUpto(10), ColsUniqueUpto(10), BoxesUniqueUpto(3));
  }

  /**
   * Conversely, every two distinct cells of one house and every value have
   * their clause, with the two cells in the order the encoder visits them.
   */
  lemma UniqueValuesComplete(row1: int, col1: int, row2: int, col2: int, val: int)
    requires InRange(row1) && InRange(col1) && InRange(row2) && InRange(col2) && InRange(val)
    requires (row1, col1) != (row2, col2) && SameHouse(row1, col1, row2, col2)
    ensures [-CnfIdentifier(row1, col1, val), -CnfIdentifier(row2, col2, val)] in UniqueValues()
         || [-CnfIdentifier(row2, col2, val), -CnfIdentifier(row1, col1, val)] in UniqueValues()
  {
    if row1 == row2 {
      if col1 < col2 {
        RowPairInUnique(row1, col1, col2, val);
      } else {
        RowPairInUnique(row1, col2, col1, val);
      }
    } else if col1 == col2 {
      if row1 < row2 {
        ColPairInUnique(col1, row1, row2, val);
      } else {
        ColPairInUnique(col1, row2, row1, val);
      }
    } else if BoxIndex(row1, col1) < BoxIndex(row2, col2) {
      BoxPairInUnique(row1, col1, row2, col2, val);
    } else {
      BoxPairInUnique(row2, col2, row1, col1, val);
    }
  }

  /** The unit clause of the clue at 0-based position (row, col). */
  ghost predicate IsClueUnit(clues: Grid, clause: Clause)
  {
    exists row, col :: 0 <= row < |clues| && 0 <= col < |clues[row]| && clues[row][col].Some?
      && clause == [CnfIdentifier(row + 1, col + 1, clues[row][col].value)]
  }

  lemma LineCluesSound(clues: Grid, row: int)
    requires 0 <= row < |clues|
    ensures forall clause :: clause in LineCluesUpto(clues[row], row, |clues[row]|) ==> IsClueUnit(clues, clause)
  {
    var line := clues[row];
    var f := col => if 0 <= col < |line| then ClueUnit(line[col], row, col) else [];
    forall col | 0 <= col < |line|
      ensures forall clause :: clause in f(col) ==> IsClueUnit(clues, clause)
    {
      if line[col].Some? {
        assert IsClueUnit(clues, [CnfIdentifier(row + 1, col + 1, clues[row][col].value)]);
      }
    }
    ConcatMapForall(0, |line|, f, clause => IsClueUnit(clues, clause));
  }

  /** Every clue clause is the unit clause of some clue. */
  lemma CluesSound(clues: Grid)
    ensures forall clause :: clause in ClueClauses(clues) ==> IsClueUnit(clues, clause)
  {
    var f := row => if 0 <= row < |clues| then LineCluesUpto(clues[row], row, |clues[row]|) else [];
    forall row | 0 <= row < |clues|
      ensures forall clause :: clause in f(row) ==> IsClueUnit(clues, clause)
    {
      LineCluesSound(clues, row);
    }
    ConcatMapForall(0, |clues|, f, clause => IsClueUnit(clues, clause));
  }

  /** Every clue `Some(val)` at 0-based (row, col) yields the unit clause of that cell and value. */
  lemma CluesComplete(clues: Grid, row: int, col: int, val: int)
    requires 0 <= row < |clues| && 0 <= col < |clues[row]| && clues[row][col] == Some(val)
    ensures [CnfIdentifier(row + 1, col + 1, val)] in ClueClauses(clues)
  {
    var clause := [CnfIdentifier(row + 1, col + 1, val)];
    var line := clues[row];
    var g := c => if 0 <= c < |line| then ClueUnit(line[c], row, c) else [];
    assert clause in g(col);
    ConcatMapContains(0, |line|, g, col, clause);
    var f := r => if 0 <= r < |clues| then LineCluesUpto(clues[r], r, |clues[r]|) else [];
    assert clause in f(row);
    ConcatMapContains(0, |clues|, f, row, clause);
  }

  lemma LineCluesEmpty(line: seq<Option<int>>, row: int, from: int)
    requires 0 <= from
    requires forall c :: from <= c < |line| ==> line[c] == None
    ensures forall n :: from <= n < |line| ==> (if 0 <= n < |line| then ClueUnit(line[n], row, n) else []) == []
  {
  }

  /** A line whose last clue sits at column `col` ends with that clue's unit clause. */
  lemma LineEndsWithClue(line: seq<Option<int>>, row: int, col: int, val: int)
    requires 0 <= col < |line| && line[col] == Some(val)
    requires forall c :: col < c < |line| ==> line[c] == None
    ensures LineCluesUpto(line, row, |line|) == LineCluesUpto(line, row, col) + [[CnfIdentifier(row + 1, col + 1, val)]]
  {
    var g := c => if 0 <= c < |line| then ClueUnit(line[c], row, c) else [];
    LineCluesEmpty(line, row, col + 1);
    ConcatMapEndsWith(0, |line|, g, col);
  }

  /**
   * The clue clauses end with the unit clause of the last clue in row-major
   * order (for a grid with at least one clue).
   */
  lemma CluesEndWithLastClue(clues: Grid, row: int, col: int, val: int)
    requires 0 <= row < |clues| && 0 <= col < |clues[row]| && clues[row][col] == Some(val)
    requires LastClueAt(clues, row, col)
    ensures |ClueClauses(clues)| > 0
    ensures ClueClauses(clues)[|ClueClauses(clues)| - 1] == [CnfIdentifier(row + 1, col + 1, val)]
  {
    var f := r => if 0 <= r < |clues| then LineCluesUpto(clues[r], r, |clues[r]|) else [];
    forall n | row < n < |clues|
      ensures f(n) == []
    {
      var line := clues[n];
      LineCluesEmpty(line, n, 0);
      ConcatMapEmpty(0, |line|, c => if 0 <= c < |line| then ClueUnit(line[c], n, c) else []);
    }
    ConcatMapEndsWith(0, |clues|, f, row);
    LineEndsWithClue(clues[row], row, col, val);
  }

  /** Whatever the flags, the encoder's last clause is the unit clause of the last clue. */
  lemma EncodingEndsWithLastClue(clues: Grid, atLeastOne: bool, atMostOne: bool, hasAllValues: bool,
                                 hasUniqueValues: bool, row: int, col: int, val: int)
    requires 0 <= row < |clues| && 0 <= col < |clues[row]| && clues[row][col] == Some(val)
    requires LastClueAt(clues, row, col)
    ensures var clauses := SudokuClauses(clues, atLeastOne, atMostOne, hasAllValues, hasUniqueValues);
      |clauses| > 0 && clauses[|clauses| - 1] == [CnfIdentifier(row + 1, col + 1, val)]
  {
    CluesEndWithLastClue(clues, row, col, val);
    var rules := Family(atLeastOne, AloUpto(10)) + Family(atMostOne, AmoUpto(10))
      + Family(hasAllValues, AllValues()) + Family(hasUniqueValues, UniqueValues());
    var units := ClueClauses(clues);
    assert SudokuClauses(clues, atLeastOne, atMostOne, hasAllValues, hasUniqueValues) == rules + units;
    assert (rules + units)[|rules + units| - 1] == units[|units| - 1];
  }

  /** With every rule family switched off, the encoder emits exactly the clue unit clauses. */
  lemma NoRulesOnlyClues(clues: Grid)
    ensures SudokuClauses(clues, false, false, false, false) == ClueClauses(clues)
    ensures forall clause :: clause in SudokuClauses(clues, false, false, false, false) ==> IsClueUnit(clues, clause)
  {
    var none: seq<Clause> := [];
    var units := ClueClauses(clues);
    assert SudokuClauses(clues, false, false, false, false) == none + none + none + none + units;
    AppendEmpty(none);
    AppendEmpty(units);
    CluesSound(clues);
  }

  // ---------------------------------------------------------------------
  // What a model of the clauses says about the board.

  /** Under the assignment, the cell (row, col) holds val. */
  predicate Holds(a: Assignment, row: int, col: int, val: int)
  {
    a(CnfIdentifier(row, col, val))
  }

  /** The cell holds some value 1..9. */
  ghost predicate CellHasValue(a: Assignment, row: int, col: int)
  {
    exists val :: InRange(val) && Holds(a, row, col, val)
  }

  ghost predicate EveryCellFilled(a: Assignment)
  {
    forall row, col :: InRange(row) && InRange(col) ==> CellHasValue(a, row, col)
  }

  /** No cell holds two values. */
  ghost predicate NoCellTwice(a: Assignment)
  {
    forall row, col, val1, val2 ::
      InRange(row) && InRange(col) && InRange(val1) && InRange(val2) && Holds(a, row, col, val1) && Holds(a, row, col, val2)
      ==> val1 == val2
  }

  /** Two distinct cells of one house never hold the same value. */
  ghost predicate HousesDistinct(a: Assignment)
  {
    forall row1, col1, row2, col2, val ::
      InRange(row1) && InRange(col1) && InRange(row2) && InRange(col2) && InRange(val)
      && (row1, col1) != (row2, col2) && SameHouse(row1, col1, row2, col2) && Holds(a, row1, col1, val)
      ==> !Holds(a, row2, col2, val)
  }

  /** Every clue `Some(val)` with val in 1..9 at 0-based (row, col) holds. */
  ghost predicate RespectsClues(a: Assignment, clues: Grid)
  {
    forall row, col :: 0 <= row < |clues| && 0 <= col < |clues[row]| && clues[row][col].Some? && InRange(clues[row][col].value)
      ==> Holds(a, row + 1, col + 1, clues[row][col].value)
  }

  /** The assignment is a filled Sudoku that agrees with the clues. */
  ghost predicate SolvesClues(a: Assignment, clues: Grid)
  {
    EveryCellFilled(a) && NoCellTwice(a) && HousesDistinct(a) && RespectsClues(a, clues)
  }

  /** A row, a column or a sub-grid, with its nine cells numbered 0..8. */
  datatype House = RowHouse(row: int) | ColHouse(col: int) | BoxHouse(sr: int, sc: int)

  predicate ValidHouse(h: House)
  {
    match h
    case RowHouse(row) => InRange(row)
    case ColHouse(col) => InRange(col)
    case BoxHouse(sr, sc) => 0 <= sr < 3 && 0 <= sc < 3
  }

  /** Row of cell k of the house (sub-grid cells in the order the encoder walks them). */
  function CellRow(h: House, k: int): int
  {
    match h
    case RowHouse(row) => row
    case ColHouse(_) => k + 1
    case BoxHouse(sr, _) => BoxRow(sr, k)
  }

  function CellCol(h: House, k: int): int
  {
    match h
    case RowHouse(_) => k + 1
    case ColHouse(col) => col
    case BoxHouse(_, sc) => BoxCol(sc, k)
  }

  /** The cells of a house lie on the board, and different numbers name different cells of that house. */
  lemma HouseCells(h: House, k1: int, k2: int)
    requires ValidHouse(h) && 0 <= k1 < 9 && 0 <= k2 < 9
    ensures InRange(CellRow(h, k1)) && InRange(CellCol(h, k1))
    ensures SameHouse(CellRow(h, k1), CellCol(h, k1), CellRow(h, k2), CellCol(h, k2))
    ensures k1 != k2 ==> (CellRow(h, k1), CellCol(h, k1)) != (CellRow(h, k2), CellCol(h, k2))
  {
    if h.BoxHouse? {
      BoxCellInBox(h.sr, h.sc, k1);
      BoxCellInBox(h.sr, h.sc, k2);
      if k1 != k2 {
        BoxCellDistinct(h.sr, h.sc, k1, k2);
      }
    }
  }

  /** Cell k of the house holds val. */
  predicate HouseHolds(a: Assignment, h: House, k: int, val: int)
  {
    Holds(a, CellRow(h, k), CellCol(h, k), val)
  }

  /** The house holds val in some cell. */
  ghost predicate HouseHas(a: Assignment, h: House, val: int)
  {
    exists k :: 0 <= k < 9 && HouseHolds(a, h, k, val)
  }

  /** Every row, column and sub-grid holds every value. */
  ghost predicate HousesFull(a: Assignment)
  {
    forall h, val :: ValidHouse(h) && InRange(val) ==> HouseHas(a, h, val)
  }

  /** A satisfied clause of positive literals f(lo), ..., f(hi - 1) has a true variable. */
  lemma PositiveUnitsSat(a: Assignment, lo: int, hi: int, f: int -> seq<int>, lit: int)
    requires lit in ConcatMap(lo, hi, f) && LitTrue(a, lit)
    requires forall i :: lo <= i < hi ==> |f(i)| == 1 && f(i)[0] > 0
    ensures exists i :: lo <= i < hi && a(f(i)[0])
  {
    ConcatMapMember(lo, hi, f, lit);
    var i :| lo <= i < hi && lit in f(i);
    assert lit == f(i)[0];
  }

  lemma AloCellSat(a: Assignment, row: int, col: int)
    requires InRange(row) && InRange(col) && ClauseSat(a, AloCell(row, col, 10))
    ensures CellHasValue(a, row, col)
  {
    var lit :| lit in AloCell(row, col, 10) && LitTrue(a, lit);
    var f := val => [CnfIdentifier(row, col, val)];
    PositiveUnitsSat(a, 1, 10, f, lit);
    var val :| 1 <= val < 10 && a(f(val)[0]);
    assert Holds(a, row, col, val);
  }

  lemma AloRowContains(row: int, col: int, n: int)
    requires 1 <= col < n
    ensures AloCell(row, col, 10) in AloRowUpto(row, n)
  {
    var f := c => [AloCell(row, c, 10)];
    ConcatMapSubsetOf(1, n, f, col, f(col), AloRowUpto(row, n));
  }

  lemma AloContains(row: int, col: int, n: int)
    requires 1 <= row < n && InRange(col)
    ensures AloCell(row, col, 10) in AloUpto(n)
  {
    AloRowContains(row, col, 10);
    var g := r => AloRowUpto(r, 10);
    ConcatMapSubsetOf(1, n, g, row, g(row), AloUpto(n));
  }

  /** A model of the at-least-one family fills every cell. */
  lemma AtLeastOneMeaning(a: Assignment)
    requires AllSat(a, AloUpto(10))
    ensures EveryCellFilled(a)
  {
    forall row, col | InRange(row) && InRange(col)
      ensures CellHasValue(a, row, col)
    {
      AloContains(row, col, 10);
      AloCellSat(a, row, col);
    }
  }

  /** A satisfied clause list holding "not both (row1, col1, val1) and (row2, col2, val2)" forbids the pair. */
  lemma NegPairIn(a: Assignment, clauses: seq<Clause>, row1: int, col1: int, val1: int, row2: int, col2: int, val2: int)
    requires InRange(row1) && InRange(col1) && InRange(val1) && InRange(row2) && InRange(col2) && InRange(val2)
    requires AllSat(a, clauses) && [-CnfIdentifier(row1, col1, val1), -CnfIdentifier(row2, col2, val2)] in clauses
    ensures !(Holds(a, row1, col1, val1) && Holds(a, row2, col2, val2))
  {
    SatNegPair(a, CnfIdentifier(row1, col1, val1), CnfIdentifier(row2, col2, val2));
  }

  /** A model of the at-most-one family puts at most one value in a cell. */
  lemma AtMostOneMeaning(a: Assignment)
    requires AllSat(a, AmoUpto(10))
    ensures NoCellTwice(a)
  {
    forall row, col, val1, val2 | InRange(row) && InRange(col) && 1 <= val1 < val2 <= 9
      ensures !(Holds(a, row, col, val1) && Holds(a, row, col, val2))
    {
      AtMostOneComplete(row, col, val1, val2);
      NegPairIn(a, AmoUpto(10), row, col, val1, row, col, val2);
    }
  }

  lemma RowClauseSat(a: Assignment, row: int, val: int)
    requires InRange(row) && InRange(val) && ClauseSat(a, RowHasValue(row, val, 10))
    ensures HouseHas(a, RowHouse(row), val)
  {
    var lit :| lit in RowHasValue(row, val, 10) && LitTrue(a, lit);
    var f := col => [CnfIdentifier(row, col, val)];
    PositiveUnitsSat(a, 1, 10, f, lit);
    var col :| 1 <= col < 10 && a(f(col)[0]);
    assert HouseHolds(a, RowHouse(row), col - 1, val);
  }

  lemma ColClauseSat(a: Assignment, col: int, val: int)
    requires InRange(col) && InRange(val) && ClauseSat(a, ColHasValue(col, val, 10))
    ensures HouseHas(a, ColHouse(col), val)
  {
    var lit :| lit in ColHasValue(col, val, 10) && LitTrue(a, lit);
    var f := row => [CnfIdentifier(row, col, val)];
    PositiveUnitsSat(a, 1, 10, f, lit);
    var row :| 1 <= row < 10 && a(f(row)[0]);
    assert HouseHolds(a, ColHouse(col), row - 1, val);
  }

  /** The cell (row, col), both 1..3, of sub-grid (sr, sc) has index (row - 1) + 3 * (col - 1). */
  lemma BoxIndexOf(sr: int, sc: int, row: int, col: int) returns (index: int)
    requires 1 <= row <= 3 && 1 <= col <= 3
    ensures 0 <= index < 9 && BoxRow(sr, index) == row + 3 * sr && BoxCol(sc, index) == col + 3 * sc
  {
    index := (row - 1) + 3 * (col - 1);
    DivModUnique(index, 3, col - 1, row - 1);
  }

  /** A true literal of row `row` of a sub-grid clause puts val in one of the sub-grid's cells. */
  lemma BoxRowLitSat(a: Assignment, sr: int, sc: int, val: int, row: int, lit: int)
    requires 0 <= sr < 3 && 0 <= sc < 3 && InRange(val) && 1 <= row <= 3
    requires lit in BoxRowHasValue(sr, sc, val, row, 4) && LitTrue(a, lit)
    ensures HouseHas(a, BoxHouse(sr, sc), val)
  {
    var f := col => [CnfIdentifier(row + 3 * sr, col + 3 * sc, val)];
    forall col | 1 <= col < 4
      ensures |f(col)| == 1 && f(col)[0] > 0
    {
      assert InRange(row + 3 * sr) && InRange(col + 3 * sc);
      assert CnfIdentifier(row + 3 * sr, col + 3 * sc, val) >= 1;
      assert f(col) == [CnfIdentifier(row + 3 * sr, col + 3 * sc, val)];
    }
    PositiveUnitsSat(a, 1, 4, f, lit);
    var col :| 1 <= col < 4 && a(f(col)[0]);
    var index := BoxIndexOf(sr, sc, row, col);
    assert HouseHolds(a, BoxHouse(sr, sc), index, val);
  }

  lemma BoxClauseSat(a: Assignment, sr: int, sc: int, val: int)
    requires ClauseSat(a, BoxHasValue(sr, sc, val, 4))
    requires 0 <= sr < 3 && 0 <= sc < 3 && InRange(val)
    ensures HouseHas(a, BoxHouse(sr, sc), val)
  {
    var lit :| lit in BoxHasValue(sr, sc, val, 4) && LitTrue(a, lit);
    var g := row => BoxRowHasValue(sr, sc, val, row, 4);
    ConcatMapMember(1, 4, g, lit);
    var row :| 1 <= row < 4 && lit in g(row);
    BoxRowLitSat(a, sr, sc, val, row, lit);
  }

  /** A model of the all-values family puts every value in every house. */
  lemma AllValuesMeaning(a: Assignment)
    requires AllSat(a, AllValues())
    ensures HousesFull(a)
  {
    AllSatAppend(a, RowsAllUpto(10) + ColsAllUpto(10), BoxesAllUpto(3));
    AllSatAppend(a, RowsAllUpto(10), ColsAllUpto(10));
    forall h, val | ValidHouse(h) && InRange(val)
      ensures HouseHas(a, h, val)
    {
      match h
      case RowHouse(row) =>
        RowsAllComplete(row, val);
        RowClauseSat(a, row, val);
      case ColHouse(col) =>
        ColsAllComplete(col, val);
        ColClauseSat(a, col, val);
      case BoxHouse(sr, sc) =>
        BoxesAllComplete(sr, sc, val);
        BoxClauseSat(a, sr, sc, val);
    }
  }

  /** A model of the unique-values family never repeats a value in a house. */
  lemma UniqueValuesMeaning(a: Assignment)
    requires AllSat(a, UniqueValues())
    ensures HousesDistinct(a)
  {
    forall row1, col1, row2, col2, val |
      InRange(row1) && InRange(col1) && InRange(row2) && InRange(col2) && InRange(val)
      && (row1, col1) != (row2, col2) && SameHouse(row1, col1, row2, col2)
      ensures !(Holds(a, row1, col1, val) && Holds(a, row2, col2, val))
    {
      UniqueValuesComplete(row1, col1, row2, col2, val);
      if [-CnfIdentifier(row1, col1, val), -CnfIdentifier(row2, col2, val)] in UniqueValues() {
        NegPairIn(a, UniqueValues(), row1, col1, val, row2, col2, val);
      } else {
        NegPairIn(a, UniqueValues(), row2, col2, val, row1, col1, val);
      }
    }
  }

  /** A model of the clue units gives every clue's cell the clue's value. */
  lemma CluesMeaning(a: Assignment, clues: Grid)
    requires AllSat(a, ClueClauses(clues))
    ensures RespectsClues(a, clues)
  {
    forall row, col | 0 <= row < |clues| && 0 <= col < |clues[row]| && clues[row][col].Some? && InRange(clues[row][col].value)
      ensures Holds(a, row + 1, col + 1, clues[row][col].value)
    {
      CluesComplete(clues, row, col, clues[row][col].value);
      SatUnit(a, CnfIdentifier(row + 1, col + 1, clues[row][col].value));
    }
  }


  // ---------------------------------------------------------------------
  // Counting inside one house: nine cells and nine values, so "every cell
  // filled and no value repeated" and "every value present and no cell
  // holding two" each imply the other two facts.

  ghost predicate HouseFilled(a: Assignment, h: House)
  {
    forall k :: 0 <= k < 9 ==> CellHasValue(a, CellRow(h, k), CellCol(h, k))
  }

  ghost predicate HouseSingle(a: Assignment, h: House)
  {
    forall k, val1, val2 :: 0 <= k < 9 && InRange(val1) && InRange(val2) && HouseHolds(a, h, k, val1) && HouseHolds(a, h, k, val2)
      ==> val1 == val2
  }

  ghost predicate HouseDistinct(a: Assignment, h: House)
  {
    forall k1, k2, val :: 0 <= k1 < 9 && 0 <= k2 < 9 && k1 != k2 && InRange(val) && HouseHolds(a, h, k1, val)
      ==> !HouseHolds(a, h, k2, val)
  }

  ghost predicate HouseComplete(a: Assignment, h: House)
  {
    forall val :: InRange(val) ==> HouseHas(a, h, val)
  }

  /** Cell k of the house holds value y + 1 (cells and values both numbered from 0). */
  function CellsRel(a: Assignment, h: House): (int, int) -> bool
  {
    (k: int, y: int) => HouseHolds(a, h, k, y + 1)
  }

  /** The same relation read from the value side. */
  function ValuesRel(a: Assignment, h: House): (int, int) -> bool
  {
    (y: int, k: int) => HouseHolds(a, h, k, y + 1)
  }

  lemma FilledCellRight(a: Assignment, h: House, k: int)
    requires 0 <= k < 9 && CellHasValue(a, CellRow(h, k), CellCol(h, k))
    ensures HasRight(CellsRel(a, h), 9, k)
  {
    var val :| InRange(val) && Holds(a, CellRow(h, k), CellCol(h, k), val);
    assert CellsRel(a, h)(k, val - 1);
  }

  lemma CellLeftHas(a: Assignment, h: House, y: int)
    requires HasLeft(CellsRel(a, h), 9, y)
    ensures HouseHas(a, h, y + 1)
  {
    var k :| 0 <= k < 9 && CellsRel(a, h)(k, y);
    assert HouseHolds(a, h, k, y + 1);
  }

  lemma ValueRight(a: Assignment, h: House, y: int)
    requires 0 <= y < 9 && HouseHas(a, h, y + 1)
    ensures HasRight(ValuesRel(a, h), 9, y)
  {
    var k :| 0 <= k < 9 && HouseHolds(a, h, k, y + 1);
    assert ValuesRel(a, h)(y, k);
  }

  lemma ValueLeftFilled(a: Assignment, h: House, k: int)
    requires HasLeft(ValuesRel(a, h), 9, k)
    ensures CellHasValue(a, CellRow(h, k), CellCol(h, k))
  {
    var y :| 0 <= y < 9 && ValuesRel(a, h)(y, k);
    assert Holds(a, CellRow(h, k), CellCol(h, k), y + 1);
  }

  lemma CellsAllRight(a: Assignment, h: House)
    requires HouseFilled(a, h)
    ensures forall k :: 0 <= k < 9 ==> HasRight(CellsRel(a, h), 9, k)
  {
    forall k | 0 <= k < 9
      ensures HasRight(CellsRel(a, h), 9, k)
    {
      FilledCellRight(a, h, k);
    }
  }

  lemma CellsInjective(a: Assignment, h: House, k1: int, k2: int, y: int)
    requires HouseDistinct(a, h) && 0 <= k1 < 9 && 0 <= k2 < 9 && 0 <= y < 9
    requires CellsRel(a, h)(k1, y) && CellsRel(a, h)(k2, y)
    ensures k1 == k2
  {
    assert HouseHolds(a, h, k1, y + 1);
  }

  lemma CellsFunctional(a: Assignment, h: House, k: int, val1: int, val2: int)
    requires 0 <= k < 9 && InRange(val1) && InRange(val2) && HouseHolds(a, h, k, val1) && HouseHolds(a, h, k, val2)
    requires forall k, y1, y2 :: 0 <= k < 9 && 0 <= y1 < 9 && 0 <= y2 < 9 && CellsRel(a, h)(k, y1) && CellsRel(a, h)(k, y2) ==> y1 == y2
    ensures val1 == val2
  {
    assert CellsRel(a, h)(k, val1 - 1) && CellsRel(a, h)(k, val2 - 1);
  }

  /** A house with every cell filled and no value repeated holds every value, each cell just one. */
  lemma FilledDistinctHouse(a: Assignment, h: House)
    requires HouseFilled(a, h) && HouseDistinct(a, h)
    ensures HouseComplete(a, h) && HouseSingle(a, h)
  {
    CellsAllRight(a, h);
    forall k1, k2, y | 0 <= k1 < 9 && 0 <= k2 < 9 && 0 <= y < 9 && CellsRel(a, h)(k1, y) && CellsRel(a, h)(k2, y)
      ensures k1 == k2
    {
      CellsInjective(a, h, k1, k2, y);
    }
    Matching(9, CellsRel(a, h));
    forall val | InRange(val)
      ensures HouseHas(a, h, val)
    {
      CellLeftHas(a, h, val - 1);
    }
    forall k, val1, val2 | 0 <= k < 9 && InRange(val1) && InRange(val2) && HouseHolds(a, h, k, val1) && HouseHolds(a, h, k, val2)
      ensures val1 == val2
    {
      CellsFunctional(a, h, k, val1, val2);
    }
  }

  lemma ValuesAllRight(a: Assignment, h: House)
    requires HouseComplete(a, h)
    ensures forall y :: 0 <= y < 9 ==> HasRight(ValuesRel(a, h), 9, y)
  {
    forall y | 0 <= y < 9
      ensures HasRight(ValuesRel(a, h), 9, y)
    {
      ValueRight(a, h, y);
    }
  }

  lemma ValuesInjective(a: Assignment, h: House, y1: int, y2: int, k: int)
    requires HouseSingle(a, h) && 0 <= y1 < 9 && 0 <= y2 < 9 && 0 <= k < 9
    requires ValuesRel(a, h)(y1, k) && ValuesRel(a, h)(y2, k)
    ensures y1 == y2
  {
    assert HouseHolds(a, h, k, y1 + 1) && HouseHolds(a, h, k, y2 + 1);
  }

  lemma ValuesFunctional(a: Assignment, h: House, k1: int, k2: int, val: int)
    requires 0 <= k1 < 9 && 0 <= k2 < 9 && InRange(val) && HouseHolds(a, h, k1, val) && HouseHolds(a, h, k2, val)
    requires forall y, k1, k2 :: 0 <= y < 9 && 0 <= k1 < 9 && 0 <= k2 < 9 && ValuesRel(a, h)(y, k1) && ValuesRel(a, h)(y, k2) ==> k1 == k2
    ensures k1 == k2
  {
    assert ValuesRel(a, h)(val - 1, k1) && ValuesRel(a, h)(val - 1, k2);
  }

  /** A house holding every value, no cell holding two, has every cell filled and no value repeated. */
  lemma SingleCompleteHouse(a: Assignment, h: House)
    requires HouseSingle(a, h) && HouseComplete(a, h)
    ensures HouseFilled(a, h) && HouseDistinct(a, h)
  {
    ValuesAllRight(a, h);
    forall y1, y2, k | 0 <= y1 < 9 && 0 <= y2 < 9 && 0 <= k < 9 && ValuesRel(a, h)(y1, k) && ValuesRel(a, h)(y2, k)
      ensures y1 == y2
    {
      ValuesInjective(a, h, y1, y2, k);
    }
    Matching(9, ValuesRel(a, h));
    forall k | 0 <= k < 9
      ensures CellHasValue(a, CellRow(h, k), CellCol(h, k))
    {
      ValueLeftFilled(a, h, k);
    }
    forall k1, k2, val | 0 <= k1 < 9 && 0 <= k2 < 9 && k1 != k2 && InRange(val) && HouseHolds(a, h, k1, val)
      ensures !HouseHolds(a, h, k2, val)
    {
      if HouseHolds(a, h, k2, val) {
        ValuesFunctional(a, h, k1, k2, val);
      }
    }
  }

  // From the board to one house and back.

  lemma FilledHouse(a: Assignment, h: House)
    requires ValidHouse(h) && EveryCellFilled(a)
    ensures HouseFilled(a, h)
  {
    forall k | 0 <= k < 9
      ensures CellHasValue(a, CellRow(h, k), CellCol(h, k))
    {
      HouseCells(h, k, k);
    }
  }

  lemma SingleHouse(a: Assignment, h: House)
    requires ValidHouse(h) && NoCellTwice(a)
    ensures HouseSingle(a, h)
  {
    forall k, val1, val2 | 0 <= k < 9 && InRange(val1) && InRange(val2) && HouseHolds(a, h, k, val1) && HouseHolds(a, h, k, val2)
      ensures val1 == val2
    {
      HouseCells(h, k, k);
    }
  }

  lemma DistinctHouse(a: Assignment, h: House)
    requires ValidHouse(h) && HousesDistinct(a)
    ensures HouseDistinct(a, h)
  {
    forall k1, k2, val | 0 <= k1 < 9 && 0 <= k2 < 9 && k1 != k2 && InRange(val) && HouseHolds(a, h, k1, val)
      ensures !HouseHolds(a, h, k2, val)
    {
      HouseCells(h, k1, k2);
    }
  }

  /** Two different cells of one house are cells k1 and k2 of some valid house. */
  lemma CommonHouse(row1: int, col1: int, row2: int, col2: int) returns (h: House, k1: int, k2: int)
    requires InRange(row1) && InRange(col1) && InRange(row2) && InRange(col2) && SameHouse(row1, col1, row2, col2)
    ensures ValidHouse(h) && 0 <= k1 < 9 && 0 <= k2 < 9
    ensures CellRow(h, k1) == row1 && CellCol(h, k1) == col1 && CellRow(h, k2) == row2 && CellCol(h, k2) == col2
  {
    if row1 == row2 {
      h, k1, k2 := RowHouse(row1), col1 - 1, col2 - 1;
    } else if col1 == col2 {
      h, k1, k2 := ColHouse(col1), row1 - 1, row2 - 1;
    } else {
      h, k1, k2 := BoxHouse((row1 - 1) / 3, (col1 - 1) / 3), BoxIndex(row1, col1), BoxIndex(row2, col2);
    }
  }

  lemma RowsFilled(a: Assignment)
    requires forall row :: InRange(row) ==> HouseFilled(a, RowHouse(row))
    ensures EveryCellFilled(a)
  {
    forall row, col | InRange(row) && InRange(col)
      ensures CellHasValue(a, row, col)
    {
      assert CellCol(RowHouse(row), col - 1) == col;
    }
  }

  lemma RowsSingle(a: Assignment)
    requires forall row :: InRange(row) ==> HouseSingle(a, RowHouse(row))
    ensures NoCellTwice(a)
  {
    forall row, col, val1, val2 | InRange(row) && InRange(col) && InRange(val1) && InRange(val2) && Holds(a, row, col, val1) && Holds(a, row, col, val2)
      ensures val1 == val2
    {
      assert HouseHolds(a, RowHouse(row), col - 1, val1) && HouseHolds(a, RowHouse(row), col - 1, val2);
    }
  }

  lemma HousesDistinctFrom(a: Assignment)
    requires forall h :: ValidHouse(h) ==> HouseDistinct(a, h)
    ensures HousesDistinct(a)
  {
    forall row1, col1, row2, col2, val |
      InRange(row1) && InRange(col1) && InRange(row2) && InRange(col2) && InRange(val)
      && (row1, col1) != (row2, col2) && SameHouse(row1, col1, row2, col2) && Holds(a, row1, col1, val)
      ensures !Holds(a, row2, col2, val)
    {
      var h, k1, k2 := CommonHouse(row1, col1, row2, col2);
      assert k1 != k2 && HouseDistinct(a, h) && HouseHolds(a, h, k1, val);
      assert !HouseHolds(a, h, k2, val);
    }
  }

  /** Every cell filled and no house repeating a value leaves no cell with two values. */
  lemma FilledDistinctSingle(a: Assignment)
    requires EveryCellFilled(a) && HousesDistinct(a)
    ensures NoCellTwice(a) && HousesFull(a)
  {
    forall h | ValidHouse(h)
      ensures HouseSingle(a, h) && HouseComplete(a, h)
    {
      FilledHouse(a, h);
      DistinctHouse(a, h);
      FilledDistinctHouse(a, h);
    }
    RowsSingle(a);
  }

  /** No cell with two values and every house holding every value fills every cell without repeats. */
  lemma SingleFullDistinct(a: Assignment)
    requires NoCellTwice(a) && HousesFull(a)
    ensures EveryCellFilled(a) && HousesDistinct(a)
  {
    forall h | ValidHouse(h)
      ensures HouseFilled(a, h) && HouseDistinct(a, h)
    {
      SingleHouse(a, h);
      SingleCompleteHouse(a, h);
    }
    RowsFilled(a);
    HousesDistinctFrom(a);
  }


  // ---------------------------------------------------------------------
  // What the encoding as a whole means.

  /** A model of the encoding's clauses satisfies every family that is switched on, and the clues. */
  lemma SudokuClausesSat(a: Assignment, clues: Grid, atLeastOne: bool, atMostOne: bool, hasAllValues: bool, hasUniqueValues: bool)
    requires AllSat(a, SudokuClauses(clues, atLeastOne, atMostOne, hasAllValues, hasUniqueValues))
    ensures atLeastOne ==> AllSat(a, AloUpto(10))
    ensures atMostOne ==> AllSat(a, AmoUpto(10))
    ensures hasAllValues ==> AllSat(a, AllValues())
    ensures hasUniqueValues ==> AllSat(a, UniqueValues())
    ensures AllSat(a, ClueClauses(clues))
  {
    var f1 := Family(atLeastOne, AloUpto(10));
    var f2 := Family(atMostOne, AmoUpto(10));
    var f3 := Family(hasAllValues, AllValues());
    var f4 := Family(hasUniqueValues, UniqueValues());
    AllSatAppend(a, f1 + f2 + f3 + f4, ClueClauses(clues));
    AllSatParts(a, f1, f2, f3, f4);
  }

  /**
   * With at least one value per cell and unique values per house, or with
   * at most one value per cell and all values per house, every model of the
   * clauses is a solved board that agrees with the clues.
   */
  lemma EncodingSound(a: Assignment, clues: Grid, atLeastOne: bool, atMostOne: bool, hasAllValues: bool, hasUniqueValues: bool)
    requires (atLeastOne && hasUniqueValues) || (atMostOne && hasAllValues)
    requires AllSat(a, SudokuClauses(clues, atLeastOne, atMostOne, hasAllValues, hasUniqueValues))
    ensures SolvesClues(a, clues)
  {
    SudokuClausesSat(a, clues, atLeastOne, atMostOne, hasAllValues, hasUniqueValues);
    CluesMeaning(a, clues);
    if atLeastOne && hasUniqueValues {
      AtLeastOneMeaning(a);
      UniqueValuesMeaning(a);
      FilledDistinctSingle(a);
    } else {
      AtMostOneMeaning(a);
      AllValuesMeaning(a);
      SingleFullDistinct(a);
    }
  }


  // A solved board that agrees with the clues satisfies every family.

  /** The nine clue values are all 1..9. */
  ghost predicate CluesInRange(clues: Grid)
  {
    forall row, col :: 0 <= row < |clues| && 0 <= col < |clues[row]| && clues[row][col].Some? ==> InRange(clues[row][col].value)
  }

  ghost predicate IsAloCell(clause: Clause)
  {
    exists row, col :: InRange(row) && InRange(col) && clause == AloCell(row, col, 10)
  }

  /** Every clause of the at-least-one family lists the candidates of one cell. */
  lemma AtLeastOneSound()
    ensures forall clause :: clause in AloUpto(10) ==> IsAloCell(clause)
  {
    forall row | 1 <= row < 10
      ensures forall clause :: clause in AloRowUpto(row, 10) ==> IsAloCell(clause)
    {
      forall col | 1 <= col < 10
        ensures forall clause :: clause in [AloCell(row, col, 10)] ==> IsAloCell(clause)
      {
        assert IsAloCell(AloCell(row, col, 10));
      }
      ConcatMapForall(1, 10, col => [AloCell(row, col, 10)], IsAloCell);
    }
    ConcatMapForall(1, 10, row => AloRowUpto(row, 10), IsAloCell);
  }

  /** A true positive literal at some position satisfies the clause. */
  lemma PositiveAt(a: Assignment, clause: Clause, i: int)
    requires 0 <= i < |clause| && clause[i] > 0 && a(clause[i])
    ensures ClauseSat(a, clause)
  {
    assert LitTrue(a, clause[i]);
  }

  lemma AloCellSolved(a: Assignment, row: int, col: int)
    requires InRange(row) && InRange(col) && CellHasValue(a, row, col)
    ensures ClauseSat(a, AloCell(row, col, 10))
  {
    var val :| InRange(val) && Holds(a, row, col, val);
    AloCellLayout(row, col);
    PositiveAt(a, AloCell(row, col, 10), val - 1);
  }

  lemma AloFamilySolved(a: Assignment, clauses: seq<Clause>)
    requires EveryCellFilled(a) && forall clause :: clause in clauses ==> IsAloCell(clause)
    ensures AllSat(a, clauses)
  {
    forall clause | clause in clauses
      ensures ClauseSat(a, clause)
    {
      var row, col :| InRange(row) && InRange(col) && clause == AloCell(row, col, 10);
      AloCellSolved(a, row, col);
    }
  }

  lemma AmoPairSolved(a: Assignment, row: int, col: int, val1: int, val2: int)
    requires NoCellTwice(a) && InRange(row) && InRange(col) && 1 <= val1 < val2 <= 9
    ensures ClauseSat(a, [-CnfIdentifier(row, col, val1), -CnfIdentifier(row, col, val2)])
  {
    var x, y := CnfIdentifier(row, col, val1), CnfIdentifier(row, col, val2);
    assert !(Holds(a, row, col, val1) && Holds(a, row, col, val2));
    assert x > 0 && y > 0 && !(a(x) && a(y));
    SatNegPair(a, x, y);
  }

  lemma AmoFamilySolved(a: Assignment, clauses: seq<Clause>)
    requires NoCellTwice(a) && forall clause :: clause in clauses ==> IsAtMostOnePair(clause)
    ensures AllSat(a, clauses)
  {
    forall clause | clause in clauses
      ensures ClauseSat(a, clause)
    {
      var row, col, val1, val2 :| InRange(row) && InRange(col) && 1 <= val1 < val2 <= 9
        && clause == [-CnfIdentifier(row, col, val1), -CnfIdentifier(row, col, val2)];
      AmoPairSolved(a, row, col, val1, val2);
    }
  }

  lemma RowClauseSolved(a: Assignment, row: int, val: int)
    requires InRange(row) && InRange(val) && HouseHas(a, RowHouse(row), val)
    ensures ClauseSat(a, RowHasValue(row, val, 10))
  {
    var k :| 0 <= k < 9 && HouseHolds(a, RowHouse(row), k, val);
    RowHasValueLayout(row, val);
    PositiveAt(a, RowHasValue(row, val, 10), k);
  }

  lemma ColClauseSolved(a: Assignment, col: int, val: int)
    requires InRange(col) && InRange(val) && HouseHas(a, ColHouse(col), val)
    ensures ClauseSat(a, ColHasValue(col, val, 10))
  {
    var k :| 0 <= k < 9 && HouseHolds(a, ColHouse(col), k, val);
    ColHasValueLayout(col, val);
    PositiveAt(a, ColHasValue(col, val, 10), k);
  }

  lemma BoxClauseSolved(a: Assignment, sr: int, sc: int, val: int)
    requires 0 <= sr < 3 && 0 <= sc < 3 && InRange(val) && HouseHas(a, BoxHouse(sr, sc), val)
    ensures ClauseSat(a, BoxHasValue(sr, sc, val, 4))
  {
    var k :| 0 <= k < 9 && HouseHolds(a, BoxHouse(sr, sc), k, val);
    var row, col := k % 3 + 1, k / 3 + 1;
    assert 1 <= row <= 3 && 1 <= col <= 3;
    assert BoxRow(sr, k) == row + 3 * sr && BoxCol(sc, k) == col + 3 * sc;
    var x := CnfIdentifier(row + 3 * sr, col + 3 * sc, val);
    assert x > 0 && a(x);
    BoxCellLayout(sr, sc, val, row, col);
    PositiveAt(a, BoxHasValue(sr, sc, val, 4), BoxCellIndex(row, col));
  }

  lemma AllValuesFamilySolved(a: Assignment, rows: seq<Clause>, cols: seq<Clause>, boxes: seq<Clause>)
    requires HousesFull(a)
    requires forall clause :: clause in rows ==> IsRowClause(clause)
    requires forall clause :: clause in cols ==> IsColClause(clause)
    requires forall clause :: clause in boxes ==> IsBoxClause(clause)
    ensures AllSat(a, rows + cols + boxes)
  {
    forall clause | clause in rows + cols + boxes
      ensures ClauseSat(a, clause)
    {
      if clause in rows {
        var row, val :| InRange(row) && InRange(val) && clause == RowHasValue(row, val, 10);
        assert ValidHouse(RowHouse(row));
        RowClauseSolved(a, row, val);
      } else if clause in cols {
        var col, val :| InRange(col) && InRange(val) && clause == ColHasValue(col, val, 10);
        assert ValidHouse(ColHouse(col));
        ColClauseSolved(a, col, val);
      } else {
        var sr, sc, val :| 0 <= sr < 3 && 0 <= sc < 3 && InRange(val) && clause == BoxHasValue(sr, sc, val, 4);
        assert ValidHouse(BoxHouse(sr, sc));
        BoxClauseSolved(a, sr, sc, val);
      }
    }
  }

  lemma HousePairSolved(a: Assignment, row1: int, col1: int, row2: int, col2: int, val: int)
    requires HousesDistinct(a)
    requires InRange(row1) && InRange(col1) && InRange(row2) && InRange(col2) && InRange(val)
    requires (row1, col1) != (row2, col2) && SameHouse(row1, col1, row2, col2)
    ensures ClauseSat(a, [-CnfIdentifier(row1, col1, val), -CnfIdentifier(row2, col2, val)])
  {
    var x, y := CnfIdentifier(row1, col1, val), CnfIdentifier(row2, col2, val);
    assert !(Holds(a, row1, col1, val) && Holds(a, row2, col2, val));
    assert x > 0 && y > 0 && !(a(x) && a(y));
    SatNegPair(a, x, y);
  }

  lemma UniqueFamilySolved(a: Assignment, clauses: seq<Clause>)
    requires HousesDistinct(a) && forall clause :: clause in clauses ==> IsHousePair(clause)
    ensures AllSat(a, clauses)
  {
    forall clause | clause in clauses
      ensures ClauseSat(a, clause)
    {
      var row1, col1, row2, col2, val :|
        InRange(row1) && InRange(col1) && InRange(row2) && InRange(col2) && InRange(val)
        && (row1, col1) != (row2, col2) && SameHouse(row1, col1, row2, col2)
        && clause == [-CnfIdentifier(row1, col1, val), -CnfIdentifier(row2, col2, val)];
      HousePairSolved(a, row1, col1, row2, col2, val);
    }
  }

  lemma ClueFamilySolved(a: Assignment, clues: Grid, clauses: seq<Clause>)
    requires RespectsClues(a, clues) && CluesInRange(clues)
    requires forall clause :: clause in clauses ==> IsClueUnit(clues, clause)
    ensures AllSat(a, clauses)
  {
    forall clause | clause in clauses
      ensures ClauseSat(a, clause)
    {
      var row, col :| 0 <= row < |clues| && 0 <= col < |clues[row]| && clues[row][col].Some?
        && clause == [CnfIdentifier(row + 1, col + 1, clues[row][col].value)];
      SatUnit(a, CnfIdentifier(row + 1, col + 1, clues[row][col].value));
    }
  }

  /**
   * Whatever rule families are switched on, a solved board that agrees with
   * clues in 1..9 satisfies every clause of the encoding.
   */
  lemma EncodingComplete(a: Assignment, clues: Grid, atLeastOne: bool, atMostOne: bool, hasAllValues: bool, hasUniqueValues: bool)
    requires SolvesClues(a, clues) && CluesInRange(clues)
    ensures AllSat(a, SudokuClauses(clues, atLeastOne, atMostOne, hasAllValues, hasUniqueValues))
  {
    FilledDistinctSingle(a);
    AtLeastOneSound();
    AloFamilySolved(a, AloUpto(10));
    AtMostOneSound();
    AmoFamilySolved(a, AmoUpto(10));
    RowsAllSound();
    ColsAllSound();
    BoxesAllSound();
    AllValuesFamilySolved(a, RowsAllUpto(10), ColsAllUpto(10), BoxesAllUpto(3));
    UniqueValuesSound();
    UniqueFamilySolved(a, UniqueValues());
    CluesSound(clues);
    ClueFamilySolved(a, clues, ClueClauses(clues));
    var f1 := Family(atLeastOne, AloUpto(10));
    var f2 := Family(atMostOne, AmoUpto(10));
    var f3 := Family(hasAllValues, AllValues());
    var f4 := Family(hasUniqueValues, UniqueValues());
    AllSatAppend(a, f1 + f2 + f3 + f4, ClueClauses(clues));
    AllSatParts(a, f1, f2, f3, f4);
  }

  /**
   * With clues in 1..9 and a sufficient choice of rule families, the models
   * of the clauses are exactly the solved boards that agree with the clues.
   */
  lemma EncodingExact(a: Assignment, clues: Grid, atLeastOne: bool, atMostOne: bool, hasAllValues: bool, hasUniqueValues: bool)
    requires (atLeastOne && hasUniqueValues) || (atMostOne && hasAllValues)
    requires CluesInRange(clues)
    ensures AllSat(a, SudokuClauses(clues, atLeastOne, atMostOne, hasAllValues, hasUniqueValues)) <==> SolvesClues(a, clues)
  {
    if AllSat(a, SudokuClauses(clues, atLeastOne, atMostOne, hasAllValues, hasUniqueValues)) {
      EncodingSound(a, clues, atLeastOne, atMostOne, hasAllValues, hasUniqueValues);
    }
    if SolvesClues(a, clues) {
      EncodingComplete(a, clues, atLeastOne, atMostOne, hasAllValues, hasUniqueValues);
    }
  }

}
