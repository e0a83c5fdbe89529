/**
 * The first binary encoder. Cells store their digit minus one in four bit
 * variables numbered as in the current binary encoding, but an equality
 * variable is defined for every ordered pair of cells and every bit, equal
 * cells included, and is numbered with the first cell weighted 36 / 4 and
 * the second 2916 / 324. The decoder reports a bit as a signed number 1..4.
 * The forbidden-pattern and clue families are those of the current encoder.
 */
module BinaryCnf {
  import opened Base
  import BinaryEncoding

  // ---------------------------------------------------------------------
  // Variable numbering.

  /**
   * The variable "cells (row, col) and (row2, col2) agree on bit `bit`", in
   * the first layout; above every bit variable for in-range arguments.
   */
  function EqCnfIdentifier(row: int, col: int, row2: int, col2: int, bit: int): (id: int)
    ensures InRange(row) && InRange(col) && InRange(row2) && InRange(col2) && BinaryEncoding.IsBit(bit)
      ==> BinaryEncoding.BitVariables < id <= BinaryEncoding.LastEqVariable
  {
    9 * 9 * 4
    + (row - 1) * 4 * 9
    + (col - 1) * 4
    + (row2 - 1) * 4 * 9 * 9 * 9
    + (col2 - 1) * 4 * 9 * 9
    + bit
    + 1
  }

  /** The first layout numbers a pair of cells as the current one numbers the swapped pair. */
  lemma SwappedLayout(row: int, col: int, row2: int, col2: int, bit: int)
    ensures EqCnfIdentifier(row, col, row2, col2, bit) == BinaryEncoding.EqCnfIdentifier(row2, col2, row, col, bit)
  {
  }

  /** Distinct in-range equality variables get distinct identifiers. */
  lemma EqIdentifierInjective(r1: int, c1: int, s1: int, d1: int, b1: int, r2: int, c2: int, s2: int, d2: int, b2: int)
    requires InRange(r1) && InRange(c1) && InRange(s1) && InRange(d1) && BinaryEncoding.IsBit(b1)
    requires InRange(r2) && InRange(c2) && InRange(s2) && InRange(d2) && BinaryEncoding.IsBit(b2)
    requires EqCnfIdentifier(r1, c1, s1, d1, b1) == EqCnfIdentifier(r2, c2, s2, d2, b2)
    ensures r1 == r2 && c1 == c2 && s1 == s2 && d1 == d2 && b1 == b2
  {
    SwappedLayout(r1, c1, s1, d1, b1);
    SwappedLayout(r2, c2, s2, d2, b2);
    BinaryEncoding.EqIdentifierInjective(s1, d1, r1, c1, b1, s2, d2, r2, c2, b2);
  }

  /** Decodes a bit literal into (row, col, ±(bit + 1)), with Rust's truncating `/` and `%`. */
  function IdentifierToTuple(identifier: int): (t: (int, int, int))
    ensures identifier != 0 ==> t.0 >= 1 && InRange(t.1) && 1 <= Abs(t.2) <= 4 && (t.2 > 0 <==> identifier > 0)
    ensures identifier == 0 ==> t == (1, 1, 0)
  {
    var id := Abs(identifier) - 1;
    var bit := RustRem(id, 4) + 1;
    RustNonneg(id, 36);
    RustNonneg(id, 4);
    RustField(id, 9, 4);
    (RustDiv(id, 9 * 4) + 1, RustDiv(RustRem(id, 9 * 4), 4) + 1, if identifier > 0 then bit else -bit)
  }

  /** Decoding either literal of an in-range bit variable gives its cell and its bit plus one, signed. */
  lemma RoundTrip(row: int, col: int, bit: int)
    requires InRange(row) && InRange(col) && BinaryEncoding.IsBit(bit)
    ensures IdentifierToTuple(BinaryEncoding.CnfIdentifier(row, col, bit)) == (row, col, bit + 1)
    ensures IdentifierToTuple(-BinaryEncoding.CnfIdentifier(row, col, bit)) == (row, col, -(bit + 1))
  {
    var id := BinaryEncoding.CnfIdentifier(row, col, bit);
    assert id == (row - 1) * 36 + (col - 1) * 4 + bit + 1;
    Decode(id, row - 1, col - 1, bit);
    DecodeNegated(id);
  }

  /** The negated literal decodes to the same cell with the bit's sign flipped. */
  lemma DecodeNegated(identifier: int)
    requires identifier > 0
    ensures var t := IdentifierToTuple(identifier);
      IdentifierToTuple(-identifier) == (t.0, t.1, -t.2)
  {
    assert Abs(-identifier) == Abs(identifier);
  }

  /** A literal whose variable has the offset fields r, c, b decodes to (r + 1, c + 1, ±(b + 1)). */
  lemma Decode(identifier: int, r: int, c: int, b: int)
    requires 0 <= r < 9 && 0 <= c < 9 && 0 <= b < 4
    requires Abs(identifier) == r * 36 + c * 4 + b + 1
    ensures IdentifierToTuple(identifier) == (r + 1, c + 1, if identifier > 0 then b + 1 else -(b + 1))
  {
    BinaryEncoding.BitFields(Abs(identifier) - 1, r, c, b);
  }

  /** Every literal of a variable in 1..324 decodes to a cell and a signed bit that encode it back. */
  lemma DecodeInRange(identifier: int)
    requires 1 <= Abs(identifier) <= BinaryEncoding.BitVariables
    ensures var (row, col, signedBit) := IdentifierToTuple(identifier);
      && InRange(row) && InRange(col) && 1 <= Abs(signedBit) <= 4
      && (signedBit > 0 <==> identifier > 0)
      && BinaryEncoding.CnfIdentifier(row, col, Abs(signedBit) - 1) == Abs(identifier)
  {
    BinaryEncoding.DecodeInRange(identifier);
  }

  // ---------------------------------------------------------------------
  // Clause families. Each function describes what one level of the
  // encoder's nested loops has pushed once its loop variable reached `n`.

  /** The four clauses that make the equality variable of `bit` true exactly when both cells agree on it. */
  function EqBitClauses(row: int, col: int, row2: int, col2: int, bit: int): seq<Clause>
  {
    var eq := EqCnfIdentifier(row, col, row2, col2, bit);
    var x := BinaryEncoding.CnfIdentifier(row, col, bit);
    var y := BinaryEncoding.CnfIdentifier(row2, col2, bit);
    [[-eq, x, -y], [-eq, -x, y], [eq, -x, -y], [eq, x, y]]
  }

  function EqDefBitsUpto(row: int, col: int, row2: int, col2: int, n: int): seq<Clause>
  {
    ConcatMap(0, n, bit => EqBitClauses(row, col, row2, col2, bit))
  }

  function EqDefCol2Upto(row: int, col: int, row2: int, n: int): seq<Clause>
  {
    ConcatMap(1, n, col2 => EqDefBitsUpto(row, col, row2, col2, 4))
  }

  function EqDefRow2Upto(row: int, col: int, n: int, m: int): seq<Clause>
  {
    ConcatMap(1, n, row2 => EqDefCol2Upto(row, col, row2, m))
  }

  function EqDefColUpto(row: int, n: int, m: int): seq<Clause>
  {
    ConcatMap(1, n, col => EqDefRow2Upto(row, col, m, m))
  }

  function EqDefUpto(n: int, m: int): seq<Clause>
  {
    ConcatMap(1, n, row => EqDefColUpto(row, m, m))
  }

  /** "At least one bit differs": one of the four equality variables of the pair is false. */
  function NeqClause(row: int, col: int, row2: int, col2: int): Clause
  {
    [-EqCnfIdentifier(row, col, row2, col2, 0), -EqCnfIdentifier(row, col, row2, col2, 1),
     -EqCnfIdentifier(row, col, row2, col2, 2), -EqCnfIdentifier(row, col, row2, col2, 3)]
  }

  function RowNeqUpto(row: int, col: int, n: int): seq<Clause>
  {
    ConcatMap(col + 1, n, col2 => [NeqClause(row, col, row, col2)])
  }

  function RowNeqColsUpto(row: int, n: int, m: int): seq<Clause>
  {
    ConcatMap(1, n, col => RowNeqUpto(row, col, m))
  }

  function RowsNeqUpto(n: int, m: int): seq<Clause>
  {
    ConcatMap(1, n, row => RowNeqColsUpto(row, m, m))
  }

  function ColNeqUpto(col: int, row: int, n: int): seq<Clause>
  {
    ConcatMap(row + 1, n, row2 => [NeqClause(row, col, row2, col)])
  }

  function ColNeqRowsUpto(col: int, n: int, m: int): seq<Clause>
  {
    ConcatMap(1, n, row => ColNeqUpto(col, row, m))
  }

  function ColsNeqUpto(n: int, m: int): seq<Clause>
  {
    ConcatMap(1, n, col => ColNeqRowsUpto(col, m, m))
  }

  /** The clause for two cells of sub-grid (sr, sc), given by their indices inside it. */
  function BoxNeqClause(sr: int, sc: int, index1: int, index2: int): Clause
  {
    NeqClause(BoxRow(sr, index1), BoxCol(sc, index1), BoxRow(sr, index2), BoxCol(sc, index2))
  }

  function BoxNeqUpto(sr: int, sc: int, index1: int, n: int): seq<Clause>
  {
    ConcatMap(index1 + 1, n, index2 => [BoxNeqClause(sr, sc, index1, index2)])
  }

  function BoxNeqIndexUpto(sr: int, sc: int, n: int, m: int): seq<Clause>
  {
    ConcatMap(0, n, index1 => BoxNeqUpto(sr, sc, index1, m))
  }

  function BoxesNeqRowUpto(sr: int, n: int, m: int): seq<Clause>
  {
    ConcatMap(0, n, sc => BoxNeqIndexUpto(sr, sc, m, m))
  }

  function BoxesNeqUpto(n: int, k: int, m: int): seq<Clause>
  {
    ConcatMap(0, n, sr => BoxesNeqRowUpto(sr, k, m))
  }

  /** The rule clauses, in the order `sudoku_to_cnf` pushes them. */
  function RuleClauses(): seq<Clause>
  {
    EqDefUpto(10, 10) + RowsNeqUpto(10, 10) + ColsNeqUpto(10, 10) + BoxesNeqUpto(3, 3, 9)
    + BinaryEncoding.ForbiddenUpto(10, 10)
  }

  function SudokuClauses(clues: Grid): seq<Clause>
  {
    RuleClauses() + BinaryEncoding.ClueClauses(clues)
  }

  // ---------------------------------------------------------------------
  // The encoder. Each helper method is one level of the nested loops of
  // `sudoku_to_cnf`; it appends to the clauses pushed so far (`c0`).

  method SudokuToCnf(clues: Grid) returns (clauses: seq<Clause>)
    ensures clauses == SudokuClauses(clues)
  {
    clauses := PushEqDef([]);
    AppendEmpty(EqDefUpto(10, 10));
    clauses := PushRowsNeq(clauses);
    clauses := PushColsNeq(clauses);
    clauses := PushBoxesNeq(clauses);
    clauses := BinaryEncoding.PushForbidden(clauses);
    clauses := BinaryEncoding.PushClues(clauses, clues);
  }

  method PushEqBits(c0: seq<Clause>, row: int, col: int, row2: int, col2: int) returns (clauses: seq<Clause>)
    ensures clauses == c0 + EqDefBitsUpto(row, col, row2, col2, 4)
  {
    clauses := c0;
    for bit := 0 to 4
      invariant clauses == c0 + EqDefBitsUpto(row, col, row2, col2, bit)
    {
      var eq := EqCnfIdentifier(row, col, row2, col2, bit);
      var x := BinaryEncoding.CnfIdentifier(row, col, bit);
      var y := BinaryEncoding.CnfIdentifier(row2, col2, bit);
      AppendAssoc(c0, EqDefBitsUpto(row, col, row2, col2, bit), EqBitClauses(row, col, row2, col2, bit));
      ghost var c1 := clauses;
      clauses := clauses + [[-eq, x, -y]];
      clauses := clauses + [[-eq, -x, y]];
      clauses := clauses + [[eq, -x, -y]];
      clauses := clauses + [[eq, x, y]];
      assert clauses == c1 + EqBitClauses(row, col, row2, col2, bit);
    }
  }

  method PushEqCol2(c0: seq<Clause>, row: int, col: int, row2: int) returns (clauses: seq<Clause>)
    ensures clauses == c0 + EqDefCol2Upto(row, col, row2, 10)
  {
    clauses := c0;
    for col2 := 1 to 10
      invariant clauses == c0 + EqDefCol2Upto(row, col, row2, col2)
    {
      AppendAssoc(c0, EqDefCol2Upto(row, col, row2, col2), EqDefBitsUpto(row, col, row2, col2, 4));
      clauses := PushEqBits(clauses, row, col, row2, col2);
    }
  }

  method PushEqRow2(c0: seq<Clause>, row: int, col: int) returns (clauses: seq<Clause>)
    ensures clauses == c0 + EqDefRow2Upto(row, col, 10, 10)
  {
    clauses := c0;
    for row2 := 1 to 10
      invariant clauses == c0 + EqDefRow2Upto(row, col, row2, 10)
    {
      AppendAssoc(c0, EqDefRow2Upto(row, col, row2, 10), EqDefCol2Upto(row, col, row2, 10));
      clauses := PushEqCol2(clauses, row, col, row2);
    }
  }

  method PushEqCol(c0: seq<Clause>, row: int) returns (clauses: seq<Clause>)
    ensures clauses == c0 + EqDefColUpto(row, 10, 10)
  {
    clauses := c0;
    for col := 1 to 10
      invariant clauses == c0 + EqDefColUpto(row, col, 10)
    {
      AppendAssoc(c0, EqDefColUpto(row, col, 10), EqDefRow2Upto(row, col, 10, 10));
      clauses := PushEqRow2(clauses, row, col);
    }
  }

  method PushEqDef(c0: seq<Clause>) returns (clauses: seq<Clause>)
    ensures clauses == c0 + EqDefUpto(10, 10)
  {
    clauses := c0;
    for row := 1 to 10
      invariant clauses == c0 + EqDefUpto(row, 10)
    {
      AppendAssoc(c0, EqDefUpto(row, 10), EqDefColUpto(row, 10, 10));
      clauses := PushEqCol(clauses, row);
    }
  }

  method PushRowNeq(c0: seq<Clause>, row: int, col: int) returns (clauses: seq<Clause>)
    requires col < 10
    ensures clauses == c0 + RowNeqUpto(row, col, 10)
  {
    clauses := c0;
    for col2 := col + 1 to 10
      invariant clauses == c0 + RowNeqUpto(row, col, col2)
    {
      var neq := [-EqCnfIdentifier(row, col, row, col2, 0), -EqCnfIdentifier(row, col, row, col2, 1),
                  -EqCnfIdentifier(row, col, row, col2, 2), -EqCnfIdentifier(row, col, row, col2, 3)];
      AppendAssoc(c0, RowNeqUpto(row, col, col2), [neq]);
      clauses := clauses + [neq];
    }
  }

  method PushRowNeqCols(c0: seq<Clause>, row: int) returns (clauses: seq<Clause>)
    ensures clauses == c0 + RowNeqColsUpto(row, 10, 10)
  {
    clauses := c0;
    for col := 1 to 10
      invariant clauses == c0 + RowNeqColsUpto(row, col, 10)
    {
      AppendAssoc(c0, RowNeqColsUpto(row, col, 10), RowNeqUpto(row, col, 10));
      clauses := PushRowNeq(clauses, row, col);
    }
  }

  method PushRowsNeq(c0: seq<Clause>) returns (clauses: seq<Clause>)
    ensures clauses == c0 + RowsNeqUpto(10, 10)
  {
    clauses := c0;
    for row := 1 to 10
      invariant clauses == c0 + RowsNeqUpto(row, 10)
    {
      AppendAssoc(c0, RowsNeqUpto(row, 10), RowNeqColsUpto(row, 10, 10));
      clauses := PushRowNeqCols(clauses, row);
    }
  }

  method PushColNeq(c0: seq<Clause>, col: int, row: int) returns (clauses: seq<Clause>)
    requires row < 10
    ensures clauses == c0 + ColNeqUpto(col, row, 10)
  {
    clauses := c0;
    for row2 := row + 1 to 10
      invariant clauses == c0 + ColNeqUpto(col, row, row2)
    {
      var neq := [-EqCnfIdentifier(row, col, row2, col, 0), -EqCnfIdentifier(row, col, row2, col, 1),
                  -EqCnfIdentifier(row, col, row2, col, 2), -EqCnfIdentifier(row, col, row2, col, 3)];
      AppendAssoc(c0, ColNeqUpto(col, row, row2), [neq]);
      clauses := clauses + [neq];
    }
  }

  method PushColNeqRows(c0: seq<Clause>, col: int) returns (clauses: seq<Clause>)
    ensures clauses == c0 + ColNeqRowsUpto(col, 10, 10)
  {
    clauses := c0;
    for row := 1 to 10
      invariant clauses == c0 + ColNeqRowsUpto(col, row, 10)
    {
      AppendAssoc(c0, ColNeqRowsUpto(col, row, 10), ColNeqUpto(col, row, 10));
      clauses := PushColNeq(clauses, col, row);
    }
  }

  method PushColsNeq(c0: seq<Clause>) returns (clauses: seq<Clause>)
    ensures clauses == c0 + ColsNeqUpto(10, 10)
  {
    clauses := c0;
    for col := 1 to 10
      invariant clauses == c0 + ColsNeqUpto(col, 10)
    {
      AppendAssoc(c0, ColsNeqUpto(col, 10), ColNeqRowsUpto(col, 10, 10));
      clauses := PushColNeqRows(clauses, col);
    }
  }

  method PushBoxNeq(c0: seq<Clause>, sr: int, sc: int, index1: int) returns (clauses: seq<Clause>)
    requires 0 <= index1 < 9
    ensures clauses == c0 + BoxNeqUpto(sr, sc, index1, 9)
  {
    clauses := c0;
    for index2 := index1 + 1 to 9
      invariant clauses == c0 + BoxNeqUpto(sr, sc, index1, index2)
    {
      var row := 1 + sr * 3 + index1 % 3;
      var col := 1 + sc * 3 + index1 / 3;
      var row2 := 1 + sr * 3 + index2 % 3;
      var col2 := 1 + sc * 3 + index2 / 3;
      var neq := [-EqCnfIdentifier(row, col, row2, col2, 0), -EqCnfIdentifier(row, col, row2, col2, 1),
                  -EqCnfIdentifier(row, col, row2, col2, 2), -EqCnfIdentifier(row, col, row2, col2, 3)];
      assert row == BoxRow(sr, index1) && col == BoxCol(sc, index1);
      assert row2 == BoxRow(sr, index2) && col2 == BoxCol(sc, index2);
      assert neq == BoxNeqClause(sr, sc, index1, index2);
      BoxNeqStep(sr, sc, index1, index2);
      AppendAssoc(c0, BoxNeqUpto(sr, sc, index1, index2), [neq]);
      clauses := clauses + [neq];
    }
  }

  lemma BoxNeqStep(sr: int, sc: int, index1: int, index2: int)
    requires index1 < index2
    ensures BoxNeqUpto(sr, sc, index1, index2 + 1) == BoxNeqUpto(sr, sc, index1, index2) + [BoxNeqClause(sr, sc, index1, index2)]
  {
    ConcatMapStep(index1 + 1, index2, i => [BoxNeqClause(sr, sc, index1, i)]);
  }

  method PushBoxNeqIndex(c0: seq<Clause>, sr: int, sc: int) returns (clauses: seq<Clause>)
    ensures clauses == c0 + BoxNeqIndexUpto(sr, sc, 9, 9)
  {
    clauses := c0;
    for index1 := 0 to 9
      invariant clauses == c0 + BoxNeqIndexUpto(sr, sc, index1, 9)
    {
      AppendAssoc(c0, BoxNeqIndexUpto(sr, sc, index1, 9), BoxNeqUpto(sr, sc, index1, 9));
      clauses := PushBoxNeq(clauses, sr, sc, index1);
    }
  }

  method PushBoxesNeqRow(c0: seq<Clause>, sr: int) returns (clauses: seq<Clause>)
    ensures clauses == c0 + BoxesNeqRowUpto(sr, 3, 9)
  {
    clauses := c0;
    for sc := 0 to 3
      invariant clauses == c0 + BoxesNeqRowUpto(sr, sc, 9)
    {
      AppendAssoc(c0, BoxesNeqRowUpto(sr, sc, 9), BoxNeqIndexUpto(sr, sc, 9, 9));
      clauses := PushBoxNeqIndex(clauses, sr, sc);
    }
  }

  method PushBoxesNeq(c0: seq<Clause>) returns (clauses: seq<Clause>)
    ensures clauses == c0 + BoxesNeqUpto(3, 3, 9)
  {
    clauses := c0;
    for sr := 0 to 3
      invariant clauses == c0 + BoxesNeqUpto(sr, 3, 9)
    {
      AppendAssoc(c0, BoxesNeqUpto(sr, 3, 9), BoxesNeqRowUpto(sr, 3, 9));
      clauses := PushBoxesNeqRow(clauses, sr);
    }
  }

  // ---------------------------------------------------------------------
  // Decoding a list of clauses.

  method LiteralsToTuples(constraint: Clause) returns (temp: seq<(int, int, int)>)
    ensures |temp| == |constraint|
    ensures forall j :: 0 <= j < |constraint| ==> temp[j] == IdentifierToTuple(constraint[j])
  {
    temp := [];
    for j := 0 to |constraint|
      invariant |temp| == j
      invariant forall k :: 0 <= k < j ==> temp[k] == IdentifierToTuple(constraint[k])
    {
      temp := temp + [IdentifierToTuple(constraint[j])];
    }
  }

  /** Every literal of every clause, decoded; the shape of the list is kept. */
  method CreateTuplesFromConstraints(constraints: seq<Clause>) returns (tuples: seq<seq<(int, int, int)>>)
    ensures |tuples| == |constraints|
    ensures forall i :: 0 <= i < |constraints| ==> |tuples[i]| == |constraints[i]|
    ensures forall i, j :: 0 <= i < |constraints| && 0 <= j < |constraints[i]| ==>
      tuples[i][j] == IdentifierToTuple(constraints[i][j])
  {
    tuples := [];
    for i := 0 to |constraints|
      invariant |tuples| == i
      invariant forall k :: 0 <= k < i ==> |tuples[k]| == |constraints[k]|
      invariant forall k, j :: 0 <= k < i && 0 <= j < |constraints[k]| ==>
        tuples[k][j] == IdentifierToTuple(constraints[k][j])
    {
      var temp := LiteralsToTuples(constraints[i]);
      tuples := tuples + [temp];
    }
  }

  // ---------------------------------------------------------------------
  // The shape of the equality block.

  lemma EqDefBitsShape(row: int, col: int, row2: int, col2: int)
    ensures |EqDefBitsUpto(row, col, row2, col2, 4)| == 16
    ensures forall clause :: clause in EqDefBitsUpto(row, col, row2, col2, 4) ==> |clause| == 3
  {
    var f := bit => EqBitClauses(row, col, row2, col2, bit);
    ConcatMapLength(0, 4, f, 4);
    ConcatMapForall(0, 4, f, clause => |clause| == 3);
  }

  lemma EqDefCol2Shape(row: int, col: int, row2: int)
    ensures |EqDefCol2Upto(row, col, row2, 10)| == 144
    ensures forall clause :: clause in EqDefCol2Upto(row, col, row2, 10) ==> |clause| == 3
  {
    var f := col2 => EqDefBitsUpto(row, col, row2, col2, 4);
    forall col2 | 1 <= col2 < 10
      ensures |f(col2)| == 16 && forall clause :: clause in f(col2) ==> |clause| == 3
    {
      EqDefBitsShape(row, col, row2, col2);
    }
    ConcatMapLength(1, 10, f, 16);
    ConcatMapForall(1, 10, f, clause => |clause| == 3);
  }

  lemma EqDefRow2Shape(row: int, col: int)
    ensures |EqDefRow2Upto(row, col, 10, 10)| == 1296
    ensures forall clause :: clause in EqDefRow2Upto(row, col, 10, 10) ==> |clause| == 3
  {
    var f := row2 => EqDefCol2Upto(row, col, row2, 10);
    forall row2 | 1 <= row2 < 10
      ensures |f(row2)| == 144 && forall clause :: clause in f(row2) ==> |clause| == 3
    {
      EqDefCol2Shape(row, col, row2);
    }
    ConcatMapLength(1, 10, f, 144);
    ConcatMapForall(1, 10, f, clause => |clause| == 3);
  }

  lemma EqDefColShape(row: int)
    ensures |EqDefColUpto(row, 10, 10)| == 11664
    ensures forall clause :: clause in EqDefColUpto(row, 10, 10) ==> |clause| == 3
  {
    var f := col => EqDefRow2Upto(row, col, 10, 10);
    forall col | 1 <= col < 10
      ensures |f(col)| == 1296 && forall clause :: clause in f(col) ==> |clause| == 3
    {
      EqDefRow2Shape(row, col);
    }
    ConcatMapLength(1, 10, f, 1296);
    ConcatMapForall(1, 10, f, clause => |clause| == 3);
  }

  /**
   * The equality block is 81 * 81 cell pairs, equal cells included, times
   * four bits times four clauses, each of three literals.
   */
  lemma EqDefShape()
    ensures |EqDefUpto(10, 10)| == 104976
    ensures forall clause :: clause in EqDefUpto(10, 10) ==> |clause| == 3
  {
    var f := row => EqDefColUpto(row, 10, 10);
    forall row | 1 <= row < 10
      ensures |f(row)| == 11664 && forall clause :: clause in f(row) ==> |clause| == 3
    {
      EqDefColShape(row);
    }
    ConcatMapLength(1, 10, f, 11664);
    ConcatMapForall(1, 10, f, clause => |clause| == 3);
  }

  lemma EqDefCoversUpto(row: int, col: int, row2: int, col2: int, bit: int, n: int, m: int)
    requires 1 <= row < n && 1 <= col < m && 1 <= row2 < m && 1 <= col2 < m && BinaryEncoding.IsBit(bit)
    ensures forall clause :: clause in EqBitClauses(row, col, row2, col2, bit) ==> clause in EqDefUpto(n, m)
  {
    forall clause | clause in EqBitClauses(row, col, row2, col2, bit)
      ensures clause in EqDefUpto(n, m)
    {
      ConcatMapContains(0, 4, b => EqBitClauses(row, col, row2, col2, b), bit, clause);
      ConcatMapContains(1, m, c2 => EqDefBitsUpto(row, col, row2, c2, 4), col2, clause);
      ConcatMapContains(1, m, r2 => EqDefCol2Upto(row, col, r2, m), row2, clause);
      ConcatMapContains(1, m, c => EqDefRow2Upto(row, c, m, m), col, clause);
      ConcatMapContains(1, n, r => EqDefColUpto(r, m, m), row, clause);
    }
  }

  /** The four clauses of every pair of cells and bit, the pair of a cell with itself included, are in the block. */
  lemma EqDefCovers(row: int, col: int, row2: int, col2: int, bit: int)
    requires InRange(row) && InRange(col) && InRange(row2) && InRange(col2) && BinaryEncoding.IsBit(bit)
    ensures forall clause :: clause in EqBitClauses(row, col, row2, col2, bit) ==> clause in EqDefUpto(10, 10)
  {
    EqDefCoversUpto(row, col, row2, col2, bit, 10, 10);
  }

  /** The forbidden-pattern and clue clauses close both binary encodings alike. */
  lemma SharedTail(clues: Grid)
    ensures var tail := BinaryEncoding.ForbiddenUpto(10, 10) + BinaryEncoding.ClueClauses(clues);
      && |SudokuClauses(clues)| >= |tail| && |BinaryEncoding.SudokuClauses(clues)| >= |tail|
      && SudokuClauses(clues)[|SudokuClauses(clues)| - |tail|..] == tail
      && BinaryEncoding.SudokuClauses(clues)[|BinaryEncoding.SudokuClauses(clues)| - |tail|..] == tail
  {
    var forbidden, units := BinaryEncoding.ForbiddenUpto(10, 10), BinaryEncoding.ClueClauses(clues);
    var tail := forbidden + units;
    var legacyHead := EqDefUpto(10, 10) + RowsNeqUpto(10, 10) + ColsNeqUpto(10, 10) + BoxesNeqUpto(3, 3, 9);
    var currentHead := BinaryEncoding.RowsDiffUpto(10, 10) + BinaryEncoding.ColsDiffUpto(10, 10)
      + BinaryEncoding.BoxesDiffUpto(3, 3, 9);
    assert SudokuClauses(clues) == legacyHead + tail by {
      AppendAssoc(legacyHead, forbidden, units);
    }
    assert BinaryEncoding.SudokuClauses(clues) == currentHead + tail by {
      AppendAssoc(currentHead, forbidden, units);
    }
    SuffixOfAppend(legacyHead, tail, |tail|);
    SuffixOfAppend(currentHead, tail, |tail|);
  }

  // ---------------------------------------------------------------------
  // What the clause families mean under a truth assignment.

  /** The equality variable of `bit` is true exactly when the two cells agree on that bit. */
  predicate EqBitCorrect(a: Assignment, row: int, col: int, row2: int, col2: int, bit: int)
  {
    var x, y := BinaryEncoding.CnfIdentifier(row, col, bit), BinaryEncoding.CnfIdentifier(row2, col2, bit);
    a(EqCnfIdentifier(row, col, row2, col2, bit)) <==> (a(x) == a(y))
  }

  predicate EqVarsCorrect(a: Assignment, row: int, col: int, row2: int, col2: int)
  {
    forall bit :: 0 <= bit < 4 ==> EqBitCorrect(a, row, col, row2, col2, bit)
  }

  /** The equality variables of every ordered pair of cells are correct. */
  ghost predicate AllEqVarsCorrect(a: Assignment)
  {
    forall row, col, row2, col2 :: InRange(row) && InRange(col) && InRange(row2) && InRange(col2) ==>
      EqVarsCorrect(a, row, col, row2, col2)
  }

  /** The four clauses of one bit hold exactly when its equality variable is correct. */
  lemma EqBitMeaning(a: Assignment, row: int, col: int, row2: int, col2: int, bit: int)
    requires InRange(row) && InRange(col) && InRange(row2) && InRange(col2) && BinaryEncoding.IsBit(bit)
    ensures AllSat(a, EqBitClauses(row, col, row2, col2, bit)) <==> EqBitCorrect(a, row, col, row2, col2, bit)
  {
    var eq := EqCnfIdentifier(row, col, row2, col2, bit);
    var x := BinaryEncoding.CnfIdentifier(row, col, bit);
    var y := BinaryEncoding.CnfIdentifier(row2, col2, bit);
    XnorClauses(a, eq, x, y);
  }

  // One lemma per loop level: a level's clauses hold exactly when, for every
  // value of its loop variable, the clauses of the level below do, whatever
  // predicate `P` those are known to mean.

  lemma EqDefBitsSat(a: Assignment, row: int, col: int, row2: int, col2: int, n: int, P: int -> bool)
    requires forall bit :: 0 <= bit < n ==> (AllSat(a, EqBitClauses(row, col, row2, col2, bit)) <==> P(bit))
    ensures AllSat(a, EqDefBitsUpto(row, col, row2, col2, n)) <==> forall bit :: 0 <= bit < n ==> P(bit)
  {
    AllSatConcatMapIff(a, 0, n, bit => EqBitClauses(row, col, row2, col2, bit), P);
  }

  lemma EqDefCol2Sat(a: Assignment, row: int, col: int, row2: int, n: int, P: int -> bool)
    requires forall col2 :: 1 <= col2 < n ==> (AllSat(a, EqDefBitsUpto(row, col, row2, col2, 4)) <==> P(col2))
    ensures AllSat(a, EqDefCol2Upto(row, col, row2, n)) <==> forall col2 :: 1 <= col2 < n ==> P(col2)
  {
    AllSatConcatMapIff(a, 1, n, col2 => EqDefBitsUpto(row, col, row2, col2, 4), P);
  }

  lemma EqDefRow2Sat(a: Assignment, row: int, col: int, n: int, m: int, P: int -> bool)
    requires forall row2 :: 1 <= row2 < n ==> (AllSat(a, EqDefCol2Upto(row, col, row2, m)) <==> P(row2))
    ensures AllSat(a, EqDefRow2Upto(row, col, n, m)) <==> forall row2 :: 1 <= row2 < n ==> P(row2)
  {
    AllSatConcatMapIff(a, 1, n, row2 => EqDefCol2Upto(row, col, row2, m), P);
  }

  lemma EqDefColSat(a: Assignment, row: int, n: int, m: int, P: int -> bool)
    requires forall col :: 1 <= col < n ==> (AllSat(a, EqDefRow2Upto(row, col, m, m)) <==> P(col))
    ensures AllSat(a, EqDefColUpto(row, n, m)) <==> forall col :: 1 <= col < n ==> P(col)
  {
    AllSatConcatMapIff(a, 1, n, col => EqDefRow2Upto(row, col, m, m), P);
  }

  lemma EqDefSat(a: Assignment, n: int, m: int, P: int -> bool)
    requires forall row :: 1 <= row < n ==> (AllSat(a, EqDefColUpto(row, m, m)) <==> P(row))
    ensures AllSat(a, EqDefUpto(n, m)) <==> forall row :: 1 <= row < n ==> P(row)
  {
    AllSatConcatMapIff(a, 1, n, row => EqDefColUpto(row, m, m), P);
  }

  lemma RowNeqSat(a: Assignment, row: int, col: int, n: int, P: int -> bool)
    requires forall col2 :: col < col2 < n ==> (AllSat(a, [NeqClause(row, col, row, col2)]) <==> P(col2))
    ensures AllSat(a, RowNeqUpto(row, col, n)) <==> forall col2 :: col < col2 < n ==> P(col2)
  {
    AllSatConcatMapIff(a, col + 1, n, col2 => [NeqClause(row, col, row, col2)], P);
  }

  lemma RowNeqColsSat(a: Assignment, row: int, n: int, m: int, P: int -> bool)
    requires forall col :: 1 <= col < n ==> (AllSat(a, RowNeqUpto(row, col, m)) <==> P(col))
    ensures AllSat(a, RowNeqColsUpto(row, n, m)) <==> forall col :: 1 <= col < n ==> P(col)
  {
    AllSatConcatMapIff(a, 1, n, col => RowNeqUpto(row, col, m), P);
  }

  lemma RowsNeqSat(a: Assignment, n: int, m: int, P: int -> bool)
    requires forall row :: 1 <= row < n ==> (AllSat(a, RowNeqColsUpto(row, m, m)) <==> P(row))
    ensures AllSat(a, RowsNeqUpto(n, m)) <==> forall row :: 1 <= row < n ==> P(row)
  {
    AllSatConcatMapIff(a, 1, n, row => RowNeqColsUpto(row, m, m), P);
  }

  lemma ColNeqSat(a: Assignment, col: int, row: int, n: int, P: int -> bool)
    requires forall row2 :: row < row2 < n ==> (AllSat(a, [NeqClause(row, col, row2, col)]) <==> P(row2))
    ensures AllSat(a, ColNeqUpto(col, row, n)) <==> forall row2 :: row < row2 < n ==> P(row2)
  {
    AllSatConcatMapIff(a, row + 1, n, row2 => [NeqClause(row, col, row2, col)], P);
  }

  lemma ColNeqRowsSat(a: Assignment, col: int, n: int, m: int, P: int -> bool)
    requires forall row :: 1 <= row < n ==> (AllSat(a, ColNeqUpto(col, row, m)) <==> P(row))
    ensures AllSat(a, ColNeqRowsUpto(col, n, m)) <==> forall row :: 1 <= row < n ==> P(row)
  {
    AllSatConcatMapIff(a, 1, n, row => ColNeqUpto(col, row, m), P);
  }

  lemma ColsNeqSat(a: Assignment, n: int, m: int, P: int -> bool)
    requires forall col :: 1 <= col < n ==> (AllSat(a, ColNeqRowsUpto(col, m, m)) <==> P(col))
    ensures AllSat(a, ColsNeqUpto(n, m)) <==> forall col :: 1 <= col < n ==> P(col)
  {
    AllSatConcatMapIff(a, 1, n, col => ColNeqRowsUpto(col, m, m), P);
  }

  lemma BoxNeqSat(a: Assignment, sr: int, sc: int, index1: int, n: int, P: int -> bool)
    requires forall index2 :: index1 < index2 < n ==> (AllSat(a, [BoxNeqClause(sr, sc, index1, index2)]) <==> P(index2))
    ensures AllSat(a, BoxNeqUpto(sr, sc, index1, n)) <==> forall index2 :: index1 < index2 < n ==> P(index2)
  {
    AllSatConcatMapIff(a, index1 + 1, n, index2 => [BoxNeqClause(sr, sc, index1, index2)], P);
  }

  lemma BoxNeqIndexSat(a: Assignment, sr: int, sc: int, n: int, m: int, P: int -> bool)
    requires forall index1 :: 0 <= index1 < n ==> (AllSat(a, BoxNeqUpto(sr, sc, index1, m)) <==> P(index1))
    ensures AllSat(a, BoxNeqIndexUpto(sr, sc, n, m)) <==> forall index1 :: 0 <= index1 < n ==> P(index1)
  {
    AllSatConcatMapIff(a, 0, n, index1 => BoxNeqUpto(sr, sc, index1, m), P);
  }

  lemma BoxesNeqRowSat(a: Assignment, sr: int, n: int, m: int, P: int -> bool)
    requires forall sc :: 0 <= sc < n ==> (AllSat(a, BoxNeqIndexUpto(sr, sc, m, m)) <==> P(sc))
    ensures AllSat(a, BoxesNeqRowUpto(sr, n, m)) <==> forall sc :: 0 <= sc < n ==> P(sc)
  {
    AllSatConcatMapIff(a, 0, n, sc => BoxNeqIndexUpto(sr, sc, m, m), P);
  }

  lemma BoxesNeqSat(a: Assignment, n: int, k: int, m: int, P: int -> bool)
    requires forall sr :: 0 <= sr < n ==> (AllSat(a, BoxesNeqRowUpto(sr, k, m)) <==> P(sr))
    ensures AllSat(a, BoxesNeqUpto(n, k, m)) <==> forall sr :: 0 <= sr < n ==> P(sr)
  {
    AllSatConcatMapIff(a, 0, n, sr => BoxesNeqRowUpto(sr, k, m), P);
  }

  // The equality block, level by level. Each predicate says that the
  // equality variables a level defines are correct.

  lemma EqDefBitsMeaning(a: Assignment, row: int, col: int, row2: int, col2: int)
    requires InRange(row) && InRange(col) && InRange(row2) && InRange(col2)
    ensures AllSat(a, EqDefBitsUpto(row, col, row2, col2, 4)) <==> EqVarsCorrect(a, row, col, row2, col2)
  {
    forall bit | 0 <= bit < 4
      ensures AllSat(a, EqBitClauses(row, col, row2, col2, bit)) <==> EqBitCorrect(a, row, col, row2, col2, bit)
    {
      EqBitMeaning(a, row, col, row2, col2, bit);
    }
    EqDefBitsSat(a, row, col, row2, col2, 4, bit => EqBitCorrect(a, row, col, row2, col2, bit));
  }

  predicate EqCol2Correct(a: Assignment, row: int, col: int, row2: int, n: int)
  {
    forall col2 :: 1 <= col2 < n ==> EqVarsCorrect(a, row, col, row2, col2)
  }

  lemma EqDefCol2Meaning(a: Assignment, row: int, col: int, row2: int, n: int)
    requires InRange(row) && InRange(col) && InRange(row2) && n <= 10
    ensures AllSat(a, EqDefCol2Upto(row, col, row2, n)) <==> EqCol2Correct(a, row, col, row2, n)
  {
    forall col2 | 1 <= col2 < n
      ensures AllSat(a, EqDefBitsUpto(row, col, row2, col2, 4)) <==> EqVarsCorrect(a, row, col, row2, col2)
    {
      EqDefBitsMeaning(a, row, col, row2, col2);
    }
    EqDefCol2Sat(a, row, col, row2, n, col2 => EqVarsCorrect(a, row, col, row2, col2));
  }

  predicate EqRow2Correct(a: Assignment, row: int, col: int, n: int, m: int)
  {
    forall row2 :: 1 <= row2 < n ==> EqCol2Correct(a, row, col, row2, m)
  }

  lemma EqDefRow2Meaning(a: Assignment, row: int, col: int, n: int, m: int)
    requires InRange(row) && InRange(col) && n <= 10 && m <= 10
    ensures AllSat(a, EqDefRow2Upto(row, col, n, m)) <==> EqRow2Correct(a, row, col, n, m)
  {
    forall row2 | 1 <= row2 < n
      ensures AllSat(a, EqDefCol2Upto(row, col, row2, m)) <==> EqCol2Correct(a, row, col, row2, m)
    {
      EqDefCol2Meaning(a, row, col, row2, m);
    }
    EqDefRow2Sat(a, row, col, n, m, row2 => EqCol2Correct(a, row, col, row2, m));
  }

  predicate EqColCorrect(a: Assignment, row: int, n: int, m: int)
  {
    forall col :: 1 <= col < n ==> EqRow2Correct(a, row, col, m, m)
  }

  lemma EqDefColMeaning(a: Assignment, row: int, n: int, m: int)
    requires InRange(row) && n <= 10 && m <= 10
    ensures AllSat(a, EqDefColUpto(row, n, m)) <==> EqColCorrect(a, row, n, m)
  {
    forall col | 1 <= col < n
      ensures AllSat(a, EqDefRow2Upto(row, col, m, m)) <==> EqRow2Correct(a, row, col, m, m)
    {
      EqDefRow2Meaning(a, row, col, m, m);
    }
    EqDefColSat(a, row, n, m, col => EqRow2Correct(a, row, col, m, m));
  }

  predicate EqUptoCorrect(a: Assignment, n: int, m: int)
  {
    forall row :: 1 <= row < n ==> EqColCorrect(a, row, m, m)
  }

  lemma EqDefUptoMeaning(a: Assignment, n: int, m: int)
    requires n <= 10 && m <= 10
    ensures AllSat(a, EqDefUpto(n, m)) <==> EqUptoCorrect(a, n, m)
  {
    forall row | 1 <= row < n
      ensures AllSat(a, EqDefColUpto(row, m, m)) <==> EqColCorrect(a, row, m, m)
    {
      EqDefColMeaning(a, row, m, m);
    }
    EqDefSat(a, n, m, row => EqColCorrect(a, row, m, m));
  }

  /** The level predicates, taken together, say that every equality variable is correct. */
  lemma EqUptoCorrectAll(a: Assignment)
    ensures EqUptoCorrect(a, 10, 10) <==> AllEqVarsCorrect(a)
  {
    if EqUptoCorrect(a, 10, 10) {
      forall row, col, row2, col2 | InRange(row) && InRange(col) && InRange(row2) && InRange(col2)
        ensures EqVarsCorrect(a, row, col, row2, col2)
      {
        assert EqColCorrect(a, row, 10, 10);
        assert EqRow2Correct(a, row, col, 10, 10);
        assert EqCol2Correct(a, row, col, row2, 10);
      }
    }
  }

  /** The equality block holds exactly when every equality variable records whether its cells agree on its bit. */
  lemma EqDefMeaning(a: Assignment)
    ensures AllSat(a, EqDefUpto(10, 10)) <==> AllEqVarsCorrect(a)
  {
    EqDefUptoMeaning(a, 10, 10);
    EqUptoCorrectAll(a);
  }

  // The "some bit differs" clauses.

  /** The "some bit differs" clause holds exactly when one of the four equality variables is false. */
  lemma NeqMeaning(a: Assignment, row: int, col: int, row2: int, col2: int)
    requires InRange(row) && InRange(col) && InRange(row2) && InRange(col2)
    ensures AllSat(a, [NeqClause(row, col, row2, col2)])
      <==> exists bit :: 0 <= bit < 4 && !a(EqCnfIdentifier(row, col, row2, col2, bit))
  {
    var neq := NeqClause(row, col, row2, col2);
    assert neq in [neq];
    Sat4(a, neq[0], neq[1], neq[2], neq[3]);
    if !a(EqCnfIdentifier(row, col, row2, col2, 0)) {
      assert 0 <= 0 < 4;
    } else if !a(EqCnfIdentifier(row, col, row2, col2, 1)) {
      assert 0 <= 1 < 4;
    } else if !a(EqCnfIdentifier(row, col, row2, col2, 2)) {
      assert 0 <= 2 < 4;
    }
  }

  /** The two cells disagree on bit `bit`. */
  predicate BitDiffers(a: Assignment, row: int, col: int, row2: int, col2: int, bit: int)
  {
    a(BinaryEncoding.CnfIdentifier(row, col, bit)) != a(BinaryEncoding.CnfIdentifier(row2, col2, bit))
  }

  /** With correct equality variables, a false one marks exactly a bit on which the cells disagree. */
  lemma FalseEqMeansDiffer(a: Assignment, row: int, col: int, row2: int, col2: int)
    requires EqVarsCorrect(a, row, col, row2, col2)
    ensures (exists bit :: 0 <= bit < 4 && !a(EqCnfIdentifier(row, col, row2, col2, bit)))
      <==> exists bit :: 0 <= bit < 4 && BitDiffers(a, row, col, row2, col2, bit)
  {
    if exists bit :: 0 <= bit < 4 && !a(EqCnfIdentifier(row, col, row2, col2, bit)) {
      var bit :| 0 <= bit < 4 && !a(EqCnfIdentifier(row, col, row2, col2, bit));
      assert EqBitCorrect(a, row, col, row2, col2, bit);
      assert BitDiffers(a, row, col, row2, col2, bit);
    }
    if exists bit :: 0 <= bit < 4 && BitDiffers(a, row, col, row2, col2, bit) {
      var bit :| 0 <= bit < 4 && BitDiffers(a, row, col, row2, col2, bit);
      assert EqBitCorrect(a, row, col, row2, col2, bit);
    }
  }

  /** The two cells hold different digits. */
  predicate Differ(a: Assignment, row: int, col: int, row2: int, col2: int)
  {
    BinaryEncoding.CellPattern(a, row, col) != BinaryEncoding.CellPattern(a, row2, col2)
  }

  /** Two cells differ exactly when they disagree on some bit. */
  lemma DifferOnBit(a: Assignment, row: int, col: int, row2: int, col2: int)
    ensures Differ(a, row, col, row2, col2) <==> exists bit :: 0 <= bit < 4 && BitDiffers(a, row, col, row2, col2, bit)
  {
    BinaryEncoding.PatternsDiffer(a, row, col, row2, col2);
    if Differ(a, row, col, row2, col2) {
      var bit :| 0 <= bit < 4
        && a(BinaryEncoding.CnfIdentifier(row, col, bit)) != a(BinaryEncoding.CnfIdentifier(row2, col2, bit));
      assert BitDiffers(a, row, col, row2, col2, bit);
    }
    if exists bit :: 0 <= bit < 4 && BitDiffers(a, row, col, row2, col2, bit) {
      var bit :| 0 <= bit < 4 && BitDiffers(a, row, col, row2, col2, bit);
      assert a(BinaryEncoding.CnfIdentifier(row, col, bit)) != a(BinaryEncoding.CnfIdentifier(row2, col2, bit));
    }
  }

  /** With correct equality variables, the clause of a pair holds exactly when the two cells differ. */
  lemma PairMeaning(a: Assignment, row: int, col: int, row2: int, col2: int)
    requires InRange(row) && InRange(col) && InRange(row2) && InRange(col2)
    requires EqVarsCorrect(a, row, col, row2, col2)
    ensures AllSat(a, [NeqClause(row, col, row2, col2)]) <==> Differ(a, row, col, row2, col2)
  {
    NeqMeaning(a, row, col, row2, col2);
    FalseEqMeansDiffer(a, row, col, row2, col2);
    DifferOnBit(a, row, col, row2, col2);
  }

  lemma RowNeqMeaning(a: Assignment, row: int, col: int, m: int)
    requires InRange(row) && InRange(col) && m <= 10
    requires forall col2 :: col < col2 < m ==> EqVarsCorrect(a, row, col, row, col2)
    ensures AllSat(a, RowNeqUpto(row, col, m)) <==> RowFromDiffers(a, row, col, m)
  {
    forall col2 | col < col2 < m
      ensures AllSat(a, [NeqClause(row, col, row, col2)]) <==> Differ(a, row, col, row, col2)
    {
      PairMeaning(a, row, col, row, col2);
    }
    RowNeqSat(a, row, col, m, col2 => Differ(a, row, col, row, col2));
  }

  /** Cell (row, col) differs from the cells after it in its row, up to column m. */
  predicate RowFromDiffers(a: Assignment, row: int, col: int, m: int)
  {
    forall col2 :: col < col2 < m ==> Differ(a, row, col, row, col2)
  }

  predicate RowDiffers(a: Assignment, row: int, n: int, m: int)
  {
    forall col :: 1 <= col < n ==> RowFromDiffers(a, row, col, m)
  }

  lemma RowNeqColsMeaning(a: Assignment, row: int, n: int, m: int)
    requires AllEqVarsCorrect(a) && InRange(row) && n <= 10 && m <= 10
    ensures AllSat(a, RowNeqColsUpto(row, n, m)) <==> RowDiffers(a, row, n, m)
  {
    forall col | 1 <= col < n
      ensures AllSat(a, RowNeqUpto(row, col, m)) <==> RowFromDiffers(a, row, col, m)
    {
      RowNeqMeaning(a, row, col, m);
    }
    RowNeqColsSat(a, row, n, m, col => RowFromDiffers(a, row, col, m));
  }

  /** With correct equality variables, the row clauses hold exactly when the cells of each row differ. */
  lemma RowsNeqMeaning(a: Assignment, n: int, m: int)
    requires AllEqVarsCorrect(a) && n <= 10 && m <= 10
    ensures AllSat(a, RowsNeqUpto(n, m)) <==> BinaryEncoding.RowsDistinct(a, n, m)
  {
    forall row | 1 <= row < n
      ensures AllSat(a, RowNeqColsUpto(row, m, m)) <==> RowDiffers(a, row, m, m)
    {
      RowNeqColsMeaning(a, row, m, m);
    }
    RowsNeqSat(a, n, m, row => RowDiffers(a, row, m, m));
    RowDiffersAll(a, n, m);
  }

  lemma RowDiffersAll(a: Assignment, n: int, m: int)
    ensures (forall row :: 1 <= row < n ==> RowDiffers(a, row, m, m)) <==> BinaryEncoding.RowsDistinct(a, n, m)
  {
    if forall row :: 1 <= row < n ==> RowDiffers(a, row, m, m) {
      forall row, col, col2 | 1 <= row < n && 1 <= col < col2 < m
        ensures BinaryEncoding.CellPattern(a, row, col) != BinaryEncoding.CellPattern(a, row, col2)
      {
        assert RowDiffers(a, row, m, m);
        assert RowFromDiffers(a, row, col, m);
        assert Differ(a, row, col, row, col2);
      }
    }
    if BinaryEncoding.RowsDistinct(a, n, m) {
      forall row | 1 <= row < n
        ensures RowDiffers(a, row, m, m)
      {
        forall col | 1 <= col < m
          ensures RowFromDiffers(a, row, col, m)
        {
          forall col2 | col < col2 < m
            ensures Differ(a, row, col, row, col2)
          {
          }
        }
      }
    }
  }

  lemma ColNeqMeaning(a: Assignment, col: int, row: int, m: int)
    requires InRange(col) && InRange(row) && m <= 10
    requires forall row2 :: row < row2 < m ==> EqVarsCorrect(a, row, col, row2, col)
    ensures AllSat(a, ColNeqUpto(col, row, m)) <==> ColFromDiffers(a, col, row, m)
  {
    forall row2 | row < row2 < m
      ensures AllSat(a, [NeqClause(row, col, row2, col)]) <==> Differ(a, row, col, row2, col)
    {
      PairMeaning(a, row, col, row2, col);
    }
    ColNeqSat(a, col, row, m, row2 => Differ(a, row, col, row2, col));
  }

  /** Cell (row, col) differs from the cells below it in its column, up to row m. */
  predicate ColFromDiffers(a: Assignment, col: int, row: int, m: int)
  {
    forall row2 :: row < row2 < m ==> Differ(a, row, col, row2, col)
  }

  predicate ColDiffers(a: Assignment, col: int, n: int, m: int)
  {
    forall row :: 1 <= row < n ==> ColFromDiffers(a, col, row, m)
  }

  lemma ColNeqRowsMeaning(a: Assignment, col: int, n: int, m: int)
    requires AllEqVarsCorrect(a) && InRange(col) && n <= 10 && m <= 10
    ensures AllSat(a, ColNeqRowsUpto(col, n, m)) <==> ColDiffers(a, col, n, m)
  {
    forall row | 1 <= row < n
      ensures AllSat(a, ColNeqUpto(col, row, m)) <==> ColFromDiffers(a, col, row, m)
    {
      ColNeqMeaning(a, col, row, m);
    }
    ColNeqRowsSat(a, col, n, m, row => ColFromDiffers(a, col, row, m));
  }

  /** With correct equality variables, the column clauses hold exactly when the cells of each column differ. */
  lemma ColsNeqMeaning(a: Assignment, n: int, m: int)
    requires AllEqVarsCorrect(a) && n <= 10 && m <= 10
    ensures AllSat(a, ColsNeqUpto(n, m)) <==> BinaryEncoding.ColsDistinct(a, n, m)
  {
    forall col | 1 <= col < n
      ensures AllSat(a, ColNeqRowsUpto(col, m, m)) <==> ColDiffers(a, col, m, m)
    {
      ColNeqRowsMeaning(a, col, m, m);
    }
    ColsNeqSat(a, n, m, col => ColDiffers(a, col, m, m));
    ColDiffersAll(a, n, m);
  }

  lemma ColDiffersAll(a: Assignment, n: int, m: int)
    ensures (forall col :: 1 <= col < n ==> ColDiffers(a, col, m, m)) <==> BinaryEncoding.ColsDistinct(a, n, m)
  {
    if forall col :: 1 <= col < n ==> ColDiffers(a, col, m, m) {
      forall col, row, row2 | 1 <= col < n && 1 <= row < row2 < m
        ensures BinaryEncoding.CellPattern(a, row, col) != BinaryEncoding.CellPattern(a, row2, col)
      {
        assert ColDiffers(a, col, m, m);
        assert ColFromDiffers(a, col, row, m);
        assert Differ(a, row, col, row2, col);
      }
    }
    if BinaryEncoding.ColsDistinct(a, n, m) {
      forall col | 1 <= col < n
        ensures ColDiffers(a, col, m, m)
      {
        forall row | 1 <= row < m
          ensures ColFromDiffers(a, col, row, m)
        {
          forall row2 | row < row2 < m
            ensures Differ(a, row, col, row2, col)
          {
          }
        }
      }
    }
  }

  /** Cell index1 of sub-grid (sr, sc) differs from the cells after it, up to index m. */
  predicate BoxFromDiffers(a: Assignment, sr: int, sc: int, index1: int, m: int)
  {
    forall index2 :: index1 < index2 < m ==> BinaryEncoding.BoxCellsDiffer(a, sr, sc, index1, index2)
  }

  predicate BoxDiffers(a: Assignment, sr: int, sc: int, n: int, m: int)
  {
    forall index1 :: 0 <= index1 < n ==> BoxFromDiffers(a, sr, sc, index1, m)
  }

  predicate BoxRowDiffers(a: Assignment, sr: int, k: int, m: int)
  {
    forall sc :: 0 <= sc < k ==> BoxDiffers(a, sr, sc, m, m)
  }

  lemma BoxNeqMeaning(a: Assignment, sr: int, sc: int, index1: int, m: int)
    requires AllEqVarsCorrect(a) && 0 <= sr < 3 && 0 <= sc < 3 && 0 <= index1 < 9 && m <= 9
    ensures AllSat(a, BoxNeqUpto(sr, sc, index1, m)) <==> BoxFromDiffers(a, sr, sc, index1, m)
  {
    forall index2 | index1 < index2 < m
      ensures AllSat(a, [BoxNeqClause(sr, sc, index1, index2)]) <==> BinaryEncoding.BoxCellsDiffer(a, sr, sc, index1, index2)
    {
      BoxCellInBox(sr, sc, index1);
      BoxCellInBox(sr, sc, index2);
      PairMeaning(a, BoxRow(sr, index1), BoxCol(sc, index1), BoxRow(sr, index2), BoxCol(sc, index2));
    }
    BoxNeqSat(a, sr, sc, index1, m, index2 => BinaryEncoding.BoxCellsDiffer(a, sr, sc, index1, index2));
  }

  lemma BoxNeqIndexMeaning(a: Assignment, sr: int, sc: int, n: int, m: int)
    requires AllEqVarsCorrect(a) && 0 <= sr < 3 && 0 <= sc < 3 && n <= 9 && m <= 9
    ensures AllSat(a, BoxNeqIndexUpto(sr, sc, n, m)) <==> BoxDiffers(a, sr, sc, n, m)
  {
    forall index1 | 0 <= index1 < n
      ensures AllSat(a, BoxNeqUpto(sr, sc, index1, m)) <==> BoxFromDiffers(a, sr, sc, index1, m)
    {
      BoxNeqMeaning(a, sr, sc, index1, m);
    }
    BoxNeqIndexSat(a, sr, sc, n, m, index1 => BoxFromDiffers(a, sr, sc, index1, m));
  }

  lemma BoxesNeqRowMeaning(a: Assignment, sr: int, k: int, m: int)
    requires AllEqVarsCorrect(a) && 0 <= sr < 3 && k <= 3 && m <= 9
    ensures AllSat(a, BoxesNeqRowUpto(sr, k, m)) <==> BoxRowDiffers(a, sr, k, m)
  {
    forall sc | 0 <= sc < k
      ensures AllSat(a, BoxNeqIndexUpto(sr, sc, m, m)) <==> BoxDiffers(a, sr, sc, m, m)
    {
      BoxNeqIndexMeaning(a, sr, sc, m, m);
    }
    BoxesNeqRowSat(a, sr, k, m, sc => BoxDiffers(a, sr, sc, m, m));
  }

  /** With correct equality variables, the sub-grid clauses hold exactly when the cells of each sub-grid differ. */
  lemma BoxesNeqMeaning(a: Assignment, n: int, k: int, m: int)
    requires AllEqVarsCorrect(a) && n <= 3 && k <= 3 && m <= 9
    ensures AllSat(a, BoxesNeqUpto(n, k, m)) <==> BinaryEncoding.BoxesDistinct(a, n, k, m)
  {
    forall sr | 0 <= sr < n
      ensures AllSat(a, BoxesNeqRowUpto(sr, k, m)) <==> BoxRowDiffers(a, sr, k, m)
    {
      BoxesNeqRowMeaning(a, sr, k, m);
    }
    BoxesNeqSat(a, n, k, m, sr => BoxRowDiffers(a, sr, k, m));
    if forall sr :: 0 <= sr < n ==> BoxRowDiffers(a, sr, k, m) {
      forall sr, sc, index1, index2 | 0 <= sr < n && 0 <= sc < k && 0 <= index1 < index2 < m
        ensures BinaryEncoding.BoxCellsDiffer(a, sr, sc, index1, index2)
      {
        assert BoxRowDiffers(a, sr, k, m);
        assert BoxDiffers(a, sr, sc, m, m);
        assert BoxFromDiffers(a, sr, sc, index1, m);
      }
    }
  }

  // ---------------------------------------------------------------------
  // The whole encoding: its models are exactly the solutions of the board.

  lemma RulePartsSat(a: Assignment, clues: Grid)
    ensures AllSat(a, SudokuClauses(clues)) <==>
      && AllSat(a, EqDefUpto(10, 10)) && AllSat(a, RowsNeqUpto(10, 10)) && AllSat(a, ColsNeqUpto(10, 10))
      && AllSat(a, BoxesNeqUpto(3, 3, 9)) && AllSat(a, BinaryEncoding.ForbiddenUpto(10, 10))
      && AllSat(a, BinaryEncoding.ClueClauses(clues))
  {
    var head := EqDefUpto(10, 10) + RowsNeqUpto(10, 10) + ColsNeqUpto(10, 10) + BoxesNeqUpto(3, 3, 9);
    AllSatAppend(a, RuleClauses(), BinaryEncoding.ClueClauses(clues));
    AllSatAppend(a, head, BinaryEncoding.ForbiddenUpto(10, 10));
    AllSatParts(a, EqDefUpto(10, 10), RowsNeqUpto(10, 10), ColsNeqUpto(10, 10), BoxesNeqUpto(3, 3, 9));
  }

  /**
   * Every model of the first binary encoding defines its equality variables
   * correctly and solves the board: digits 1..9, distinct in each house,
   * agreeing with the clues.
   */
  lemma EncodingSound(a: Assignment, clues: Grid)
    requires AllSat(a, SudokuClauses(clues))
    ensures AllEqVarsCorrect(a) && BinaryEncoding.SolvesClues(a, clues)
  {
    RulePartsSat(a, clues);
    EqDefMeaning(a);
    RowsNeqMeaning(a, 10, 10);
    ColsNeqMeaning(a, 10, 10);
    BoxesNeqMeaning(a, 3, 3, 9);
    BinaryEncoding.HousesFromFamilies(a);
    BinaryEncoding.DigitsSound(a);
    BinaryEncoding.CluesSound(a, clues);
  }

  /** The completion used by the current encoder also makes every equality variable of this layout correct. */
  lemma WithEqVarsCorrect(a: Assignment)
    ensures AllEqVarsCorrect(BinaryEncoding.WithEqVars(a))
  {
    var b := BinaryEncoding.WithEqVars(a);
    BinaryEncoding.WithEqVarsCorrect(a);
    forall row, col, row2, col2 | InRange(row) && InRange(col) && InRange(row2) && InRange(col2)
      ensures EqVarsCorrect(b, row, col, row2, col2)
    {
      forall bit | 0 <= bit < 4
        ensures EqBitCorrect(b, row, col, row2, col2, bit)
      {
        SwappedLayout(row, col, row2, col2, bit);
        assert BinaryEncoding.EqVarsCorrect(b, row2, col2, row, col);
        assert BinaryEncoding.EqBitCorrect(b, row2, col2, row, col, bit);
      }
    }
  }

  /** Every solution of a board that fits the grid, with its equality variables set, is a model of the encoding. */
  lemma EncodingComplete(a: Assignment, clues: Grid)
    requires BinaryEncoding.FitsBoard(clues) && BinaryEncoding.SolvesClues(a, clues)
    ensures AllSat(BinaryEncoding.WithEqVars(a), SudokuClauses(clues))
  {
    var b := BinaryEncoding.WithEqVars(a);
    BinaryEncoding.WithEqVarsCorrect(a);
    WithEqVarsCorrect(a);
    BinaryEncoding.WithEqVarsSolves(a, clues);
    BinaryEncoding.FamiliesFromHouses(b);
    EqDefMeaning(b);
    RowsNeqMeaning(b, 10, 10);
    ColsNeqMeaning(b, 10, 10);
    BoxesNeqMeaning(b, 3, 3, 9);
    BinaryEncoding.ForbiddenComplete(b, 10, 10);
    BinaryEncoding.CluesComplete(b, clues);
    RulePartsSat(b, clues);
  }
}
