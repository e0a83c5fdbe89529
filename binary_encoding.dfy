/**
 * The binary Sudoku encoding: each cell stores its digit minus one in four
 * bit variables (324 in all), and every pair of cells that must differ gets
 * four "bit b of both cells is equal" variables, numbered above 324.
 */
module BinaryEncoding {
  import opened Base

  predicate IsBit(bit: int) { 0 <= bit < 4 }

  /** Number of bit variables: 9 * 9 cells of 4 bits. */
  const BitVariables := 324

  /** The largest equality variable: 324 plus 81 * 81 cell pairs of 4 bits. */
  const LastEqVariable := 26568

  /** The variable "bit `bit` of cell (row, col) is set"; 1..324 for in-range arguments. */
  function CnfIdentifier(row: int, col: int, bit: int): (id: int)
    ensures InRange(row) && InRange(col) && IsBit(bit) ==> 1 <= id <= BitVariables
  {
    (row - 1) * 4 * 9 + (col - 1) * 4 + bit + 1
  }

  /**
   * The variable "bit `bit` of cells (row, col) and (row2, col2) agree";
   * above every bit variable for in-range arguments.
   */
  function EqCnfIdentifier(row: int, col: int, row2: int, col2: int, bit: int): (id: int)
    ensures InRange(row) && InRange(col) && InRange(row2) && InRange(col2) && IsBit(bit)
      ==> BitVariables < id <= LastEqVariable
  {
    9 * 9 * 4
    + (row - 1) * 4 * 9 * 9 * 9
    + (col - 1) * 4 * 9 * 9
    + (row2 - 1) * 4 * 9
    + (col2 - 1) * 4
    + bit
    + 1
  }

  /** Decodes a bit literal into (row, col, bit, sign > 0), with Rust's truncating `/` and `%`. */
  function IdentifierToTuple(identifier: int): (t: (int, int, int, bool))
    ensures identifier != 0 ==> t.0 >= 1 && InRange(t.1) && IsBit(t.2)
    ensures t.3 <==> identifier > 0
    ensures identifier == 0 ==> t == (1, 1, -1, false)
  {
    var bitValue := identifier > 0;
    var id := Abs(identifier) - 1;
    RustNonneg(id, 36);
    RustNonneg(id, 4);
    RustField(id, 9, 4);
    (RustDiv(id, 9 * 4) + 1, RustDiv(RustRem(id, 9 * 4), 4) + 1, RustRem(id, 4), bitValue)
  }

  /** Decodes an equality literal into (row, col, row2, col2, bit, sign > 0). */
  function EqIdentifierToTuple(identifier: int): (t: (int, int, int, int, int, bool))
    ensures BitVariables < Abs(identifier) <= LastEqVariable ==>
      InRange(t.0) && InRange(t.1) && InRange(t.2) && InRange(t.3) && IsBit(t.4)
    ensures t.5 <==> identifier > 0
  {
    var equal := identifier > 0;
    var id := Abs(identifier) - 1 - 9 * 9 * 4;
    RustNonneg(id, 2916);
    RustQuotBelow(id, 9, 2916);
    RustField(id, 9, 324);
    RustField(id, 9, 36);
    RustField(id, 9, 4);
    RustNonneg(id, 4);
    (RustDiv(id, 9 * 9 * 9 * 4) + 1,
     RustDiv(RustRem(id, 9 * 9 * 9 * 4), 4 * 9 * 9) + 1,
     RustDiv(RustRem(id, 9 * 9 * 4), 4 * 9) + 1,
     RustDiv(RustRem(id, 9 * 4), 4) + 1,
     RustRem(id, 4),
     equal)
  }

  /** Truncating division recovers the three fields of a bit-variable offset. */
  lemma BitFields(x: int, r: int, c: int, b: int)
    requires 0 <= r < 9 && 0 <= c < 9 && 0 <= b < 4
    requires x == r * 36 + c * 4 + b
    ensures RustDiv(x, 36) == r && RustDiv(RustRem(x, 36), 4) == c && RustRem(x, 4) == b
  {
    DivModUnique(x, 36, r, c * 4 + b);
    DivModUnique(c * 4 + b, 4, c, b);
    DivModUnique(x, 4, r * 9 + c, b);
  }

  /** A positive literal whose offset has the fields r, c, b decodes to (r + 1, c + 1, b, true). */
  lemma BitDecode(identifier: int, x: int, r: int, c: int, b: int)
    requires 0 <= r < 9 && 0 <= c < 9 && 0 <= b < 4
    requires x == r * 36 + c * 4 + b && identifier == x + 1
    ensures IdentifierToTuple(identifier) == (r + 1, c + 1, b, true)
  {
    assert Abs(identifier) - 1 == x;
    BitFields(x, r, c, b);
  }

  /** Negating a literal only flips the decoded sign. */
  lemma NegatedDecode(identifier: int)
    requires identifier > 0
    ensures var t := IdentifierToTuple(identifier); IdentifierToTuple(-identifier) == (t.0, t.1, t.2, false)
  {
  }

  /** Decoding either literal of an in-range bit variable gives its arguments and sign back. */
  lemma RoundTrip(row: int, col: int, bit: int)
    requires InRange(row) && InRange(col) && IsBit(bit)
    ensures IdentifierToTuple(CnfIdentifier(row, col, bit)) == (row, col, bit, true)
    ensures IdentifierToTuple(-CnfIdentifier(row, col, bit)) == (row, col, bit, false)
  {
    var id := CnfIdentifier(row, col, bit);
    BitDecode(id, id - 1, row - 1, col - 1, bit);
    NegatedDecode(id);
  }

  /** Every literal of a variable in 1..324 decodes to in-range arguments that encode it back. */
  lemma DecodeInRange(identifier: int)
    requires 1 <= Abs(identifier) <= BitVariables
    ensures var (row, col, bit, positive) := IdentifierToTuple(identifier);
      InRange(row) && InRange(col) && IsBit(bit)
      && CnfIdentifier(row, col, bit) == Abs(identifier) && (positive <==> identifier > 0)
  {
    var id := Abs(identifier) - 1;
    DivModUnique(id, 36, id / 36, id % 36);
    DivModUnique(id % 36, 4, (id % 36) / 4, (id % 36) % 4);
    DivModUnique(id, 4, (id / 36) * 9 + (id % 36) / 4, (id % 36) % 4);
  }

  /** Truncating division recovers the five fields of an equality-variable offset. */
  lemma EqFields(x: int, r: int, c: int, r2: int, c2: int, b: int)
    requires 0 <= r < 9 && 0 <= c < 9 && 0 <= r2 < 9 && 0 <= c2 < 9 && 0 <= b < 4
    requires x == r * 2916 + c * 324 + r2 * 36 + c2 * 4 + b
    ensures RustDiv(x, 2916) == r && RustDiv(RustRem(x, 2916), 324) == c
    ensures RustDiv(RustRem(x, 324), 36) == r2 && RustDiv(RustRem(x, 36), 4) == c2 && RustRem(x, 4) == b
  {
    DivModUnique(x, 2916, r, c * 324 + r2 * 36 + c2 * 4 + b);
    DivModUnique(c * 324 + r2 * 36 + c2 * 4 + b, 324, c, r2 * 36 + c2 * 4 + b);
    DivModUnique(x, 324, r * 9 + c, r2 * 36 + c2 * 4 + b);
    DivModUnique(r2 * 36 + c2 * 4 + b, 36, r2, c2 * 4 + b);
    DivModUnique(x, 36, r * 81 + c * 9 + r2, c2 * 4 + b);
    DivModUnique(c2 * 4 + b, 4, c2, b);
    DivModUnique(x, 4, r * 729 + c * 81 + r2 * 9 + c2, b);
  }

  /** A positive literal whose offset above 324 has the given fields decodes to them, 1-based. */
  lemma EqDecode(identifier: int, x: int, r: int, c: int, r2: int, c2: int, b: int)
    requires 0 <= r < 9 && 0 <= c < 9 && 0 <= r2 < 9 && 0 <= c2 < 9 && 0 <= b < 4
    requires x == r * 2916 + c * 324 + r2 * 36 + c2 * 4 + b && identifier == x + BitVariables + 1
    ensures EqIdentifierToTuple(identifier) == (r + 1, c + 1, r2 + 1, c2 + 1, b, true)
  {
    EqFields(x, r, c, r2, c2, b);
    EqTupleOf(identifier, x);
  }

  /** The decoded tuple of a positive equality literal, written with its offset. */
  lemma EqTupleOf(identifier: int, x: int)
    requires identifier > 0 && x == identifier - 1 - BitVariables
    ensures EqIdentifierToTuple(identifier)
      == (RustDiv(x, 2916) + 1, RustDiv(RustRem(x, 2916), 324) + 1, RustDiv(RustRem(x, 324), 36) + 1,
          RustDiv(RustRem(x, 36), 4) + 1, RustRem(x, 4), true)
  {
    assert Abs(identifier) - 1 - 9 * 9 * 4 == x;
  }

  /** Negating an equality literal only flips the decoded sign. */
  lemma EqNegatedDecode(identifier: int)
    requires identifier > 0
    ensures var t := EqIdentifierToTuple(identifier);
      EqIdentifierToTuple(-identifier) == (t.0, t.1, t.2, t.3, t.4, false)
  {
  }

  /** Decoding either literal of an in-range equality variable gives its arguments and sign back. */
  lemma EqRoundTrip(row: int, col: int, row2: int, col2: int, bit: int)
    requires InRange(row) && InRange(col) && InRange(row2) && InRange(col2) && IsBit(bit)
    ensures EqIdentifierToTuple(EqCnfIdentifier(row, col, row2, col2, bit)) == (row, col, row2, col2, bit, true)
    ensures EqIdentifierToTuple(-EqCnfIdentifier(row, col, row2, col2, bit)) == (row, col, row2, col2, bit, false)
  {
    var id := EqCnfIdentifier(row, col, row2, col2, bit);
    EqDecode(id, id - 1 - BitVariables, row - 1, col - 1, row2 - 1, col2 - 1, bit);
    EqNegatedDecode(id);
  }

  /** Every literal of a variable in 325..26568 decodes to in-range arguments that encode it back. */
  lemma EqDecodeInRange(identifier: int)
    requires BitVariables < Abs(identifier) <= LastEqVariable
    ensures var (row, col, row2, col2, bit, equal) := EqIdentifierToTuple(identifier);
      InRange(row) && InRange(col) && InRange(row2) && InRange(col2) && IsBit(bit)
      && EqCnfIdentifier(row, col, row2, col2, bit) == Abs(identifier) && (equal <==> identifier > 0)
  {
    var x := Abs(identifier) - 1 - BitVariables;
    var m1 := x % 2916;
    var m2 := m1 % 324;
    var m3 := m2 % 36;
    var r, c, r2, c2, b := x / 2916, m1 / 324, m2 / 36, m3 / 4, m3 % 4;
    assert x == r * 2916 + c * 324 + r2 * 36 + c2 * 4 + b;
    EqFields(x, r, c, r2, c2, b);
  }

  /** Distinct in-range bit variables get distinct identifiers. */
  lemma IdentifierInjective(r1: int, c1: int, b1: int, r2: int, c2: int, b2: int)
    requires InRange(r1) && InRange(c1) && IsBit(b1) && InRange(r2) && InRange(c2) && IsBit(b2)
    requires CnfIdentifier(r1, c1, b1) == CnfIdentifier(r2, c2, b2)
    ensures r1 == r2 && c1 == c2 && b1 == b2
  {
    RoundTrip(r1, c1, b1);
    RoundTrip(r2, c2, b2);
  }

  /** Distinct in-range equality variables get distinct identifiers. */
  lemma EqIdentifierInjective(r1: int, c1: int, s1: int, d1: int, b1: int, r2: int, c2: int, s2: int, d2: int, b2: int)
    requires InRange(r1) && InRange(c1) && InRange(s1) && InRange(d1) && IsBit(b1)
    requires InRange(r2) && InRange(c2) && InRange(s2) && InRange(d2) && IsBit(b2)
    requires EqCnfIdentifier(r1, c1, s1, d1, b1) == EqCnfIdentifier(r2, c2, s2, d2, b2)
    ensures r1 == r2 && c1 == c2 && s1 == s2 && d1 == d2 && b1 == b2
  {
    EqRoundTrip(r1, c1, s1, d1, b1);
    EqRoundTrip(r2, c2, s2, d2, b2);
  }

  /** The four bits of a cell under an assignment, read as the number 0..15. */
  function CellPattern(a: Assignment, row: int, col: int): int
  {
    FromBits(a(CnfIdentifier(row, col, 0)), a(CnfIdentifier(row, col, 1)),
             a(CnfIdentifier(row, col, 2)), a(CnfIdentifier(row, col, 3)))
  }

  /** The digit a cell stands for: one plus its bit pattern. */
  function CellDigit(a: Assignment, row: int, col: int): int
  {
    1 + CellPattern(a, row, col)
  }

  // ---------------------------------------------------------------------
  // Clause families. Each function describes what one level of the
  // encoder's nested loops has pushed once its loop variable reached `n`.

  /** The four clauses that make the equality variable of `bit` true exactly when both cells agree on it. */
  function EqBitClauses(row: int, col: int, row2: int, col2: int, bit: int): seq<Clause>
  {
    var eq := EqCnfIdentifier(row, col, row2, col2, bit);
    var x := CnfIdentifier(row, col, bit);
    var y := CnfIdentifier(row2, col2, bit);
    [[-eq, x, -y], [-eq, -x, y], [eq, -x, -y], [eq, x, y]]
  }

  /** The clauses `eq_variable_init` has pushed for the bits below n. */
  function EqInitUpto(row: int, col: int, row2: int, col2: int, n: int): seq<Clause>
  {
    ConcatMap(0, n, bit => EqBitClauses(row, col, row2, col2, bit))
  }

  /** "At least one bit differs": one of the four equality variables is false. */
  function NeqClause(row: int, col: int, row2: int, col2: int): Clause
  {
    [-EqCnfIdentifier(row, col, row2, col2, 0), -EqCnfIdentifier(row, col, row2, col2, 1),
     -EqCnfIdentifier(row, col, row2, col2, 2), -EqCnfIdentifier(row, col, row2, col2, 3)]
  }

  /** What the encoder emits for one pair of cells that must differ. */
  function PairBlock(row: int, col: int, row2: int, col2: int): seq<Clause>
  {
    EqInitUpto(row, col, row2, col2, 4) + [NeqClause(row, col, row2, col2)]
  }

  function RowPairsUpto(row: int, col: int, n: int): seq<Clause>
  {
    ConcatMap(col + 1, n, col2 => PairBlock(row, col, row, col2))
  }

  function RowDiffUpto(row: int, n: int, m: int): seq<Clause>
  {
    ConcatMap(1, n, col => RowPairsUpto(row, col, m))
  }

  function RowsDiffUpto(n: int, m: int): seq<Clause>
  {
    ConcatMap(1, n, row => RowDiffUpto(row, m, m))
  }

  function ColPairsUpto(col: int, row: int, n: int): seq<Clause>
  {
    ConcatMap(row + 1, n, row2 => PairBlock(row, col, row2, col))
  }

  function ColDiffUpto(col: int, n: int, m: int): seq<Clause>
  {
    ConcatMap(1, n, row => ColPairsUpto(col, row, m))
  }

  function ColsDiffUpto(n: int, m: int): seq<Clause>
  {
    ConcatMap(1, n, col => ColDiffUpto(col, m, m))
  }

  function BoxPairsUpto(sr: int, sc: int, index1: int, n: int): seq<Clause>
  {
    ConcatMap(index1 + 1, n, index2 =>
      PairBlock(BoxRow(sr, index1), BoxCol(sc, index1), BoxRow(sr, index2), BoxCol(sc, index2)))
  }

  function BoxDiffUpto(sr: int, sc: int, n: int, m: int): seq<Clause>
  {
    ConcatMap(0, n, index1 => BoxPairsUpto(sr, sc, index1, m))
  }

  function BoxesDiffRowUpto(sr: int, n: int, m: int): seq<Clause>
  {
    ConcatMap(0, n, sc => BoxDiffUpto(sr, sc, m, m))
  }

  function BoxesDiffUpto(n: int, k: int, m: int): seq<Clause>
  {
    ConcatMap(0, n, sr => BoxesDiffRowUpto(sr, k, m))
  }

  /** Bit `index` in the clause excluding pattern `forbidden`: negated where the pattern has a 1. */
  function ForbiddenLit(row: int, col: int, forbidden: int, index: nat): int
  {
    if BitSet(forbidden, index) then -CnfIdentifier(row, col, index) else CnfIdentifier(row, col, index)
  }

  function ForbiddenClauseUpto(row: int, col: int, forbidden: int, n: nat): Clause
  {
    ConcatMap(0, n, index => if index >= 0 then [ForbiddenLit(row, col, forbidden, index)] else [])
  }

  function CellForbiddenUpto(row: int, col: int, n: int): seq<Clause>
  {
    ConcatMap(9, n, forbidden => [ForbiddenClauseUpto(row, col, forbidden, 4)])
  }

  function ForbiddenRowUpto(row: int, n: int): seq<Clause>
  {
    ConcatMap(1, n, col => CellForbiddenUpto(row, col, 16))
  }

  function ForbiddenUpto(n: int, m: int): seq<Clause>
  {
    ConcatMap(1, n, row => ForbiddenRowUpto(row, m))
  }

  /** The unit clause fixing bit `index` of the cell at 0-based (row, col) to bit `index` of v. */
  function ClueBit(row: int, col: int, v: int, index: nat): Clause
  {
    if BitSet(v, index) then [CnfIdentifier(row + 1, col + 1, index)] else [-CnfIdentifier(row + 1, col + 1, index)]
  }

  function ClueBitsUpto(row: int, col: int, v: int, n: nat): seq<Clause>
  {
    ConcatMap(0, n, index => if index >= 0 then [ClueBit(row, col, v, index)] else [])
  }

  /** The unit clauses of one grid entry: four for a clue (the bits of its value minus one), none otherwise. */
  function ClueUnits(entry: Option<int>, row: int, col: int): seq<Clause>
  {
    match entry
    case Some(val) => ClueBitsUpto(row, col, val - 1, 4)
    case None => []
  }

  function LineCluesUpto(line: seq<Option<int>>, row: int, n: int): seq<Clause>
  {
    ConcatMap(0, n, col => if 0 <= col < |line| then ClueUnits(line[col], row, col) else [])
  }

  function CluesUpto(clues: Grid, n: int): seq<Clause>
  {
    ConcatMap(0, n, row => if 0 <= row < |clues| then LineCluesUpto(clues[row], row, |clues[row]|) else [])
  }

  function ClueClauses(clues: Grid): seq<Clause>
  {
    CluesUpto(clues, |clues|)
  }

  /** The rule clauses, in the order `sudoku_to_cnf` pushes them. */
  function RuleClauses(): seq<Clause>
  {
    RowsDiffUpto(10, 10) + ColsDiffUpto(10, 10) + BoxesDiffUpto(3, 3, 9) + ForbiddenUpto(10, 10)
  }

  function SudokuClauses(clues: Grid): seq<Clause>
  {
    RuleClauses() + ClueClauses(clues)
  }

  // ---------------------------------------------------------------------
  // The encoder. Each helper method is one level of the nested loops of
  // `sudoku_to_cnf`; it appends to the clauses pushed so far (`c0`).

  method SudokuToCnf(clues: Grid) returns (clauses: seq<Clause>)
    ensures clauses == SudokuClauses(clues)
  {
    clauses := PushRowsDiff([]);
    AppendEmpty(RowsDiffUpto(10, 10));
    clauses := PushColsDiff(clauses);
    clauses := PushBoxesDiff(clauses);
    clauses := PushForbidden(clauses);
    clauses := PushClues(clauses, clues);
  }

  method EqVariableInit(row: int, col: int, row2: int, col2: int) returns (clauses: seq<Clause>)
    ensures clauses == EqInitUpto(row, col, row2, col2, 4)
  {
    clauses := [];
    for bit := 0 to 4
      invariant clauses == EqInitUpto(row, col, row2, col2, bit)
    {
      var eq := EqCnfIdentifier(row, col, row2, col2, bit);
      var x := CnfIdentifier(row, col, bit);
      var y := CnfIdentifier(row2, col2, bit);
      ghost var c1 := clauses;
      clauses := clauses + [[-eq, x, -y]];
      clauses := clauses + [[-eq, -x, y]];
      clauses := clauses + [[eq, -x, -y]];
      clauses := clauses + [[eq, x, y]];
      assert clauses == c1 + EqBitClauses(row, col, row2, col2, bit);
    }
  }

  method PushPair(c0: seq<Clause>, row: int, col: int, row2: int, col2: int) returns (clauses: seq<Clause>)
    ensures clauses == c0 + PairBlock(row, col, row2, col2)
  {
    var eqClauses := EqVariableInit(row, col, row2, col2);
    clauses := c0 + eqClauses;
    var neq := [-EqCnfIdentifier(row, col, row2, col2, 0), -EqCnfIdentifier(row, col, row2, col2, 1),
                -EqCnfIdentifier(row, col, row2, col2, 2), -EqCnfIdentifier(row, col, row2, col2, 3)];
    AppendAssoc(c0, eqClauses, [neq]);
    clauses := clauses + [neq];
  }

  method PushRowPairs(c0: seq<Clause>, row: int, col: int) returns (clauses: seq<Clause>)
    requires col < 10
    ensures clauses == c0 + RowPairsUpto(row, col, 10)
  {
    clauses := c0;
    for col2 := col + 1 to 10
      invariant clauses == c0 + RowPairsUpto(row, col, col2)
    {
      AppendAssoc(c0, RowPairsUpto(row, col, col2), PairBlock(row, col, row, col2));
      clauses := PushPair(clauses, row, col, row, col2);
    }
  }

  method PushRowDiff(c0: seq<Clause>, row: int) returns (clauses: seq<Clause>)
    ensures clauses == c0 + RowDiffUpto(row, 10, 10)
  {
    clauses := c0;
    for col := 1 to 10
      invariant clauses == c0 + RowDiffUpto(row, col, 10)
    {
      AppendAssoc(c0, RowDiffUpto(row, col, 10), RowPairsUpto(row, col, 10));
      clauses := PushRowPairs(clauses, row, col);
    }
  }

  method PushRowsDiff(c0: seq<Clause>) returns (clauses: seq<Clause>)
    ensures clauses == c0 + RowsDiffUpto(10, 10)
  {
    clauses := c0;
    for row := 1 to 10
      invariant clauses == c0 + RowsDiffUpto(row, 10)
    {
      AppendAssoc(c0, RowsDiffUpto(row, 10), RowDiffUpto(row, 10, 10));
      clauses := PushRowDiff(clauses, row);
    }
  }

  method PushColPairs(c0: seq<Clause>, col: int, row: int) returns (clauses: seq<Clause>)
    requires row < 10
    ensures clauses == c0 + ColPairsUpto(col, row, 10)
  {
    clauses := c0;
    for row2 := row + 1 to 10
      invariant clauses == c0 + ColPairsUpto(col, row, row2)
    {
      AppendAssoc(c0, ColPairsUpto(col, row, row2), PairBlock(row, col, row2, col));
      clauses := PushPair(clauses, row, col, row2, col);
    }
  }

  method PushColDiff(c0: seq<Clause>, col: int) returns (clauses: seq<Clause>)
    ensures clauses == c0 + ColDiffUpto(col, 10, 10)
  {
    clauses := c0;
    for row := 1 to 10
      invariant clauses == c0 + ColDiffUpto(col, row, 10)
    {
      AppendAssoc(c0, ColDiffUpto(col, row, 10), ColPairsUpto(col, row, 10));
      clauses := PushColPairs(clauses, col, row);
    }
  }

  method PushColsDiff(c0: seq<Clause>) returns (clauses: seq<Clause>)
    ensures clauses == c0 + ColsDiffUpto(10, 10)
  {
    clauses := c0;
    for col := 1 to 10
      invariant clauses == c0 + ColsDiffUpto(col, 10)
    {
      AppendAssoc(c0, ColsDiffUpto(col, 10), ColDiffUpto(col, 10, 10));
      clauses := PushColDiff(clauses, col);
    }
  }

  method PushBoxPairs(c0: seq<Clause>, sr: int, sc: int, index1: int) returns (clauses: seq<Clause>)
    requires 0 <= index1 < 9
    ensures clauses == c0 + BoxPairsUpto(sr, sc, index1, 9)
  {
    clauses := c0;
    for index2 := index1 + 1 to 9
      invariant clauses == c0 + BoxPairsUpto(sr, sc, index1, index2)
    {
      var row := BoxRow(sr, index1);
      var col := BoxCol(sc, index1);
      var row2 := BoxRow(sr, index2);
      var col2 := BoxCol(sc, index2);
      AppendAssoc(c0, BoxPairsUpto(sr, sc, index1, index2), PairBlock(row, col, row2, col2));
      clauses := PushPair(clauses, row, col, row2, col2);
    }
  }

  method PushBoxDiff(c0: seq<Clause>, sr: int, sc: int) returns (clauses: seq<Clause>)
    ensures clauses == c0 + BoxDiffUpto(sr, sc, 9, 9)
  {
    clauses := c0;
    for index1 := 0 to 9
      invariant clauses == c0 + BoxDiffUpto(sr, sc, index1, 9)
    {
      AppendAssoc(c0, BoxDiffUpto(sr, sc, index1, 9), BoxPairsUpto(sr, sc, index1, 9));
      clauses := PushBoxPairs(clauses, sr, sc, index1);
    }
  }

  method PushBoxesDiffRow(c0: seq<Clause>, sr: int) returns (clauses: seq<Clause>)
    ensures clauses == c0 + BoxesDiffRowUpto(sr, 3, 9)
  {
    clauses := c0;
    for sc := 0 to 3
      invariant clauses == c0 + BoxesDiffRowUpto(sr, sc, 9)
    {
      AppendAssoc(c0, BoxesDiffRowUpto(sr, sc, 9), BoxDiffUpto(sr, sc, 9, 9));
      clauses := PushBoxDiff(clauses, sr, sc);
    }
  }

  method PushBoxesDiff(c0: seq<Clause>) returns (clauses: seq<Clause>)
    ensures clauses == c0 + BoxesDiffUpto(3, 3, 9)
  {
    clauses := c0;
    for sr := 0 to 3
      invariant clauses == c0 + BoxesDiffUpto(sr, 3, 9)
    {
      AppendAssoc(c0, BoxesDiffUpto(sr, 3, 9), BoxesDiffRowUpto(sr, 3, 9));
      clauses := PushBoxesDiffRow(clauses, sr);
    }
  }

  /** The clause excluding bit pattern `forbidden` in a cell, built with a doubling mask. */
  method ForbiddenClause(row: int, col: int, forbidden: int) returns (cellClause: Clause)
    ensures cellClause == ForbiddenClauseUpto(row, col, forbidden, 4)
  {
    cellClause := [];
    var mask := 1;
    for index := 0 to 4
      invariant mask == Pow2(index)
      invariant cellClause == ForbiddenClauseUpto(row, col, forbidden, index)
    {
      if (forbidden / mask) % 2 != 0 {
        cellClause := cellClause + [-CnfIdentifier(row, col, index)];
      } else {
        cellClause := cellClause + [CnfIdentifier(row, col, index)];
      }
      mask := mask * 2;
    }
  }

  method PushCellForbidden(c0: seq<Clause>, row: int, col: int) returns (clauses: seq<Clause>)
    ensures clauses == c0 + CellForbiddenUpto(row, col, 16)
  {
    clauses := c0;
    for forbidden := 9 to 16
      invariant clauses == c0 + CellForbiddenUpto(row, col, forbidden)
    {
      var cellClause := ForbiddenClause(row, col, forbidden);
      AppendAssoc(c0, CellForbiddenUpto(row, col, forbidden), [cellClause]);
      clauses := clauses + [cellClause];
    }
  }

  method PushForbiddenRow(c0: seq<Clause>, row: int) returns (clauses: seq<Clause>)
    ensures clauses == c0 + ForbiddenRowUpto(row, 10)
  {
    clauses := c0;
    for col := 1 to 10
      invariant clauses == c0 + ForbiddenRowUpto(row, col)
    {
      AppendAssoc(c0, ForbiddenRowUpto(row, col), CellForbiddenUpto(row, col, 16));
      clauses := PushCellForbidden(clauses, row, col);
    }
  }

  method PushForbidden(c0: seq<Clause>) returns (clauses: seq<Clause>)
    ensures clauses == c0 + ForbiddenUpto(10, 10)
  {
    clauses := c0;
    for row := 1 to 10
      invariant clauses == c0 + ForbiddenUpto(row, 10)
    {
      AppendAssoc(c0, ForbiddenUpto(row, 10), ForbiddenRowUpto(row, 10));
      clauses := PushForbiddenRow(clauses, row);
    }
  }

  /** The four unit clauses of a clue: bit `index` of v positive when set, negated otherwise. */
  method PushClueBits(c0: seq<Clause>, row: int, col: int, v: int) returns (clauses: seq<Clause>)
    ensures clauses == c0 + ClueBitsUpto(row, col, v, 4)
  {
    clauses := c0;
    var mask := 1;
    for index := 0 to 4
      invariant mask == Pow2(index)
      invariant clauses == c0 + ClueBitsUpto(row, col, v, index)
    {
      AppendAssoc(c0, ClueBitsUpto(row, col, v, index), [ClueBit(row, col, v, index)]);
      if (v / mask) % 2 != 0 {
        clauses := clauses + [[CnfIdentifier(row + 1, col + 1, index)]];
      } else {
        clauses := clauses + [[-CnfIdentifier(row + 1, col + 1, index)]];
      }
      mask := mask * 2;
    }
  }

  lemma LineCluesStep(line: seq<Option<int>>, row: int, col: int)
    requires 0 <= col < |line|
    ensures LineCluesUpto(line, row, col + 1) == LineCluesUpto(line, row, col) + ClueUnits(line[col], row, col)
  {
    ConcatMapStep(0, col, c => if 0 <= c < |line| then ClueUnits(line[c], row, c) else []);
  }

  method PushLineClues(c0: seq<Clause>, line: seq<Option<int>>, row: int) returns (clauses: seq<Clause>)
    ensures clauses == c0 + LineCluesUpto(line, row, |line|)
  {
    clauses := c0;
    for col := 0 to |line|
      invariant clauses == c0 + LineCluesUpto(line, row, col)
    {
      LineCluesStep(line, row, col);
      AppendAssoc(c0, LineCluesUpto(line, row, col), ClueUnits(line[col], row, col));
      if line[col].Some? {
        var val := line[col].value;
        ClueUnitsOfClue(line[col], row, col, val);
        val := val - 1;
        clauses := PushClueBits(clauses, row, col, val);
      } else {
        AppendEmpty(clauses);
      }
    }
  }

  method PushClues(c0: seq<Clause>, clues: Grid) returns (clauses: seq<Clause>)
    ensures clauses == c0 + ClueClauses(clues)
  {
    clauses := c0;
    for row := 0 to |clues|
      invariant clauses == c0 + CluesUpto(clues, row)
    {
      AppendAssoc(c0, CluesUpto(clues, row), LineCluesUpto(clues[row], row, |clues[row]|));
      clauses := PushLineClues(clauses, clues[row], row);
    }
  }

  // ---------------------------------------------------------------------
  // What the clause families mean under a truth assignment.

  /** The equality variable of `bit` is true exactly when the two cells agree on that bit. */
  predicate EqBitCorrect(a: Assignment, row: int, col: int, row2: int, col2: int, bit: int)
  {
    a(EqCnfIdentifier(row, col, row2, col2, bit)) <==> (a(CnfIdentifier(row, col, bit)) == a(CnfIdentifier(row2, col2, bit)))
  }

  predicate EqVarsCorrect(a: Assignment, row: int, col: int, row2: int, col2: int)
  {
    forall bit :: 0 <= bit < 4 ==> EqBitCorrect(a, row, col, row2, col2, bit)
  }

  /** The four clauses of one bit hold exactly when its equality variable is correct. */
  lemma EqBitMeaning(a: Assignment, row: int, col: int, row2: int, col2: int, bit: int)
    requires InRange(row) && InRange(col) && InRange(row2) && InRange(col2) && IsBit(bit)
    ensures AllSat(a, EqBitClauses(row, col, row2, col2, bit)) <==> EqBitCorrect(a, row, col, row2, col2, bit)
  {
    var eq := EqCnfIdentifier(row, col, row2, col2, bit);
    var x := CnfIdentifier(row, col, bit);
    var y := CnfIdentifier(row2, col2, bit);
    XnorClauses(a, eq, x, y);
  }

  /**
   * `eq_variable_init` defines its equality variables: its clauses hold
   * exactly when each of the four records whether the cells agree on its bit.
   */
  lemma EqInitMeaning(a: Assignment, row: int, col: int, row2: int, col2: int)
    requires InRange(row) && InRange(col) && InRange(row2) && InRange(col2)
    ensures AllSat(a, EqInitUpto(row, col, row2, col2, 4)) <==> EqVarsCorrect(a, row, col, row2, col2)
  {
    var f := bit => EqBitClauses(row, col, row2, col2, bit);
    AllSatConcatMap(a, 0, 4, f);
    forall bit | 0 <= bit < 4
      ensures AllSat(a, f(bit)) <==> EqBitCorrect(a, row, col, row2, col2, bit)
    {
      EqBitMeaning(a, row, col, row2, col2, bit);
    }
  }

  /** `eq_variable_init` returns 16 clauses of three literals. */
  lemma EqInitShape(row: int, col: int, row2: int, col2: int)
    ensures |EqInitUpto(row, col, row2, col2, 4)| == 16
    ensures forall clause :: clause in EqInitUpto(row, col, row2, col2, 4) ==> |clause| == 3
  {
    var f := bit => EqBitClauses(row, col, row2, col2, bit);
    ConcatMapLength(0, 4, f, 4);
    ConcatMapForall(0, 4, f, clause => |clause| == 3);
  }

  /** Two cells hold different bit patterns exactly when they disagree on some bit. */
  lemma PatternsDiffer(a: Assignment, row: int, col: int, row2: int, col2: int)
    ensures CellPattern(a, row, col) != CellPattern(a, row2, col2)
      <==> exists bit :: 0 <= bit < 4 && a(CnfIdentifier(row, col, bit)) != a(CnfIdentifier(row2, col2, bit))
  {
    var p, q := CellPattern(a, row, col), CellPattern(a, row2, col2);
    if p != q {
      if a(CnfIdentifier(row, col, 0)) != a(CnfIdentifier(row2, col2, 0)) {
        assert 0 <= 0 < 4;
      } else if a(CnfIdentifier(row, col, 1)) != a(CnfIdentifier(row2, col2, 1)) {
        assert 0 <= 1 < 4;
      } else if a(CnfIdentifier(row, col, 2)) != a(CnfIdentifier(row2, col2, 2)) {
        assert 0 <= 2 < 4;
      } else {
        assert a(CnfIdentifier(row, col, 3)) != a(CnfIdentifier(row2, col2, 3));
      }
    }
  }

  /** The "some bit differs" clause holds exactly when one of the four equality variables is false. */
  lemma NeqMeaning(a: Assignment, row: int, col: int, row2: int, col2: int)
    requires InRange(row) && InRange(col) && InRange(row2) && InRange(col2)
    ensures AllSat(a, [NeqClause(row, col, row2, col2)])
      <==> exists bit :: 0 <= bit < 4 && !a(EqCnfIdentifier(row, col, row2, col2, bit))
  {
    var neq := NeqClause(row, col, row2, col2);
    assert neq in [neq];
    Sat4(a, neq[0], neq[1], neq[2], neq[3]);
    if !a(EqCnfIdentifier(row, col, row2, col2, 0)) {
      assert 0 <= 0 < 4;
    } else if !a(EqCnfIdentifier(row, col, row2, col2, 1)) {
      assert 0 <= 1 < 4;
    } else if !a(EqCnfIdentifier(row, col, row2, col2, 2)) {
      assert 0 <= 2 < 4;
    }
  }

  /** With correct equality variables, a false one marks exactly a bit on which the cells disagree. */
  lemma FalseEqMeansDiffer(a: Assignment, row: int, col: int, row2: int, col2: int)
    requires EqVarsCorrect(a, row, col, row2, col2)
    ensures (exists bit :: 0 <= bit < 4 && !a(EqCnfIdentifier(row, col, row2, col2, bit)))
      <==> exists bit :: 0 <= bit < 4 && a(CnfIdentifier(row, col, bit)) != a(CnfIdentifier(row2, col2, bit))
  {
    if exists bit :: 0 <= bit < 4 && !a(EqCnfIdentifier(row, col, row2, col2, bit)) {
      var bit :| 0 <= bit < 4 && !a(EqCnfIdentifier(row, col, row2, col2, bit));
      assert EqBitCorrect(a, row, col, row2, col2, bit);
    }
    if exists bit :: 0 <= bit < 4 && a(CnfIdentifier(row, col, bit)) != a(CnfIdentifier(row2, col2, bit)) {
      var bit :| 0 <= bit < 4 && a(CnfIdentifier(row, col, bit)) != a(CnfIdentifier(row2, col2, bit));
      assert EqBitCorrect(a, row, col, row2, col2, bit);
    }
  }

  /**
   * The block of a cell pair (equality definitions, then "some bit differs")
   * holds exactly when the equality variables are correct and the two cells
   * hold different patterns.
   */
  lemma PairBlockMeaning(a: Assignment, row: int, col: int, row2: int, col2: int)
    requires InRange(row) && InRange(col) && InRange(row2) && InRange(col2)
    ensures AllSat(a, PairBlock(row, col, row2, col2))
      <==> EqVarsCorrect(a, row, col, row2, col2) && CellPattern(a, row, col) != CellPattern(a, row2, col2)
  {
    AllSatAppend(a, EqInitUpto(row, col, row2, col2, 4), [NeqClause(row, col, row2, col2)]);
    EqInitMeaning(a, row, col, row2, col2);
    NeqMeaning(a, row, col, row2, col2);
    PatternsDiffer(a, row, col, row2, col2);
    if EqVarsCorrect(a, row, col, row2, col2) {
      FalseEqMeansDiffer(a, row, col, row2, col2);
    }
  }

  /** Bit `index` of the cell, as the literal excluding pattern `forbidden` reads it. */
  lemma ForbiddenLitMeaning(a: Assignment, row: int, col: int, forbidden: int, index: nat)
    requires InRange(row) && InRange(col) && index < 4
    ensures LitTrue(a, ForbiddenLit(row, col, forbidden, index)) <==> a(CnfIdentifier(row, col, index)) != BitSet(forbidden, index)
  {
  }

  /** The clause for pattern `forbidden` is falsified by exactly that bit pattern of the cell. */
  lemma ForbiddenClauseMeaning(a: Assignment, row: int, col: int, forbidden: int)
    requires InRange(row) && InRange(col) && 0 <= forbidden < 16
    ensures ClauseSat(a, ForbiddenClauseUpto(row, col, forbidden, 4)) <==> CellPattern(a, row, col) != forbidden
  {
    var l0, l1 := ForbiddenLit(row, col, forbidden, 0), ForbiddenLit(row, col, forbidden, 1);
    var l2, l3 := ForbiddenLit(row, col, forbidden, 2), ForbiddenLit(row, col, forbidden, 3);
    assert ForbiddenClauseUpto(row, col, forbidden, 4) == [l0, l1, l2, l3];
    Sat4(a, l0, l1, l2, l3);
    ForbiddenLitMeaning(a, row, col, forbidden, 0);
    ForbiddenLitMeaning(a, row, col, forbidden, 1);
    ForbiddenLitMeaning(a, row, col, forbidden, 2);
    ForbiddenLitMeaning(a, row, col, forbidden, 3);
    PatternIs(a, row, col, forbidden);
  }

  lemma ForbiddenUnitMeaning(a: Assignment, row: int, col: int, forbidden: int)
    requires InRange(row) && InRange(col) && 0 <= forbidden < 16
    ensures AllSat(a, [ForbiddenClauseUpto(row, col, forbidden, 4)]) <==> CellPattern(a, row, col) != forbidden
  {
    var clause := ForbiddenClauseUpto(row, col, forbidden, 4);
    assert clause in [clause];
    ForbiddenClauseMeaning(a, row, col, forbidden);
  }

  /** The seven clauses of a cell hold exactly when its pattern is 0..8, that is its digit is 1..9. */
  lemma CellForbiddenMeaning(a: Assignment, row: int, col: int)
    requires InRange(row) && InRange(col)
    ensures AllSat(a, CellForbiddenUpto(row, col, 16)) <==> CellPattern(a, row, col) < 9
  {
    var f := forbidden => [ForbiddenClauseUpto(row, col, forbidden, 4)];
    AllSatConcatMap(a, 9, 16, f);
    forall forbidden | 9 <= forbidden < 16
      ensures AllSat(a, f(forbidden)) <==> CellPattern(a, row, col) != forbidden
    {
      ForbiddenUnitMeaning(a, row, col, forbidden);
    }
    var p := CellPattern(a, row, col);
    if p >= 9 {
      assert 9 <= p < 16 && !AllSat(a, f(p));
    }
  }

  /** Each cell gets 7 clauses of 4 literals. */
  lemma CellForbiddenShape(row: int, col: int)
    ensures |CellForbiddenUpto(row, col, 16)| == 7
    ensures forall clause :: clause in CellForbiddenUpto(row, col, 16) ==> |clause| == 4
  {
    var f := forbidden => [ForbiddenClauseUpto(row, col, forbidden, 4)];
    ConcatMapLength(9, 16, f, 1);
    forall forbidden | 9 <= forbidden < 16
      ensures forall clause :: clause in f(forbidden) ==> |clause| == 4
    {
      ConcatMapLength(0, 4, index => if index >= 0 then [ForbiddenLit(row, col, forbidden, index)] else [], 1);
    }
    ConcatMapForall(9, 16, f, clause => |clause| == 4);
  }

  /** A cell holds pattern p (0..15) exactly when each of its four bits is the matching bit of p. */
  lemma PatternIs(a: Assignment, row: int, col: int, p: int)
    requires 0 <= p < 16
    ensures CellPattern(a, row, col) == p <==>
      (a(CnfIdentifier(row, col, 0)) == BitSet(p, 0) && a(CnfIdentifier(row, col, 1)) == BitSet(p, 1)
       && a(CnfIdentifier(row, col, 2)) == BitSet(p, 2) && a(CnfIdentifier(row, col, 3)) == BitSet(p, 3))
  {
    NibbleBits(p);
  }

  /** The unit clause of bit `index` holds exactly when the cell's bit equals bit `index` of v. */
  lemma ClueBitMeaning(a: Assignment, row: int, col: int, v: int, index: nat)
    requires 0 <= row < 9 && 0 <= col < 9 && index < 4
    ensures AllSat(a, [ClueBit(row, col, v, index)]) <==> a(CnfIdentifier(row + 1, col + 1, index)) == BitSet(v, index)
  {
    var unit := ClueBit(row, col, v, index);
    assert unit in [unit];
    SatUnit(a, unit[0]);
  }

  /** The unit clauses of a clue with v = value - 1 hold exactly when the cell's pattern is v modulo 16. */
  lemma ClueBitsMeaning(a: Assignment, row: int, col: int, v: int)
    requires 0 <= row < 9 && 0 <= col < 9
    ensures AllSat(a, ClueBitsUpto(row, col, v, 4)) <==> CellPattern(a, row + 1, col + 1) == v % 16
  {
    var f := index => if index >= 0 then [ClueBit(row, col, v, index)] else [];
    AllSatConcatMap(a, 0, 4, f);
    ClueBitMeaning(a, row, col, v, 0);
    ClueBitMeaning(a, row, col, v, 1);
    ClueBitMeaning(a, row, col, v, 2);
    ClueBitMeaning(a, row, col, v, 3);
    LowBits(v);
    PatternIs(a, row + 1, col + 1, v % 16);
  }

  lemma ClueBitsLength(row: int, col: int, v: int)
    ensures |ClueBitsUpto(row, col, v, 4)| == 4
  {
    ConcatMapLength(0, 4, index => if index >= 0 then [ClueBit(row, col, v, index)] else [], 1);
  }

  /** A clue yields four unit clauses; the one for bit i is positive exactly when bit i of v is set. */
  lemma ClueBitsShape(row: int, col: int, v: int)
    requires 0 <= row < 9 && 0 <= col < 9
    ensures var units := ClueBitsUpto(row, col, v, 4);
      |units| == 4
      && forall i :: 0 <= i < 4 ==>
        |units[i]| == 1 && Abs(units[i][0]) == CnfIdentifier(row + 1, col + 1, i) && (units[i][0] > 0 <==> BitSet(v, i))
  {
    var units := ClueBitsUpto(row, col, v, 4);
    assert units == [ClueBit(row, col, v, 0), ClueBit(row, col, v, 1), ClueBit(row, col, v, 2), ClueBit(row, col, v, 3)];
  }

  /** A clue with value 1..16 reads back as that digit from any assignment satisfying its unit clauses. */
  lemma ClueReadBack(a: Assignment, row: int, col: int, val: int)
    requires 0 <= row < 9 && 0 <= col < 9 && 1 <= val <= 16
    requires AllSat(a, ClueBitsUpto(row, col, val - 1, 4))
    ensures CellDigit(a, row + 1, col + 1) == val
  {
    ClueBitsMeaning(a, row, col, val - 1);
  }

  lemma LineCluesEmpty(line: seq<Option<int>>, row: int, from: int)
    requires 0 <= from
    requires forall c :: from <= c < |line| ==> line[c] == None
    ensures forall n :: from <= n < |line| ==> (if 0 <= n < |line| then ClueUnits(line[n], row, n) else []) == []
  {
  }

  /** A line whose last clue sits at column `col` ends with that clue's four unit clauses. */
  lemma LineEndsWithClue(line: seq<Option<int>>, row: int, col: int, val: int)
    requires 0 <= col < |line| && line[col] == Some(val)
    requires forall c :: col < c < |line| ==> line[c] == None
    ensures LineCluesUpto(line, row, |line|) == LineCluesUpto(line, row, col) + ClueUnits(line[col], row, col)
  {
    var g := c => if 0 <= c < |line| then ClueUnits(line[c], row, c) else [];
    LineCluesEmpty(line, row, col + 1);
    ConcatMapEndsWith(0, |line|, g, col);
  }

  lemma ClueUnitsOfClue(entry: Option<int>, row: int, col: int, val: int)
    requires entry == Some(val)
    ensures ClueUnits(entry, row, col) == ClueBitsUpto(row, col, val - 1, 4)
  {
  }

  /** The clue clauses end with the four unit clauses of the last clue in row-major order. */
  lemma CluesEndWithLastClue(clues: Grid, row: int, col: int, val: int)
    requires 0 <= row < |clues| && 0 <= col < |clues[row]| && clues[row][col] == Some(val)
    requires LastClueAt(clues, row, col)
    ensures EndsWith(ClueClauses(clues), ClueBitsUpto(row, col, val - 1, 4))
  {
    var f := r => if 0 <= r < |clues| then LineCluesUpto(clues[r], r, |clues[r]|) else [];
    forall n | row < n < |clues|
      ensures f(n) == []
    {
      var line := clues[n];
      LineCluesEmpty(line, n, 0);
      ConcatMapEmpty(0, |line|, c => if 0 <= c < |line| then ClueUnits(line[c], n, c) else []);
    }
    ConcatMapEndsWith(0, |clues|, f, row);
    LineEndsWithClue(clues[row], row, col, val);
    ClueUnitsOfClue(clues[row][col], row, col, val);
    var prefix := ConcatMap(0, row, f) + LineCluesUpto(clues[row], row, col);
    AppendAssoc(ConcatMap(0, row, f), LineCluesUpto(clues[row], row, col), ClueBitsUpto(row, col, val - 1, 4));
    assert ClueClauses(clues) == prefix + ClueBitsUpto(row, col, val - 1, 4);
    EndsWithAppend(prefix, ClueBitsUpto(row, col, val - 1, 4), ClueBitsUpto(row, col, val - 1, 4));
  }

  /** The encoder's last four clauses are the unit clauses of the last clue. */
  lemma EncodingEndsWithLastClue(clues: Grid, row: int, col: int, val: int)
    requires 0 <= row < |clues| && 0 <= col < |clues[row]| && clues[row][col] == Some(val)
    requires LastClueAt(clues, row, col)
    ensures EndsWith(SudokuClauses(clues), ClueBitsUpto(row, col, val - 1, 4))
  {
    CluesEndWithLastClue(clues, row, col, val);
    EndsWithAppend(RuleClauses(), ClueClauses(clues), ClueBitsUpto(row, col, val - 1, 4));
  }

  // ---------------------------------------------------------------------
  // The whole encoding: its models are exactly the solutions of the board.

  /** Every cell holds a pattern 0..8, that is a digit 1..9. */
  ghost predicate DigitsInRange(a: Assignment)
  {
    forall row, col :: InRange(row) && InRange(col) ==> CellPattern(a, row, col) < 9
  }

  /** Distinct cells of one row, column or sub-grid hold distinct digits. */
  ghost predicate HousesDistinct(a: Assignment)
  {
    forall row1, col1, row2, col2 ::
      InRange(row1) && InRange(col1) && InRange(row2) && InRange(col2)
      && (row1, col1) != (row2, col2) && SameHouse(row1, col1, row2, col2)
      ==> CellPattern(a, row1, col1) != CellPattern(a, row2, col2)
  }

  /** Every clue on the board fixes its cell's pattern to the clue minus one (modulo 16, as the bits do). */
  ghost predicate RespectsClues(a: Assignment, clues: Grid)
  {
    forall row, col :: 0 <= row < |clues| && 0 <= col < |clues[row]| && row < 9 && col < 9 && clues[row][col].Some?
      ==> CellPattern(a, row + 1, col + 1) == (clues[row][col].value - 1) % 16
  }

  ghost predicate SolvesClues(a: Assignment, clues: Grid)
  {
    DigitsInRange(a) && HousesDistinct(a) && RespectsClues(a, clues)
  }

  // Each block of clauses the encoder emits for one pair of cells, one
  // cell or one clue is part of the whole family, so a model of the family
  // satisfies the block. The bounds are parameters so that these lemmas
  // reason about the nesting without unfolding the concrete board.

  lemma RowPairIn(row: int, col: int, col2: int, m: int)
    requires col < col2 < m
    ensures forall clause :: clause in PairBlock(row, col, row, col2) ==> clause in RowPairsUpto(row, col, m)
  {
    ConcatMapSubsetOf(col + 1, m, c2 => PairBlock(row, col, row, c2), col2,
      PairBlock(row, col, row, col2), RowPairsUpto(row, col, m));
  }

  lemma RowPairsIn(row: int, col: int, n: int, m: int)
    requires 1 <= col < n
    ensures forall clause :: clause in RowPairsUpto(row, col, m) ==> clause in RowDiffUpto(row, n, m)
  {
    ConcatMapSubset(1, n, c => RowPairsUpto(row, c, m), col);
  }

  lemma RowDiffIn(row: int, n: int, m: int)
    requires 1 <= row < n
    ensures forall clause :: clause in RowDiffUpto(row, m, m) ==> clause in RowsDiffUpto(n, m)
  {
    ConcatMapSubset(1, n, r => RowDiffUpto(r, m, m), row);
  }

  lemma ColPairIn(col: int, row: int, row2: int, m: int)
    requires row < row2 < m
    ensures forall clause :: clause in PairBlock(row, col, row2, col) ==> clause in ColPairsUpto(col, row, m)
  {
    ConcatMapSubsetOf(row + 1, m, r2 => PairBlock(row, col, r2, col), row2,
      PairBlock(row, col, row2, col), ColPairsUpto(col, row, m));
  }

  lemma ColPairsIn(col: int, row: int, n: int, m: int)
    requires 1 <= row < n
    ensures forall clause :: clause in ColPairsUpto(col, row, m) ==> clause in ColDiffUpto(col, n, m)
  {
    ConcatMapSubset(1, n, r => ColPairsUpto(col, r, m), row);
  }

  lemma ColDiffIn(col: int, n: int, m: int)
    requires 1 <= col < n
    ensures forall clause :: clause in ColDiffUpto(col, m, m) ==> clause in ColsDiffUpto(n, m)
  {
    ConcatMapSubset(1, n, c => ColDiffUpto(c, m, m), col);
  }

  lemma BoxBlockIn(sr: int, sc: int, index1: int, index2: int, n: int, k: int, m: int)
    requires 0 <= sr < n && 0 <= sc < k && 0 <= index1 < index2 < m
    ensures forall clause ::
      clause in PairBlock(BoxRow(sr, index1), BoxCol(sc, index1), BoxRow(sr, index2), BoxCol(sc, index2))
      ==> clause in BoxesDiffUpto(n, k, m)
  {
    var block := PairBlock(BoxRow(sr, index1), BoxCol(sc, index1), BoxRow(sr, index2), BoxCol(sc, index2));
    var f := i2 => PairBlock(BoxRow(sr, index1), BoxCol(sc, index1), BoxRow(sr, i2), BoxCol(sc, i2));
    var g := i1 => BoxPairsUpto(sr, sc, i1, m);
    var h := c => BoxDiffUpto(sr, c, m, m);
    var j := r => BoxesDiffRowUpto(r, k, m);
    forall clause | clause in block
      ensures clause in BoxesDiffUpto(n, k, m)
    {
      assert clause in f(index2);
      ConcatMapContains(index1 + 1, m, f, index2, clause);
      assert clause in g(index1);
      ConcatMapContains(0, m, g, index1, clause);
      assert clause in h(sc);
      ConcatMapContains(0, k, h, sc, clause);
      assert clause in j(sr);
      ConcatMapContains(0, n, j, sr, clause);
    }
  }

  lemma CellForbiddenIn(row: int, col: int, n: int, m: int)
    requires 1 <= row < n && 1 <= col < m
    ensures forall clause :: clause in CellForbiddenUpto(row, col, 16) ==> clause in ForbiddenUpto(n, m)
  {
    var g := c => CellForbiddenUpto(row, c, 16);
    var h := r => ForbiddenRowUpto(r, m);
    ConcatMapSubsetOf(1, m, g, col, g(col), ForbiddenRowUpto(row, m));
    ConcatMapSubsetOf(1, n, h, row, h(row), ForbiddenUpto(n, m));
  }

  lemma ClueUnitsIn(clues: Grid, row: int, col: int)
    requires 0 <= row < |clues| && 0 <= col < |clues[row]|
    ensures forall clause :: clause in ClueUnits(clues[row][col], row, col) ==> clause in ClueClauses(clues)
  {
    var line := clues[row];
    var g := c => if 0 <= c < |line| then ClueUnits(line[c], row, c) else [];
    var f := r => if 0 <= r < |clues| then LineCluesUpto(clues[r], r, |clues[r]|) else [];
    forall clause | clause in ClueUnits(clues[row][col], row, col)
      ensures clause in ClueClauses(clues)
    {
      assert clause in g(col);
      ConcatMapContains(0, |line|, g, col, clause);
      assert clause in f(row);
      ConcatMapContains(0, |clues|, f, row, clause);
    }
  }

  /** Cells of rows 1..n-1, columns 1..m-1, that share a row hold different patterns. */
  predicate RowsDistinct(a: Assignment, n: int, m: int)
  {
    forall row, col, col2 :: 1 <= row < n && 1 <= col < col2 < m ==> CellPattern(a, row, col) != CellPattern(a, row, col2)
  }

  lemma RowsSound(a: Assignment, n: int, m: int)
    requires n <= 10 && m <= 10
    requires AllSat(a, RowsDiffUpto(n, m))
    ensures RowsDistinct(a, n, m)
  {
    forall row, col, col2 | 1 <= row < n && 1 <= col < col2 < m
      ensures CellPattern(a, row, col) != CellPattern(a, row, col2)
    {
      RowDiffIn(row, n, m);
      AllSatSubset(a, RowDiffUpto(row, m, m), RowsDiffUpto(n, m));
      RowPairsIn(row, col, m, m);
      AllSatSubset(a, RowPairsUpto(row, col, m), RowDiffUpto(row, m, m));
      RowPairIn(row, col, col2, m);
      AllSatSubset(a, PairBlock(row, col, row, col2), RowPairsUpto(row, col, m));
      PairBlockMeaning(a, row, col, row, col2);
    }
  }

  /** Cells of columns 1..n-1, rows 1..m-1, that share a column hold different patterns. */
  predicate ColsDistinct(a: Assignment, n: int, m: int)
  {
    forall col, row, row2 :: 1 <= col < n && 1 <= row < row2 < m ==> CellPattern(a, row, col) != CellPattern(a, row2, col)
  }

  lemma ColsSound(a: Assignment, n: int, m: int)
    requires n <= 10 && m <= 10
    requires AllSat(a, ColsDiffUpto(n, m))
    ensures ColsDistinct(a, n, m)
  {
    forall col, row, row2 | 1 <= col < n && 1 <= row < row2 < m
      ensures CellPattern(a, row, col) != CellPattern(a, row2, col)
    {
      ColDiffIn(col, n, m);
      AllSatSubset(a, ColDiffUpto(col, m, m), ColsDiffUpto(n, m));
      ColPairsIn(col, row, m, m);
      AllSatSubset(a, ColPairsUpto(col, row, m), ColDiffUpto(col, m, m));
      ColPairIn(col, row, row2, m);
      AllSatSubset(a, PairBlock(row, col, row2, col), ColPairsUpto(col, row, m));
      PairBlockMeaning(a, row, col, row2, col);
    }
  }

  /** The patterns of two cells of sub-grid (sr, sc), given by their indices inside it, differ. */
  predicate BoxCellsDiffer(a: Assignment, sr: int, sc: int, index1: int, index2: int)
  {
    CellPattern(a, BoxRow(sr, index1), BoxCol(sc, index1)) != CellPattern(a, BoxRow(sr, index2), BoxCol(sc, index2))
  }

  /** Cells of sub-grids (sr, sc) with sr < n, sc < k, at indices below m, hold different patterns. */
  predicate BoxesDistinct(a: Assignment, n: int, k: int, m: int)
  {
    forall sr, sc, index1, index2 ::
      0 <= sr < n && 0 <= sc < k && 0 <= index1 < index2 < m ==> BoxCellsDiffer(a, sr, sc, index1, index2)
  }

  lemma BoxesSound(a: Assignment, n: int, k: int, m: int)
    requires n <= 3 && k <= 3 && m <= 9
    requires AllSat(a, BoxesDiffUpto(n, k, m))
    ensures BoxesDistinct(a, n, k, m)
  {
    forall sr, sc, index1, index2 | 0 <= sr < n && 0 <= sc < k && 0 <= index1 < index2 < m
      ensures BoxCellsDiffer(a, sr, sc, index1, index2)
    {
      BoxBlockIn(sr, sc, index1, index2, n, k, m);
      BoxCellInBox(sr, sc, index1);
      BoxCellInBox(sr, sc, index2);
      var block := PairBlock(BoxRow(sr, index1), BoxCol(sc, index1), BoxRow(sr, index2), BoxCol(sc, index2));
      AllSatSubset(a, block, BoxesDiffUpto(n, k, m));
      PairBlockMeaning(a, BoxRow(sr, index1), BoxCol(sc, index1), BoxRow(sr, index2), BoxCol(sc, index2));
    }
  }

  lemma ForbiddenSound(a: Assignment, n: int, m: int)
    requires n <= 10 && m <= 10
    requires AllSat(a, ForbiddenUpto(n, m))
    ensures forall row, col :: 1 <= row < n && 1 <= col < m ==> CellPattern(a, row, col) < 9
  {
    forall row, col | 1 <= row < n && 1 <= col < m
      ensures CellPattern(a, row, col) < 9
    {
      CellForbiddenIn(row, col, n, m);
      AllSatSubset(a, CellForbiddenUpto(row, col, 16), ForbiddenUpto(n, m));
      CellForbiddenMeaning(a, row, col);
    }
  }

  lemma CluesSound(a: Assignment, clues: Grid)
    requires AllSat(a, ClueClauses(clues))
    ensures RespectsClues(a, clues)
  {
    forall row, col | 0 <= row < |clues| && 0 <= col < |clues[row]| && row < 9 && col < 9 && clues[row][col].Some?
      ensures CellPattern(a, row + 1, col + 1) == (clues[row][col].value - 1) % 16
    {
      ClueUnitsIn(clues, row, col);
      AllSatSubset(a, ClueUnits(clues[row][col], row, col), ClueClauses(clues));
      ClueBitsMeaning(a, row, col, clues[row][col].value - 1);
    }
  }

  /** Two distinct cells of one house are a row pair, a column pair or a sub-grid pair the encoder visits. */
  lemma HousesFromFamilies(a: Assignment)
    requires RowsDistinct(a, 10, 10) && ColsDistinct(a, 10, 10) && BoxesDistinct(a, 3, 3, 9)
    ensures HousesDistinct(a)
  {
    forall row1, col1, row2, col2 |
      InRange(row1) && InRange(col1) && InRange(row2) && InRange(col2)
      && (row1, col1) != (row2, col2) && SameHouse(row1, col1, row2, col2)
      ensures CellPattern(a, row1, col1) != CellPattern(a, row2, col2)
    {
      if row1 == row2 {
        if col1 > col2 {
          assert CellPattern(a, row1, col2) != CellPattern(a, row1, col1);
        }
      } else if col1 == col2 {
        if row1 > row2 {
          assert CellPattern(a, row2, col1) != CellPattern(a, row1, col1);
        }
      } else {
        var sr, sc := (row1 - 1) / 3, (col1 - 1) / 3;
        var i1, i2 := BoxIndex(row1, col1), BoxIndex(row2, col2);
        assert BoxRow(sr, i2) == row2 && BoxCol(sc, i2) == col2;
        if i1 < i2 {
          assert BoxCellsDiffer(a, sr, sc, i1, i2);
        } else {
          assert i1 != i2;
          assert BoxCellsDiffer(a, sr, sc, i2, i1);
        }
      }
    }
  }

  lemma RuleFamiliesSat(a: Assignment)
    requires AllSat(a, RuleClauses())
    ensures AllSat(a, RowsDiffUpto(10, 10)) && AllSat(a, ColsDiffUpto(10, 10))
    ensures AllSat(a, BoxesDiffUpto(3, 3, 9)) && AllSat(a, ForbiddenUpto(10, 10))
  {
    AllSatParts(a, RowsDiffUpto(10, 10), ColsDiffUpto(10, 10), BoxesDiffUpto(3, 3, 9), ForbiddenUpto(10, 10));
  }

  /** The row, column and sub-grid families make distinct cells of each house hold distinct digits. */
  lemma HousesSound(a: Assignment)
    requires AllSat(a, RowsDiffUpto(10, 10)) && AllSat(a, ColsDiffUpto(10, 10)) && AllSat(a, BoxesDiffUpto(3, 3, 9))
    ensures HousesDistinct(a)
  {
    RowsSound(a, 10, 10);
    ColsSound(a, 10, 10);
    BoxesSound(a, 3, 3, 9);
    HousesFromFamilies(a);
  }

  /** The forbidden-pattern family keeps every cell to a digit 1..9. */
  lemma DigitsSound(a: Assignment)
    requires AllSat(a, ForbiddenUpto(10, 10))
    ensures DigitsInRange(a)
  {
    ForbiddenSound(a, 10, 10);
  }

  /** Every model of the rule clauses fills the board with digits 1..9 that differ within each house. */
  lemma RulesSound(a: Assignment)
    requires AllSat(a, RuleClauses())
    ensures DigitsInRange(a) && HousesDistinct(a)
  {
    RuleFamiliesSat(a);
    HousesSound(a);
    DigitsSound(a);
  }

  /** Every model of the encoding is a solution: digits 1..9, distinct in each house, agreeing with the clues. */
  lemma EncodingSound(a: Assignment, clues: Grid)
    requires AllSat(a, SudokuClauses(clues))
    ensures SolvesClues(a, clues)
  {
    SudokuClausesSat(a, clues);
    RulesSound(a);
    CluesSound(a, clues);
  }

  // ---------------------------------------------------------------------
  // Completeness: every solution, with its equality variables set to
  // whether the two cells agree on the bit, satisfies the encoding.

  /** The assignment `a` on bit variables, with every equality variable made correct. */
  function WithEqVars(a: Assignment): (b: Assignment)
    ensures forall id :: id <= BitVariables ==> b(id) == a(id)
  {
    id =>
      if BitVariables < id <= LastEqVariable then
        var t := EqIdentifierToTuple(id);
        a(CnfIdentifier(t.0, t.1, t.4)) == a(CnfIdentifier(t.2, t.3, t.4))
      else a(id)
  }

  /** The equality variables of every pair of cells are correct. */
  ghost predicate AllEqVarsCorrect(a: Assignment)
  {
    forall row, col, row2, col2 :: InRange(row) && InRange(col) && InRange(row2) && InRange(col2) ==>
      EqVarsCorrect(a, row, col, row2, col2)
  }

  lemma WithEqVarsPattern(a: Assignment, row: int, col: int)
    requires InRange(row) && InRange(col)
    ensures CellPattern(WithEqVars(a), row, col) == CellPattern(a, row, col)
  {
  }

  lemma WithEqVarsBit(a: Assignment, row: int, col: int, row2: int, col2: int, bit: int)
    requires InRange(row) && InRange(col) && InRange(row2) && InRange(col2) && IsBit(bit)
    ensures EqBitCorrect(WithEqVars(a), row, col, row2, col2, bit)
  {
    EqRoundTrip(row, col, row2, col2, bit);
  }

  /** WithEqVars keeps the cells' patterns and makes every equality variable correct. */
  lemma WithEqVarsCorrect(a: Assignment)
    ensures AllEqVarsCorrect(WithEqVars(a))
    ensures forall row, col :: InRange(row) && InRange(col) ==> CellPattern(WithEqVars(a), row, col) == CellPattern(a, row, col)
  {
    forall row, col, row2, col2 | InRange(row) && InRange(col) && InRange(row2) && InRange(col2)
      ensures EqVarsCorrect(WithEqVars(a), row, col, row2, col2)
    {
      forall bit | 0 <= bit < 4
        ensures EqBitCorrect(WithEqVars(a), row, col, row2, col2, bit)
      {
        WithEqVarsBit(a, row, col, row2, col2, bit);
      }
    }
    forall row, col | InRange(row) && InRange(col)
      ensures CellPattern(WithEqVars(a), row, col) == CellPattern(a, row, col)
    {
      WithEqVarsPattern(a, row, col);
    }
  }

  /** Two cells of one sub-grid lie in the same house. */
  lemma HouseBoxPair(a: Assignment, sr: int, sc: int, index1: int, index2: int)
    requires HousesDistinct(a)
    requires 0 <= sr < 3 && 0 <= sc < 3 && 0 <= index1 < index2 < 9
    ensures BoxCellsDiffer(a, sr, sc, index1, index2)
  {
    var row1, col1 := BoxRow(sr, index1), BoxCol(sc, index1);
    var row2, col2 := BoxRow(sr, index2), BoxCol(sc, index2);
    BoxCellInBox(sr, sc, index1);
    BoxCellInBox(sr, sc, index2);
    BoxCellDistinct(sr, sc, index1, index2);
    assert SameHouse(row1, col1, row2, col2);
  }

  lemma RowsFromHouses(a: Assignment)
    requires HousesDistinct(a)
    ensures RowsDistinct(a, 10, 10)
  {
    forall row, col, col2 | 1 <= row < 10 && 1 <= col < col2 < 10
      ensures CellPattern(a, row, col) != CellPattern(a, row, col2)
    {
      assert SameHouse(row, col, row, col2);
    }
  }

  lemma ColsFromHouses(a: Assignment)
    requires HousesDistinct(a)
    ensures ColsDistinct(a, 10, 10)
  {
    forall col, row, row2 | 1 <= col < 10 && 1 <= row < row2 < 10
      ensures CellPattern(a, row, col) != CellPattern(a, row2, col)
    {
      assert SameHouse(row, col, row2, col);
    }
  }

  lemma BoxesFromHouses(a: Assignment)
    requires HousesDistinct(a)
    ensures BoxesDistinct(a, 3, 3, 9)
  {
    forall sr, sc, index1, index2 | 0 <= sr < 3 && 0 <= sc < 3 && 0 <= index1 < index2 < 9
      ensures BoxCellsDiffer(a, sr, sc, index1, index2)
    {
      HouseBoxPair(a, sr, sc, index1, index2);
    }
  }

  /** A solution's houses give the three families of distinct pairs the encoder visits. */
  lemma FamiliesFromHouses(a: Assignment)
    requires HousesDistinct(a)
    ensures RowsDistinct(a, 10, 10) && ColsDistinct(a, 10, 10) && BoxesDistinct(a, 3, 3, 9)
  {
    RowsFromHouses(a);
    ColsFromHouses(a);
    BoxesFromHouses(a);
  }

  lemma RowPairsComplete(a: Assignment, row: int, col: int, m: int)
    requires InRange(row) && InRange(col) && m <= 10
    requires AllEqVarsCorrect(a) && RowsDistinct(a, 10, 10)
    ensures AllSat(a, RowPairsUpto(row, col, m))
  {
    forall col2 | col < col2 < m
      ensures AllSat(a, PairBlock(row, col, row, col2))
    {
      assert EqVarsCorrect(a, row, col, row, col2);
      assert CellPattern(a, row, col) != CellPattern(a, row, col2);
      PairBlockMeaning(a, row, col, row, col2);
    }
    RowPairsSat(a, row, col, m);
  }

  lemma RowPairsSat(a: Assignment, row: int, col: int, m: int)
    requires forall col2 :: col < col2 < m ==> AllSat(a, PairBlock(row, col, row, col2))
    ensures AllSat(a, RowPairsUpto(row, col, m))
  {
    AllSatConcatMap(a, col + 1, m, c2 => PairBlock(row, col, row, c2));
  }

  lemma RowDiffComplete(a: Assignment, row: int, n: int, m: int)
    requires InRange(row) && n <= 10 && m <= 10
    requires AllEqVarsCorrect(a) && RowsDistinct(a, 10, 10)
    ensures AllSat(a, RowDiffUpto(row, n, m))
  {
    forall col | 1 <= col < n
      ensures AllSat(a, RowPairsUpto(row, col, m))
    {
      RowPairsComplete(a, row, col, m);
    }
    AllSatConcatMap(a, 1, n, c => RowPairsUpto(row, c, m));
  }

  lemma RowsComplete(a: Assignment, n: int, m: int)
    requires n <= 10 && m <= 10
    requires AllEqVarsCorrect(a) && RowsDistinct(a, 10, 10)
    ensures AllSat(a, RowsDiffUpto(n, m))
  {
    forall row | 1 <= row < n
      ensures AllSat(a, RowDiffUpto(row, m, m))
    {
      RowDiffComplete(a, row, m, m);
    }
    AllSatConcatMap(a, 1, n, r => RowDiffUpto(r, m, m));
  }

  lemma ColPairsComplete(a: Assignment, col: int, row: int, m: int)
    requires InRange(col) && InRange(row) && m <= 10
    requires AllEqVarsCorrect(a) && ColsDistinct(a, 10, 10)
    ensures AllSat(a, ColPairsUpto(col, row, m))
  {
    forall row2 | row < row2 < m
      ensures AllSat(a, PairBlock(row, col, row2, col))
    {
      assert EqVarsCorrect(a, row, col, row2, col);
      assert CellPattern(a, row, col) != CellPattern(a, row2, col);
      PairBlockMeaning(a, row, col, row2, col);
    }
    ColPairsSat(a, col, row, m);
  }

  lemma ColPairsSat(a: Assignment, col: int, row: int, m: int)
    requires forall row2 :: row < row2 < m ==> AllSat(a, PairBlock(row, col, row2, col))
    ensures AllSat(a, ColPairsUpto(col, row, m))
  {
    AllSatConcatMap(a, row + 1, m, r2 => PairBlock(row, col, r2, col));
  }

  lemma ColDiffComplete(a: Assignment, col: int, n: int, m: int)
    requires InRange(col) && n <= 10 && m <= 10
    requires AllEqVarsCorrect(a) && ColsDistinct(a, 10, 10)
    ensures AllSat(a, ColDiffUpto(col, n, m))
  {
    forall row | 1 <= row < n
      ensures AllSat(a, ColPairsUpto(col, row, m))
    {
      ColPairsComplete(a, col, row, m);
    }
    AllSatConcatMap(a, 1, n, r => ColPairsUpto(col, r, m));
  }

  lemma ColsComplete(a: Assignment, n: int, m: int)
    requires n <= 10 && m <= 10
    requires AllEqVarsCorrect(a) && ColsDistinct(a, 10, 10)
    ensures AllSat(a, ColsDiffUpto(n, m))
  {
    forall col | 1 <= col < n
      ensures AllSat(a, ColDiffUpto(col, m, m))
    {
      ColDiffComplete(a, col, m, m);
    }
    AllSatConcatMap(a, 1, n, c => ColDiffUpto(c, m, m));
  }

  lemma BoxPairComplete(a: Assignment, sr: int, sc: int, index1: int, index2: int)
    requires 0 <= sr < 3 && 0 <= sc < 3 && 0 <= index1 < index2 < 9
    requires AllEqVarsCorrect(a) && BoxCellsDiffer(a, sr, sc, index1, index2)
    ensures AllSat(a, PairBlock(BoxRow(sr, index1), BoxCol(sc, index1), BoxRow(sr, index2), BoxCol(sc, index2)))
  {
    BoxCellInBox(sr, sc, index1);
    BoxCellInBox(sr, sc, index2);
    PairBlockMeaning(a, BoxRow(sr, index1), BoxCol(sc, index1), BoxRow(sr, index2), BoxCol(sc, index2));
  }

  lemma BoxPairsComplete(a: Assignment, sr: int, sc: int, index1: int, m: int)
    requires 0 <= sr < 3 && 0 <= sc < 3 && 0 <= index1 < 9 && m <= 9
    requires AllEqVarsCorrect(a) && BoxesDistinct(a, 3, 3, 9)
    ensures AllSat(a, BoxPairsUpto(sr, sc, index1, m))
  {
    forall index2 | index1 < index2 < m
      ensures AllSat(a, PairBlock(BoxRow(sr, index1), BoxCol(sc, index1), BoxRow(sr, index2), BoxCol(sc, index2)))
    {
      BoxPairComplete(a, sr, sc, index1, index2);
    }
    AllSatConcatMap(a, index1 + 1, m, i2 =>
      PairBlock(BoxRow(sr, index1), BoxCol(sc, index1), BoxRow(sr, i2), BoxCol(sc, i2)));
  }

  lemma BoxDiffComplete(a: Assignment, sr: int, sc: int, n: int, m: int)
    requires 0 <= sr < 3 && 0 <= sc < 3 && n <= 9 && m <= 9
    requires AllEqVarsCorrect(a) && BoxesDistinct(a, 3, 3, 9)
    ensures AllSat(a, BoxDiffUpto(sr, sc, n, m))
  {
    forall index1 | 0 <= index1 < n
      ensures AllSat(a, BoxPairsUpto(sr, sc, index1, m))
    {
      BoxPairsComplete(a, sr, sc, index1, m);
    }
    AllSatConcatMap(a, 0, n, i1 => BoxPairsUpto(sr, sc, i1, m));
  }

  lemma BoxesRowComplete(a: Assignment, sr: int, n: int, m: int)
    requires 0 <= sr < 3 && n <= 3 && m <= 9
    requires AllEqVarsCorrect(a) && BoxesDistinct(a, 3, 3, 9)
    ensures AllSat(a, BoxesDiffRowUpto(sr, n, m))
  {
    forall sc | 0 <= sc < n
      ensures AllSat(a, BoxDiffUpto(sr, sc, m, m))
    {
      BoxDiffComplete(a, sr, sc, m, m);
    }
    AllSatConcatMap(a, 0, n, c => BoxDiffUpto(sr, c, m, m));
  }

  lemma BoxesComplete(a: Assignment, n: int, k: int, m: int)
    requires n <= 3 && k <= 3 && m <= 9
    requires AllEqVarsCorrect(a) && BoxesDistinct(a, 3, 3, 9)
    ensures AllSat(a, BoxesDiffUpto(n, k, m))
  {
    forall sr | 0 <= sr < n
      ensures AllSat(a, BoxesDiffRowUpto(sr, k, m))
    {
      BoxesRowComplete(a, sr, k, m);
    }
    AllSatConcatMap(a, 0, n, r => BoxesDiffRowUpto(r, k, m));
  }

  lemma ForbiddenRowComplete(a: Assignment, row: int, n: int)
    requires InRange(row) && n <= 10
    requires DigitsInRange(a)
    ensures AllSat(a, ForbiddenRowUpto(row, n))
  {
    forall col | 1 <= col < n
      ensures AllSat(a, CellForbiddenUpto(row, col, 16))
    {
      CellForbiddenMeaning(a, row, col);
    }
    AllSatConcatMap(a, 1, n, c => CellForbiddenUpto(row, c, 16));
  }

  lemma ForbiddenComplete(a: Assignment, n: int, m: int)
    requires n <= 10 && m <= 10
    requires DigitsInRange(a)
    ensures AllSat(a, ForbiddenUpto(n, m))
  {
    forall row | 1 <= row < n
      ensures AllSat(a, ForbiddenRowUpto(row, m))
    {
      ForbiddenRowComplete(a, row, m);
    }
    AllSatConcatMap(a, 1, n, r => ForbiddenRowUpto(r, m));
  }

  /** A board that fits the 9x9 grid. */
  predicate FitsBoard(clues: Grid)
  {
    |clues| <= 9 && forall row :: 0 <= row < |clues| ==> |clues[row]| <= 9
  }

  lemma LineCluesComplete(a: Assignment, clues: Grid, row: int)
    requires FitsBoard(clues) && RespectsClues(a, clues) && 0 <= row < |clues|
    ensures AllSat(a, LineCluesUpto(clues[row], row, |clues[row]|))
  {
    var line := clues[row];
    forall col | 0 <= col < |line|
      ensures AllSat(a, if 0 <= col < |line| then ClueUnits(line[col], row, col) else [])
    {
      if line[col].Some? {
        ClueBitsMeaning(a, row, col, line[col].value - 1);
      }
    }
    AllSatConcatMap(a, 0, |line|, c => if 0 <= c < |line| then ClueUnits(line[c], row, c) else []);
  }

  lemma CluesComplete(a: Assignment, clues: Grid)
    requires FitsBoard(clues) && RespectsClues(a, clues)
    ensures AllSat(a, ClueClauses(clues))
  {
    forall row | 0 <= row < |clues|
      ensures AllSat(a, if 0 <= row < |clues| then LineCluesUpto(clues[row], row, |clues[row]|) else [])
    {
      LineCluesComplete(a, clues, row);
    }
    AllSatConcatMap(a, 0, |clues|, r => if 0 <= r < |clues| then LineCluesUpto(clues[r], r, |clues[r]|) else []);
  }

  /** With correct equality variables, a board of digits 1..9 distinct in each house satisfies the rule clauses. */
  lemma RulesComplete(a: Assignment)
    requires AllEqVarsCorrect(a) && DigitsInRange(a) && HousesDistinct(a)
    ensures AllSat(a, RuleClauses())
  {
    FamiliesFromHouses(a);
    RowsComplete(a, 10, 10);
    ColsComplete(a, 10, 10);
    BoxesComplete(a, 3, 3, 9);
    ForbiddenComplete(a, 10, 10);
    AllSatParts(a, RowsDiffUpto(10, 10), ColsDiffUpto(10, 10), BoxesDiffUpto(3, 3, 9), ForbiddenUpto(10, 10));
  }

  /** Setting the equality variables leaves every cell, and so every solution, as it was. */
  lemma WithEqVarsSolves(a: Assignment, clues: Grid)
    requires SolvesClues(a, clues)
    ensures SolvesClues(WithEqVars(a), clues)
  {
    var b := WithEqVars(a);
    WithEqVarsCorrect(a);
    forall row, col | InRange(row) && InRange(col)
      ensures CellPattern(b, row, col) < 9
    {
      assert CellPattern(a, row, col) < 9;
    }
    forall row1, col1, row2, col2 |
      InRange(row1) && InRange(col1) && InRange(row2) && InRange(col2)
      && (row1, col1) != (row2, col2) && SameHouse(row1, col1, row2, col2)
      ensures CellPattern(b, row1, col1) != CellPattern(b, row2, col2)
    {
      assert CellPattern(a, row1, col1) != CellPattern(a, row2, col2);
    }
    forall row, col | 0 <= row < |clues| && 0 <= col < |clues[row]| && row < 9 && col < 9 && clues[row][col].Some?
      ensures CellPattern(b, row + 1, col + 1) == (clues[row][col].value - 1) % 16
    {
      assert CellPattern(a, row + 1, col + 1) == (clues[row][col].value - 1) % 16;
    }
  }

  /** Every solution of a board that fits the grid, extended by WithEqVars, is a model of the encoding. */
  lemma EncodingComplete(a: Assignment, clues: Grid)
    requires FitsBoard(clues) && SolvesClues(a, clues)
    ensures AllSat(WithEqVars(a), SudokuClauses(clues))
  {
    var b := WithEqVars(a);
    WithEqVarsCorrect(a);
    WithEqVarsSolves(a, clues);
    RulesComplete(b);
    CluesComplete(b, clues);
    SudokuClausesSat(b, clues);
  }

  /** The encoding holds exactly when its rule clauses and its clue clauses do. */
  lemma SudokuClausesSat(a: Assignment, clues: Grid)
    ensures AllSat(a, SudokuClauses(clues)) <==> AllSat(a, RuleClauses()) && AllSat(a, ClueClauses(clues))
  {
    AllSatAppend(a, RuleClauses(), ClueClauses(clues));
  }

  // ---------------------------------------------------------------------
  // Reading a cell back from a solver model.

  /** The solver's model as a truth assignment; an unassigned variable counts as false. */
  function ModelAssignment(value: Valuation): Assignment
  {
    id => IsTrue(value, id)
  }

  /**
   * One plus the value of the bits reported for a cell; `unwrap` demands an
   * assignment for each of its four variables.
   */
  method GetCellValue(value: Valuation, row: int, col: int) returns (cellValue: int)
    requires forall bit :: 0 <= bit < 4 ==> value(CnfIdentifier(row, col, bit)).Some?
    ensures cellValue == CellDigit(ModelAssignment(value), row, col)
    ensures 1 <= cellValue <= 16
  {
    var b0 := IsTrue(value, CnfIdentifier(row, col, 0));
    var b1 := IsTrue(value, CnfIdentifier(row, col, 1));
    var b2 := IsTrue(value, CnfIdentifier(row, col, 2));
    var b3 := IsTrue(value, CnfIdentifier(row, col, 3));
    assert Pow2(1) == 2 && Pow2(2) == 4 && Pow2(3) == 8;
    cellValue := 1;
    for bit := 0 to 4
      invariant cellValue == 1 + FromBits(0 < bit && b0, 1 < bit && b1, 2 < bit && b2, 3 < bit && b3)
    {
      if value(CnfIdentifier(row, col, bit)).value {
        cellValue := cellValue + Pow2(bit);
      }
    }
  }
}
