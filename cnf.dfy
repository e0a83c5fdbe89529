/**
 * The app's view of a CNF variable: a literal decoded under the encoding in
 * use, back to the cell, value, bit or cell pair it speaks about, and the
 * digits such a literal allows.
 */
module Cnf {
  import opened Base
  import DecimalEncoding
  import BinaryEncoding

  /** The encoding in use; the decimal one carries which of its rule families are on. */
  datatype EncodingType =
    | Decimal(cellAtLeastOne: bool, cellAtMostOne: bool, sudokuHasAllValues: bool, sudokuHasUniqueValues: bool)
    | Binary

  /** A decoded literal: a cell value, a cell bit or the agreement of two cells on a bit; the last field is its sign. */
  datatype CnfVariable =
    | DecimalVar(row: int, col: int, value: int)
    | BitVar(row: int, col: int, bitIndex: int, bitValue: bool)
    | EqualityVar(row: int, col: int, row2: int, col2: int, bitIndex: int, equal: bool)

  /**
   * Decodes a literal. Under the binary encoding a variable above the 324 bit
   * variables is an equality variable; the decimal encoding has one kind of
   * variable, whose value carries the literal's sign.
   */
  function FromCnf(identifier: int, encoding: EncodingType): (v: CnfVariable)
    ensures encoding.Decimal? ==> v.DecimalVar? && (v.value > 0 <==> identifier > 0)
    ensures encoding.Binary? && Abs(identifier) > BinaryEncoding.BitVariables ==> v.EqualityVar? && (v.equal <==> identifier > 0)
    ensures encoding.Binary? && Abs(identifier) <= BinaryEncoding.BitVariables ==> v.BitVar? && (v.bitValue <==> identifier > 0)
  {
    match encoding
    case Binary =>
      if Abs(identifier) > 9 * 9 * 4 then
        var (row, col, row2, col2, bitIndex, equal) := BinaryEncoding.EqIdentifierToTuple(identifier);
        EqualityVar(row, col, row2, col2, bitIndex, equal)
      else
        var (row, col, bitIndex, value) := BinaryEncoding.IdentifierToTuple(identifier);
        BitVar(row, col, bitIndex, value)
    case Decimal(_, _, _, _) =>
      var (row, col, value) := DecimalEncoding.IdentifierToTuple(identifier);
      DecimalVar(row, col, value)
  }

  /** The arguments of a variable lie on the board (and its bit in 0..3). */
  predicate InBounds(v: CnfVariable)
  {
    match v
    case DecimalVar(row, col, value) => InRange(row) && InRange(col) && InRange(value)
    case BitVar(row, col, bitIndex, _) => InRange(row) && InRange(col) && BinaryEncoding.IsBit(bitIndex)
    case EqualityVar(row, col, row2, col2, bitIndex, _) =>
      InRange(row) && InRange(col) && InRange(row2) && InRange(col2) && BinaryEncoding.IsBit(bitIndex)
  }

  /**
   * The literal of a variable. Bit and equality variables put their sign on
   * the identifier; a decimal variable is passed to the identifier function
   * with its value as it is.
   */
  function ToCnf(v: CnfVariable): (identifier: int)
    ensures InBounds(v) && v.DecimalVar? ==> 1 <= identifier <= 729
    ensures InBounds(v) && v.BitVar? ==>
      1 <= Abs(identifier) <= BinaryEncoding.BitVariables && (identifier > 0 <==> v.bitValue)
    ensures InBounds(v) && v.EqualityVar? ==>
      BinaryEncoding.BitVariables < Abs(identifier) <= BinaryEncoding.LastEqVariable && (identifier > 0 <==> v.equal)
  {
    match v
    case DecimalVar(row, col, value) => DecimalEncoding.CnfIdentifier(row, col, value)
    case BitVar(row, col, bitIndex, value) =>
      if value then BinaryEncoding.CnfIdentifier(row, col, bitIndex)
      else -BinaryEncoding.CnfIdentifier(row, col, bitIndex)
    case EqualityVar(row, col, row2, col2, bitIndex, equal) =>
      if equal then BinaryEncoding.EqCnfIdentifier(row, col, row2, col2, bitIndex)
      else -BinaryEncoding.EqCnfIdentifier(row, col, row2, col2, bitIndex)
  }

  /** Under the binary encoding, every in-bounds bit or equality variable survives encoding and decoding. */
  lemma BinaryRoundTrip(v: CnfVariable)
    requires InBounds(v) && !v.DecimalVar?
    ensures FromCnf(ToCnf(v), Binary) == v
  {
    match v
    case BitVar(row, col, bitIndex, value) =>
      BinaryEncoding.RoundTrip(row, col, bitIndex);
    case EqualityVar(row, col, row2, col2, bitIndex, equal) =>
      BinaryEncoding.EqRoundTrip(row, col, row2, col2, bitIndex);
  }

  /** Under the decimal encoding, an in-bounds variable survives, and its negated literal decodes with a negated value. */
  lemma DecimalRoundTrip(v: CnfVariable, encoding: EncodingType)
    requires InBounds(v) && v.DecimalVar? && encoding.Decimal?
    ensures FromCnf(ToCnf(v), encoding) == v
    ensures FromCnf(-ToCnf(v), encoding) == DecimalVar(v.row, v.col, -v.value)
  {
    var id := DecimalEncoding.CnfIdentifier(v.row, v.col, v.value);
    DecimalEncoding.RoundTrip(v.row, v.col, v.value);
    var t := DecimalEncoding.IdentifierToTuple(id);
    var u := DecimalEncoding.IdentifierToTuple(-id);
    assert ToCnf(v) == id;
    assert FromCnf(id, encoding) == DecimalVar(t.0, t.1, t.2);
    assert FromCnf(-id, encoding) == DecimalVar(u.0, u.1, u.2);
  }

  /** Every literal of a binary variable (1..26568) decodes to an in-bounds variable that encodes back to it. */
  lemma BinaryDecodeRoundTrip(identifier: int)
    requires 1 <= Abs(identifier) <= BinaryEncoding.LastEqVariable
    ensures InBounds(FromCnf(identifier, Binary)) && ToCnf(FromCnf(identifier, Binary)) == identifier
  {
    if Abs(identifier) > BinaryEncoding.BitVariables {
      BinaryEncoding.EqDecodeInRange(identifier);
    } else {
      BinaryEncoding.DecodeInRange(identifier);
    }
  }

  /** Every positive literal of a decimal variable (1..729) decodes to an in-bounds variable that encodes back to it. */
  lemma DecimalDecodeRoundTrip(identifier: int, encoding: EncodingType)
    requires 1 <= identifier <= 729 && encoding.Decimal?
    ensures InBounds(FromCnf(identifier, encoding)) && ToCnf(FromCnf(identifier, encoding)) == identifier
  {
    DecimalEncoding.DecodeInRange(identifier);
  }

  // ---------------------------------------------------------------------
  // The digits a literal allows.

  /**
   * The shift `1 << bitIndex` on an `i32` overflows (and panics) unless the
   * bit index is 0..31.
   */
  predicate ShiftOk(v: CnfVariable)
  {
    v.BitVar? ==> 0 <= v.bitIndex < 32
  }

  /**
   * The digits a literal allows: none for an equality variable, its value
   * for a decimal one, and for a bit literal the digits 1..9 whose value
   * minus one has that bit as the literal says.
   */
  function PossibleNumbers(v: CnfVariable): set<int>
    requires ShiftOk(v)
  {
    match v
    case EqualityVar(_, _, _, _, _, _) => {}
    case DecimalVar(_, _, value) => {value}
    case BitVar(_, _, bitIndex, value) => set i | 0 <= i < 9 && BitSet(i, bitIndex) == value :: i + 1
  }

  method GetPossibleNumbers(v: CnfVariable) returns (possibilities: set<int>)
    requires ShiftOk(v)
    ensures possibilities == PossibleNumbers(v)
  {
    match v
    case EqualityVar(_, _, _, _, _, _) =>
      possibilities := {};
    case DecimalVar(_, _, value) =>
      possibilities := {value};
    case BitVar(_, _, bitIndex, value) =>
      possibilities := {};
      for i := 0 to 9
        invariant possibilities == set j | 0 <= j < i && BitSet(j, bitIndex) == value :: j + 1
      {
        if BitSet(i, bitIndex) == value {
          possibilities := possibilities + {i + 1};
        }
      }
  }

  /** The digits of the board. */
  function Digits(): set<int>
  {
    {1, 2, 3, 4, 5, 6, 7, 8, 9}
  }

  /** A bit literal allows only digits, and its two signs split the digits 1..9 between them. */
  lemma BitPartition(row: int, col: int, bitIndex: int)
    requires 0 <= bitIndex < 32
    ensures PossibleNumbers(BitVar(row, col, bitIndex, true)) + PossibleNumbers(BitVar(row, col, bitIndex, false)) == Digits()
    ensures PossibleNumbers(BitVar(row, col, bitIndex, true)) * PossibleNumbers(BitVar(row, col, bitIndex, false)) == {}
  {
    var t := PossibleNumbers(BitVar(row, col, bitIndex, true));
    var f := PossibleNumbers(BitVar(row, col, bitIndex, false));
    forall d | 1 <= d <= 9
      ensures d in t + f
    {
      if BitSet(d - 1, bitIndex) {
        assert d in t;
      } else {
        assert d in f;
      }
    }
    forall d | d in t + f
      ensures d in Digits()
    {
    }
  }

  /** The digits bit 2 and the negated bit 1 allow, as the source's own examples list them. */
  lemma PossibleNumbersExamples()
    ensures PossibleNumbers(BitVar(1, 1, 2, true)) == {5, 6, 7, 8}
    ensures PossibleNumbers(BitVar(1, 1, 1, false)) == {1, 2, 5, 6, 9}
  {
    assert Pow2(1) == 2 && Pow2(2) == 4;
    assert !BitSet(0, 2) && !BitSet(1, 2) && !BitSet(2, 2) && !BitSet(3, 2);
    assert BitSet(4, 2) && BitSet(5, 2) && BitSet(6, 2) && BitSet(7, 2) && !BitSet(8, 2);
    assert !BitSet(0, 1) && !BitSet(1, 1) && BitSet(2, 1) && BitSet(3, 1);
    assert !BitSet(4, 1) && !BitSet(5, 1) && BitSet(6, 1) && BitSet(7, 1) && !BitSet(8, 1);
  }

  // ---------------------------------------------------------------------
  // The two digit groups of an equality variable.

  /** The elements of a set of digits in increasing order: the `collect` followed by `sort`. */
  method SortDigits(s: set<int>) returns (sorted: seq<int>)
    requires s <= Digits()
    ensures StrictlyIncreasing(sorted) && Elements(sorted) == s
  {
    sorted := [];
    for d := 1 to 10
      invariant StrictlyIncreasing(sorted)
      invariant Elements(sorted) == set x | x in s && x < d
      invariant forall k :: 0 <= k < |sorted| ==> sorted[k] < d
    {
      ghost var below := set x | x in s && x < d;
      assert (set x | x in s && x < d + 1) == below + (if d in s then {d} else {});
      if d in s {
        sorted := sorted + [d];
      }
    }
  }

  /**
   * For an equality variable on bit b, the digits whose bit b is set and
   * those whose bit b is clear, each sorted; two empty lists otherwise.
   */
  method GetPossibleGroups(v: CnfVariable) returns (vec1: seq<int>, vec2: seq<int>)
    requires v.EqualityVar? ==> 0 <= v.bitIndex < 32
    ensures v.EqualityVar? ==> Elements(vec1) == PossibleNumbers(BitVar(0, 0, v.bitIndex, true))
    ensures v.EqualityVar? ==> Elements(vec2) == PossibleNumbers(BitVar(0, 0, v.bitIndex, false))
    ensures StrictlyIncreasing(vec1) && StrictlyIncreasing(vec2)
    ensures Elements(vec1) * Elements(vec2) == {}
    ensures v.EqualityVar? ==> Elements(vec1) + Elements(vec2) == Digits()
    ensures !v.EqualityVar? ==> vec1 == [] && vec2 == []
  {
    match v
    case EqualityVar(_, _, _, _, bitIndex, _) =>
      BitPartition(0, 0, bitIndex);
      var set1 := GetPossibleNumbers(BitVar(0, 0, bitIndex, true));
      vec1 := SortDigits(set1);
      var set2 := GetPossibleNumbers(BitVar(0, 0, bitIndex, false));
      vec2 := SortDigits(set2);
    case DecimalVar(_, _, _) =>
      vec1, vec2 := [], [];
    case BitVar(_, _, _, _) =>
      vec1, vec2 := [], [];
  }

  // ---------------------------------------------------------------------
  // Which decimal rule families let the solver solve the puzzle.

  /**
   * The rule families are enough when each cell has at least one value and
   * no house repeats one, or each cell has at most one value and every house
   * has every value.
   */
  function CnfEncodingRulesOk(atLeastOne: bool, atMostOne: bool, hasAllValues: bool, hasUniqueValues: bool): (ok: bool)
    ensures atLeastOne && atMostOne && hasAllValues && hasUniqueValues ==> ok
    ensures ok ==> (atLeastOne || atMostOne) && (hasAllValues || hasUniqueValues)
    ensures !hasAllValues && !hasUniqueValues ==> !ok
    ensures ok <==> (if atLeastOne then hasUniqueValues || (atMostOne && hasAllValues) else atMostOne && hasAllValues)
  {
    (atLeastOne && hasUniqueValues) || (atMostOne && hasAllValues)
  }

  /**
   * Under an accepted rule choice the decimal encoding pins down a solution:
   * every model of its clauses is a solved board that agrees with the clues.
   */
  lemma RulesOkSound(a: Assignment, clues: Grid, atLeastOne: bool, atMostOne: bool, hasAllValues: bool, hasUniqueValues: bool)
    requires CnfEncodingRulesOk(atLeastOne, atMostOne, hasAllValues, hasUniqueValues)
    requires AllSat(a, DecimalEncoding.SudokuClauses(clues, atLeastOne, atMostOne, hasAllValues, hasUniqueValues))
    ensures DecimalEncoding.SolvesClues(a, clues)
  {
    DecimalEncoding.EncodingSound(a, clues, atLeastOne, atMostOne, hasAllValues, hasUniqueValues);
  }
}
