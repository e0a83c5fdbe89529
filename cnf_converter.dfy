/**
 * The first converter between puzzles and clauses. Its `cnf_identifier` and
 * `identifier_to_tuple` are those of the decimal encoding, and its encoder
 * is the decimal encoder with at-least-one, at-most-one and all-values
 * always on and unique values off. Its text parser keeps every line and
 * never fails.
 */
module CnfConverter {
  import opened Base
  import Sudoku
  import opened DecimalEncoding

  // ---------------------------------------------------------------------
  // The encoder.

  /** The clauses of the first converter, in the order of its loops. */
  method SudokuToCnf(clues: Grid) returns (clauses: seq<Clause>)
    ensures clauses == SudokuClauses(clues, true, true, true, false)
  {
    clauses := PushAtLeastOne([]);
    AppendEmpty(AloUpto(10));
    clauses := PushAtMostOne(clauses);
    ghost var c2 := clauses;
    clauses := PushRowsAll(clauses);
    clauses := PushColsAll(clauses);
    clauses := PushBoxesAll(clauses);
    AppendAssoc(c2, RowsAllUpto(10), ColsAllUpto(10));
    AppendAssoc(c2, RowsAllUpto(10) + ColsAllUpto(10), BoxesAllUpto(3));
    AppendEmpty(clauses);
    clauses := PushClues(clauses, clues);
  }

  /** The four parts of a concatenation, cut at their lengths. */
  lemma Parts<T>(a: seq<T>, b: seq<T>, c: seq<T>, d: seq<T>)
    ensures var s := a + b + c + d;
      && |s| == |a| + |b| + |c| + |d|
      && s[..|a|] == a && s[|a|..|a| + |b|] == b
      && s[|a| + |b|..|a| + |b| + |c|] == c && s[|a| + |b| + |c|..] == d
  {
    var s := a + b + c + d;
    assert s[..|a|] == a;
    assert s[|a|..|a| + |b|] == b;
    assert s[|a| + |b|..|a| + |b| + |c|] == c;
    assert s[|a| + |b| + |c|..] == d;
  }

  /** 81 at-least-one clauses, 2916 at-most-one pairs, 243 all-values clauses, then the clue units. */
  lemma Layout(clues: Grid)
    ensures var clauses := SudokuClauses(clues, true, true, true, false);
      && |clauses| == 3240 + |ClueClauses(clues)|
      && clauses[..81] == AloUpto(10) && clauses[81..2997] == AmoUpto(10)
      && clauses[2997..3240] == AllValues() && clauses[3240..] == ClueClauses(clues)
  {
    AtLeastOneLayout(1, 1);
    AtMostOneLength();
    AllValuesLength();
    var a, m, v, c := AloUpto(10), AmoUpto(10), AllValues(), ClueClauses(clues);
    assert SudokuClauses(clues, true, true, true, false) == a + m + v + c by {
      AppendEmpty(a + m + v);
    }
    Parts(a, m, v, c);
  }

  lemma PairLength(clause: Clause)
    requires IsAtMostOnePair(clause)
    ensures |clause| == 2 && clause[0] < 0 && clause[1] < 0
  {
    var row, col, val1, val2 :| InRange(row) && InRange(col) && 1 <= val1 < val2 <= 9
      && clause == [-CnfIdentifier(row, col, val1), -CnfIdentifier(row, col, val2)];
  }

  /** Clauses 81 to 2996 forbid two values in one cell: two negative literals each. */
  lemma AtMostOnePart(clues: Grid, k: int)
    requires 81 <= k < 2997
    ensures |SudokuClauses(clues, true, true, true, false)| == 3240 + |ClueClauses(clues)|
    ensures var clause := SudokuClauses(clues, true, true, true, false)[k];
      IsAtMostOnePair(clause) && |clause| == 2 && clause[0] < 0 && clause[1] < 0
  {
    Layout(clues);
    var clauses := SudokuClauses(clues, true, true, true, false);
    var clause := clauses[k];
    assert clause == AmoUpto(10)[k - 81] by {
      assert clauses[k] == clauses[81..2997][k - 81];
    }
    assert clause in AmoUpto(10);
    AtMostOneSound();
    PairLength(clause);
  }

  lemma RowClauseLength(clause: Clause)
    requires IsRowClause(clause)
    ensures |clause| == 9
  {
    var row, val :| InRange(row) && InRange(val) && clause == RowHasValue(row, val, 10);
    RowHasValueLayout(row, val);
  }

  lemma ColClauseLength(clause: Clause)
    requires IsColClause(clause)
    ensures |clause| == 9
  {
    var col, val :| InRange(col) && InRange(val) && clause == ColHasValue(col, val, 10);
    ColHasValueLayout(col, val);
  }

  lemma BoxClauseLength(clause: Clause)
    requires IsBoxClause(clause)
    ensures |clause| == 9
  {
    var sr, sc, val :| 0 <= sr < 3 && 0 <= sc < 3 && InRange(val) && clause == BoxHasValue(sr, sc, val, 4);
    BoxHasValueLayout(sr, sc, val);
  }

  /** Clauses 2997 to 3239 say that a row, a column or a sub-grid holds a value: nine literals each. */
  lemma AllValuesPart(clues: Grid, k: int)
    requires 2997 <= k < 3240
    ensures |SudokuClauses(clues, true, true, true, false)| == 3240 + |ClueClauses(clues)|
    ensures var clause := SudokuClauses(clues, true, true, true, false)[k];
      (IsRowClause(clause) || IsColClause(clause) || IsBoxClause(clause)) && |clause| == 9
  {
    Layout(clues);
    var clauses := SudokuClauses(clues, true, true, true, false);
    var clause := clauses[k];
    assert clause == AllValues()[k - 2997] by {
      assert clauses[k] == clauses[2997..3240][k - 2997];
    }
    assert clause in RowsAllUpto(10) + ColsAllUpto(10) + BoxesAllUpto(3);
    RowsAllSound();
    ColsAllSound();
    BoxesAllSound();
    if IsRowClause(clause) {
      RowClauseLength(clause);
    } else if IsColClause(clause) {
      ColClauseLength(clause);
    } else {
      BoxClauseLength(clause);
    }
  }

  /** Every clause after the first 3240 is the unit clause of a clue. */
  lemma CluePart(clues: Grid, k: int)
    requires 3240 <= k < |SudokuClauses(clues, true, true, true, false)|
    ensures IsClueUnit(clues, SudokuClauses(clues, true, true, true, false)[k])
  {
    Layout(clues);
    var clauses := SudokuClauses(clues, true, true, true, false);
    assert clauses[k] == clauses[3240..][k - 3240];
    CluesSound(clues);
  }

  // ---------------------------------------------------------------------
  // The lenient text parser.

  /** One row per line of the text, each the entries of its line; no length is checked. */
  function LenientClues(buf: string, emptyValue: string): Grid
  {
    var lines := Sudoku.Lines(buf);
    seq(|lines|, i requires 0 <= i < |lines| => Sudoku.LineEntries(lines[i], emptyValue))
  }

  method CluesFromString(buf: string, emptyValue: string) returns (clues: Grid)
    ensures clues == LenientClues(buf, emptyValue)
  {
    var lines := Sudoku.Lines(buf);
    clues := [];
    for i := 0 to |lines|
      invariant |clues| == i
      invariant forall j :: 0 <= j < i ==> clues[j] == Sudoku.LineEntries(lines[j], emptyValue)
    {
      var rowBuf := Sudoku.LineToRow(lines[i], emptyValue);
      clues := clues + [rowBuf];
    }
  }

  /**
   * The strict parser accepts exactly the texts the lenient one reads as nine
   * or more rows of nine entries, and then returns the same grid.
   */
  lemma StrictAgrees(buf: string, emptyValue: string)
    ensures var lenient := LenientClues(buf, emptyValue);
      Sudoku.Clues(buf, emptyValue).Ok? <==> |lenient| >= 9 && forall i :: 0 <= i < |lenient| ==> |lenient[i]| == 9
    ensures Sudoku.Clues(buf, emptyValue).Ok? ==> Sudoku.Clues(buf, emptyValue).value == LenientClues(buf, emptyValue)
  {
    var lines := Sudoku.Lines(buf);
    var lenient := LenientClues(buf, emptyValue);
    if |lines| >= 9 && exists i :: 0 <= i < |lines| && |Sudoku.LineEntries(lines[i], emptyValue)| != 9 {
      var i :| 0 <= i < |lines| && |Sudoku.LineEntries(lines[i], emptyValue)| != 9;
      assert |lenient[i]| != 9;
    }
  }
}
