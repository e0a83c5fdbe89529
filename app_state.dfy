/**
 * The state behind the GUI: the chosen encoding, the filter over the learned
 * clauses, the paging of the listed clauses and the trail of the clicked
 * conflict.
 */
module App {
  import opened Base
  import Lib
  import Cnf
  import DecimalEncoding
  import BinaryEncoding
  import Warnings
  import opened Filtering

  // ---------------------------------------------------------------------
  // Dispatch on the encoding.

  /** The clauses of the chosen encoding for the clues. */
  method SudokuToCnf(encoding: Cnf.EncodingType, clues: Grid) returns (clauses: seq<Clause>)
    ensures encoding.Decimal? ==> clauses == DecimalEncoding.SudokuClauses(clues,
      encoding.cellAtLeastOne, encoding.cellAtMostOne, encoding.sudokuHasAllValues, encoding.sudokuHasUniqueValues)
    ensures encoding.Binary? ==> clauses == BinaryEncoding.SudokuClauses(clues)
  {
    match encoding {
      case Decimal(atLeastOne, atMostOne, hasAllValues, hasUniqueValues) =>
        clauses := DecimalEncoding.SudokuToCnf(clues, atLeastOne, atMostOne, hasAllValues, hasUniqueValues);
      case Binary =>
        clauses := BinaryEncoding.SudokuToCnf(clues);
    }
  }

  /** The digit the solver's model gives a cell, read the way the chosen encoding stores it. */
  method GetCellValue(encoding: Cnf.EncodingType, value: Valuation, row: int, col: int) returns (cellValue: int)
    requires encoding.Binary? ==> forall bit :: 0 <= bit < 4 ==> value(BinaryEncoding.CnfIdentifier(row, col, bit)).Some?
    ensures encoding.Binary? ==> cellValue == BinaryEncoding.CellDigit(BinaryEncoding.ModelAssignment(value), row, col)
    ensures encoding.Decimal? && cellValue != -1 ==> InRange(cellValue) && IsTrue(value, DecimalEncoding.CnfIdentifier(row, col, cellValue))
    ensures encoding.Decimal? && cellValue == -1 ==>
      forall val :: 1 <= val <= 9 ==> !IsTrue(value, DecimalEncoding.CnfIdentifier(row, col, val))
    ensures encoding.Decimal? ==> forall val :: 1 <= val <= 9 && (cellValue == -1 || val < cellValue) ==>
      !IsTrue(value, DecimalEncoding.CnfIdentifier(row, col, val))
  {
    match encoding {
      case Decimal(_, _, _, _) =>
        cellValue := DecimalEncoding.GetCellValue(value, row, col);
      case Binary =>
        cellValue := BinaryEncoding.GetCellValue(value, row, col);
    }
  }

  /** Every bit variable of the cell is fixed at the root level (`fixed` is 1 or -1 for a fixed literal, 0 otherwise). */
  predicate AllBitsFixed(fixed: int -> int, row: int, col: int)
  {
    forall bit :: 0 <= bit < 4 ==> fixed(BinaryEncoding.CnfIdentifier(row, col, bit)) != 0
  }

  /** One plus the value of the bits of the cell fixed to true. */
  function FixedDigit(fixed: int -> int, row: int, col: int): int
  {
    1 + FromBits(fixed(BinaryEncoding.CnfIdentifier(row, col, 0)) == 1, fixed(BinaryEncoding.CnfIdentifier(row, col, 1)) == 1,
                 fixed(BinaryEncoding.CnfIdentifier(row, col, 2)) == 1, fixed(BinaryEncoding.CnfIdentifier(row, col, 3)) == 1)
  }

  /**
   * Whether the solver has fixed the cell to `val`: one fixed-true variable
   * under the decimal encoding; four fixed bits spelling val - 1 under the
   * binary encoding, where one unfixed bit means no.
   */
  method Fixed(encoding: Cnf.EncodingType, fixed: int -> int, row: int, col: int, val: int) returns (b: bool)
    ensures encoding.Decimal? ==> (b <==> fixed(DecimalEncoding.CnfIdentifier(row, col, val)) == 1)
    ensures encoding.Binary? ==> (b <==> AllBitsFixed(fixed, row, col) && FixedDigit(fixed, row, col) == val)
  {
    match encoding {
      case Decimal(_, _, _, _) =>
        b := fixed(DecimalEncoding.CnfIdentifier(row, col, val)) == 1;
      case Binary =>
        assert Pow2(1) == 2 && Pow2(2) == 4 && Pow2(3) == 8;
        var f0 := fixed(BinaryEncoding.CnfIdentifier(row, col, 0)) == 1;
        var f1 := fixed(BinaryEncoding.CnfIdentifier(row, col, 1)) == 1;
        var f2 := fixed(BinaryEncoding.CnfIdentifier(row, col, 2)) == 1;
        var f3 := fixed(BinaryEncoding.CnfIdentifier(row, col, 3)) == 1;
        var value := 1;
        for bit := 0 to 4
          invariant forall j :: 0 <= j < bit ==> fixed(BinaryEncoding.CnfIdentifier(row, col, j)) != 0
          invariant value == 1 + FromBits(0 < bit && f0, 1 < bit && f1, 2 < bit && f2, 3 < bit && f3)
        {
          var fixVal := fixed(BinaryEncoding.CnfIdentifier(row, col, bit));
          if fixVal == 0 {
            return false;
          } else if fixVal == 1 {
            value := value + Pow2(bit);
          }
        }
        b := value == val;
    }
  }

  /**
   * When the root-level fixed values agree with a model, a cell counts as
   * fixed to `val` exactly when the model's digit for the cell is `val`.
   */
  lemma FixedAgreesWithModel(fixed: int -> int, a: Assignment, row: int, col: int, val: int)
    requires forall bit :: 0 <= bit < 4 ==>
      fixed(BinaryEncoding.CnfIdentifier(row, col, bit)) == if a(BinaryEncoding.CnfIdentifier(row, col, bit)) then 1 else -1
    ensures AllBitsFixed(fixed, row, col)
    ensures AllBitsFixed(fixed, row, col) && FixedDigit(fixed, row, col) == val <==> BinaryEncoding.CellDigit(a, row, col) == val
  {
    assert fixed(BinaryEncoding.CnfIdentifier(row, col, 0)) == if a(BinaryEncoding.CnfIdentifier(row, col, 0)) then 1 else -1;
    assert fixed(BinaryEncoding.CnfIdentifier(row, col, 1)) == if a(BinaryEncoding.CnfIdentifier(row, col, 1)) then 1 else -1;
    assert fixed(BinaryEncoding.CnfIdentifier(row, col, 2)) == if a(BinaryEncoding.CnfIdentifier(row, col, 2)) then 1 else -1;
    assert fixed(BinaryEncoding.CnfIdentifier(row, col, 3)) == if a(BinaryEncoding.CnfIdentifier(row, col, 3)) then 1 else -1;
  }

  /** One bit left open means the cell is not fixed, whatever the other bits say. */
  lemma UnfixedBitNotFixed(fixed: int -> int, row: int, col: int, bit: int)
    requires 0 <= bit < 4 && fixed(BinaryEncoding.CnfIdentifier(row, col, bit)) == 0
    ensures !AllBitsFixed(fixed, row, col)
  {
  }

  // ---------------------------------------------------------------------
  // Decoding for display.

  /** Each literal read as a variable of the encoding. */
  function DecodeAll(literals: seq<int>, encoding: Cnf.EncodingType): (vs: seq<Cnf.CnfVariable>)
    ensures |vs| == |literals| && forall k :: 0 <= k < |literals| ==> vs[k] == Cnf.FromCnf(literals[k], encoding)
  {
    seq(|literals|, k requires 0 <= k < |literals| => Cnf.FromCnf(literals[k], encoding))
  }

  /** Each clause read as variables of the encoding. */
  function DecodeClauses(clauses: seq<Clause>, encoding: Cnf.EncodingType): (vss: seq<seq<Cnf.CnfVariable>>)
    ensures |vss| == |clauses| && forall k :: 0 <= k < |clauses| ==> vss[k] == DecodeAll(clauses[k], encoding)
  {
    seq(|clauses|, k requires 0 <= k < |clauses| => DecodeAll(clauses[k], encoding))
  }

  // ---------------------------------------------------------------------
  // Paging arithmetic.

  /** `count` pages of `pageLength` hold `n` clauses, and one page fewer would not. */
  predicate PageCountOk(count: int, n: nat, pageLength: nat)
  {
    count >= 0 && count * pageLength >= n && (count == 0 || (count - 1) * pageLength < n)
  }

  /** The number of pages `count_pages` computes: floor division, plus one for a partial last page. */
  function PageCount(n: nat, pageLength: nat): (count: nat)
    requires pageLength >= 1
    ensures PageCountOk(count, n, pageLength)
  {
    var q, r := n / pageLength, n % pageLength;
    assert n == q * pageLength + r;
    if r == 0 then
      assert q == 0 || (q - 1) * pageLength == n - pageLength;
      q
    else
      assert (q + 1) * pageLength == n - r + pageLength;
      q + 1
  }

  /** The page count is the only page count: at most one count fits a length and a page size. */
  lemma PageCountUnique(c1: int, c2: int, n: nat, pageLength: nat)
    requires PageCountOk(c1, n, pageLength) && PageCountOk(c2, n, pageLength)
    ensures c1 == c2
  {
    if c1 < c2 {
      MulMonotone(c1, c2 - 1, pageLength);
    } else if c2 < c1 {
      MulMonotone(c2, c1 - 1, pageLength);
    }
  }

  /** `max(min(p, count - 1), 0)`: the page number `set_page_number` keeps. */
  function ClampPage(p: int, count: int): (page: int)
    ensures page >= 0
    ensures count >= 1 ==> page < count
    ensures 0 <= p < count ==> page == p
    ensures count >= 1 && p >= count ==> page == count - 1
    ensures p < 0 || count <= 0 ==> page == 0
  {
    var low := if p < count - 1 then p else count - 1;
    if low < 0 then 0 else low
  }

  /** Asking for page 0 always lands on page 0. */
  lemma ClampFirstPage(count: int)
    ensures ClampPage(0, count) == 0
  {
  }

  // ---------------------------------------------------------------------
  // The state.

  /** The encoding the GUI starts with: at-least-one and unique values. */
  const DefaultEncoding := Cnf.Decimal(true, false, false, true)

  /** The page length the GUI starts with and returns to. */
  const DefaultPageLength := 100

  class AppState {
    const filter: ListFilter
    var maxLength: Option<int>
    var maxLengthInput: string
    var selectedCell: Option<(int, int)>
    var clickedConstraintIndex: Option<nat>
    var conflictLiterals: Option<seq<Cnf.CnfVariable>>
    var trail: Option<seq<Cnf.CnfVariable>>
    var pageNumber: int
    var pageCount: int
    var pageLength: nat
    var pageLengthInput: string
    var filteredLength: nat
    var showSolvedSudoku: bool
    var littleNumberConstraints: seq<Cnf.CnfVariable>
    var encoding: Cnf.EncodingType
    var showConflictLiterals: bool
    var showTrail: bool
    var editorActive: bool
    var highlightFixedLiterals: bool
    const showWarning: Warnings.Warning

    /** Pages have at least one row and the page number is never negative. */
    ghost predicate Valid()
      reads this
    {
      pageLength >= 1 && pageNumber >= 0
    }

    // Groups of fields, so that a contract can say which ones an operation leaves alone.

    ghost function Settings(): (bool, bool, bool, bool, bool, Cnf.EncodingType)
      reads this
    {
      (showSolvedSudoku, showConflictLiterals, showTrail, editorActive, highlightFixedLiterals, encoding)
    }

    ghost function Selection(): (Option<int>, string, Option<(int, int)>)
      reads this
    {
      (maxLength, maxLengthInput, selectedCell)
    }

    ghost function Click(): (Option<nat>, Option<seq<Cnf.CnfVariable>>, Option<seq<Cnf.CnfVariable>>)
      reads this
    {
      (clickedConstraintIndex, conflictLiterals, trail)
    }

    ghost function Paging(): (int, int, nat, string, nat, seq<Cnf.CnfVariable>)
      reads this
    {
      (pageNumber, pageCount, pageLength, pageLengthInput, filteredLength, littleNumberConstraints)
    }

    ghost function FilterState(): (set<nat>, set<nat>, map<(int, int), set<nat>>, StepTrail)
      reads this, filter
    {
      (filter.lengthFilter, filter.cellFilter, filter.cellConstraints, filter.trails)
    }

    /** A fresh state over the shared clause list: default encoding, first page of 100, nothing selected. */
    constructor (constraints: Lib.ConstraintList, trails: StepTrail)
      ensures Valid() && fresh(filter) && fresh(showWarning)
      ensures filter.constraints == constraints && filter.trails == trails
      ensures filter.lengthFilter == Indexes(|constraints.clauses|) && filter.cellFilter == Indexes(|constraints.clauses|)
      ensures forall cell :: cell in filter.cellConstraints <==> IsCell(cell)
      ensures forall cell :: cell in filter.cellConstraints ==>
        filter.cellConstraints[cell] == TouchingUpto(constraints.clauses, DefaultEncoding, cell, |constraints.clauses|)
      ensures encoding == DefaultEncoding
      ensures maxLength == None && maxLengthInput == "" && selectedCell == None
      ensures clickedConstraintIndex == None && conflictLiterals == None && trail == None
      ensures pageNumber == 0 && pageCount == 0 && pageLength == DefaultPageLength && pageLengthInput == "100"
      ensures filteredLength == 0 && littleNumberConstraints == []
      ensures showSolvedSudoku && !showConflictLiterals && !showTrail && !editorActive && !highlightFixedLiterals
      ensures !showWarning.Is()
    {
      var f := new ListFilter(constraints, trails);
      f.Reinit(DefaultEncoding);
      filter := f;
      maxLength := None;
      maxLengthInput := "";
      selectedCell := None;
      clickedConstraintIndex := None;
      conflictLiterals := None;
      trail := None;
      pageNumber := 0;
      pageCount := 0;
      pageLength := DefaultPageLength;
      pageLengthInput := "100";
      filteredLength := 0;
      showSolvedSudoku := true;
      showConflictLiterals := false;
      showTrail := false;
      littleNumberConstraints := [];
      encoding := DefaultEncoding;
      editorActive := false;
      highlightFixedLiterals := false;
      showWarning := new Warnings.Warning();
    }

    /**
     * The clauses on the current page, decoded, and their conflicts;
     * refreshes the count of kept clauses, the page count and the unit
     * literals up to the current page.
     */
    method GetFiltered() returns (list: seq<seq<Cnf.CnfVariable>>, pageTrail: StepTrail)
      requires Valid()
      requires filter.KeptInRange() && filter.PageInTrail(pageNumber, pageLength) && filter.PrefixInRange(pageNumber, pageLength)
      modifies this
      ensures Valid()
      ensures filteredLength == |filter.Kept()|
      ensures PageCountOk(pageCount, filteredLength, pageLength)
      ensures pageNumber == old(pageNumber) && pageLength == old(pageLength) && pageLengthInput == old(pageLengthInput)
      ensures list == DecodeClauses(filter.PageClauses(pageNumber, pageLength), encoding)
      ensures pageTrail == filter.PageTrail(pageNumber, pageLength)
      ensures littleNumberConstraints == DecodeAll(filter.LittleNumbers(pageNumber, pageLength), encoding)
      ensures Settings() == old(Settings()) && Selection() == old(Selection()) && Click() == old(Click())
    {
      var clauses, t, length := filter.GetFiltered(pageNumber, pageLength);
      filteredLength := length;
      CountPages();
      UpdateLittleNumberConstraints();
      list := DecodeClauses(clauses, encoding);
      pageTrail := t;
    }

    /** Clears the filters, rebuilds the cell map for the current encoding and resets the paging. */
    method Reinit()
      requires Valid()
      modifies this, filter
      ensures Valid()
      ensures maxLength == None && maxLengthInput == "" && selectedCell == None
      ensures clickedConstraintIndex == None && conflictLiterals == None && trail == None
      ensures pageNumber == 0 && pageCount == 0 && pageLength == DefaultPageLength && pageLengthInput == "100"
      ensures filteredLength == 0 && littleNumberConstraints == []
      ensures filter.lengthFilter == Indexes(|filter.constraints.clauses|)
      ensures filter.cellFilter == Indexes(|filter.constraints.clauses|)
      ensures forall cell :: cell in filter.cellConstraints <==> cell in old(filter.cellConstraints) || IsCell(cell)
      ensures forall cell :: cell in filter.cellConstraints ==>
        filter.cellConstraints[cell] == (if IsCell(cell) then {} else old(filter.cellConstraints)[cell])
          + TouchingUpto(filter.constraints.clauses, encoding, cell, |filter.constraints.clauses|)
      ensures filter.trails == old(filter.trails) && Settings() == old(Settings())
    {
      ClearFilters();
      filter.Reinit(encoding);
      pageNumber := 0;
      pageCount := 0;
      pageLength := DefaultPageLength;
      pageLengthInput := "100";
      filteredLength := 0;
      littleNumberConstraints := [];
    }

    /**
     * Parses the maximum length field. A valid length replaces the length
     * filter and goes back to page 0; an invalid one only clears the stored
     * maximum. Either way the shown trail is cleared.
     */
    method FilterByMaxLength()
      requires Valid()
      modifies this, filter
      ensures Valid()
      ensures maxLength == Lib.ParseNumericInput(old(maxLengthInput))
      ensures conflictLiterals == None && trail == None
      ensures maxLength.Some? ==>
        && pageNumber == 0 && clickedConstraintIndex == None
        && filter.lengthFilter == ShortUpto(filter.constraints.clauses, maxLength.value, |filter.constraints.clauses|)
      ensures maxLength.None? ==>
        && pageNumber == old(pageNumber) && clickedConstraintIndex == old(clickedConstraintIndex)
        && filter.lengthFilter == old(filter.lengthFilter)
      ensures filter.cellFilter == old(filter.cellFilter) && filter.cellConstraints == old(filter.cellConstraints)
      ensures filter.trails == old(filter.trails)
      ensures maxLengthInput == old(maxLengthInput) && selectedCell == old(selectedCell)
      ensures pageCount == old(pageCount) && pageLength == old(pageLength) && pageLengthInput == old(pageLengthInput)
      ensures filteredLength == old(filteredLength) && littleNumberConstraints == old(littleNumberConstraints)
      ensures Settings() == old(Settings())
    {
      ClearTrail();
      maxLength := Lib.ParseNumericInput(maxLengthInput);
      if maxLength.Some? {
        SetPageNumber(0);
        filter.ByMaxLength(maxLength.value);
      }
    }

    /** Keeps the clauses about the cell and goes back to page 0. */
    method SelectCell(row: int, col: int)
      requires Valid()
      modifies this, filter
      ensures Valid()
      ensures selectedCell == Some((row, col)) && pageNumber == 0
      ensures clickedConstraintIndex == None && conflictLiterals == None && trail == None
      ensures (row, col) in old(filter.cellConstraints) ==> filter.cellFilter == old(filter.cellConstraints)[(row, col)]
      ensures (row, col) !in old(filter.cellConstraints) ==> filter.cellFilter == old(filter.cellFilter)
      ensures filter.lengthFilter == old(filter.lengthFilter) && filter.cellConstraints == old(filter.cellConstraints)
      ensures filter.trails == old(filter.trails)
      ensures maxLength == old(maxLength) && maxLengthInput == old(maxLengthInput)
      ensures pageCount == old(pageCount) && pageLength == old(pageLength) && pageLengthInput == old(pageLengthInput)
      ensures filteredLength == old(filteredLength) && littleNumberConstraints == old(littleNumberConstraints)
      ensures Settings() == old(Settings())
    {
      ClearTrail();
      SetPageNumber(0);
      selectedCell := Some((row, col));
      filter.ByCell(row, col);
    }

    /** The number of pages needed for the kept clauses. */
    method CountPages()
      requires Valid()
      modifies this
      ensures Valid()
      ensures PageCountOk(pageCount, filteredLength, pageLength)
      ensures pageNumber == old(pageNumber) && pageLength == old(pageLength) && pageLengthInput == old(pageLengthInput)
      ensures filteredLength == old(filteredLength) && littleNumberConstraints == old(littleNumberConstraints)
      ensures Settings() == old(Settings()) && Selection() == old(Selection()) && Click() == old(Click())
    {
      pageCount := filteredLength / pageLength;
      pageCount := pageCount + if filteredLength % pageLength == 0 then 0 else 1;
      assert pageCount == PageCount(filteredLength, pageLength);
    }

    /**
     * Parses the page length field. A valid length replaces the page length,
     * recounts the pages and goes back to page 0; an invalid one changes
     * nothing but the shown trail, which is cleared either way.
     */
    method SetPageLength()
      requires Valid()
      modifies this
      ensures Valid()
      ensures conflictLiterals == None && trail == None
      ensures Lib.ParseNumericInput(pageLengthInput).Some? ==>
        && pageLength == Lib.ParseNumericInput(pageLengthInput).value
        && PageCountOk(pageCount, filteredLength, pageLength)
        && pageNumber == 0 && clickedConstraintIndex == None
      ensures Lib.ParseNumericInput(pageLengthInput).None? ==>
        && pageLength == old(pageLength) && pageCount == old(pageCount)
        && pageNumber == old(pageNumber) && clickedConstraintIndex == old(clickedConstraintIndex)
      ensures pageLengthInput == old(pageLengthInput) && filteredLength == old(filteredLength)
      ensures littleNumberConstraints == old(littleNumberConstraints)
      ensures Settings() == old(Settings()) && Selection() == old(Selection())
    {
      ClearTrail();
      var pageInput := Lib.ParseNumericInput(pageLengthInput);
      if pageInput.Some? {
        pageLength := pageInput.value;
        CountPages();
        SetPageNumber(0);
      }
    }

    /** Moves to page p, kept within the existing pages; forgets the clicked clause and its trail. */
    method SetPageNumber(p: int)
      requires Valid()
      modifies this
      ensures Valid()
      ensures pageNumber == ClampPage(p, old(pageCount))
      ensures clickedConstraintIndex == None && conflictLiterals == None && trail == None
      ensures pageCount == old(pageCount) && pageLength == old(pageLength) && pageLengthInput == old(pageLengthInput)
      ensures filteredLength == old(filteredLength) && littleNumberConstraints == old(littleNumberConstraints)
      ensures Settings() == old(Settings()) && Selection() == old(Selection())
    {
      ClearTrail();
      clickedConstraintIndex := None;
      pageNumber := if p < pageCount - 1 then p else pageCount - 1;
      pageNumber := if pageNumber < 0 then 0 else pageNumber;
    }

    /** Drops both filters and the selection; back to page 0. */
    method ClearFilters()
      requires Valid()
      modifies this, filter
      ensures Valid()
      ensures maxLength == None && maxLengthInput == "" && selectedCell == None
      ensures clickedConstraintIndex == None && conflictLiterals == None && trail == None && pageNumber == 0
      ensures filter.lengthFilter == Indexes(|filter.constraints.clauses|)
      ensures filter.cellFilter == Indexes(|filter.constraints.clauses|)
      ensures filter.cellConstraints == old(filter.cellConstraints) && filter.trails == old(filter.trails)
      ensures pageCount == old(pageCount) && pageLength == old(pageLength) && pageLengthInput == old(pageLengthInput)
      ensures filteredLength == old(filteredLength) && littleNumberConstraints == old(littleNumberConstraints)
      ensures Settings() == old(Settings())
    {
      SetPageNumber(0);
      ClearLength();
      ClearCell();
      ClearTrail();
    }

    /** Drops the length filter and the maximum length; back to page 0. */
    method ClearLength()
      requires Valid()
      modifies this, filter
      ensures Valid()
      ensures maxLength == None && maxLengthInput == ""
      ensures clickedConstraintIndex == None && conflictLiterals == None && trail == None && pageNumber == 0
      ensures filter.lengthFilter == Indexes(|filter.constraints.clauses|)
      ensures filter.cellFilter == old(filter.cellFilter) && filter.cellConstraints == old(filter.cellConstraints)
      ensures filter.trails == old(filter.trails) && selectedCell == old(selectedCell)
      ensures pageCount == old(pageCount) && pageLength == old(pageLength) && pageLengthInput == old(pageLengthInput)
      ensures filteredLength == old(filteredLength) && littleNumberConstraints == old(littleNumberConstraints)
      ensures Settings() == old(Settings())
    {
      SetPageNumber(0);
      maxLength := None;
      maxLengthInput := "";
      filter.ClearLength();
    }

    /** Drops the cell filter and the selected cell; back to page 0. */
    method ClearCell()
      requires Valid()
      modifies this, filter
      ensures Valid()
      ensures selectedCell == None
      ensures clickedConstraintIndex == None && conflictLiterals == None && trail == None && pageNumber == 0
      ensures filter.cellFilter == Indexes(|filter.constraints.clauses|)
      ensures filter.lengthFilter == old(filter.lengthFilter) && filter.cellConstraints == old(filter.cellConstraints)
      ensures filter.trails == old(filter.trails)
      ensures maxLength == old(maxLength) && maxLengthInput == old(maxLengthInput)
      ensures pageCount == old(pageCount) && pageLength == old(pageLength) && pageLengthInput == old(pageLengthInput)
      ensures filteredLength == old(filteredLength) && littleNumberConstraints == old(littleNumberConstraints)
      ensures Settings() == old(Settings())
    {
      SetPageNumber(0);
      selectedCell := None;
      filter.ClearCell();
    }

    /** The decoded sole literals of the unit clauses on the current page and every page before it. */
    method UpdateLittleNumberConstraints()
      requires Valid() && filter.PrefixInRange(pageNumber, pageLength)
      modifies this
      ensures pageNumber == old(pageNumber) && pageCount == old(pageCount) && pageLength == old(pageLength)
      ensures littleNumberConstraints == DecodeAll(filter.LittleNumbers(pageNumber, pageLength), encoding)
      ensures pageLengthInput == old(pageLengthInput) && filteredLength == old(filteredLength)
      ensures Settings() == old(Settings()) && Selection() == old(Selection()) && Click() == old(Click())
    {
      var constraints := filter.GetLittleNumberConstraints(pageNumber, pageLength);
      littleNumberConstraints := DecodeAll(constraints, encoding);
    }

    method ClearTrail()
      modifies this
      ensures conflictLiterals == None && trail == None
      ensures clickedConstraintIndex == old(clickedConstraintIndex)
      ensures Paging() == old(Paging()) && Settings() == old(Settings()) && Selection() == old(Selection())
    {
      conflictLiterals := None;
      trail := None;
    }

    method SetTrail(newConflictLiterals: seq<Cnf.CnfVariable>, newTrail: seq<Cnf.CnfVariable>)
      modifies this
      ensures conflictLiterals == Some(newConflictLiterals) && trail == Some(newTrail)
      ensures clickedConstraintIndex == old(clickedConstraintIndex)
      ensures Paging() == old(Paging()) && Settings() == old(Settings()) && Selection() == old(Selection())
    {
      conflictLiterals := Some(newConflictLiterals);
      trail := Some(newTrail);
    }

    /** The name of the encoding for the GUI. */
    function GetEncodingType(): (name: string)
      reads this
      ensures name == "Binary" <==> encoding.Binary?
      ensures name == "Decimal" <==> encoding.Decimal?
    {
      match encoding
      case Decimal(_, _, _, _) => "Decimal"
      case Binary => "Binary"
    }
  }
}
