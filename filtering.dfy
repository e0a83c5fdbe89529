/**
 * The filter and pager over the learned clauses the GUI lists: a length
 * filter and a cell filter, both sets of clause indexes, are intersected,
 * sorted and cut into pages.
 */
module Filtering {
  import opened Base
  import Lib
  import Cnf

  // ---------------------------------------------------------------------
  // The conflict data kept beside the learned clauses.

  /**
   * For each conflict: the conflicting literals, the trail of literals that
   * led to it and, per trail literal, whether it was propagated. The three
   * lists are pushed together.
   */
  datatype StepTrail = StepTrail(literals: seq<seq<int>>, steps: seq<seq<int>>, propagated: seq<seq<bool>>)
  {
    /** The three lists grow together. */
    predicate Valid()
    {
      |literals| == |steps| && |steps| == |propagated|
    }

    function Len(): nat
    {
      |steps|
    }

    /** Appends one conflict; what was there before is kept. */
    function Push(lits: seq<int>, trail: seq<int>, prop: seq<bool>): (t: StepTrail)
      ensures Valid() ==> t.Valid()
      ensures |t.literals| == |literals| + 1 && |t.steps| == |steps| + 1 && |t.propagated| == |propagated| + 1
      ensures t.Len() == Len() + 1
      ensures t.literals[|literals|] == lits && t.steps[Len()] == trail && t.propagated[|propagated|] == prop
      ensures t.literals[..|literals|] == literals && t.steps[..Len()] == steps && t.propagated[..|propagated|] == propagated
    {
      StepTrail(literals + [lits], steps + [trail], propagated + [prop])
    }
  }

  const EmptyTrail := StepTrail([], [], [])

  /** Conflict `index` is stored, in all three lists. */
  predicate IndexInTrail(trails: StepTrail, index: nat)
  {
    index < |trails.literals| && index < |trails.steps| && index < |trails.propagated|
  }

  /** The trail holding, in order, the conflicts of `trails` at `indexes`. */
  function TrailAt(trails: StepTrail, indexes: seq<nat>): (t: StepTrail)
    requires forall k :: 0 <= k < |indexes| ==>
      indexes[k] < |trails.literals| && indexes[k] < |trails.steps| && indexes[k] < |trails.propagated|
    ensures t.Valid() && t.Len() == |indexes|
  {
    StepTrail(seq(|indexes|, k requires 0 <= k < |indexes| => trails.literals[indexes[k]]),
              seq(|indexes|, k requires 0 <= k < |indexes| => trails.steps[indexes[k]]),
              seq(|indexes|, k requires 0 <= k < |indexes| => trails.propagated[indexes[k]]))
  }

  // ---------------------------------------------------------------------
  // Specification functions.

  /** The indexes 0..n-1. */
  function Indexes(n: nat): (s: set<nat>)
    ensures forall i: nat :: i in s <==> i < n
  {
    if n == 0 then {} else Indexes(n - 1) + {n - 1}
  }

  /** The indexes below k of clauses of at most `maxLength` literals. */
  function ShortUpto(clauses: seq<Clause>, maxLength: int, k: nat): (s: set<nat>)
    requires k <= |clauses|
    ensures forall i: nat :: i in s <==> i < k && |clauses[i]| <= maxLength
  {
    set i: nat | i < k && |clauses[i]| <= maxLength
  }

  /** The board cells a decoded literal speaks about: its cell, or both cells of an equality. */
  function CellsOf(v: Cnf.CnfVariable): (cells: set<(int, int)>)
    ensures (v.row, v.col) in cells
    ensures v.EqualityVar? ==> (v.row2, v.col2) in cells
    ensures forall cell :: cell in cells ==> cell == (v.row, v.col) || (v.EqualityVar? && cell == (v.row2, v.col2))
  {
    match v
    case DecimalVar(row, col, _) => {(row, col)}
    case BitVar(row, col, _, _) => {(row, col)}
    case EqualityVar(row, col, row2, col2, _, _) => {(row, col), (row2, col2)}
  }

  /** One of the first n literals of the clause decodes to something about `cell`. */
  predicate TouchesUpto(clause: Clause, encoding: Cnf.EncodingType, cell: (int, int), n: nat)
    requires n <= |clause|
  {
    exists j :: 0 <= j < n && cell in CellsOf(Cnf.FromCnf(clause[j], encoding))
  }

  /** The indexes below k of the clauses with a literal about `cell`. */
  function TouchingUpto(clauses: seq<Clause>, encoding: Cnf.EncodingType, cell: (int, int), k: nat): (s: set<nat>)
    requires k <= |clauses|
    ensures forall i: nat :: i in s <==> i < k && TouchesUpto(clauses[i], encoding, cell, |clauses[i]|)
  {
    set i: nat | i < k && TouchesUpto(clauses[i], encoding, cell, |clauses[i]|)
  }

  predicate IsCell(cell: (int, int))
  {
    InRange(cell.0) && InRange(cell.1)
  }

  /** A number above every index of `s`. */
  ghost function Bound(s: set<nat>): (b: nat)
    ensures forall x :: x in s ==> x < b
  {
    if s == {} then 0
    else
      var x :| x in s;
      var b := Bound(s - {x});
      assert forall y :: y in s ==> y == x || y in s - {x};
      if b <= x then x + 1 else b
  }

  /** The indexes of `s` below n, in increasing order. */
  function SortedBelow(s: set<nat>, n: nat): (r: seq<nat>)
    ensures forall k :: 0 <= k < |r| ==> r[k] < n
    ensures StrictlyIncreasing(r)
    ensures forall x :: x in r <==> x in s && x < n
  {
    if n == 0 then []
    else SortedBelow(s, n - 1) + (if n - 1 in s then [n - 1] else [])
  }

  /** The indexes of `s` in increasing order. */
  ghost function SortedElements(s: set<nat>): (r: seq<nat>)
    ensures StrictlyIncreasing(r) && Elements(r) == s
  {
    SortedBelow(s, Bound(s))
  }

  /** A non-empty set of indexes has a least element: the first of its enumeration. */
  lemma MinExists(s: set<nat>)
    requires s != {}
    ensures exists m :: m in s && forall x :: x in s ==> m <= x
  {
    var r := SortedElements(s);
    var x :| x in s;
    assert x in Elements(r);
    forall y | y in s
      ensures r[0] <= y
    {
      assert y in Elements(r);
      var k :| 0 <= k < |r| && r[k] == y;
    }
    assert r[0] in Elements(r);
  }

  /** An increasing list has as many elements as entries. */
  lemma {:induction false} IncreasingCard(r: seq<nat>)
    requires StrictlyIncreasing(r)
    ensures |Elements(r)| == |r|
  {
    if r != [] {
      var init := r[..|r| - 1];
      assert Elements(r) == Elements(init) + {r[|r| - 1]} by {
        assert r == init + [r[|r| - 1]];
      }
      assert r[|r| - 1] !in Elements(init);
      IncreasingCard(init);
    }
  }

  /** `sorted` lists, in increasing order, the part of `all` that is not in `rest`, and all of it lies below `rest`. */
  predicate SortedSoFar(sorted: seq<nat>, rest: set<nat>, all: set<nat>)
  {
    && StrictlyIncreasing(sorted)
    && Elements(sorted) + rest == all && Elements(sorted) !! rest
    && forall k, x :: 0 <= k < |sorted| && x in rest ==> sorted[k] < x
  }

  /** Moving the least remaining index to the end of the list keeps it sorted. */
  lemma TakeLeast(sorted: seq<nat>, rest: set<nat>, all: set<nat>, m: nat)
    requires SortedSoFar(sorted, rest, all)
    requires m in rest && forall x :: x in rest ==> m <= x
    ensures SortedSoFar(sorted + [m], rest - {m}, all)
  {
    var next := sorted + [m];
    assert Elements(next) == Elements(sorted) + {m} by {
      assert forall x :: x in next <==> x in sorted || x == m;
    }
    forall i, j | 0 <= i < j < |next|
      ensures next[i] < next[j]
    {
      if j == |sorted| {
        assert next[i] == sorted[i];
      }
    }
  }

  /** Once nothing is left, the list is the enumeration of the whole set. */
  lemma SortedDone(sorted: seq<nat>, all: set<nat>)
    requires SortedSoFar(sorted, {}, all)
    ensures sorted == SortedElements(all)
  {
    SortedUnique(sorted, SortedElements(all));
  }

  /** 0, 1, ..., n - 1. */
  function Range(n: nat): (r: seq<nat>)
    ensures |r| == n && forall k :: 0 <= k < n ==> r[k] == k
  {
    if n == 0 then [] else Range(n - 1) + [n - 1]
  }

  /** With both filters cleared the GUI lists every clause, in the order it was learned. */
  lemma AllKeptInOrder(n: nat)
    ensures SortedElements(Indexes(n) * Indexes(n)) == Range(n)
  {
    var r := Range(n);
    assert Indexes(n) * Indexes(n) == Indexes(n);
    assert Elements(r) == Indexes(n) by {
      forall i: nat | i < n
        ensures i in Elements(r)
      {
        assert r[i] == i;
      }
    }
    SortedUnique(r, SortedElements(Indexes(n)));
  }

  /** The entries of an enumeration of indexes that are all below n are below n. */
  lemma InRangeEntries(indexList: seq<nat>, s: set<nat>, n: nat)
    requires Elements(indexList) == s && forall i :: i in s ==> i < n
    ensures forall k :: 0 <= k < |indexList| ==> indexList[k] < n
  {
    forall k | 0 <= k < |indexList|
      ensures indexList[k] < n
    {
      assert indexList[k] in Elements(indexList);
    }
  }

  /** Two increasing enumerations of the same set are the same list. */
  lemma {:induction false} SortedUnique(a: seq<nat>, b: seq<nat>)
    requires StrictlyIncreasing(a) && StrictlyIncreasing(b) && Elements(a) == Elements(b)
    ensures a == b
  {
    IncreasingCard(a);
    IncreasingCard(b);
    if a != [] {
      assert a[0] in Elements(b);
      assert b != [];
      assert b[0] in Elements(a);
      var i :| 0 <= i < |a| && a[i] == b[0];
      var j :| 0 <= j < |b| && b[j] == a[0];
      assert a[0] == b[0];
      assert Elements(a[1..]) == Elements(a) - {a[0]} by {
        forall x | x in Elements(a) - {a[0]} ensures x in Elements(a[1..]) {
          var k :| 0 <= k < |a| && a[k] == x;
          assert a[1..][k - 1] == x;
        }
      }
      assert Elements(b[1..]) == Elements(b) - {b[0]} by {
        forall x | x in Elements(b) - {b[0]} ensures x in Elements(b[1..]) {
          var k :| 0 <= k < |b| && b[k] == x;
          assert b[1..][k - 1] == x;
        }
      }
      SortedUnique(a[1..], b[1..]);
    }
  }

  /** The first index of page p: the page's start, but no further than the end. */
  function PageBegin(n: nat, pageNumber: nat, pageLength: nat): nat
  {
    if n < pageNumber * pageLength then n else pageNumber * pageLength
  }

  /** Page p of `s`: positions [min(n, p L), min(n, (p + 1) L)). */
  function Page<T>(s: seq<T>, pageNumber: nat, pageLength: nat): (page: seq<T>)
    ensures |page| <= pageLength
    ensures (pageNumber + 1) * pageLength <= |s| ==> |page| == pageLength
    ensures |s| <= pageNumber * pageLength ==> page == []
  {
    s[PageBegin(|s|, pageNumber, pageLength)..PageBegin(|s|, pageNumber + 1, pageLength)]
  }

  /** The clauses at `indexes`, in order. */
  function Select(clauses: seq<Clause>, indexes: seq<nat>): (r: seq<Clause>)
    requires forall k :: 0 <= k < |indexes| ==> indexes[k] < |clauses|
    ensures |r| == |indexes| && forall k :: 0 <= k < |indexes| ==> r[k] == clauses[indexes[k]]
  {
    seq(|indexes|, k requires 0 <= k < |indexes| => clauses[indexes[k]])
  }

  /** The sole literal of each unit clause at `indexes`, in order. */
  function UnitLiterals(clauses: seq<Clause>, indexes: seq<nat>): seq<int>
    requires forall k :: 0 <= k < |indexes| ==> indexes[k] < |clauses|
  {
    if indexes == [] then []
    else
      var last := clauses[indexes[|indexes| - 1]];
      UnitLiterals(clauses, indexes[..|indexes| - 1]) + (if |last| == 1 then [last[0]] else [])
  }

  // ---------------------------------------------------------------------
  // The filter.

  class ListFilter {
    /** The learned clauses; the same object the solver callback appends to. */
    const constraints: Lib.ConstraintList
    var trails: StepTrail
    var lengthFilter: set<nat>
    var cellFilter: set<nat>
    var cellConstraints: map<(int, int), set<nat>>

    constructor (constraints: Lib.ConstraintList, trails: StepTrail)
      ensures this.constraints == constraints && this.trails == trails
      ensures lengthFilter == Indexes(|constraints.clauses|) && cellFilter == Indexes(|constraints.clauses|)
      ensures cellConstraints == map[]
    {
      this.constraints := constraints;
      this.trails := trails;
      lengthFilter := Indexes(|constraints.clauses|);
      cellFilter := Indexes(|constraints.clauses|);
      cellConstraints := map[];
    }

    /** The indexes both filters keep. */
    ghost function Kept(): set<nat>
      reads this
    {
      lengthFilter * cellFilter
    }

    /** The kept indexes in increasing order: the list the GUI pages through. */
    ghost function IndexList(): seq<nat>
      reads this
    {
      SortedElements(Kept())
    }

    /** Every kept index names a stored clause. */
    ghost predicate KeptInRange()
      reads this, constraints
    {
      forall k :: 0 <= k < |IndexList()| ==> IndexList()[k] < |constraints.clauses|
    }

    /** The conflicts of the kept indexes on page p are all stored. */
    ghost predicate PageInTrail(pageNumber: nat, pageLength: nat)
      reads this
    {
      var page := Page(IndexList(), pageNumber, pageLength);
      forall k :: 0 <= k < |page| ==> IndexInTrail(trails, page[k])
    }

    /** The kept indexes up to the end of page p name stored clauses. */
    ghost predicate PrefixInRange(pageNumber: nat, pageLength: nat)
      reads this, constraints
    {
      var prefix := IndexList()[..PageBegin(|IndexList()|, pageNumber + 1, pageLength)];
      forall k :: 0 <= k < |prefix| ==> prefix[k] < |constraints.clauses|
    }

    /** The clauses on page p of the kept ones. */
    ghost function PageClauses(pageNumber: nat, pageLength: nat): seq<Clause>
      requires KeptInRange()
      reads this, constraints
    {
      Page(Select(constraints.clauses, IndexList()), pageNumber, pageLength)
    }

    /** The conflicts of the clauses on page p. */
    ghost function PageTrail(pageNumber: nat, pageLength: nat): StepTrail
      requires PageInTrail(pageNumber, pageLength)
      reads this
    {
      TrailAt(trails, Page(IndexList(), pageNumber, pageLength))
    }

    /** The sole literals of the kept unit clauses up to the end of page p. */
    ghost function LittleNumbers(pageNumber: nat, pageLength: nat): seq<int>
      requires PrefixInRange(pageNumber, pageLength)
      reads this, constraints
    {
      UnitLiterals(constraints.clauses, IndexList()[..PageBegin(|IndexList()|, pageNumber + 1, pageLength)])
    }

    /** The enumeration of the kept indexes: intersect, collect, sort. */
    method GetFilteredIndexList() returns (indexList: seq<nat>)
      ensures StrictlyIncreasing(indexList) && Elements(indexList) == lengthFilter * cellFilter
      ensures indexList == IndexList()
    {
      var finalSet := lengthFilter * cellFilter;
      indexList := SortIndexes(finalSet);
    }

    /**
     * The clauses on page p, their conflicts and the number of kept clauses.
     * Indexing a clause or a conflict that is not stored panics in the source.
     */
    method GetFiltered(pageNumber: nat, pageLength: nat) returns (list: seq<Clause>, trail: StepTrail, filteredLength: nat)
      requires KeptInRange() && PageInTrail(pageNumber, pageLength)
      ensures filteredLength == |Kept()|
      ensures list == Page(Select(constraints.clauses, IndexList()), pageNumber, pageLength)
      ensures trail == TrailAt(trails, Page(IndexList(), pageNumber, pageLength))
      ensures trail.Valid() && trail.Len() == |list| <= pageLength
    {
      var indexList := GetFilteredIndexList();
      filteredLength := |indexList|;
      IncreasingCard(indexList);
      var finalList := SelectClauses(constraints.clauses, indexList);
      var begin := if |finalList| < pageNumber * pageLength then |finalList| else pageNumber * pageLength;
      var stop := if |finalList| < (pageNumber + 1) * pageLength then |finalList| else (pageNumber + 1) * pageLength;
      var trailIndexList := indexList[begin..stop];
      assert trailIndexList == Page(indexList, pageNumber, pageLength);
      trail := TrailOf(trails, trailIndexList);
      list := finalList[begin..stop];
    }

    /** Rebuilds the map from each cell to the clauses that mention it. */
    method Reinit(encoding: Cnf.EncodingType)
      modifies this
      ensures forall cell :: cell in cellConstraints <==> cell in old(cellConstraints) || IsCell(cell)
      ensures forall cell :: cell in cellConstraints ==>
        cellConstraints[cell] == (if IsCell(cell) then {} else old(cellConstraints)[cell])
          + TouchingUpto(constraints.clauses, encoding, cell, |constraints.clauses|)
      ensures lengthFilter == old(lengthFilter) && cellFilter == old(cellFilter) && trails == old(trails)
    {
      CreateCellMap(encoding);
    }

    /**
     * Puts an empty set under each of the 81 cells, then adds index i to the
     * set of every cell a literal of clause i is about. Cells not in the map
     * are skipped.
     */
    method CreateCellMap(encoding: Cnf.EncodingType)
      modifies this
      ensures forall cell :: cell in cellConstraints <==> cell in old(cellConstraints) || IsCell(cell)
      ensures forall cell :: cell in cellConstraints ==>
        cellConstraints[cell] == (if IsCell(cell) then {} else old(cellConstraints)[cell])
          + TouchingUpto(constraints.clauses, encoding, cell, |constraints.clauses|)
      ensures lengthFilter == old(lengthFilter) && cellFilter == old(cellFilter) && trails == old(trails)
    {
      var m := ClearCells(cellConstraints);
      m := AddClauses(m, constraints.clauses, encoding);
      cellConstraints := m;
    }

    /** Keeps the indexes of clauses of at most `maxLength` literals. */
    method ByMaxLength(maxLength: int)
      modifies this
      ensures lengthFilter == ShortUpto(constraints.clauses, maxLength, |constraints.clauses|)
      ensures cellFilter == old(cellFilter) && cellConstraints == old(cellConstraints) && trails == old(trails)
    {
      var clauses := constraints.clauses;
      var filterSet: set<nat> := {};
      for index := 0 to |clauses|
        invariant filterSet == ShortUpto(clauses, maxLength, index)
      {
        if |clauses[index]| <= maxLength {
          filterSet := filterSet + {index};
        }
      }
      lengthFilter := filterSet;
    }

    /** Keeps the clauses about the cell, when the cell is in the map; otherwise nothing changes. */
    method ByCell(row: int, col: int)
      modifies this
      ensures (row, col) in old(cellConstraints) ==> cellFilter == old(cellConstraints)[(row, col)]
      ensures (row, col) !in old(cellConstraints) ==> cellFilter == old(cellFilter)
      ensures lengthFilter == old(lengthFilter) && cellConstraints == old(cellConstraints) && trails == old(trails)
    {
      if (row, col) in cellConstraints {
        cellFilter := cellConstraints[(row, col)];
      }
    }

    method ClearLength()
      modifies this
      ensures lengthFilter == Indexes(|constraints.clauses|)
      ensures cellFilter == old(cellFilter) && cellConstraints == old(cellConstraints) && trails == old(trails)
    {
      lengthFilter := Indexes(|constraints.clauses|);
    }

    method ClearCell()
      modifies this
      ensures cellFilter == Indexes(|constraints.clauses|)
      ensures lengthFilter == old(lengthFilter) && cellConstraints == old(cellConstraints) && trails == old(trails)
    {
      cellFilter := Indexes(|constraints.clauses|);
    }

    /** The sole literals of the unit clauses on page p and every page before it. */
    method GetLittleNumberConstraints(pageNumber: nat, pageLength: nat) returns (literals: seq<int>)
      requires PrefixInRange(pageNumber, pageLength)
      ensures literals == UnitLiterals(constraints.clauses, IndexList()[..PageBegin(|IndexList()|, pageNumber + 1, pageLength)])
    {
      var allFilteredIndexes := GetFilteredIndexList();
      var stop := if |allFilteredIndexes| < (pageNumber + 1) * pageLength then |allFilteredIndexes| else (pageNumber + 1) * pageLength;
      var indexList := allFilteredIndexes[..stop];
      assert indexList == IndexList()[..PageBegin(|IndexList()|, pageNumber + 1, pageLength)];
      literals := UnitLiteralsOf(constraints.clauses, indexList);
    }
  }

  // ---------------------------------------------------------------------
  // The loops of the filter.

  /** Collects the set and sorts it: the least remaining index goes next. */
  method SortIndexes(finalSet: set<nat>) returns (indexList: seq<nat>)
    ensures StrictlyIncreasing(indexList) && Elements(indexList) == finalSet
    ensures indexList == SortedElements(finalSet)
  {
    var rest := finalSet;
    indexList := [];
    while rest != {}
      invariant SortedSoFar(indexList, rest, finalSet)
      decreases |rest|
    {
      var m := PickLeast(rest);
      TakeLeast(indexList, rest, finalSet, m);
      indexList := indexList + [m];
      rest := rest - {m};
    }
    SortedDone(indexList, finalSet);
  }

  /** The least index of a non-empty set. */
  method PickLeast(rest: set<nat>) returns (m: nat)
    requires rest != {}
    ensures m in rest && forall x :: x in rest ==> m <= x
  {
    MinExists(rest);
    m :| m in rest && forall x :: x in rest ==> m <= x;
  }

  /** The clauses at `indexList`, in order. */
  method SelectClauses(clauses: seq<Clause>, indexList: seq<nat>) returns (finalList: seq<Clause>)
    requires forall k :: 0 <= k < |indexList| ==> indexList[k] < |clauses|
    ensures finalList == Select(clauses, indexList)
  {
    finalList := [];
    for k := 0 to |indexList|
      invariant finalList == Select(clauses, indexList[..k])
    {
      finalList := finalList + [clauses[indexList[k]]];
    }
    assert indexList[..|indexList|] == indexList;
  }

  /** The conflicts at `indexes`, pushed one by one onto an empty trail. */
  method TrailOf(trails: StepTrail, indexes: seq<nat>) returns (trail: StepTrail)
    requires forall k :: 0 <= k < |indexes| ==>
      indexes[k] < |trails.literals| && indexes[k] < |trails.steps| && indexes[k] < |trails.propagated|
    ensures trail == TrailAt(trails, indexes)
  {
    trail := EmptyTrail;
    for k := 0 to |indexes|
      invariant trail == TrailAt(trails, indexes[..k])
    {
      TrailAtStep(trails, indexes, k);
      var index := indexes[k];
      trail := trail.Push(trails.literals[index], trails.steps[index], trails.propagated[index]);
    }
    assert indexes[..|indexes|] == indexes;
  }

  /** Taking one more index pushes its conflict. */
  lemma TrailAtStep(trails: StepTrail, indexes: seq<nat>, k: nat)
    requires forall k :: 0 <= k < |indexes| ==>
      indexes[k] < |trails.literals| && indexes[k] < |trails.steps| && indexes[k] < |trails.propagated|
    requires k < |indexes|
    ensures forall j :: 0 <= j < k + 1 ==> indexes[..k + 1][j] == indexes[j]
    ensures TrailAt(trails, indexes[..k + 1])
      == TrailAt(trails, indexes[..k]).Push(trails.literals[indexes[k]], trails.steps[indexes[k]], trails.propagated[indexes[k]])
  {
    var index := indexes[k];
    var t, u := TrailAt(trails, indexes[..k + 1]), TrailAt(trails, indexes[..k]);
    assert t.literals == u.literals + [trails.literals[index]];
    assert t.steps == u.steps + [trails.steps[index]];
    assert t.propagated == u.propagated + [trails.propagated[index]];
  }

  /** The sole literal of each unit clause at `indexList`, in order. */
  method UnitLiteralsOf(allConstraints: seq<Clause>, indexList: seq<nat>) returns (literals: seq<int>)
    requires forall k :: 0 <= k < |indexList| ==> indexList[k] < |allConstraints|
    ensures literals == UnitLiterals(allConstraints, indexList)
  {
    literals := [];
    for k := 0 to |indexList|
      invariant literals == UnitLiterals(allConstraints, indexList[..k])
    {
      assert indexList[..k + 1][..k] == indexList[..k];
      var index := indexList[k];
      if |allConstraints[index]| == 1 {
        literals := literals + [allConstraints[index][0]];
      }
    }
    assert indexList[..|indexList|] == indexList;
  }

  /** Adds each clause index to the sets of the cells its literals are about. */
  method AddClauses(m0: map<(int, int), set<nat>>, clauses: seq<Clause>, encoding: Cnf.EncodingType)
    returns (m: map<(int, int), set<nat>>)
    ensures forall cell :: cell in m <==> cell in m0
    ensures forall cell :: cell in m ==> m[cell] == m0[cell] + TouchingUpto(clauses, encoding, cell, |clauses|)
  {
    m := m0;
    for index := 0 to |clauses|
      invariant forall cell :: cell in m <==> cell in m0
      invariant forall cell :: cell in m ==> m[cell] == m0[cell] + TouchingUpto(clauses, encoding, cell, index)
    {
      m := AddClause(m, index, clauses[index], encoding);
      forall cell | cell in m
        ensures m[cell] == m0[cell] + TouchingUpto(clauses, encoding, cell, index + 1)
      {
        TouchingStep(clauses, encoding, cell, index);
      }
    }
  }

  /** The map after the first loops of `create_cell_map`: the 81 cells map to empty sets. */
  method ClearCells(m0: map<(int, int), set<nat>>) returns (m: map<(int, int), set<nat>>)
    ensures forall cell :: cell in m <==> cell in m0 || IsCell(cell)
    ensures forall cell :: cell in m ==> m[cell] == if IsCell(cell) then {} else m0[cell]
  {
    m := m0;
    for row := 1 to 10
      invariant forall cell :: cell in m <==> cell in m0 || (IsCell(cell) && cell.0 < row)
      invariant forall cell :: cell in m ==> m[cell] == if IsCell(cell) && cell.0 < row then {} else m0[cell]
    {
      m := ClearRow(m, row);
    }
  }

  method ClearRow(m0: map<(int, int), set<nat>>, row: int) returns (m: map<(int, int), set<nat>>)
    ensures forall cell :: cell in m <==> cell in m0 || (cell.0 == row && InRange(cell.1))
    ensures forall cell :: cell in m ==> m[cell] == if cell.0 == row && InRange(cell.1) then {} else m0[cell]
  {
    m := m0;
    for col := 1 to 10
      invariant forall cell :: cell in m <==> cell in m0 || (cell.0 == row && 1 <= cell.1 < col)
      invariant forall cell :: cell in m ==> m[cell] == if cell.0 == row && 1 <= cell.1 < col then {} else m0[cell]
    {
      m := m[(row, col) := {}];
    }
  }

  /** Adds `index` to the set of each cell in the map that a literal of the clause is about. */
  method AddClause(m0: map<(int, int), set<nat>>, index: nat, clause: Clause, encoding: Cnf.EncodingType)
    returns (m: map<(int, int), set<nat>>)
    ensures forall cell :: cell in m <==> cell in m0
    ensures forall cell :: cell in m ==>
      m[cell] == m0[cell] + (if TouchesUpto(clause, encoding, cell, |clause|) then {index} else {})
  {
    m := m0;
    for j := 0 to |clause|
      invariant forall cell :: cell in m <==> cell in m0
      invariant forall cell :: cell in m ==>
        m[cell] == m0[cell] + (if TouchesUpto(clause, encoding, cell, j) then {index} else {})
    {
      var v := Cnf.FromCnf(clause[j], encoding);
      m := InsertCells(m, v, index);
      forall cell | cell in m
        ensures m[cell] == m0[cell] + (if TouchesUpto(clause, encoding, cell, j + 1) then {index} else {})
      {
        TouchesStep(clause, encoding, cell, j);
      }
    }
  }

  /** Clause `index` joins the clauses about `cell` exactly when one of its literals is about the cell. */
  lemma TouchingStep(clauses: seq<Clause>, encoding: Cnf.EncodingType, cell: (int, int), index: nat)
    requires index < |clauses|
    ensures TouchingUpto(clauses, encoding, cell, index + 1)
      == TouchingUpto(clauses, encoding, cell, index)
         + (if TouchesUpto(clauses[index], encoding, cell, |clauses[index]|) then {index} else {})
  {
  }

  /** Literal j is about `cell`, or an earlier one is. */
  lemma TouchesStep(clause: Clause, encoding: Cnf.EncodingType, cell: (int, int), j: nat)
    requires j < |clause|
    ensures TouchesUpto(clause, encoding, cell, j + 1)
      <==> TouchesUpto(clause, encoding, cell, j) || cell in CellsOf(Cnf.FromCnf(clause[j], encoding))
  {
  }

  /** `index` joins the set of each cell in the map that the variable is about. */
  method InsertCells(m0: map<(int, int), set<nat>>, v: Cnf.CnfVariable, index: nat) returns (m: map<(int, int), set<nat>>)
    ensures forall c :: c in m <==> c in m0
    ensures forall c :: c in m ==> m[c] == m0[c] + (if c in CellsOf(v) then {index} else {})
  {
    match v {
      case BitVar(row, col, _, _) =>
        m := Insert(m0, (row, col), index);
      case DecimalVar(row, col, _) =>
        m := Insert(m0, (row, col), index);
      case EqualityVar(row, col, row2, col2, _, _) =>
        m := Insert(m0, (row, col), index);
        m := Insert(m, (row2, col2), index);
    }
  }

  /** `index` joins the set of `cell` when the cell is in the map. */
  method Insert(m0: map<(int, int), set<nat>>, cell: (int, int), index: nat) returns (m: map<(int, int), set<nat>>)
    ensures forall c :: c in m <==> c in m0
    ensures forall c :: c in m ==> m[c] == if c == cell then m0[c] + {index} else m0[c]
  {
    m := m0;
    if cell in m {
      m := m[cell := m[cell] + {index}];
    }
  }
}
