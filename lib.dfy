/**
 * The shared stores the solver callback fills (the learned clauses and the
 * conflict trails) and the parser for the numeric text fields of the GUI.
 */
module Lib {
  import opened Base

  /** The clauses the solver has learned; one object is shared by the callback, the filter and the GUI. */
  class ConstraintList {
    var clauses: seq<Clause>

    constructor ()
      ensures clauses == []
    {
      clauses := [];
    }

    /** A copy of the stored clauses. */
    function CloneConstraints(): (r: seq<Clause>)
      reads this
      ensures |r| == Len() && forall i :: 0 <= i < |r| ==> r[i] == clauses[i]
    {
      clauses
    }

    method Push(constraint: Clause)
      modifies this
      ensures clauses == old(clauses) + [constraint]
      ensures Len() == old(Len()) + 1 && clauses[Len() - 1] == constraint
      ensures forall i :: 0 <= i < old(Len()) ==> clauses[i] == old(clauses[i])
    {
      clauses := clauses + [constraint];
    }

    method Clear()
      modifies this
      ensures clauses == [] && IsEmpty()
    {
      clauses := [];
    }

    /** The number of stored clauses. */
    function Len(): (n: nat)
      reads this
      ensures n == |clauses|
    {
      |clauses|
    }

    function IsEmpty(): (b: bool)
      reads this
      ensures b <==> Len() == 0
    {
      clauses == []
    }
  }

  /**
   * The conflicts the solver reported: for each one the pair of conflicting
   * literals and the trail of literals that led to it, pushed together.
   */
  class Trail {
    var conflictLiterals: seq<(int, int)>
    var trail: seq<seq<int>>

    /** The two lists grow and shrink together. */
    ghost predicate Valid()
      reads this
    {
      |conflictLiterals| == |trail|
    }

    constructor ()
      ensures conflictLiterals == [] && trail == []
      ensures Valid() && IsEmpty()
    {
      conflictLiterals := [];
      trail := [];
    }

    method Push(literals: (int, int), steps: seq<int>)
      requires Valid()
      modifies this
      ensures conflictLiterals == old(conflictLiterals) + [literals]
      ensures trail == old(trail) + [steps]
      ensures Valid() && Len() == old(Len()) + 1
    {
      conflictLiterals := conflictLiterals + [literals];
      trail := trail + [steps];
    }

    method Clear()
      modifies this
      ensures conflictLiterals == [] && trail == []
      ensures Valid() && IsEmpty()
    {
      conflictLiterals := [];
      trail := [];
    }

    /** The trail of the conflict pushed `index`-th; indexing past the end panics in the source. */
    function TrailAtIndex(index: nat): (steps: seq<int>)
      requires index < Len()
      reads this
      ensures steps in trail
    {
      trail[index]
    }

    /** The number of pushed conflicts, counted on the trail list. */
    function Len(): (n: nat)
      reads this
      ensures n == |trail|
      ensures Valid() ==> n == |conflictLiterals|
    {
      |trail|
    }

    function IsEmpty(): (b: bool)
      reads this
      ensures b <==> Len() == 0
    {
      trail == []
    }
  }

  /** The `index`-th trail is the one pushed as the `index`-th conflict, whatever was pushed after it. */
  lemma TrailAtIndexStable(before: seq<seq<int>>, after: seq<seq<int>>, index: nat)
    requires index < |before| && |before| <= |after| && after[..|before|] == before
    ensures after[index] == before[index]
  {
    assert after[index] == after[..|before|][index];
  }

  // ---------------------------------------------------------------------
  // Parsing the text fields.

  /** The largest value of a signed 32-bit integer. */
  const I32Max := 0x7fff_ffff

  predicate IsDigit(c: char) { '0' <= c <= '9' }

  predicate AllDigits(s: string)
  {
    forall i :: 0 <= i < |s| ==> IsDigit(s[i])
  }

  /** The number the decimal digits `s` spell, most significant first. */
  function DigitsValue(s: string): (n: nat)
    requires AllDigits(s)
  {
    if s == [] then 0 else 10 * DigitsValue(s[..|s| - 1]) + (s[|s| - 1] - '0') as nat
  }

  /**
   * Rust's `str::parse::<i32>`: an optional `+` or `-`, then at least one
   * decimal digit and nothing else; a value outside the 32-bit range is an
   * error.
   */
  function ParseI32(s: string): (r: Option<int>)
    ensures r.Some? ==> -I32Max - 1 <= r.value <= I32Max
    ensures r.Some? ==> |s| > 0 && forall i :: 0 < i < |s| ==> IsDigit(s[i])
  {
    if |s| > 0 && (s[0] == '+' || s[0] == '-') then
      var digits := s[1..];
      if digits == [] || !AllDigits(digits) then None
      else
        var n: int := DigitsValue(digits);
        var v := if s[0] == '-' then -n else n;
        if -I32Max - 1 <= v <= I32Max then Some(v) else None
    else if s == [] || !AllDigits(s) then None
    else
      var v := DigitsValue(s);
      if v <= I32Max then Some(v) else None
  }

  /** The value of a page length or maximum length field: a parsed integer of at least 1, or nothing. */
  function ParseNumericInput(input: string): (r: Option<int>)
    ensures r.Some? ==> 1 <= r.value <= I32Max
    ensures r.Some? ==> |input| > 0 && forall i :: 0 < i < |input| ==> IsDigit(input[i])
    ensures r.None? <==> ParseI32(input).None? || ParseI32(input).value < 1
  {
    match ParseI32(input)
    case Some(parsed) => if parsed < 1 then None else Some(parsed)
    case None => None
  }

  /** The decimal digits of n, most significant first, without leading zeros. */
  function DecimalString(n: nat): (s: string)
    ensures AllDigits(s)
  {
    if n < 10 then [('0' as int + n) as char]
    else DecimalString(n / 10) + [('0' as int + n % 10) as char]
  }

  lemma {:induction false} DecimalStringValue(n: nat)
    ensures DigitsValue(DecimalString(n)) == n
    ensures |DecimalString(n)| > 0 && DecimalString(n)[0] != '+' && DecimalString(n)[0] != '-'
  {
    var s := DecimalString(n);
    if n < 10 {
      assert s[..|s| - 1] == [];
    } else {
      DecimalStringValue(n / 10);
      assert s[..|s| - 1] == DecimalString(n / 10);
    }
  }

  /** Every positive 32-bit number, written in decimal, is accepted as itself. */
  lemma ParseNumericInputRoundTrip(n: int)
    requires 1 <= n <= I32Max
    ensures ParseNumericInput(DecimalString(n)) == Some(n)
  {
    DecimalStringValue(n);
  }

  /** Zero, negative numbers and the empty text are refused. */
  lemma ParseNumericInputRefuses(n: nat)
    ensures ParseNumericInput("") == None
    ensures ParseNumericInput("0") == None
    ensures ParseNumericInput("-" + DecimalString(n)) == None
  {
    DecimalStringValue(n);
    assert ("-" + DecimalString(n))[1..] == DecimalString(n);
    assert DigitsValue("0") == 0 by {
      assert "0"[..0] == [];
    }
  }
}
