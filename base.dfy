/**
 * Shared vocabulary of the model: optional values and results, the
 * concatenation of a clause family over an integer range (the shape of every
 * nested `for` loop of the encoders), Rust's truncating integer division
 * bit tests on two's-complement integers, the board geometry shared by the
 * encoders, and the meaning of a clause under a truth assignment.
 */
module Base {

  datatype Option<T> = None | Some(value: T)

  datatype Result<T> = Ok(value: T) | Err(message: string)

  /** A clause is a disjunction of signed variable identifiers (DIMACS literals). */
  type Clause = seq<int>

  /** A Sudoku as rows of optional clues. */
  type Grid = seq<seq<Option<int>>>

  /** A row, column or digit of the 9x9 board. */
  predicate InRange(x: int) { 1 <= x <= 9 }

  /** Row of the cell with index 0..8 inside sub-grid row sr (indices go down the columns). */
  function BoxRow(sr: int, index: int): int
  {
    1 + sr * 3 + index % 3
  }

  /** Column of the cell with index 0..8 inside sub-grid column sc. */
  function BoxCol(sc: int, index: int): int
  {
    1 + sc * 3 + index / 3
  }

  /** Two cells that share a row, a column or a sub-grid. */
  predicate SameHouse(row1: int, col1: int, row2: int, col2: int)
  {
    row1 == row2 || col1 == col2 || ((row1 - 1) / 3 == (row2 - 1) / 3 && (col1 - 1) / 3 == (col2 - 1) / 3)
  }

  /** Index of a cell inside its sub-grid, in the order the encoder walks the sub-grid. */
  function BoxIndex(row: int, col: int): (index: int)
    requires InRange(row) && InRange(col)
    ensures 0 <= index < 9
    ensures BoxRow((row - 1) / 3, index) == row && BoxCol((col - 1) / 3, index) == col
  {
    (row - 1) % 3 + 3 * ((col - 1) % 3)
  }

  /** The cell with index 0..8 of sub-grid (sr, sc) lies on the board, inside that sub-grid. */
  lemma BoxCellInBox(sr: int, sc: int, index: int)
    requires 0 <= sr < 3 && 0 <= sc < 3 && 0 <= index < 9
    ensures InRange(BoxRow(sr, index)) && InRange(BoxCol(sc, index))
    ensures (BoxRow(sr, index) - 1) / 3 == sr && (BoxCol(sc, index) - 1) / 3 == sc
  {
  }

  /** Different indices name different cells of a sub-grid. */
  lemma BoxCellDistinct(sr: int, sc: int, index1: int, index2: int)
    requires 0 <= index1 < 9 && 0 <= index2 < 9 && index1 != index2
    ensures (BoxRow(sr, index1), BoxCol(sc, index1)) != (BoxRow(sr, index2), BoxCol(sc, index2))
  {
    assert index1 == index1 / 3 * 3 + index1 % 3;
    assert index2 == index2 / 3 * 3 + index2 % 3;
  }

  /** No clue follows position (row, col) in row-major order. */
  ghost predicate LastClueAt(clues: Grid, row: int, col: int)
  {
    forall r, c :: 0 <= r < |clues| && 0 <= c < |clues[r]| && (r > row || (r == row && c > col)) ==> clues[r][c] == None
  }

  /** Concatenation of f(lo), f(lo + 1), ..., f(hi - 1). */
  function ConcatMap<T>(lo: int, hi: int, f: int -> seq<T>): seq<T>
    decreases hi - lo
  {
    if hi <= lo then [] else ConcatMap(lo, hi - 1, f) + f(hi - 1)
  }

  /** Regrouping of an append, called by the loops that extend a sequence. */
  lemma AppendAssoc<T>(a: seq<T>, b: seq<T>, c: seq<T>)
    ensures (a + b) + c == a + (b + c)
  {
  }

  lemma AppendEmpty<T>(s: seq<T>)
    ensures [] + s == s && s + [] == s
  {
  }

  /** s ends with t. */
  predicate EndsWith<T(==)>(s: seq<T>, t: seq<T>)
  {
    |s| >= |t| && s[|s| - |t|..] == t
  }

  /** Putting anything in front keeps the ending. */
  lemma EndsWithAppend<T>(a: seq<T>, b: seq<T>, t: seq<T>)
    requires EndsWith(b, t)
    ensures EndsWith(a + b, t)
  {
    assert (a + b)[|a + b| - |t|..] == b[|b| - |t|..];
  }

  /** The last k elements of a + b are the last k of b when b has at least k. */
  lemma SuffixOfAppend<T>(a: seq<T>, b: seq<T>, k: nat)
    requires |b| >= k
    ensures |a + b| >= k && (a + b)[|a + b| - k..] == b[|b| - k..]
  {
    assert (a + b)[|a + b| - k..] == b[|b| - k..];
  }

  lemma PrefixIndex<T>(a: seq<T>, b: seq<T>, k: int)
    requires 0 <= k < |a|
    ensures (a + b)[k] == a[k]
  {
  }

  /** One more iteration of a loop over [lo, k) extends the concatenation by f(k). */
  lemma ConcatMapStep<T>(lo: int, k: int, f: int -> seq<T>)
    requires lo <= k
    ensures ConcatMap(lo, k + 1, f) == ConcatMap(lo, k, f) + f(k)
  {
  }

  /** When every part has length k, the concatenation has (hi - lo) * k elements. */
  lemma {:induction false} ConcatMapLength<T>(lo: int, hi: int, f: int -> seq<T>, k: nat)
    requires lo <= hi
    requires forall i :: lo <= i < hi ==> |f(i)| == k
    ensures |ConcatMap(lo, hi, f)| == (hi - lo) * k
    decreases hi - lo
  {
    if hi > lo {
      ConcatMapLength(lo, hi - 1, f, k);
      assert (hi - lo) * k == (hi - 1 - lo) * k + k;
    }
  }

  /** With parts of equal length k, element j of part i sits at (i - lo) * k + j. */
  lemma {:induction false} ConcatMapIndex<T>(lo: int, hi: int, f: int -> seq<T>, k: nat, i: int, j: int)
    requires lo <= i < hi
    requires 0 <= j < k
    requires forall n :: lo <= n < hi ==> |f(n)| == k
    ensures 0 <= (i - lo) * k + j < |ConcatMap(lo, hi, f)|
    ensures ConcatMap(lo, hi, f)[(i - lo) * k + j] == f(i)[j]
    decreases hi - lo
  {
    MulNonneg(i - lo, k);
    ConcatMapLength(lo, hi - 1, f, k);
    if i == hi - 1 {
      assert (i - lo) * k + j == |ConcatMap(lo, hi - 1, f)| + j;
    } else {
      ConcatMapIndex(lo, hi - 1, f, k, i, j);
      assert (i - lo) * k + j < |ConcatMap(lo, hi - 1, f)|;
    }
  }

  /** With parts of equal length k, the concatenation's length and element j of part i. */
  lemma ConcatMapBlock<T>(lo: int, hi: int, f: int -> seq<T>, k: nat, i: int, j: int)
    requires lo <= i < hi && 0 <= j < k
    requires forall n :: lo <= n < hi ==> |f(n)| == k
    ensures |ConcatMap(lo, hi, f)| == (hi - lo) * k
    ensures 0 <= (i - lo) * k + j < |ConcatMap(lo, hi, f)|
    ensures ConcatMap(lo, hi, f)[(i - lo) * k + j] == f(i)[j]
  {
    ConcatMapLength(lo, hi, f, k);
    ConcatMapIndex(lo, hi, f, k, i, j);
  }

  /** ConcatMapBlock with the length and the position given by name. */
  lemma ConcatMapAt<T>(lo: int, hi: int, f: int -> seq<T>, k: nat, i: int, j: int, len: int, idx: int)
    requires lo <= i < hi && 0 <= j < k
    requires forall n :: lo <= n < hi ==> |f(n)| == k
    requires len == (hi - lo) * k && idx == (i - lo) * k + j
    ensures |ConcatMap(lo, hi, f)| == len && 0 <= idx < len
    ensures ConcatMap(lo, hi, f)[idx] == f(i)[j]
  {
    ConcatMapBlock(lo, hi, f, k, i, j);
  }

  /** With parts of length one, element i - lo is the element of part i. */
  lemma ConcatMapUnits<T>(lo: int, hi: int, g: int -> seq<T>, i: int)
    requires lo <= i < hi
    requires forall n :: lo <= n < hi ==> |g(n)| == 1
    ensures |ConcatMap(lo, hi, g)| == hi - lo
    ensures ConcatMap(lo, hi, g)[i - lo] == g(i)[0]
  {
    ConcatMapLength(lo, hi, g, 1);
    ConcatMapIndex(lo, hi, g, 1, i, 0);
  }

  /** An element belongs to the concatenation exactly when it belongs to one of the parts. */
  lemma {:induction false} ConcatMapMember<T>(lo: int, hi: int, f: int -> seq<T>, x: T)
    ensures x in ConcatMap(lo, hi, f) <==> exists i :: lo <= i < hi && x in f(i)
    decreases hi - lo
  {
    if hi > lo {
      ConcatMapMember(lo, hi - 1, f, x);
      if x in f(hi - 1) {
        assert lo <= hi - 1 < hi && x in f(hi - 1);
      }
    }
  }

  /** A property of every element of every part holds of every element of the concatenation. */
  lemma {:induction false} ConcatMapForall<T>(lo: int, hi: int, f: int -> seq<T>, P: T -> bool)
    requires forall i :: lo <= i < hi ==> forall x :: x in f(i) ==> P(x)
    ensures forall x :: x in ConcatMap(lo, hi, f) ==> P(x)
    decreases hi - lo
  {
    if hi > lo {
      ConcatMapForall(lo, hi - 1, f, P);
    }
  }

  /** An element of one of three sequences is an element of their concatenation. */
  lemma InAppend3<T>(x: T, a: seq<T>, b: seq<T>, c: seq<T>)
    requires x in a || x in b || x in c
    ensures x in a + b + c
  {
  }

  /** An element of one part is an element of the concatenation. */
  lemma ConcatMapContains<T>(lo: int, hi: int, f: int -> seq<T>, i: int, x: T)
    requires lo <= i < hi
    requires x in f(i)
    ensures x in ConcatMap(lo, hi, f)
  {
    ConcatMapMember(lo, hi, f, x);
  }

  /** Every element of part i is an element of the concatenation. */
  lemma ConcatMapSubset<T>(lo: int, hi: int, f: int -> seq<T>, i: int)
    requires lo <= i < hi
    ensures forall x :: x in f(i) ==> x in ConcatMap(lo, hi, f)
  {
    forall x | x in f(i)
      ensures x in ConcatMap(lo, hi, f)
    {
      ConcatMapContains(lo, hi, f, i, x);
    }
  }

  /** The same, for a part and a concatenation the caller names. */
  lemma ConcatMapSubsetOf<T>(lo: int, hi: int, f: int -> seq<T>, i: int, part: seq<T>, whole: seq<T>)
    requires lo <= i < hi && part == f(i) && whole == ConcatMap(lo, hi, f)
    ensures forall x :: x in part ==> x in whole
  {
    ConcatMapSubset(lo, hi, f, i);
  }

  /** When every part after part i is empty, the concatenation ends with part i. */
  lemma {:induction false} ConcatMapEndsWith<T>(lo: int, hi: int, f: int -> seq<T>, i: int)
    requires lo <= i < hi
    requires forall n :: i < n < hi ==> f(n) == []
    ensures ConcatMap(lo, hi, f) == ConcatMap(lo, i, f) + f(i)
    decreases hi - i
  {
    if hi - 1 > i {
      ConcatMapEndsWith(lo, hi - 1, f, i);
    }
  }

  /** A family of parts that are all empty concatenates to nothing. */
  lemma {:induction false} ConcatMapEmpty<T>(lo: int, hi: int, f: int -> seq<T>)
    requires forall n :: lo <= n < hi ==> f(n) == []
    ensures ConcatMap(lo, hi, f) == []
    decreases hi - lo
  {
    if hi > lo {
      ConcatMapEmpty(lo, hi - 1, f);
    }
  }

  /** Two families that agree on the range concatenate to the same sequence. */
  lemma {:induction false} ConcatMapExt<T>(lo: int, hi: int, f: int -> seq<T>, g: int -> seq<T>)
    requires forall n :: lo <= n < hi ==> f(n) == g(n)
    ensures ConcatMap(lo, hi, f) == ConcatMap(lo, hi, g)
    decreases hi - lo
  {
    if hi > lo {
      ConcatMapExt(lo, hi - 1, f, g);
    }
  }

  function Abs(x: int): (r: nat)
    ensures r == x || r == -x
  {
    if x < 0 then -x else x
  }

  /** Rust's `/` on integers: the quotient is truncated toward zero. */
  function RustDiv(a: int, b: int): (q: int)
    requires b > 0
  {
    if a >= 0 then a / b else -((-a) / b)
  }

  /** Rust's `%` on integers: the remainder takes the sign of the dividend. */
  function RustRem(a: int, b: int): (r: int)
    requires b > 0
  {
    a - RustDiv(a, b) * b
  }

  lemma MulNonneg(x: int, y: int)
    requires x >= 0 && y >= 0
    ensures x * y >= 0
  {
  }

  lemma MulAtLeast(k: int, d: int)
    requires k >= 1 && d > 0
    ensures k * d >= d
  {
  }

  /** Euclidean division is determined by quotient and remainder. */
  lemma DivModUnique(x: int, d: int, q: int, r: int)
    requires d > 0 && 0 <= r < d && x == q * d + r
    ensures x / d == q && x % d == r
  {
    var q', r' := x / d, x % d;
    assert q * d + r == q' * d + r';
    assert (q - q') * d == r' - r;
    if q > q' {
      MulAtLeast(q - q', d);
    } else if q < q' {
      assert (q' - q) * d == r - r';
      MulAtLeast(q' - q, d);
    }
  }

  /** Truncating division of a non-negative number is determined by quotient and remainder. */
  lemma RustDivRem(x: int, d: int, q: int, r: int)
    requires d > 0 && 0 <= r < d && q >= 0 && x == q * d + r
    ensures RustDiv(x, d) == q && RustRem(x, d) == r
  {
    DivModUnique(x, d, q, r);
  }

  /** On a non-negative dividend Rust's `/` and `%` give a non-negative quotient and a remainder below d. */
  lemma RustNonneg(x: int, d: int)
    requires d > 0
    ensures x >= 0 ==> RustDiv(x, d) == x / d >= 0 && RustRem(x, d) == x % d && 0 <= x % d < d
  {
  }

  lemma MulMonotone(a: int, b: int, m: nat)
    requires a <= b
    ensures a * m <= b * m
  {
    assert b * m == a * m + (b - a) * m;
  }

  /** A quotient by d of a number below n * d is below n. */
  lemma RustQuotBelow(x: int, n: int, d: int)
    requires n > 0 && d > 0
    ensures 0 <= x < n * d ==> RustDiv(x, d) < n
  {
    if 0 <= x < n * d {
      var q := x / d;
      assert q * d <= x;
      if q >= n {
        MulMonotone(n, q, d);
      }
    }
  }

  /** The digit (x % (n * d)) / d of a non-negative x, plus one, lies in 1..n. */
  lemma RustField(x: int, n: int, d: int)
    requires n > 0 && d > 0
    ensures x >= 0 ==> 1 <= RustDiv(RustRem(x, n * d), d) + 1 <= n
  {
    if x >= 0 {
      MulAtLeast(n, d);
      RustNonneg(x, n * d);
      RustNonneg(RustRem(x, n * d), d);
      RustQuotBelow(RustRem(x, n * d), n, d);
    }
  }

  function Pow2(n: nat): (r: nat)
    ensures r >= 1
  {
    if n == 0 then 1 else 2 * Pow2(n - 1)
  }

  /**
   * `x & (1 << i) != 0` on a two's-complement integer: floor division by a
   * power of two (Dafny's `/` with a positive divisor) keeps the two's
   * complement bits of negative numbers.
   */
  predicate BitSet(x: int, i: nat)
  {
    (x / Pow2(i)) % 2 == 1
  }

  /** The value 0..15 whose binary digits are b0 (lowest) .. b3. */
  function FromBits(b0: bool, b1: bool, b2: bool, b3: bool): (v: int)
    ensures 0 <= v < 16
    ensures BitSet(v, 0) == b0 && BitSet(v, 1) == b1 && BitSet(v, 2) == b2 && BitSet(v, 3) == b3
  {
    (if b0 then 1 else 0) + (if b1 then 2 else 0) + (if b2 then 4 else 0) + (if b3 then 8 else 0)
  }

  /** A nibble is determined by its four low bits. */
  lemma NibbleBits(v: int)
    requires 0 <= v < 16
    ensures v == FromBits(BitSet(v, 0), BitSet(v, 1), BitSet(v, 2), BitSet(v, 3))
  {
    assert Pow2(1) == 2 && Pow2(2) == 4 && Pow2(3) == 8;
  }

  /** Bits 0..3 of a two's-complement integer are those of its residue modulo 16. */
  lemma LowBits(v: int)
    ensures BitSet(v, 0) == BitSet(v % 16, 0) && BitSet(v, 1) == BitSet(v % 16, 1)
    ensures BitSet(v, 2) == BitSet(v % 16, 2) && BitSet(v, 3) == BitSet(v % 16, 3)
  {
    assert Pow2(0) == 1 && Pow2(1) == 2 && Pow2(2) == 4 && Pow2(3) == 8;
    var q, r := v / 16, v % 16;
    assert v == 16 * q + r;
    BitOfSum(v, 1, 8 * q, r);
    BitOfSum(v, 2, 4 * q, r);
    BitOfSum(v, 4, 2 * q, r);
    BitOfSum(v, 8, q, r);
  }

  /** Adding a multiple of 2p leaves the bit of weight p alone. */
  lemma BitOfSum(x: int, p: int, k: int, r: int)
    requires p >= 1 && r >= 0 && x == 2 * p * k + r
    ensures (x / p) % 2 == (r / p) % 2
  {
    var h := r / p;
    assert r == h * p + r % p;
    assert x == (2 * k + h) * p + r % p;
    DivModUnique(x, p, 2 * k + h, r % p);
    DivModUnique(2 * k + h, 2, k + h / 2, h % 2);
  }

  predicate StrictlyIncreasing(s: seq<int>)
  {
    forall i, j :: 0 <= i < j < |s| ==> s[i] < s[j]
  }

  function Elements<T>(s: seq<T>): set<T>
  {
    set x | x in s
  }

  /** A truth assignment to the variables. */
  type Assignment = int -> bool

  /** A DIMACS literal is true when its variable has the literal's sign. */
  predicate LitTrue(a: Assignment, lit: int)
  {
    if lit > 0 then a(lit) else !a(-lit)
  }

  predicate ClauseSat(a: Assignment, clause: Clause)
  {
    exists lit :: lit in clause && LitTrue(a, lit)
  }

  predicate AllSat(a: Assignment, clauses: seq<Clause>)
  {
    forall clause :: clause in clauses ==> ClauseSat(a, clause)
  }

  /** A concatenation of clause lists is satisfied exactly when both parts are. */
  lemma AllSatAppend(a: Assignment, s: seq<Clause>, t: seq<Clause>)
    ensures AllSat(a, s + t) <==> AllSat(a, s) && AllSat(a, t)
  {
  }

  /** A concatenated clause family is satisfied exactly when every part is. */
  lemma {:induction false} AllSatConcatMap(a: Assignment, lo: int, hi: int, f: int -> seq<Clause>)
    ensures AllSat(a, ConcatMap(lo, hi, f)) <==> forall i :: lo <= i < hi ==> AllSat(a, f(i))
    decreases hi - lo
  {
    if hi > lo {
      AllSatConcatMap(a, lo, hi - 1, f);
      AllSatAppend(a, ConcatMap(lo, hi - 1, f), f(hi - 1));
    }
  }

  /** The same, with the meaning of each part given as a predicate of its index. */
  lemma AllSatConcatMapIff(a: Assignment, lo: int, hi: int, f: int -> seq<Clause>, P: int -> bool)
    requires forall i :: lo <= i < hi ==> (AllSat(a, f(i)) <==> P(i))
    ensures AllSat(a, ConcatMap(lo, hi, f)) <==> forall i :: lo <= i < hi ==> P(i)
  {
    AllSatConcatMap(a, lo, hi, f);
  }

  /** Four concatenated clause lists are satisfied exactly when each of them is. */
  lemma AllSatParts(a: Assignment, s1: seq<Clause>, s2: seq<Clause>, s3: seq<Clause>, s4: seq<Clause>)
    ensures AllSat(a, s1 + s2 + s3 + s4) <==> AllSat(a, s1) && AllSat(a, s2) && AllSat(a, s3) && AllSat(a, s4)
  {
    AllSatAppend(a, s1 + s2 + s3, s4);
    AllSatAppend(a, s1 + s2, s3);
    AllSatAppend(a, s1, s2);
  }

  /** Satisfying every clause of t satisfies every clause of s that also occurs in t. */
  lemma AllSatSubset(a: Assignment, s: seq<Clause>, t: seq<Clause>)
    requires forall clause :: clause in s ==> clause in t
    requires AllSat(a, t)
    ensures AllSat(a, s)
  {
  }

  lemma AllSat4(a: Assignment, c1: Clause, c2: Clause, c3: Clause, c4: Clause)
    ensures AllSat(a, [c1, c2, c3, c4]) <==> ClauseSat(a, c1) && ClauseSat(a, c2) && ClauseSat(a, c3) && ClauseSat(a, c4)
  {
    var s := [c1, c2, c3, c4];
    assert s[0] in s && s[1] in s && s[2] in s && s[3] in s;
  }

  /** The four clauses that define `e` as "x and y agree", over positive variables. */
  lemma XnorClauses(a: Assignment, e: int, x: int, y: int)
    requires e > 0 && x > 0 && y > 0
    ensures AllSat(a, [[-e, x, -y], [-e, -x, y], [e, -x, -y], [e, x, y]]) <==> (a(e) <==> (a(x) == a(y)))
  {
    AllSat4(a, [-e, x, -y], [-e, -x, y], [e, -x, -y], [e, x, y]);
    Sat3(a, -e, x, -y);
    Sat3(a, -e, -x, y);
    Sat3(a, e, -x, -y);
    Sat3(a, e, x, y);
  }

  lemma SatUnit(a: Assignment, l: int)
    ensures ClauseSat(a, [l]) <==> LitTrue(a, l)
  {
    if LitTrue(a, l) {
      assert l in [l];
    }
  }

  lemma Sat3(a: Assignment, l1: int, l2: int, l3: int)
    ensures ClauseSat(a, [l1, l2, l3]) <==> LitTrue(a, l1) || LitTrue(a, l2) || LitTrue(a, l3)
  {
    var c := [l1, l2, l3];
    if LitTrue(a, l1) {
      assert c[0] in c;
    } else if LitTrue(a, l2) {
      assert c[1] in c;
    } else if LitTrue(a, l3) {
      assert c[2] in c;
    }
  }

  lemma Sat4(a: Assignment, l1: int, l2: int, l3: int, l4: int)
    ensures ClauseSat(a, [l1, l2, l3, l4]) <==> LitTrue(a, l1) || LitTrue(a, l2) || LitTrue(a, l3) || LitTrue(a, l4)
  {
    var c := [l1, l2, l3, l4];
    if LitTrue(a, l1) {
      assert c[0] in c;
    } else if LitTrue(a, l2) {
      assert c[1] in c;
    } else if LitTrue(a, l3) {
      assert c[2] in c;
    } else if LitTrue(a, l4) {
      assert c[3] in c;
    }
  }

  /** A two-literal clause of negated positive variables forbids both variables being true. */
  lemma SatNegPair(a: Assignment, x: int, y: int)
    requires x > 0 && y > 0
    ensures ClauseSat(a, [-x, -y]) <==> !(a(x) && a(y))
  {
    var c := [-x, -y];
    if !a(x) {
      assert LitTrue(a, c[0]);
    } else if !a(y) {
      assert LitTrue(a, c[1]);
    }
  }

  // ---------------------------------------------------------------------
  // Counting: a relation between two sets of n elements in which every left
  // element has a partner and no right element has two is a perfect matching.

  /** {0, ..., n - 1}. */
  function Below(n: int): (s: set<int>)
    ensures forall y :: y in s <==> 0 <= y < n
    ensures n >= 0 ==> |s| == n
    decreases n
  {
    if n <= 0 then {} else Below(n - 1) + {n - 1}
  }

  /** {g(0), ..., g(n - 1)}. */
  function Image(g: int -> int, n: int): (s: set<int>)
    ensures forall x :: 0 <= x < n ==> g(x) in s
    ensures forall y :: y in s ==> exists x :: 0 <= x < n && g(x) == y
    decreases n
  {
    if n <= 0 then {} else Image(g, n - 1) + {g(n - 1)}
  }

  /** A function that is one-to-one on 0..n-1 has n distinct images. */
  lemma {:induction false} InjectiveImageCard(n: nat, g: int -> int)
    requires forall x1, x2 :: 0 <= x1 < n && 0 <= x2 < n && g(x1) == g(x2) ==> x1 == x2
    ensures |Image(g, n)| == n
  {
    if n > 0 {
      InjectiveImageCard(n - 1, g);
      ImageExcludes(n - 1, g);
      assert Image(g, n) == Image(g, n - 1) + {g(n - 1)};
    }
  }

  lemma ImageExcludes(n: nat, g: int -> int)
    requires forall x :: 0 <= x < n ==> g(x) != g(n)
    ensures g(n) !in Image(g, n)
  {
  }

  /** A subset as large as the whole set is the whole set. */
  lemma SubsetCardEqual(s: set<int>, t: set<int>)
    requires s <= t && |s| == |t|
    ensures s == t
  {
    assert |t - s| == 0;
  }

  /** x in 0..n-1 is related to some y in 0..n-1. */
  ghost predicate HasRight(R: (int, int) -> bool, n: int, x: int)
  {
    exists y :: 0 <= y < n && R(x, y)
  }

  /** y in 0..n-1 is related to some x in 0..n-1. */
  ghost predicate HasLeft(R: (int, int) -> bool, n: int, y: int)
  {
    exists x :: 0 <= x < n && R(x, y)
  }

  /** A choice of partners: g(x) is a partner of x for every x in 0..n-1. */
  ghost predicate ChoosesPartners(R: (int, int) -> bool, n: int, g: int -> int)
  {
    forall x :: 0 <= x < n ==> 0 <= g(x) < n && R(x, g(x))
  }

  /** With no y related to two x, a choice of partners is one-to-one and hits every y. */
  lemma ChoiceOnto(n: nat, R: (int, int) -> bool, g: int -> int)
    requires ChoosesPartners(R, n, g)
    requires forall x1, x2, y :: 0 <= x1 < n && 0 <= x2 < n && 0 <= y < n && R(x1, y) && R(x2, y) ==> x1 == x2
    ensures Image(g, n) == Below(n)
  {
    forall x1, x2 | 0 <= x1 < n && 0 <= x2 < n && g(x1) == g(x2)
      ensures x1 == x2
    {
      assert R(x1, g(x1)) && R(x2, g(x2));
    }
    InjectiveImageCard(n, g);
    SubsetCardEqual(Image(g, n), Below(n));
  }

  lemma ChoiceHit(n: nat, R: (int, int) -> bool, g: int -> int, y: int)
    requires ChoosesPartners(R, n, g) && Image(g, n) == Below(n) && 0 <= y < n
    ensures HasLeft(R, n, y)
  {
    assert y in Image(g, n);
    var x :| 0 <= x < n && g(x) == y;
    assert R(x, y);
  }

  lemma ChoiceOnly(n: nat, R: (int, int) -> bool, g: int -> int, x: int, y: int)
    requires ChoosesPartners(R, n, g) && Image(g, n) == Below(n)
    requires forall x1, x2, y :: 0 <= x1 < n && 0 <= x2 < n && 0 <= y < n && R(x1, y) && R(x2, y) ==> x1 == x2
    requires 0 <= x < n && 0 <= y < n && R(x, y)
    ensures y == g(x)
  {
    assert y in Image(g, n);
    var x' :| 0 <= x' < n && g(x') == y;
    assert R(x', y);
  }

  /** The matching conclusions, from a choice of partners that hits every y. */
  lemma MatchingFromChoice(n: nat, R: (int, int) -> bool, g: int -> int)
    requires ChoosesPartners(R, n, g)
    requires forall x1, x2, y :: 0 <= x1 < n && 0 <= x2 < n && 0 <= y < n && R(x1, y) && R(x2, y) ==> x1 == x2
    requires Image(g, n) == Below(n)
    ensures forall y :: 0 <= y < n ==> HasLeft(R, n, y)
    ensures forall x, y1, y2 :: 0 <= x < n && 0 <= y1 < n && 0 <= y2 < n && R(x, y1) && R(x, y2) ==> y1 == y2
  {
    forall y | 0 <= y < n
      ensures HasLeft(R, n, y)
    {
      ChoiceHit(n, R, g, y);
    }
    forall x, y1, y2 | 0 <= x < n && 0 <= y1 < n && 0 <= y2 < n && R(x, y1) && R(x, y2)
      ensures y1 == y2
    {
      ChoiceOnly(n, R, g, x, y1);
      ChoiceOnly(n, R, g, x, y2);
    }
  }

  /** Some partner of x in 0..n-1, or 0 outside the range. */
  ghost function Partner(R: (int, int) -> bool, n: int, x: int): int
  {
    if 0 <= x < n && HasRight(R, n, x) then var y :| 0 <= y < n && R(x, y); y else 0
  }

  /**
   * Pigeonhole principle: if every x in 0..n-1 is related to some y in 0..n-1
   * and no y is related to two x, then every y is related to some x and no x
   * is related to two y.
   */
  lemma Matching(n: nat, R: (int, int) -> bool)
    requires forall x :: 0 <= x < n ==> HasRight(R, n, x)
    requires forall x1, x2, y :: 0 <= x1 < n && 0 <= x2 < n && 0 <= y < n && R(x1, y) && R(x2, y) ==> x1 == x2
    ensures forall y :: 0 <= y < n ==> HasLeft(R, n, y)
    ensures forall x, y1, y2 :: 0 <= x < n && 0 <= y1 < n && 0 <= y2 < n && R(x, y1) && R(x, y2) ==> y1 == y2
  {
    var g := x => Partner(R, n, x);
    assert ChoosesPartners(R, n, g);
    ChoiceOnto(n, R, g);
    MatchingFromChoice(n, R, g);
  }

  /**
   * The solver's answer for a variable after a satisfiable search: `Some(b)` for
   * an assigned variable, `None` otherwise. The solver itself is not modelled.
   */
  type Valuation = int -> Option<bool>

  /** `solver.value(id).unwrap_or(false)`. */
  predicate IsTrue(value: Valuation, id: int)
  {
    value(id) == Some(true)
  }
}
