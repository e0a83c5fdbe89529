# SAT-STEP core in Dafny

SAT-STEP turns a Sudoku into a formula in conjunctive normal form (CNF),
hands it to the CaDiCaL SAT solver and shows, step by step, the clauses
the solver learns while it searches. This project models the parts of
SAT-STEP that do not draw or call the solver:

- the four Sudoku-to-CNF encoders and their variable numbering:
  - the decimal encoding, with 729 variables "cell (r, c) holds v" and four
    optional rule families;
  - the binary encoding, with 324 bit variables plus "two cells agree on a
    bit" equality variables;
  - the older decimal converter (`cnf_converter.rs`);
  - the older binary encoder (`binary_cnf.rs`);
- the decoded literal `CnfVariable`, its re-encoding, and the digits a
  literal allows;
- the grid text parser and printer, and the built-in empty puzzle;
- the learned-clause filter and pager `ListFilter`;
- the paging and selection state machine `AppState`;
- the clause list the GUI shows (click, move up, move down), plus the
  small containers `ConstraintList`, `Trail` and `Warning`, and the
  numeric input parser.

Each Rust file has one Dafny module:

| module | file | source |
|---|---|---|
| `Base` | base.dfy | shared helpers: `Option`/`Result`, `ConcatMap` over an integer range, Rust's truncating `/` and `%`, the bits of a number, clause satisfaction |
| `DecimalEncoding` | decimal_encoding.dfy | src/cnf/decimal_encoding.rs |
| `BinaryEncoding` | binary_encoding.dfy | src/cnf/binary_encoding.rs |
| `CnfConverter` | cnf_converter.dfy | src/cnf_converter.rs |
| `BinaryCnf` | binary_cnf.dfy | src/binary_cnf.rs |
| `Cnf` | cnf.dfy | src/cnf.rs |
| `Sudoku` | sudoku.dfy | src/sudoku.rs |
| `Lib` | lib.dfy | src/lib.rs |
| `Filtering` | filtering.dfy | src/filtering.rs |
| `App` | app_state.dfy | src/app_state.rs |
| `CtrlObj` | ctrl_obj.dfy | src/ctrl_obj.rs |
| `Warnings` | warning.dfy | src/warning.rs |

## How the model is built

The modelling follows the shape of the Rust code.

**Encoders.** Each encoder is a chain of `method`s that push clauses in the
source's nested loops, with one method per loop level. Each method is
proved equal to a family function, built from `ConcatMap`, that lists the
same clauses in the same order. The properties are lemmas about those
functions:

- where a clause sits and what it contains;
- that every clause in a family has the required form, and that every
  required clause is in the family;
- the family's length;
- that the last clause comes from the last clue;
- what a satisfying assignment means. The clauses are sound: every model
  of the clauses is a solved Sudoku that respects the clues. For the
  decimal encoding this needs a sufficient choice of rule families, the
  choice `cnf_encoding_rules_ok` accepts; a counting argument over the nine
  cells and nine values of a house (`Base.Matching`) turns "every cell
  filled, no value repeated" into "one value per cell" and back. The
  clauses are also complete: every solved Sudoku, extended for the binary
  encoders with the equality variables it defines, satisfies them.

**Solver reads.** The solver's answers become parameters:

- a `Valuation` (literal to optional bool) for `get_cell_value`;
- a `fixed` function (literal to -1/0/1) for `EncodingType::fixed`.

**State holders.** `ListFilter`, `AppState`, `ConstraintList`, `Trail` and
`Warning` are classes. Their methods state the whole new state, including
what they leave unchanged. `AppState` keeps the invariant `Valid()`: the
page length is at least 1 and the page number is not negative.

**Parser and printer.** The parser and printer are methods with the
source's loops, proved against the functions `Clues`, `LineEntries` and
`GridString`. The round trip is a lemma about those functions.

Behaviour of the code worth knowing:

- `clues_from_string` accepts any text of nine or more lines whose lines
  each give nine entries, and a longer text gives a longer grid
  (src/sudoku.rs:75-96).
- An empty marker that is itself a number yields two entries, `None` and
  then `Some` of the number (src/sudoku.rs:82-89).
- `filter_by_max_length` with invalid input clears `max_length` but keeps
  the page and the filter (src/app_state.rs:179-187).
- The older binary encoder defines equality variables for every ordered
  pair of cells, a cell paired with itself included (src/binary_cnf.rs:6-39).

## Model

| member | source | states |
|---|---|---|
| DecimalEncoding.CnfIdentifier | src/cnf/decimal_encoding.rs:157-160 | for row, col, val in 1..9 the identifier lies in 1..729 |
| DecimalEncoding.IdentifierInjective | src/cnf/decimal_encoding.rs:157-160 | two in-range triples with the same identifier are the same triple |
| DecimalEncoding.IdentifierToTuple | src/cnf/decimal_encoding.rs:166-174 | every non-zero literal decodes to a row of at least 1, a column in 1..9 and a value of absolute value 1..9 whose sign is the literal's; the literal 0 decodes to (1, 1, 0) |
| DecimalEncoding.RoundTrip | src/cnf/decimal_encoding.rs:166-174 | decoding the identifier of (r, c, v) gives (r, c, v); decoding its negation gives (r, c, -v) |
| DecimalEncoding.Decode | src/cnf/decimal_encoding.rs:166-174 | an identifier whose absolute value is r*81 + c*9 + v + 1 decodes to (r+1, c+1, ±(v+1)), with the sign of the identifier |
| DecimalEncoding.DecodeInRange | src/cnf/decimal_encoding.rs:166-174 | every literal with absolute value 1..729 decodes to in-range fields that encode back to its absolute value, and the value's sign is the literal's |
| DecimalEncoding.SudokuToCnf | src/cnf/decimal_encoding.rs:10-154 | the clauses pushed are the enabled families, in source order (at-least-one, at-most-one, all-values, unique-values), then the clue units |
| DecimalEncoding.CellCandidates | src/cnf/decimal_encoding.rs:24-27 | the clause of one cell lists its nine value literals |
| DecimalEncoding.PushAtLeastOneRow | src/cnf/decimal_encoding.rs:23-29 | appends the at-least-one clauses of one row |
| DecimalEncoding.PushAtLeastOne | src/cnf/decimal_encoding.rs:21-31 | appends the 81 at-least-one clauses |
| DecimalEncoding.PushAtMostOneCell | src/cnf/decimal_encoding.rs:37-45 | appends the value pairs of one cell |
| DecimalEncoding.PushAtMostOneRow | src/cnf/decimal_encoding.rs:36-46 | appends the at-most-one pairs of one row |
| DecimalEncoding.PushAtMostOne | src/cnf/decimal_encoding.rs:34-48 | appends every at-most-one pair |
| DecimalEncoding.PushRowsHaveValue | src/cnf/decimal_encoding.rs:53-59 | appends, for one value, the clauses saying that each row holds it |
| DecimalEncoding.PushRowsAll | src/cnf/decimal_encoding.rs:52-60 | appends the row clauses for all values |
| DecimalEncoding.PushColsHaveValue | src/cnf/decimal_encoding.rs:64-70 | appends, for one value, the clauses saying that each column holds it |
| DecimalEncoding.PushColsAll | src/cnf/decimal_encoding.rs:63-71 | appends the column clauses for all values |
| DecimalEncoding.PushSubgridRow | src/cnf/decimal_encoding.rs:79-85 | extends a sub-grid clause with the three literals of one sub-grid row |
| DecimalEncoding.SubgridCandidates | src/cnf/decimal_encoding.rs:77-87 | builds the nine-literal clause "this sub-grid holds val" |
| DecimalEncoding.PushBoxValues | src/cnf/decimal_encoding.rs:76-88 | appends the nine value clauses of one sub-grid |
| DecimalEncoding.PushBoxesAllRow | src/cnf/decimal_encoding.rs:75-89 | appends the sub-grid clauses of one band of sub-grids |
| DecimalEncoding.PushBoxesAll | src/cnf/decimal_encoding.rs:74-90 | appends the 81 sub-grid clauses |
| DecimalEncoding.PushPairValues | src/cnf/decimal_encoding.rs:98-103 | appends, for two cells, the nine pairs forbidding one value in both |
| DecimalEncoding.PushRowPairs | src/cnf/decimal_encoding.rs:97-104 | appends the pairs of one cell with the later cells of its row |
| DecimalEncoding.PushRowUnique | src/cnf/decimal_encoding.rs:96-105 | appends the unique-value pairs of one row |
| DecimalEncoding.PushRowsUnique | src/cnf/decimal_encoding.rs:95-106 | appends the unique-value pairs of all rows |
| DecimalEncoding.PushColPairs | src/cnf/decimal_encoding.rs:111-118 | appends the pairs of one cell with the later cells of its column |
| DecimalEncoding.PushColUnique | src/cnf/decimal_encoding.rs:110-119 | appends the unique-value pairs of one column |
| DecimalEncoding.PushColsUnique | src/cnf/decimal_encoding.rs:109-120 | appends the unique-value pairs of all columns |
| DecimalEncoding.PushBoxPairs | src/cnf/decimal_encoding.rs:126-137 | appends the pairs of one sub-grid cell with the later cells of its sub-grid |
| DecimalEncoding.PushBoxUnique | src/cnf/decimal_encoding.rs:125-138 | appends the unique-value pairs of one sub-grid |
| DecimalEncoding.PushBoxesUniqueRow | src/cnf/decimal_encoding.rs:124-139 | appends the unique-value pairs of one band of sub-grids |
| DecimalEncoding.PushBoxesUnique | src/cnf/decimal_encoding.rs:123-140 | appends the unique-value pairs of all sub-grids |
| DecimalEncoding.PushLineClues | src/cnf/decimal_encoding.rs:146-150 | appends the clue units of one row of clues |
| DecimalEncoding.PushClues | src/cnf/decimal_encoding.rs:145-151 | appends the clue units of the whole grid |
| DecimalEncoding.GetCellValue | src/cnf/decimal_encoding.rs:176-185 | the result is -1 exactly when no value variable of the cell is true; otherwise it is the smallest v in 1..9 whose variable is true |
| DecimalEncoding.AloCellLayout | src/cnf/decimal_encoding.rs:24-27 | a cell's clause has nine literals, and the (v-1)-th is the variable for v |
| DecimalEncoding.AtLeastOneLayout | src/cnf/decimal_encoding.rs:21-31 | the family has 81 clauses; clause (r-1)*9 + (c-1) lists the nine positive literals of cell (r, c) in value order |
| DecimalEncoding.AtLeastOneFirst | src/cnf/decimal_encoding.rs:21-31 | with at-least-one enabled, the output has at least 81 clauses and begins with the at-least-one clauses in cell order, whatever the other flags |
| DecimalEncoding.AtMostOneSound | src/cnf/decimal_encoding.rs:34-48 | every at-most-one clause holds exactly two negative literals: one cell, two distinct values |
| DecimalEncoding.AtMostOneComplete | src/cnf/decimal_encoding.rs:34-48 | every such pair for val1 < val2 is in the family |
| DecimalEncoding.AtMostOneLength | src/cnf/decimal_encoding.rs:34-48 | the family has 81 * 36 = 2916 clauses |
| DecimalEncoding.AmoCellLength | src/cnf/decimal_encoding.rs:37-45 | a cell's first n - 1 values give (n-1)(18-n)/2 pairs |
| DecimalEncoding.RowHasValueLayout | src/cnf/decimal_encoding.rs:53-59 | a row clause has nine literals, the one at col - 1 being (row, col, val) |
| DecimalEncoding.RowsAllSound | src/cnf/decimal_encoding.rs:52-60 | every clause of the row family says that some row holds some value |
| DecimalEncoding.RowsAllComplete | src/cnf/decimal_encoding.rs:52-60 | the clause of every row and value is in the family |
| DecimalEncoding.RowsAllLength | src/cnf/decimal_encoding.rs:52-60 | 81 row clauses |
| DecimalEncoding.ColHasValueLayout | src/cnf/decimal_encoding.rs:64-70 | a column clause has nine literals, the one at row - 1 being (row, col, val) |
| DecimalEncoding.ColsAllSound | src/cnf/decimal_encoding.rs:63-71 | every clause of the column family says that some column holds some value |
| DecimalEncoding.ColsAllComplete | src/cnf/decimal_encoding.rs:63-71 | the clause of every column and value is in the family |
| DecimalEncoding.ColsAllLength | src/cnf/decimal_encoding.rs:63-71 | 81 column clauses |
| DecimalEncoding.BoxHasValueLayout | src/cnf/decimal_encoding.rs:77-87 | a sub-grid clause has nine literals, one per cell of the sub-grid, in row-major order |
| DecimalEncoding.BoxesAllSound | src/cnf/decimal_encoding.rs:74-90 | every clause of the sub-grid family says that some sub-grid holds some value |
| DecimalEncoding.BoxesAllComplete | src/cnf/decimal_encoding.rs:74-90 | the clause of every sub-grid and value is in the family |
| DecimalEncoding.BoxesAllLength | src/cnf/decimal_encoding.rs:74-90 | 81 sub-grid clauses |
| DecimalEncoding.AllValuesLength | src/cnf/decimal_encoding.rs:50-91 | the all-values family has 243 clauses |
| DecimalEncoding.UniqueValuesSound | src/cnf/decimal_encoding.rs:93-141 | every unique-values clause is a pair of negated literals for one value in two distinct cells of one row, column or sub-grid |
| DecimalEncoding.UniqueValuesComplete | src/cnf/decimal_encoding.rs:93-141 | for any two distinct cells sharing a house and any value, the pair is in the family, in one of its two orders |
| DecimalEncoding.RowsUniqueSound | src/cnf/decimal_encoding.rs:95-106 | the row part gives only such house pairs |
| DecimalEncoding.RowsUniqueComplete | src/cnf/decimal_encoding.rs:95-106 | every pair of cells col1 < col2 in a row, for every value, is in the row part |
| DecimalEncoding.ColsUniqueSound | src/cnf/decimal_encoding.rs:109-120 | the column part gives only such house pairs |
| DecimalEncoding.ColsUniqueComplete | src/cnf/decimal_encoding.rs:109-120 | every pair of cells row1 < row2 in a column, for every value, is in the column part |
| DecimalEncoding.BoxesUniqueSound | src/cnf/decimal_encoding.rs:123-140 | the sub-grid part gives only such house pairs |
| DecimalEncoding.BoxesUniqueComplete | src/cnf/decimal_encoding.rs:123-140 | every pair of sub-grid cells index1 < index2, for every value, is in the sub-grid part |
| DecimalEncoding.CluesSound | src/cnf/decimal_encoding.rs:145-151 | every clue clause is the unit clause [id(r+1, c+1, v)] of some clue Some(v) at 0-based (r, c) |
| DecimalEncoding.CluesComplete | src/cnf/decimal_encoding.rs:145-151 | every clue Some(v) at 0-based (r, c) gives the unit clause [id(r+1, c+1, v)] |
| DecimalEncoding.CluesEndWithLastClue | src/cnf/decimal_encoding.rs:145-151 | the last clue clause is the unit clause of the last clue in row-major order |
| DecimalEncoding.EncodingEndsWithLastClue | src/cnf/decimal_encoding.rs:10-154 | for any flags, the last clause of the whole output is the unit clause of the last clue |
| DecimalEncoding.NoRulesOnlyClues | src/cnf/decimal_encoding.rs:20-151 | with every flag off, the output is exactly the clue units |
| DecimalEncoding.AtLeastOneSound | src/cnf/decimal_encoding.rs:21-31 | every at-least-one clause lists the nine candidates of one in-range cell |
| DecimalEncoding.AtLeastOneMeaning | src/cnf/decimal_encoding.rs:21-31 | a model of the at-least-one clauses gives every cell of the board some value 1..9 |
| DecimalEncoding.AtMostOneMeaning | src/cnf/decimal_encoding.rs:34-48 | in a model of the at-most-one clauses no cell holds two values |
| DecimalEncoding.AllValuesMeaning | src/cnf/decimal_encoding.rs:52-90 | in a model of the all-values clauses every row, column and sub-grid holds every value 1..9 |
| DecimalEncoding.UniqueValuesMeaning | src/cnf/decimal_encoding.rs:95-140 | in a model of the unique-values clauses two different cells that share a row, column or sub-grid never hold the same value |
| DecimalEncoding.CluesMeaning | src/cnf/decimal_encoding.rs:145-151 | in a model of the clue units every clue with a value 1..9 holds at its cell |
| DecimalEncoding.SudokuClausesSat | src/cnf/decimal_encoding.rs:10-154 | a model of the output satisfies every family whose flag is on, and the clue units |
| DecimalEncoding.FilledDistinctHouse | src/cnf.rs:160-168 | in one house, nine filled cells without a repeated value hold every value, each cell exactly one |
| DecimalEncoding.SingleCompleteHouse | src/cnf.rs:160-168 | in one house holding every value, with no cell holding two, every cell is filled and no value repeats |
| DecimalEncoding.FilledDistinctSingle | src/cnf.rs:160-168 | on the whole board, every cell filled and no value repeated in a house imply one value per cell and every value in every house |
| DecimalEncoding.SingleFullDistinct | src/cnf.rs:160-168 | on the whole board, at most one value per cell and every value in every house imply every cell filled and no value repeated in a house |
| DecimalEncoding.EncodingSound | src/cnf/decimal_encoding.rs:10-154 | with at-least-one and unique values, or with at-most-one and all values, every model of the output is a solved board (one value per cell, no value twice in a house) agreeing with the clues |
| DecimalEncoding.EncodingComplete | src/cnf/decimal_encoding.rs:10-154 | whatever the flags, a solved board that agrees with clues valued 1..9 satisfies every clause of the output |
| DecimalEncoding.EncodingExact | src/cnf/decimal_encoding.rs:10-154 | for a sufficient rule choice and clues valued 1..9, the models of the output are exactly the solved boards that agree with the clues |
| BinaryEncoding.CnfIdentifier | src/cnf/binary_encoding.rs:160-163 | for row, col in 1..9 and bit in 0..3 the identifier lies in 1..324 |
| BinaryEncoding.EqCnfIdentifier | src/cnf/binary_encoding.rs:166-175 | for in-range cells and bits the equality identifier lies above 324, so it never collides with a bit variable |
| BinaryEncoding.IdentifierInjective | src/cnf/binary_encoding.rs:160-163 | distinct in-range (row, col, bit) have distinct identifiers |
| BinaryEncoding.EqIdentifierInjective | src/cnf/binary_encoding.rs:166-175 | distinct in-range (row, col, row2, col2, bit) have distinct equality identifiers |
| BinaryEncoding.IdentifierToTuple | src/cnf/binary_encoding.rs:181-190 | every non-zero literal decodes to a row of at least 1, a column in 1..9 and a bit in 0..3; the flag is the literal's sign; the literal 0 decodes to (1, 1, -1, false) |
| BinaryEncoding.BitDecode | src/cnf/binary_encoding.rs:180-190 | r*36 + c*4 + b + 1 decodes to (r+1, c+1, b, true) |
| BinaryEncoding.NegatedDecode | src/cnf/binary_encoding.rs:180-190 | a negated identifier decodes to the same fields with bit value false |
| BinaryEncoding.RoundTrip | src/cnf/binary_encoding.rs:180-190 | decoding ±id(r, c, b) gives (r, c, b, sign > 0) |
| BinaryEncoding.DecodeInRange | src/cnf/binary_encoding.rs:180-190 | every literal with absolute value 1..324 decodes to in-range fields that encode back to it, and the flag is its sign |
| BinaryEncoding.EqIdentifierToTuple | src/cnf/binary_encoding.rs:195-206 | every literal whose absolute value lies in the equality range 325..26568 decodes to four coordinates in 1..9 and a bit in 0..3; the flag is the literal's sign |
| BinaryEncoding.EqDecode | src/cnf/binary_encoding.rs:192-206 | an equality identifier built from 0-based fields decodes to those fields plus one, with equal = true |
| BinaryEncoding.EqNegatedDecode | src/cnf/binary_encoding.rs:192-206 | a negated equality identifier decodes to the same fields with equal = false |
| BinaryEncoding.EqRoundTrip | src/cnf/binary_encoding.rs:192-206 | decoding ±eq_id(r, c, r2, c2, b) gives (r, c, r2, c2, b, sign > 0) |
| BinaryEncoding.EqDecodeInRange | src/cnf/binary_encoding.rs:192-206 | every literal with absolute value 325..26568 decodes to in-range fields that encode back to it |
| BinaryEncoding.SudokuToCnf | src/cnf/binary_encoding.rs:10-109 | the clauses pushed are the row, column and sub-grid difference blocks, the forbidden patterns, then the clue bits, in source order |
| BinaryEncoding.EqVariableInit | src/cnf/binary_encoding.rs:114-144 | returns the four defining clauses of each of the four bits, in order |
| BinaryEncoding.EqInitShape | src/cnf/binary_encoding.rs:114-144 | 16 clauses of three literals each |
| BinaryEncoding.EqBitMeaning | src/cnf/binary_encoding.rs:117-142 | the four clauses of one bit hold exactly when EQ is true iff the two cells agree on that bit |
| BinaryEncoding.EqInitMeaning | src/cnf/binary_encoding.rs:114-144 | the 16 clauses hold exactly when every EQ variable of the pair is correct |
| BinaryEncoding.PatternsDiffer | src/cnf/binary_encoding.rs:14-28 | two cells' bit patterns differ exactly when they differ on some bit |
| BinaryEncoding.NeqMeaning | src/cnf/binary_encoding.rs:14-28 | the not-equal clause holds exactly when some EQ variable of the pair is false |
| BinaryEncoding.FalseEqMeansDiffer | src/cnf/binary_encoding.rs:14-28 | with correct EQ variables, a false EQ variable is the same as a bit the cells differ on |
| BinaryEncoding.PairBlockMeaning | src/cnf/binary_encoding.rs:18-27 | a pair's block (EQ definitions plus the not-equal clause) holds exactly when its EQ variables are correct and the two cells hold different patterns |
| BinaryEncoding.PushPair | src/cnf/binary_encoding.rs:19-26 | appends one pair's block |
| BinaryEncoding.PushRowPairs | src/cnf/binary_encoding.rs:18-27 | appends the blocks of one cell with the later cells of its row |
| BinaryEncoding.PushRowDiff | src/cnf/binary_encoding.rs:17-27 | appends the blocks of one row |
| BinaryEncoding.PushRowsDiff | src/cnf/binary_encoding.rs:16-28 | appends the blocks of all rows |
| BinaryEncoding.PushColPairs | src/cnf/binary_encoding.rs:34-43 | appends the blocks of one cell with the later cells of its column |
| BinaryEncoding.PushColDiff | src/cnf/binary_encoding.rs:33-43 | appends the blocks of one column |
| BinaryEncoding.PushColsDiff | src/cnf/binary_encoding.rs:32-44 | appends the blocks of all columns |
| BinaryEncoding.PushBoxPairs | src/cnf/binary_encoding.rs:51-64 | appends the blocks of one sub-grid cell with the later cells of its sub-grid |
| BinaryEncoding.PushBoxDiff | src/cnf/binary_encoding.rs:50-65 | appends the blocks of one sub-grid |
| BinaryEncoding.PushBoxesDiffRow | src/cnf/binary_encoding.rs:49-65 | appends the blocks of one band of sub-grids |
| BinaryEncoding.PushBoxesDiff | src/cnf/binary_encoding.rs:48-66 | appends the blocks of all sub-grids |
| BinaryEncoding.ForbiddenClause | src/cnf/binary_encoding.rs:73-85 | the four-literal clause that excludes one bit pattern of a cell |
| BinaryEncoding.PushCellForbidden | src/cnf/binary_encoding.rs:72-86 | appends the clauses excluding patterns 9..15 of one cell |
| BinaryEncoding.PushForbiddenRow | src/cnf/binary_encoding.rs:71-86 | appends the forbidden-pattern clauses of one row |
| BinaryEncoding.PushForbidden | src/cnf/binary_encoding.rs:70-87 | appends the forbidden-pattern clauses of all cells |
| BinaryEncoding.ForbiddenLitMeaning | src/cnf/binary_encoding.rs:75-84 | a literal of a forbidden clause is true exactly when the cell's bit differs from the pattern's bit |
| BinaryEncoding.ForbiddenClauseMeaning | src/cnf/binary_encoding.rs:72-86 | a forbidden clause is falsified exactly by its own pattern |
| BinaryEncoding.ForbiddenUnitMeaning | src/cnf/binary_encoding.rs:72-86 | the same for the clause taken as a one-clause list |
| BinaryEncoding.CellForbiddenMeaning | src/cnf/binary_encoding.rs:70-87 | a cell's seven clauses hold exactly when its pattern is below 9 |
| BinaryEncoding.CellForbiddenShape | src/cnf/binary_encoding.rs:70-87 | 7 clauses of four literals per cell |
| BinaryEncoding.PatternIs | src/cnf/binary_encoding.rs:70-87 | a cell's pattern is p exactly when each of its four bits is the matching bit of p |
| BinaryEncoding.PushClueBits | src/cnf/binary_encoding.rs:96-104 | appends the four unit clauses of one clue |
| BinaryEncoding.LineCluesStep | src/cnf/binary_encoding.rs:92-105 | one more cell of a row adds exactly its clue units |
| BinaryEncoding.PushLineClues | src/cnf/binary_encoding.rs:92-105 | appends the clue units of one row |
| BinaryEncoding.PushClues | src/cnf/binary_encoding.rs:91-106 | appends the clue units of the grid |
| BinaryEncoding.ClueBitMeaning | src/cnf/binary_encoding.rs:96-104 | a clue's unit for bit i holds exactly when the cell's bit i equals bit i of the stored value |
| BinaryEncoding.ClueBitsMeaning | src/cnf/binary_encoding.rs:96-104 | a clue's four units hold exactly when the cell's pattern is the stored value mod 16 |
| BinaryEncoding.ClueBitsLength | src/cnf/binary_encoding.rs:96-104 | four units per clue |
| BinaryEncoding.ClueBitsShape | src/cnf/binary_encoding.rs:91-106 | each unit has one literal on bit i of the clue's cell, positive exactly when bit i of v - 1 is set |
| BinaryEncoding.ClueReadBack | src/cnf/binary_encoding.rs:148-157 | when a clue v in 1..16 is satisfied, the cell reads back as v |
| BinaryEncoding.ClueUnitsOfClue | src/cnf/binary_encoding.rs:93-104 | a clue Some(v) gives the bit units of v - 1 |
| BinaryEncoding.LineEndsWithClue | src/cnf/binary_encoding.rs:92-105 | when no clue follows column col, a row's units end with those of (row, col) |
| BinaryEncoding.CluesEndWithLastClue | src/cnf/binary_encoding.rs:91-106 | the clue units end with the four units of the last clue in row-major order |
| BinaryEncoding.EncodingEndsWithLastClue | src/cnf/binary_encoding.rs:10-109 | the whole output ends with the four units of the last clue |
| BinaryEncoding.RowsSound | src/cnf/binary_encoding.rs:14-28 | a model of the row blocks gives distinct patterns to any two cells of a row |
| BinaryEncoding.ColsSound | src/cnf/binary_encoding.rs:30-44 | a model of the column blocks gives distinct patterns to any two cells of a column |
| BinaryEncoding.BoxesSound | src/cnf/binary_encoding.rs:46-66 | a model of the sub-grid blocks gives distinct patterns to any two cells of a sub-grid |
| BinaryEncoding.ForbiddenSound | src/cnf/binary_encoding.rs:68-87 | a model of the forbidden clauses leaves every pattern below 9 |
| BinaryEncoding.CluesSound | src/cnf/binary_encoding.rs:89-106 | a model of the clue units reads back every clue |
| BinaryEncoding.HousesSound | src/cnf/binary_encoding.rs:14-66 | a model of the three difference families has distinct digits in every house |
| BinaryEncoding.DigitsSound | src/cnf/binary_encoding.rs:68-87 | a model of the forbidden clauses has every digit in 1..9 |
| BinaryEncoding.RulesSound | src/cnf/binary_encoding.rs:10-88 | a model of the rule clauses is a filled Sudoku: digits 1..9, distinct in every house |
| BinaryEncoding.EncodingSound | src/cnf/binary_encoding.rs:10-109 | every model of the encoding solves the puzzle and respects its clues |
| BinaryEncoding.WithEqVars | src/cnf/binary_encoding.rs:114-144 | an assignment extended with its equality variables keeps every bit variable |
| BinaryEncoding.WithEqVarsCorrect | src/cnf/binary_encoding.rs:114-144 | the extension sets every equality variable correctly and keeps every cell's pattern |
| BinaryEncoding.WithEqVarsSolves | src/cnf/binary_encoding.rs:10-109 | the extension of a solution is still a solution of the same clues |
| BinaryEncoding.RowsComplete | src/cnf/binary_encoding.rs:14-28 | with correct EQ variables and distinct rows, the row blocks hold |
| BinaryEncoding.ColsComplete | src/cnf/binary_encoding.rs:30-44 | with correct EQ variables and distinct columns, the column blocks hold |
| BinaryEncoding.BoxesComplete | src/cnf/binary_encoding.rs:46-66 | with correct EQ variables and distinct sub-grids, the sub-grid blocks hold |
| BinaryEncoding.ForbiddenComplete | src/cnf/binary_encoding.rs:68-87 | digits in 1..9 satisfy the forbidden clauses |
| BinaryEncoding.CluesComplete | src/cnf/binary_encoding.rs:89-106 | for clues that fit the board (at most 9 rows of at most 9 entries), an assignment that respects the clues satisfies their units |
| BinaryEncoding.RulesComplete | src/cnf/binary_encoding.rs:10-88 | a filled Sudoku with correct EQ variables satisfies the rule clauses |
| BinaryEncoding.EncodingComplete | src/cnf/binary_encoding.rs:10-109 | for clues that fit the board (at most 9 rows of at most 9 entries), every solution that respects the clues, with its EQ variables added, satisfies the whole encoding |
| BinaryEncoding.SudokuClausesSat | src/cnf/binary_encoding.rs:10-109 | the encoding holds exactly when its rule part and its clue part hold |
| BinaryEncoding.GetCellValue | src/cnf/binary_encoding.rs:148-157 | the value is 1 + the sum of 2^bit over the true bits of the cell, so it lies in 1..16 |
| BinaryCnf.EqCnfIdentifier | src/binary_cnf.rs:137-146 | in the first layout, an equality identifier lies above 324 for in-range arguments |
| BinaryCnf.SwappedLayout | src/binary_cnf.rs:137-146 | the first layout numbers (cell, cell2) as the current layout numbers (cell2, cell) |
| BinaryCnf.EqIdentifierInjective | src/binary_cnf.rs:137-146 | distinct in-range arguments have distinct equality identifiers in the first layout |
| BinaryCnf.IdentifierToTuple | src/binary_cnf.rs:149-160 | every non-zero literal decodes to a row of at least 1, a column in 1..9 and a bit in 1..4 carrying the literal's sign; the literal 0 decodes to (1, 1, 0) |
| BinaryCnf.Decode | src/binary_cnf.rs:149-160 | r*36 + c*4 + b + 1 decodes to (r+1, c+1, ±(b+1)), with the identifier's sign |
| BinaryCnf.RoundTrip | src/binary_cnf.rs:149-160 | decoding ±id(r, c, b) gives (r, c, ±(b+1)): the bit comes back 1-based and signed |
| BinaryCnf.DecodeInRange | src/binary_cnf.rs:149-160 | every literal with absolute value 1..324 decodes to an in-range cell and a bit in 1..4 carrying the literal's sign |
| BinaryCnf.SudokuToCnf | src/binary_cnf.rs:1-128 | the clauses pushed are the equality definitions for every cell pair and bit, the three not-equal families, the forbidden patterns and the clue bits, in source order |
| BinaryCnf.PushEqBits | src/binary_cnf.rs:10-37 | appends the four equivalence clauses of each bit of one cell pair |
| BinaryCnf.PushEqCol2 | src/binary_cnf.rs:9-38 | appends the definitions of one cell with every cell of one row |
| BinaryCnf.PushEqRow2 | src/binary_cnf.rs:8-38 | appends the definitions of one cell with every other cell |
| BinaryCnf.PushEqCol | src/binary_cnf.rs:7-38 | appends the definitions of the cells of one row with every cell |
| BinaryCnf.PushEqDef | src/binary_cnf.rs:6-39 | appends every equality definition |
| BinaryCnf.PushRowNeq | src/binary_cnf.rs:44-52 | appends the not-equal clauses of one cell with the later cells of its row |
| BinaryCnf.PushRowNeqCols | src/binary_cnf.rs:43-52 | appends the not-equal clauses of one row |
| BinaryCnf.PushRowsNeq | src/binary_cnf.rs:42-53 | appends the not-equal clauses of all rows |
| BinaryCnf.PushColNeq | src/binary_cnf.rs:58-66 | appends the not-equal clauses of one cell with the later cells of its column |
| BinaryCnf.PushColNeqRows | src/binary_cnf.rs:57-66 | appends the not-equal clauses of one column |
| BinaryCnf.PushColsNeq | src/binary_cnf.rs:56-67 | appends the not-equal clauses of all columns |
| BinaryCnf.PushBoxNeq | src/binary_cnf.rs:73-86 | appends the not-equal clauses of one sub-grid cell with the later cells of its sub-grid |
| BinaryCnf.BoxNeqStep | src/binary_cnf.rs:73-86 | one more index2 adds exactly one not-equal clause |
| BinaryCnf.PushBoxNeqIndex | src/binary_cnf.rs:72-87 | appends the not-equal clauses of one sub-grid |
| BinaryCnf.PushBoxesNeqRow | src/binary_cnf.rs:71-87 | appends the not-equal clauses of one band of sub-grids |
| BinaryCnf.PushBoxesNeq | src/binary_cnf.rs:70-88 | appends the not-equal clauses of all sub-grids |
| BinaryCnf.LiteralsToTuples | src/binary_cnf.rs:165-169 | maps each literal of one clause through the decoder, keeping length and order |
| BinaryCnf.CreateTuplesFromConstraints | src/binary_cnf.rs:162-172 | keeps the outer and inner lengths and maps each literal through the decoder |
| BinaryCnf.EqDefBitsShape | src/binary_cnf.rs:10-37 | 16 three-literal clauses per cell pair |
| BinaryCnf.EqDefShape | src/binary_cnf.rs:6-39 | 104976 three-literal clauses, four per (cell, cell2, bit), equal cells included |
| BinaryCnf.EqDefCovers | src/binary_cnf.rs:6-39 | the four clauses of every (cell, cell2, bit), equal cells included, are in the definitions |
| BinaryCnf.EqBitMeaning | src/binary_cnf.rs:10-37 | the four clauses of one bit hold exactly when EQ is true iff the cells agree on the bit |
| BinaryCnf.EqDefMeaning | src/binary_cnf.rs:6-39 | the definitions hold exactly when every equality variable is correct |
| BinaryCnf.PairMeaning | src/binary_cnf.rs:44-51 | with correct EQ variables, a not-equal clause holds exactly when the two cells differ |
| BinaryCnf.RowsNeqMeaning | src/binary_cnf.rs:42-53 | with correct EQ variables, the row clauses hold exactly when every row has distinct patterns |
| BinaryCnf.ColsNeqMeaning | src/binary_cnf.rs:56-67 | with correct EQ variables, the column clauses hold exactly when every column has distinct patterns |
| BinaryCnf.BoxesNeqMeaning | src/binary_cnf.rs:70-88 | with correct EQ variables, the sub-grid clauses hold exactly when every sub-grid has distinct patterns |
| BinaryCnf.SharedTail | src/binary_cnf.rs:90-125 | the forbidden patterns and clue bits close both binary encoders alike |
| BinaryCnf.RulePartsSat | src/binary_cnf.rs:1-128 | the encoding holds exactly when each of its six families holds |
| BinaryCnf.EncodingSound | src/binary_cnf.rs:1-128 | every model of the encoding sets the EQ variables correctly and solves the puzzle, respecting its clues |
| BinaryCnf.WithEqVarsCorrect | src/binary_cnf.rs:6-39 | extending an assignment with its equality variables sets every first-layout EQ variable correctly |
| BinaryCnf.EncodingComplete | src/binary_cnf.rs:1-128 | for clues that fit the board (at most 9 rows of at most 9 entries), every solution that respects the clues, with its EQ variables added, satisfies the encoding |
| CnfConverter.SudokuToCnf | src/cnf_converter.rs:1-82 | the output is the decimal encoding with at-least-one, at-most-one and all-values on and unique values off |
| CnfConverter.Layout | src/cnf_converter.rs:1-82 | 81 at-least-one clauses, then 2916 at-most-one pairs, then 243 all-values clauses, then the clue units |
| CnfConverter.Parts | src/cnf_converter.rs:1-82 | cutting four concatenated families at their lengths gives back each family |
| CnfConverter.AtMostOnePart | src/cnf_converter.rs:16-29 | clauses 81..2996 each hold two negative literals of one cell |
| CnfConverter.PairLength | src/cnf_converter.rs:16-29 | an at-most-one pair has two negative literals |
| CnfConverter.AllValuesPart | src/cnf_converter.rs:31-70 | clauses 2997..3239 each say that a row, a column or a sub-grid holds a value, with nine literals |
| CnfConverter.RowClauseLength | src/cnf_converter.rs:31-40 | a row clause has nine literals |
| CnfConverter.ColClauseLength | src/cnf_converter.rs:42-51 | a column clause has nine literals |
| CnfConverter.BoxClauseLength | src/cnf_converter.rs:53-70 | a sub-grid clause has nine literals |
| CnfConverter.CluePart | src/cnf_converter.rs:72-79 | every clause from 3240 on is the unit clause of a clue |
| CnfConverter.CluesFromString | src/cnf_converter.rs:105-122 | never fails: one row per input line, each holding that line's entries |
| CnfConverter.StrictAgrees | src/cnf_converter.rs:105-122 | the strict parser accepts exactly the texts that the lenient one reads as nine or more rows of nine entries, and then returns the same grid |
| Cnf.FromCnf | src/cnf.rs:36-66 | Decimal gives a decimal variable whose value has the literal's sign; Binary gives a bit variable up to 324 and an equality variable above, whose flag is the literal's sign |
| Cnf.ToCnf | src/cnf.rs:69-101 | an in-range decimal variable encodes to 1..729; a bit variable to ±(1..324) and an equality variable to ±(325..26568), the sign following the flag |
| Cnf.BinaryRoundTrip | src/cnf.rs:36-101 | under Binary, decoding the encoding of every in-range bit or equality variable gives it back |
| Cnf.DecimalRoundTrip | src/cnf.rs:61-101 | under Decimal, decoding the encoding of (r, c, v) gives it back, and decoding the negation gives (r, c, -v) |
| Cnf.BinaryDecodeRoundTrip | src/cnf.rs:36-101 | every binary literal up to 26568 decodes to an in-range variable that encodes back to it |
| Cnf.DecimalDecodeRoundTrip | src/cnf.rs:61-101 | every decimal literal in 1..729 decodes to an in-range variable that encodes back to it |
| Cnf.GetPossibleNumbers | src/cnf.rs:106-122 | the loop computes the set of digits the literal allows |
| Cnf.BitPartition | src/cnf.rs:106-122 | the digits a bit allows when true and when false split 1..9 into two disjoint parts |
| Cnf.PossibleNumbersExamples | src/cnf.rs:277-296 | bit 2 true allows {5, 6, 7, 8}; bit 1 false allows {1, 2, 5, 6, 9} |
| Cnf.SortDigits | src/cnf.rs:125-153 | collecting and sorting a set of digits gives its strictly increasing enumeration |
| Cnf.GetPossibleGroups | src/cnf.rs:125-157 | for an equality variable, two sorted lists that split 1..9 into the digits with its bit set and those without; for other variables two empty lists |
| Cnf.CnfEncodingRulesOk | src/cnf.rs:161-168 | accepts all four rules together, rejects any choice without a cell rule or without a house rule, and decides by at-least-one whether unique values alone suffice |
| Cnf.RulesOkSound | src/cnf.rs:160-168 | under every accepted rule choice, each model of the decimal encoding's clauses is a solved board (each cell one value, no value twice in a house) that agrees with the clues |
| Sudoku.NewlineIndex | src/sudoku.rs:75 | the first newline of a text |
| Sudoku.LinesCons | src/sudoku.rs:75-80 | a line followed by a newline is split off as the first line |
| Sudoku.CharPieces | src/sudoku.rs:82 | one piece per character, in order |
| Sudoku.LineToRow | src/sudoku.rs:81-89 | the entries of one line: None for the empty marker, Some(n) for a piece that parses as a number |
| Sudoku.EntriesOfStep | src/sudoku.rs:82-89 | one more piece adds exactly its own entries |
| Sudoku.CluesFromString | src/sudoku.rs:70-99 | the result is an error when there are fewer than nine lines or some line has other than nine entries, and otherwise the grid of the lines' entries |
| Sudoku.TooFewLines | src/sudoku.rs:75-79 | fewer than nine lines give an error |
| Sudoku.WrongLineLength | src/sudoku.rs:90-94 | a line with other than nine entries gives an error |
| Sudoku.CluesShape | src/sudoku.rs:80-98 | on success there is one row per line, at least nine, each of nine entries |
| Sudoku.SkippedPrefix | src/sudoku.rs:82-89 | characters that are neither '.' nor a digit add nothing, so leading whitespace is ignored |
| Sudoku.DotLineEntries | src/sudoku.rs:82-89 | with marker '.', a line's entries are None per '.', Some(d) per digit, nothing for anything else |
| Sudoku.RowToString | src/sudoku.rs:105-115 | prints one row: up to nine cells, a number or '.', then a newline |
| Sudoku.StringFromGrid | src/sudoku.rs:102-118 | the printed text of up to nine rows |
| Sudoku.CellsStringSnoc | src/sudoku.rs:105-114 | printing one more cell appends its character |
| Sudoku.RowsStringSnoc | src/sudoku.rs:104-116 | printing one more row appends its line and a newline |
| Sudoku.CellsStringEntries | src/sudoku.rs:105-114 | the printed cells of single-digit values read back as the same cells, with no newline |
| Sudoku.GridLines | src/sudoku.rs:102-118 | a 9x9 single-digit grid prints as nine lines, one per row, each ended by '\n' |
| Sudoku.CellsRoundTrip | src/sudoku.rs:82-89 | a printed row parses back to the row |
| Sudoku.RoundTrip | src/sudoku.rs:70-118 | parsing, with marker '.', the text printed from a 9x9 grid of single-digit values gives back Ok(grid) |
| Sudoku.EmptyGrid | src/sudoku.rs:54-67 | nine rows of nine None |
| Sudoku.GetEmptySudoku | src/sudoku.rs:54-67 | returns Ok with the 9x9 grid of None |
| Sudoku.EmptyTextClues | src/sudoku.rs:54-67 | the source's built-in text, with its indented lines, parses to the empty grid |
| Sudoku.MoreLinesLines | src/sudoku.rs:55-63 | a line followed by k newline-prefixed copies splits into k + 1 copies |
| Lib.ConstraintList.constructor | src/lib.rs:29-31 | a new list is empty |
| Lib.ConstraintList.CloneConstraints | src/lib.rs:38-40 | returns the stored clauses, element by element |
| Lib.ConstraintList.Push | src/lib.rs:42-44 | appends one clause; the length grows by one and earlier clauses are unchanged |
| Lib.ConstraintList.Clear | src/lib.rs:46-48 | leaves the list empty |
| Lib.ConstraintList.Len | src/lib.rs:50-52 | the number of stored clauses |
| Lib.ConstraintList.IsEmpty | src/lib.rs:54-56 | true exactly when the length is 0 |
| Lib.Trail.constructor | src/lib.rs:77-82 | a new trail is empty in both lists |
| Lib.Trail.Push | src/lib.rs:84-87 | appends to the conflict list and the trail list together, so their lengths stay equal |
| Lib.Trail.Clear | src/lib.rs:89-92 | empties both lists |
| Lib.Trail.TrailAtIndex | src/lib.rs:94-96 | for an index below the length, one of the pushed trails |
| Lib.Trail.Len | src/lib.rs:98-100 | the number of pushed trails, which for a valid trail is also the number of pushed conflicts |
| Lib.Trail.IsEmpty | src/lib.rs:102-104 | true exactly when the length is 0 |
| Lib.TrailAtIndexStable | src/lib.rs:84-96 | later pushes do not change the trail at an earlier index |
| Lib.ParseI32 | src/lib.rs:161 | a parsed value lies in the i32 range and comes from a sign or a digit followed by digits |
| Lib.ParseNumericInput | src/lib.rs:160-171 | Some(n) exactly when the text parses as an i32 n >= 1, and None otherwise |
| Lib.ParseNumericInputRoundTrip | src/lib.rs:160-171 | the decimal text of every n in 1..2^31-1 parses to Some(n) |
| Lib.ParseNumericInputRefuses | src/lib.rs:160-171 | the empty text, "0" and every negative number give None |
| Lib.DecimalStringValue | src/lib.rs:161 | the decimal text of n has value n and starts with a digit |
| Warnings.Warning.constructor | src/warning.rs:6-11 | no text, priority 0, so is() is false and the banner is empty |
| Warnings.Warning.Set | src/warning.rs:12-15 | replaces the text, resets the priority to 0, and is() then holds exactly when the new text is present |
| Warnings.Warning.Is | src/warning.rs:17-19 | holds exactly when a text is present, and then the banner is that text |
| Warnings.Warning.Banner | src/warning.rs:20-25 | the text when present, and "" otherwise |
| Filtering.StepTrail.Push | src/filtering.rs:46-53 | appends one conflict to all three parallel lists, leaving the earlier entries unchanged |
| Filtering.Indexes | src/filtering.rs:125-131 | the set {0, ..., n-1} |
| Filtering.ShortUpto | src/filtering.rs:108-116 | the indexes i below k whose clause has at most maxLength literals |
| Filtering.CellsOf | src/filtering.rs:77-101 | the cells a decoded literal names: its cell, and for an equality variable its second cell |
| Filtering.TouchingUpto | src/filtering.rs:74-104 | the indexes i below k of the clauses with a literal naming the cell |
| Filtering.SortedBelow | src/filtering.rs:155-168 | the strictly increasing enumeration of the elements below n |
| Filtering.SortedElements | src/filtering.rs:155-168 | the strictly increasing enumeration of a set |
| Filtering.SortedUnique | src/filtering.rs:155-168 | two strictly increasing sequences with the same elements are equal |
| Filtering.IncreasingCard | src/filtering.rs:155-168 | a strictly increasing sequence has as many elements as its length |
| Filtering.AllKeptInOrder | src/filtering.rs:16-26 | without filters, the enumeration is 0, 1, ..., n-1 |
| Filtering.Page | src/filtering.rs:42-45 | the slice [min(n, pL), min(n, (p+1)L)), so at most L long, full when enough follow, and empty past the end |
| Filtering.Select | src/filtering.rs:37-40 | the clauses at the listed indexes, in order |
| Filtering.ListFilter.constructor | src/filtering.rs:16-26 | both filters hold every index, and the cell map is empty |
| Filtering.ListFilter.GetFilteredIndexList | src/filtering.rs:155-168 | the strictly increasing enumeration of the intersection of the two filters |
| Filtering.SortIndexes | src/filtering.rs:162-166 | collecting and sorting a set of indexes gives its strictly increasing enumeration |
| Filtering.PickLeast | src/filtering.rs:166 | the least element of a non-empty set |
| Filtering.SelectClauses | src/filtering.rs:37-40 | the clauses at the listed indexes, in order |
| Filtering.TrailOf | src/filtering.rs:45-53 | the trail of the listed indexes, one conflict each, in order |
| Filtering.ListFilter.GetFiltered | src/filtering.rs:29-60 | the page [min(n, pL), min(n, (p+1)L)) of the filtered clauses, a trail of the same length for the same indexes, and the total n |
| Filtering.ListFilter.Reinit | src/filtering.rs:63-65 | rebuilds the cell map as create_cell_map does |
| Filtering.ListFilter.CreateCellMap | src/filtering.rs:68-105 | every board cell gets a fresh set, and index i is in the set of (r, c) exactly when some literal of clause i decodes to a variable naming (r, c); other keys gain the same indexes |
| Filtering.ClearCells | src/filtering.rs:69-73 | every board cell is mapped to the empty set; other keys are kept |
| Filtering.ClearRow | src/filtering.rs:70-72 | every cell of one row is mapped to the empty set |
| Filtering.AddClauses | src/filtering.rs:74-104 | each key gains the indexes of the clauses that name it |
| Filtering.AddClause | src/filtering.rs:75-103 | each key gains the index of one clause when the clause names it |
| Filtering.InsertCells | src/filtering.rs:77-101 | the cells a literal names gain the index, when they are keys |
| Filtering.Insert | src/filtering.rs:79-81 | one key gains the index; a cell that is not a key is left out |
| Filtering.TouchingStep | src/filtering.rs:74-104 | one more clause adds its index exactly when it names the cell |
| Filtering.TouchesStep | src/filtering.rs:75-102 | one more literal makes the clause name the cell exactly when that literal names it |
| Filtering.ListFilter.ByMaxLength | src/filtering.rs:108-116 | the length filter becomes {i : the length of clause i <= m}; nothing else changes |
| Filtering.ListFilter.ByCell | src/filtering.rs:119-123 | the cell filter becomes the cell's set when the cell is mapped, and is unchanged otherwise |
| Filtering.ListFilter.ClearLength | src/filtering.rs:125-127 | the length filter holds every index again |
| Filtering.ListFilter.ClearCell | src/filtering.rs:129-131 | the cell filter holds every index again |
| Filtering.ListFilter.GetLittleNumberConstraints | src/filtering.rs:135-153 | the sole literal of each unit clause among the first min(n, (p+1)L) filtered indexes, in order |
| Filtering.UnitLiteralsOf | src/filtering.rs:147-151 | the sole literal of each listed unit clause, in order |
| Filtering.TrailAtStep | src/filtering.rs:47-53 | one more index pushes exactly that index's conflict |
| App.SudokuToCnf | src/app_state.rs:23-39 | dispatches to the decimal encoder with the encoding's four flags, or to the binary encoder |
| App.GetCellValue | src/app_state.rs:41-51 | under the decimal encoding: -1 exactly when no value variable of the cell is true, otherwise the smallest v in 1..9 whose variable is true; under the binary encoding: 1 + the value of the cell's four bits in the model |
| App.Fixed | src/app_state.rs:53-77 | Decimal: the value's variable is fixed true. Binary: false when a bit is unfixed, otherwise true exactly when 1 + the sum of 2^bit over the bits fixed true is val |
| App.FixedAgreesWithModel | src/app_state.rs:64-75 | when the fixed bits are those of a model, the binary check agrees with the model's cell digit |
| App.UnfixedBitNotFixed | src/app_state.rs:64-75 | one unfixed bit makes the binary check false |
| App.DecodeAll | src/app_state.rs:152-160 | decodes each literal under the encoding, keeping length and order |
| App.DecodeClauses | src/app_state.rs:152-160 | decodes each clause, keeping length and order |
| App.PageCount | src/app_state.rs:199-206 | ceil(n / L): enough pages for n rows, and one fewer would not do |
| App.PageCountUnique | src/app_state.rs:199-206 | that page count is unique |
| App.ClampPage | src/app_state.rs:222-228 | max(min(p, count-1), 0): never negative, below count when count >= 1, p itself when in range |
| App.ClampFirstPage | src/app_state.rs:222-228 | page 0 always clamps to 0 |
| App.AppState.constructor | src/app_state.rs:105-136 | the filter holds every index with the cell map built, under the default decimal encoding; page 0 of 0, page length 100, input "100", nothing selected and no warning |
| App.AppState.GetFiltered | src/app_state.rs:141-163 | stores the filtered count and the page count ceil(n / L), refreshes the little numbers, and returns the decoded page and its trail |
| App.AppState.Reinit | src/app_state.rs:165-175 | clears both filters and the selection, rebuilds the cell map, and restores page 0, page count 0, page length 100, input "100", filtered length 0 and no little numbers |
| App.AppState.FilterByMaxLength | src/app_state.rs:179-187 | clears the trail; valid input sets max_length to Some(n), the length filter to clauses of at most n literals and the page to 0; invalid input sets max_length to None and keeps the page and the filter |
| App.AppState.SelectCell | src/app_state.rs:191-197 | selects the cell, goes to page 0, clears the click, and sets the cell filter to the cell's clause set when the cell is mapped |
| App.AppState.CountPages | src/app_state.rs:199-206 | page count ceil(filtered length / page length) |
| App.AppState.SetPageLength | src/app_state.rs:209-219 | valid input sets the length, recounts the pages and goes to page 0; non-numeric or below-1 input keeps length, count and page |
| App.AppState.SetPageNumber | src/app_state.rs:222-228 | page max(min(p, count-1), 0), with the click, conflict and trail cleared |
| App.AppState.ClearFilters | src/app_state.rs:231-238 | max_length None, input "", no selected cell, nothing clicked, page 0, both filters full |
| App.AppState.ClearLength | src/app_state.rs:241-247 | max_length None, input "", page 0, length filter full |
| App.AppState.ClearCell | src/app_state.rs:250-255 | no selected cell, page 0, cell filter full |
| App.AppState.UpdateLittleNumberConstraints | src/app_state.rs:257-265 | the decoded unit literals up to the end of the current page |
| App.AppState.ClearTrail | src/app_state.rs:267-270 | no conflict and no trail; nothing else changes |
| App.AppState.SetTrail | src/app_state.rs:272-275 | shows the given conflict and trail; nothing else changes |
| App.AppState.GetEncodingType | src/app_state.rs:277-282 | "Binary" exactly for the binary encoding, "Decimal" exactly for the decimal one |
| CtrlObj.Clicked | src/ctrl_obj.rs:27-78 | clicking the selected row deselects it and clears the trail; any other click selects row i and shows its decoded conflict and trail; paging, settings and filters are unchanged |
| CtrlObj.SelectRow | src/ctrl_obj.rs:35-76 | selects row i and shows its decoded conflict literals and trail |
| CtrlObj.GetClicked | src/ctrl_obj.rs:79-81 | the state's clicked index |
| CtrlObj.Clauses | src/ctrl_obj.rs:82-84 | the stored clauses, whatever the state |
| CtrlObj.Combiner | src/ctrl_obj.rs:85-87 | the stored joining string |
| CtrlObj.MoveUp | src/ctrl_obj.rs:88-91 | acts as a click on the row above the current one (current defaults to 0) |
| CtrlObj.MoveDown | src/ctrl_obj.rs:92-95 | acts as a click on the row below the current one (current defaults to 0) |

## Left out

- The CaDiCaL solver and its C interface (cadical-rs/cadical/src/ccadical.h, cadical-rs/cadical/test/api/cipasir.c) are not part of this model. Solver answers are parameters: a `Valuation` for `get_cell_value` and a `fixed` function for `EncodingType::fixed`.
- `solve_sudoku` (src/sudoku.rs, src/lib.rs, src/service.rs), `get_sudoku`, `write_sudoku` and src/main.rs are left out, because they are solver driving, file I/O and program start-up.
- src/cadical_wrapper.rs is not part of this model. It is solver callback plumbing.
- Statistics (src/statistics.rs, src/gui/statistics.rs) and every GUI file under src/gui are left out: floating point, threads, rendering and input handling.
- `AppState::quit` exits the process and is left out.
- src/cnf_var.rs is not part of this model. It is a stale copy of `CnfVariable` that calls functions the shown code does not define.
- src/tests.rs is not part of this model. It exercises an older interface.
- Integer width: identifiers, page counts and lengths are unbounded integers. All identifiers for in-range arguments lie far below 2^31, and the `usize` to `i32` cast of the page count is not modelled.
- Cnf.FromCnf: the `i32::MIN` case of `abs`, which panics in debug builds, is not modelled.
- Cnf.GetPossibleNumbers requires a shift below 32, because a larger `1 << bit_index` panics in the source.
- `Trail` sharing: the source hands out `Rc<RefCell<…>>` clones of `ConstraintList` and `Trail`. The model shares the one `Lib.ConstraintList` object, but treats the filter's trail as a value (`Filtering.StepTrail`).
- The newer `Trail` used by src/filtering.rs and src/ctrl_obj.rs (`literals_at_index`, `trail_at_index`, `var_is_propagated_at_index`) is not shown. It is modelled as three parallel sequences in `Filtering.StepTrail`. The two-argument `Trail` of src/lib.rs is `Lib.Trail`.
- CtrlObj.SelectRow: the third argument of `set_trail` at src/ctrl_obj.rs:49 (the propagation flags) is dropped. `AppState` keeps the two-argument signature of src/app_state.rs:272.
- CtrlObj.Clicked and CtrlObj.MoveUp require the row to exist and, for MoveUp, a current row of at least 1. Otherwise the source panics on an index or underflows a `usize`.
- BinaryEncoding.GetCellValue and App.GetCellValue require, under the binary encoding, that the solver has a value for each of the cell's four bits. The source unwraps that value and panics otherwise.
- Filtering.ListFilter.GetFiltered and App.AppState.GetFiltered require every filtered index to name a stored clause and a stored conflict, as the source's indexing does.
- Filtering.ListFilter.SortIndexes: collecting a `HashSet` and sorting it is modelled as repeated extraction of the least element. Both give the same strictly increasing sequence, but the intermediate order is not modelled.
- App.AppState.UpdateLittleNumberConstraints and Filtering.ListFilter.GetLittleNumberConstraints require every filtered index up to the end of the current page to name a stored clause (`PrefixInRange`). The source's indexing at src/filtering.rs:147-149 panics otherwise.
- BinaryEncoding.CluesComplete, BinaryEncoding.EncodingComplete and BinaryCnf.EncodingComplete require clues that fit the 9x9 board. The parser accepts more than nine lines (src/sudoku.rs:75-96). A clue in a tenth row then gets the identifier of an equality variable: id(10, c, b) is "bit b of cells (1, 1) and (1, c) agree" in src/cnf/binary_encoding.rs:161-175, and "bit b of cells (1, c) and (1, 1) agree" in src/binary_cnf.rs:137-146. Such a clue can contradict the definitions of those variables, so completeness is not claimed for it.
- DecimalEncoding.EncodingComplete and DecimalEncoding.EncodingExact require every clue value to be 1..9. The parser also accepts '0' (src/sudoku.rs:82-89), whose unit clause names value 9 of the cell before it in row-major order, since id(r, c, 0) = id(r, c - 1, 9) and id(r, 1, 0) = id(r - 1, 9, 9) (or the non-variable 0 at the top-left cell). Clues outside the 9x9 board alias in the same way, since id(r, 10, v) = id(r + 1, 1, v); `DecimalEncoding.RespectsClues` only reads such clues as the bare variable their unit names.
- Cnf.CnfEncodingRulesOk: only the direction "an accepted choice is sound" is proved (Cnf.RulesOkSound). That every rejected choice admits a model which is not a solution is not proved.
- Lib.Trail.TrailAtIndex states only that the result is one of the pushed trails. That it is the index-th one is its definition, and Lib.TrailAtIndexStable shows that the value persists.
- CnfConverter: `cnf_identifier` and `identifier_to_tuple` in src/cnf_converter.rs:85-103 match those of the decimal encoding character for character. The model reuses `DecimalEncoding.CnfIdentifier`, `DecimalEncoding.IdentifierToTuple` and their round-trip lemmas.
- BinaryCnf: `cnf_identifier` in src/binary_cnf.rs:131-135 matches that of the binary encoding, and the model reuses `BinaryEncoding.CnfIdentifier`.
