# Relation analyzer for 0/1 matrices

The program reads a binary relation on the nodes 0..n-1 as an n×n matrix of 0s
and 1s. The matrix is either typed by hand or drawn at random. The program then:

- reports which properties the relation has: reflexive, irreflexive,
  symmetric, asymmetric, antisymmetric and transitive;
- reports three "order" classifications built from those properties;
- lists for each node the nodes it is related to;
- draws the relation as a graph.

This project models the three core functions of `main.js` in Dafny:

- **`analizarPropiedades`** becomes the pure function `Analysis.Analyze`.
  - It keeps the source's own combinators (`every`, `some`, `Array.from`)
    through `JsArray.Every` / `JsArray.Some`.
  - Each reported field is proved equal to a quantified definition in
    `RelationMatrix`.
  - The checks are modelled as coded, not as in the textbook:
    - "Transitiva" holds when every pair of R is also in R∘R, the boolean
      square of the matrix. This is not the textbook R∘R ⊆ R.
    - "Asimétrica" also tests the diagonal.
    - "Orden Total" is reflexive ∧ symmetric ∧ transitive.

    Lemmas in `AnalysisFacts` show how the coded checks differ from the
    textbook ones.
- **`mostrarRelaciones`** becomes the imperative method
  `Adjacency.ShowRelations`.
  - Its two nested loops build a `map<nat, seq<nat>>`. A key is created the
    first time a row meets a 1, and each column holding a 1 is appended to
    that key's list.
  - It is proved to produce `AdjacencyView(m)`. Lemmas then state which nodes
    have a key and what each list holds, and that the list lengths add up to
    the number of pairs.
- **`parsearMatrizManual`** becomes the pure function
  `ManualInput.ParseManualMatrix`, which returns `Accepted(matrix)` or
  `Rejected(error)`. The source's two `throw`s become the errors
  `WrongRowCount` and `BadRowValues`.
  - The built-ins it calls are modelled on their ECMAScript definitions:
    - `String.prototype.trim` and `split` with a one-character separator, in
      `JsString`;
    - `Number(string)`, in `JsNumber`, on exact reals.
  - Lemmas prove these consequences:
    - the reader accepts exactly the well-formed inputs;
    - a matrix printed the way the program prints it (`join(" ")` per row,
      then `join("\n")`) reads back as the same matrix;
    - the empty input is accepted as `[[0]]` for n = 1;
    - an empty token, as left by a doubled space, reads as 0.

The matrices are `seq<seq<int>>`. The analyzer and the adjacency view require
a square matrix of 0s and 1s (`RelationMatrix.IsRelationMatrix`). That is
exactly what the reader produces. `ParseManualMatrix` ensures it of every
matrix it accepts.

## Model

| member | source | states |
|---|---|---|
| JsArray.Every | main.js:28-36 | `every` holds iff the callback holds at every index |
| JsArray.Some | main.js:18 | `some` holds iff the callback holds at some index |
| Analysis.Diagonal | main.js:26 | the diagonal has one entry per row, entry i being m[i][i] |
| Analysis.BooleanProduct | main.js:38-42 | the product is an n×n 0/1 matrix whose (i, j) entry is 1 iff some k has m[i][k] and m[k][j], that is iff (i, j) is in R∘R |
| Analysis.CheckReflexive | main.js:28 | the check holds iff every diagonal entry is 1 |
| Analysis.CheckIrreflexive | main.js:29 | the check holds iff every diagonal entry is 0 |
| Analysis.CheckSymmetric | main.js:30 | the check holds iff m[i][j] == m[j][i] for all i, j |
| Analysis.CheckAntisymmetric | main.js:31-33 | the check holds iff no off-diagonal pair (i, j) has both m[i][j] and m[j][i] set |
| Analysis.CheckAsymmetric | main.js:34-36 | the check holds iff for all i, j (diagonal included) m[i][j] or m[j][i] is 0 |
| Analysis.CheckTransitive | main.js:38-45 | the check holds iff every pair of R is in R∘R |
| Analysis.Analyze | main.js:24-58 | each of the six primitive fields equals its quantified definition; partial order = refl ∧ antisym ∧ trans, "total order" = refl ∧ sym ∧ trans, strict order = antisym ∧ trans ∧ ¬refl |
| AnalysisFacts.ReflexiveIrreflexiveExclusive | main.js:28-29 | on no nodes both diagonal checks hold; on one or more nodes they are never both reported |
| AnalysisFacts.SymmetricUnderTranspose | main.js:30 | a matrix and its transpose get the same symmetry answer |
| AnalysisFacts.AsymmetricImpliesAntisymmetricAndIrreflexive | main.js:31-36 | a relation reported asymmetric is reported antisymmetric and irreflexive; any 1 on the diagonal makes the asymmetry check fail |
| AnalysisFacts.ReflexiveImpliesTransitive | main.js:28-45 | every reflexive relation passes the coded transitivity check (k = j is a witness) |
| AnalysisFacts.TransitiveBothWaysIffProductFixed | main.js:38-45 | R ⊆ R∘R and R∘R ⊆ R together hold iff the boolean product equals the matrix |
| AnalysisFacts.TextbookTransitiveFailsCheck | main.js:43-45 | the transitive relation {0→1} is reported not transitive |
| AnalysisFacts.CheckPassesTextbookIntransitive | main.js:43-45 | the reflexive chain 0→1→2 without 0→2 is not transitive, yet it is reported transitive |
| AnalysisFacts.TwoCycleFailsCheck | main.js:43-45 | the two-cycle 0⇄1 is reported not transitive |
| AnalysisFacts.PartialAndStrictOrderExclusive | main.js:54-56 | "Orden Parcial" and "Orden Estricto" are never both reported |
| AnalysisFacts.ZeroMatrixAnalysis | main.js:24-58 | the full record for the empty relation on n nodes |
| AnalysisFacts.IdentityAnalysis | main.js:24-58 | the full record for the identity relation on n nodes |
| AnalysisFacts.ScenarioIdentityOfThree | main.js:24-58 | the full record for the identity on three nodes |
| AnalysisFacts.ScenarioTwoCycle | main.js:24-58 | the full record for the two-cycle 0⇄1 |
| Adjacency.Targets | main.js:63-67 | the columns listed for a row each hold a 1 and are strictly ascending |
| Adjacency.TargetsComplete | main.js:63-67 | every column of a row that holds a 1 is listed |
| Adjacency.ViewOfRowsEntries | main.js:62-69 | row i has a key iff it lists a column, and the key's list is that row's list |
| Adjacency.ShowRelations | main.js:60-71 | the nested scan over all rows returns exactly the adjacency view of the matrix |
| Adjacency.ScanRow | main.js:63-68 | scanning row i adds to the map only the key i, holding the row's 1-columns in order, and only when there is one |
| Adjacency.AppendToRowEntry | main.js:65-66 | one inner step (create the key if missing, then push j) extends the row's list by j |
| Adjacency.AdjacencyViewKeys | main.js:60-71 | a node has a key iff it is below n and its row holds a 1 |
| Adjacency.AdjacencyViewLists | main.js:60-71 | every key is a node; its list holds exactly the j with m[i][j] == 1, strictly ascending |
| Adjacency.TargetsLength | main.js:63-67 | a row lists as many columns as it holds 1s |
| Adjacency.AdjacencyViewSize | main.js:60-71 | the list lengths of the view add up to the number of 1s in the matrix |
| Adjacency.SingleTargetView | main.js:60-71 | when each row holds exactly one 1, at target[i], every node has a key and its list is [target[i]] |
| Adjacency.IdentityView | main.js:60-71 | for the identity relation every node i is listed with [i] |
| Adjacency.ZeroView | main.js:60-71 | the empty relation gives the empty map |
| JsString.TrimSpec | main.js:14-17 | `trim` gives a string with no whitespace at either end, no longer than its input |
| JsString.TrimCore | main.js:14-17 | the trimmed string is a slice of the input with only whitespace cut off each side |
| JsString.TrimUnique | main.js:14-17 | a trimmed core padded with whitespace on both sides trims back to that core |
| JsString.TrimIdempotent | main.js:14-17 | trimming twice is trimming once |
| JsString.TrimIgnoresPadding | main.js:14-17 | whitespace added around a string does not change its trim |
| JsString.Split | main.js:14-17 | `split` with a one-character separator gives at least one piece, and no piece holds the separator |
| JsString.JoinSplit | main.js:14-17 | joining the pieces of a split with the separator gives back the string |
| JsString.SplitCount | main.js:14-15 | a split gives one more piece than there are separators |
| JsString.SplitJoin | main.js:17 | splitting a join of separator-free pieces gives back the pieces |
| JsString.JoinEnds | main.js:129 | a join starts with its first piece and ends with its last |
| JsString.JoinCharsIn | main.js:129 | a join of pieces drawn from an alphabet holding the separator stays in that alphabet |
| JsNumber.DigitValue | main.js:17 | a hex digit's value is below 16, and below 10 exactly for decimal digits |
| JsNumber.ShiftRightIsDivision | main.js:17 | moving the decimal point p places left divides by 10^p |
| JsNumber.ScaleIsMultiplication | main.js:17 | a non-negative exponent multiplies by 10^e |
| JsNumber.DigitsValueAppend | main.js:17 | the value of a digit string a+b is value(a)·radix^‖b‖ + value(b) |
| JsNumber.LeadingZeros | main.js:17 | leading zeros do not change a digit string's value |
| JsNumber.NumericLiteral | main.js:17 | a token of decimal digits reads as its decimal value |
| JsNumber.ToNumberIgnoresPadding | main.js:17 | whitespace around a token does not change the number it reads as |
| JsNumber.DecimalDigitsToken | main.js:17 | a non-empty string of decimal digits reads as its decimal value |
| JsNumber.ZeroPaddedBit | main.js:17-18 | zeros followed by "0" or "1" read as 0 or 1 ("01", "001") |
| JsNumber.SignedToken | main.js:17 | a sign then decimal digits reads as the signed value |
| JsNumber.FractionToken | main.js:17 | "w.f" reads as w + f/10^‖f‖ |
| JsNumber.PrefixedToken | main.js:17 | "0x", "0o" and "0b" followed by digits read in radix 16, 8 and 2 |
| JsNumber.ExponentToken | main.js:17 | "d e x" reads as d scaled by 10^x |
| JsNumber.PointZeroIsOne | main.js:17-18 | "1.0" reads as 1, so a row may spell a 1 that way |
| JsNumber.PlusOneIsOne | main.js:17-18 | "+1" reads as 1 |
| JsNumber.MinusZeroIsZero | main.js:17-18 | "-0" reads as 0 |
| JsNumber.PrefixedOneIsOne | main.js:17-18 | "0x1" and "0b1" read as 1 |
| JsNumber.ExponentZeroIsOne | main.js:17-18 | "1e0" reads as 1 |
| JsNumber.OtherDigitsAreNotBits | main.js:17-18 | "2" reads as 2 and "-1" as -1, so neither is a bit |
| ManualInput.ParseRow | main.js:16-21 | a row is accepted iff it has exactly n tokens and each reads as 0 or 1; the values then number n, each 0 or 1 and equal to the number its token reads as |
| ManualInput.ParseRows | main.js:16-21 | the rows are accepted iff every row is, and row i of the result is row i's values |
| ManualInput.ParseManualMatrix | main.js:13-22 | an accepted matrix is an n×n 0/1 matrix; the wrong-row-count error is raised iff the trimmed input does not have n lines; n ≤ 0 is always refused |
| ManualInput.AcceptsExactlyWellFormed | main.js:13-22 | the input is accepted iff it has n lines of n tokens each reading as 0 or 1, and entry (i, j) is the number the j-th token of line i reads as |
| ManualInput.BitTokens | main.js:17-18 | the tokens "0" and "1" read as 0 and 1 |
| ManualInput.ParseFormattedRow | main.js:17-20 | a 0/1 row joined with spaces reads back as the same row |
| ManualInput.FormattedMatrixLines | main.js:14 | the rows of a printed matrix are recovered as its lines |
| ManualInput.ParseFormatted | main.js:13-22 | a matrix printed as the program prints it reads back as the same matrix |
| ManualInput.EmptyInputForOneNode | main.js:13-22 | for n = 1 the empty input is accepted as [[0]], since "" splits into one empty token and Number("") is 0 |
| ManualInput.DoubledSpaceGivesEmptyToken | main.js:17 | two spaces in a row leave an empty token between them |
| ManualInput.EmptyTokenIsZero | main.js:17-20 | in an accepted row every empty token becomes 0 |
| ManualInput.NonBitRowRefused | main.js:18-19 | the row "0 2" is refused for n = 2 |

## Left out

- `generarMatrizAleatoria` (main.js:1-11) draws from `Math.random`. Randomness is not modelled. Every matrix it can return (n×n, entries `Math.round` of a number in [0, 1)) satisfies `IsRelationMatrix`, which is all the analyzer requires.
- `dibujarGrafo` (main.js:73-109) builds vis.js nodes and edges and hands them to the DOM. This is browser I/O and is not modelled.
- `procesar` (main.js:111-144) is DOM glue. Reading the form fields, the `try`/`catch` and the output text are not modelled.
  - Its check `isNaN(n) || n <= 0` is not modelled on its own. For `n <= 0`, `ParseManualMatrix` refuses on its own (no input splits into fewer than one line). `parseInt` is not modelled.
  - Only its printing of the matrix (`join(" ")`, `join("\n")`, line 129) is modelled, as `FormatMatrix`, to state the round trip.
- The error messages' text is not modelled. Each `throw` becomes an error constructor.
- Analysis.Analyze and Adjacency.ShowRelations require a square 0/1 matrix. The source runs on any array, with JavaScript truthiness. Both of the program's producers only ever pass such a matrix.
- JsNumber.ToNumber models `Number(string)` on exact reals.
  - IEEE-754 rounding, overflow to Infinity and underflow to 0 are not modelled. For example, "1e400", "1e-400" and "0.99999999999999999999" read differently in JavaScript, where the last rounds to 1.
  - -0 and +0 are one value.
  - Numeric separators are not part of `Number`, and they are not accepted here either.
- A negative exponent is modelled (as repeated division by 10), but no lemma states its value for a general token. Only tokens with a non-negative exponent get a general lemma.
- JsString.Split models `split` with a one-character separator only. That is the only form the source uses.
