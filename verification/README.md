# build_sample, modelled in Dafny

`build_sample` (`Proyecto/Langchain/Build_Sample.py`) builds a sample of a crystal structure.
It takes the unit-cell parameters, the atomic sites and the symmetry operations of a structure,
all as strings, and a `sample_size`. It returns, for each element label, the list of Cartesian
positions with occupancies in a `sample_size`³ supercell. The model covers the pipeline with
exact `real` arithmetic:

- **Reading the input** (`Sites`, `Text`). Every value is cut at its first `(`, which drops an
  uncertainty annotation such as `6.027(29)`, and the rest is passed to `float()`. The six cell
  parameters are taken in dictionary order, whatever their keys. The sites go into a dictionary
  keyed by element label, so the last site with a given label wins.
- **Parsing symmetry operations** (`Lexer`, `SymOpParser`, `SymOpRender`, `SymOpExamples`).
  `parse_symmetry_operation` turns a string such as `-y,x-y,+z` into the affine map `p ↦ M p + t`.
  The string is split on `,` and each part, with its spaces removed, is scanned with
  `re.findall` and the pattern `([+-]?)(\d+(?:/\d+)?|\d*\.\d+)?([xyz])?`. Every non-empty token
  adds its coefficient to `M[i, var]` or to `t[i]`. `Lexer` models `findall` exactly: it scans
  left to right, tries the alternatives in order, and records an empty match before stepping one
  character on.
- **Orbits** (`Orbits`). Every operation, in order, is applied to every site, and the occupancy
  is carried over.
- **Duplicate removal** (`Dedup`). `remove_duplicates` scans first-seen-wins with numpy's
  `isclose` test, `|a − b| ≤ atol + rtol·|b|` with `atol = rtol = 1e-5`, on x, y, z and the
  occupancy. The scan is stated for any test `dup(pos, kept)`.
- **Cartesian conversion and supercell** (`Supercell`). A position becomes `x·a + y·b + z·c`.
  For `sample_size = n ≠ 1` every position is copied to `pos + i·a + j·b + k·c` for
  `0 ≤ i, j, k < n`, with `i` outermost and `k` innermost.
- **The whole function** (`BuildSample`). This covers the order in which exceptions are raised.
  It also covers one exception of the CIF writer, `np.linalg.inv` of a singular supercell
  lattice, modelled with the exact determinant.

The exceptions Python raises become `Result` values (`Results`).

- `float()` is a parameter `float: string -> Option<real>`, with `None` where Python raises
  `ValueError`.
- The lattice vectors (lines 13-16) come from a parameter `geometry: Cell -> Lattice`.

Behaviour worth knowing:

- An operation string with fewer than three parts is not rejected. The missing rows stay zero.
- Characters the pattern does not match are passed over silently.
- For literals within the range of a float, parsing an operation fails only with:
  - the `SyntaxError` of `eval` on a literal with a leading zero (`01`, `1/03`);
  - the `ZeroDivisionError` of `p/0`;
  - the `IndexError` of a term in a fourth or later part.
- `"-0.5"` reads as `+0.5`, and `"1.5x"` as 1 plus 0.5x. The integer alternative of the pattern
  is tried before the decimal one, so the sign reaches the integer part only. `SymOpExamples`
  proves both readings.

## Model

| member | source | states |
|---|---|---|
| Results.MapResult | Proyecto/Langchain/Build_Sample.py:9-10 | a list comprehension whose element function may raise succeeds exactly when every element succeeds, and then holds each element's value in order |
| Results.MapResultFirstError | Proyecto/Langchain/Build_Sample.py:9-10 | the exception propagated is that of the first element that raises |
| Text.StripAnnotation | Proyecto/Langchain/Build_Sample.py:9-10 | `split("(")[0]` is a prefix of the value with no `(`; it is the whole value when there is no `(`, and otherwise it stops right at the first `(` |
| Text.StripAnnotationIsFirstPiece | Proyecto/Langchain/Build_Sample.py:9-10 | the stripped value is exactly the first piece of `split("(")` |
| Text.AnnotationIgnored | Proyecto/Langchain/Build_Sample.py:9-10 | appending an annotation `(…)` to a bare value does not change what is read |
| Text.Split | Proyecto/Langchain/Build_Sample.py:28 | `str.split` on one character gives at least one piece and no piece contains the separator |
| Text.JoinSplit | Proyecto/Langchain/Build_Sample.py:28 | joining the pieces of a split with the separator gives back the string |
| Text.SplitJoin | Proyecto/Langchain/Build_Sample.py:28 | splitting a join of separator-free pieces gives back the pieces |
| Text.RemoveSpaces | Proyecto/Langchain/Build_Sample.py:35 | `replace(" ", "")` leaves no space and never lengthens the string |
| Text.RemoveSpacesAppend | Proyecto/Langchain/Build_Sample.py:35 | removing spaces distributes over concatenation |
| Text.RemoveSpacesNoSpace | Proyecto/Langchain/Build_Sample.py:35 | a string without spaces is unchanged, so removing spaces is idempotent |
| Text.SplitRemoveSpaces | Proyecto/Langchain/Build_Sample.py:28-35 | removing spaces before or after the split on `,` gives the same parts |
| Text.NatToStringRoundTrip | Proyecto/Langchain/Build_Sample.py:43 | the decimal rendering of a natural reads back as that number and is an integer literal `eval` accepts |
| Sites.ReadCell | Proyecto/Langchain/Build_Sample.py:9 | the cell is read exactly when there are six parameters and `float()` accepts each; the six are bound by position; a wrong count with readable values is a `ParameterCount` error |
| Sites.CellFirstBadValue | Proyecto/Langchain/Build_Sample.py:9 | an unreadable parameter is reported before the count is checked, and it is the first unreadable one |
| Sites.CellIgnoresKeys | Proyecto/Langchain/Build_Sample.py:9 | two parameter dictionaries with the same values in the same order read alike, whatever their keys |
| Sites.ReadSite | Proyecto/Langchain/Build_Sample.py:10 | a record without `element` fails with that key; otherwise the first of x, y, z, occupancy that is missing or unreadable gives the error; a record read holds its label and the x, y, z and occupancy fields; a record whose five keys are there and readable is read |
| Sites.Table | Proyecto/Langchain/Build_Sample.py:10 | the dictionary built from `(label, site)` pairs has exactly the labels of the pairs as keys |
| Sites.TableLastWins | Proyecto/Langchain/Build_Sample.py:10 | for each label the dictionary holds the site of the last pair with that label |
| Sites.SiteTable | Proyecto/Langchain/Build_Sample.py:10 | the site table is read exactly when every record is, and then its keys are the records' labels |
| Sites.SiteTableFirstError | Proyecto/Langchain/Build_Sample.py:10 | the error is that of the first record that cannot be read |
| Sites.SiteTableLastWins | Proyecto/Langchain/Build_Sample.py:10 | a record with no later record of the same label is the one the table holds for its label |
| Lexer.NumberAt | Proyecto/Langchain/Build_Sample.py:25 | the number group takes a prefix that is an integer, fraction or decimal; it is empty exactly when the text starts with neither a digit nor a point followed by a digit; and it takes at least the whole leading run of digits, which is why a decimal with an integer part is split at the point |
| Lexer.MatchAt | Proyecto/Langchain/Build_Sample.py:25 | the match at a position is a prefix of the text made of the three groups, each in its sub-pattern's language |
| Lexer.MatchAtMatches | Proyecto/Langchain/Build_Sample.py:25 | the match found is matched by the whole pattern |
| Lexer.EmptyMatchIsOnlyMatch | Proyecto/Langchain/Build_Sample.py:25-37 | where the match found is empty, no non-empty match of the pattern starts there, so stepping one character on loses nothing |
| Lexer.FindAll | Proyecto/Langchain/Build_Sample.py:37 | `findall` returns at least one tuple, and every tuple is a tuple of the sub-patterns; that the last tuple is the final empty match is proved for texts made of tokens in `FindAllTokens` |
| Lexer.FindAllToken | Proyecto/Langchain/Build_Sample.py:37 | a token that the text after it cannot extend is the first tuple `findall` returns |
| Lexer.FindAllTokens | Proyecto/Langchain/Build_Sample.py:37 | `findall` over text made of tokens, none extendable by the next, returns those tokens and then the empty match |
| Lexer.MatchAtToken | Proyecto/Langchain/Build_Sample.py:25 | a token followed by text it cannot extend is matched exactly |
| SymOpParser.EvalNumber | Proyecto/Langchain/Build_Sample.py:43 | `float(eval(number))` of a scanned number, when it does not raise, is never negative; an integer fails exactly when it is not a literal `eval` accepts (a leading zero), with that literal; a decimal never fails; a fraction `p/q` fails with the literal error exactly when `p` or `q` has a leading zero, and with division by zero exactly when both are literals and `q` is 0, so the syntax error comes first |
| SymOpParser.Coefficient | Proyecto/Langchain/Build_Sample.py:43-46 | a token without a number has coefficient ±1 by its sign; a token with a number fails exactly when its number fails, with the same error, and otherwise has the number's value, negated by a `-` sign |
| SymOpParser.VariableIndex | Proyecto/Langchain/Build_Sample.py:47-50 | `variables.index(var)` is the position of the variable in `["x", "y", "z"]` |
| SymOpParser.ApplyGroup | Proyecto/Langchain/Build_Sample.py:38-53 | a token succeeds exactly when it is empty, or its literal evaluates and its row exists; a failing literal raises its own error even past the third part, and a readable term past the third part raises the index error; a variable token adds its coefficient to that one matrix entry, a constant token to `t[i]` only |
| SymOpParser.AddRow | Proyecto/Langchain/Build_Sample.py:50-53 | adding to row `i` changes row `i` by the row added and leaves the other rows as they were |
| SymOpParser.AddRowTwice | Proyecto/Langchain/Build_Sample.py:50-53 | two additions to one row are one addition of their sum, so a repeated variable sums its coefficients |
| SymOpParser.ApplyGroupIsAddRow | Proyecto/Langchain/Build_Sample.py:38-53 | one pass of the token loop adds the token's own row to row `i` |
| SymOpParser.ApplyGroupsIsRowSum | Proyecto/Langchain/Build_Sample.py:38-53 | the token loop over part `i < 3` adds exactly the row its tokens denote, or raises the first failing literal's error |
| SymOpParser.ApplyGroupsBeyondRows | Proyecto/Langchain/Build_Sample.py:33-53 | a fourth or later part succeeds exactly when it holds no term, and then changes nothing |
| SymOpParser.ConstantTermRow | Proyecto/Langchain/Build_Sample.py:51-53 | a term with no variable contributes to the translation only |
| SymOpParser.PartTokensAt | Proyecto/Langchain/Build_Sample.py:33-37 | the `k`-th token list is the tokens of the `k`-th part with its spaces removed |
| SymOpParser.PartStep | Proyecto/Langchain/Build_Sample.py:33-53 | the loop over one part's tokens succeeds exactly when the part is readable as its row |
| SymOpParser.ApplyPartsOk | Proyecto/Langchain/Build_Sample.py:33-53 | the loop over parts succeeds exactly when every part is readable as its row |
| SymOpParser.ApplyPartsRows | Proyecto/Langchain/Build_Sample.py:33-53 | on success, every part was readable and every row is the starting row plus its own part's row |
| SymOpParser.ReadFromZero | Proyecto/Langchain/Build_Sample.py:30-55 | from the zero matrix and vector, each row is read from its own part alone, and is zero when there is no such part |
| SymOpParser.ParseRows | Proyecto/Langchain/Build_Sample.py:18-55 | `parse_symmetry_operation` succeeds exactly when every comma-separated part is readable as its row, and row `r` of the result is part `r` read alone, or zero |
| SymOpParser.ThreePartsRead | Proyecto/Langchain/Build_Sample.py:30-55 | three parts that read as rows `a`, `b`, `c` give the map with those rows |
| SymOpParser.ParseThreeParts | Proyecto/Langchain/Build_Sample.py:18-55 | a three-part string whose parts read as rows `a`, `b`, `c` parses as the map with those rows |
| SymOpParser.RowDependsOnOwnPart | Proyecto/Langchain/Build_Sample.py:33-53 | row `r` of a parsed operation depends on part `r` of the string only |
| SymOpParser.SameTokens | Proyecto/Langchain/Build_Sample.py:35-37 | parts equal once spaces are removed have the same tokens |
| SymOpParser.ParseIgnoresSpaces | Proyecto/Langchain/Build_Sample.py:35 | an operation string parses as it does with all its spaces removed |
| SymOpParser.SpacesDoNotMatter | Proyecto/Langchain/Build_Sample.py:35 | two operation strings differing only in spaces parse alike |
| SymOpRender.TermCoefficient | Proyecto/Langchain/Build_Sample.py:43-46 | the coefficient read from a written term is the term's value |
| SymOpRender.RowTokens | Proyecto/Langchain/Build_Sample.py:35-37 | the tokens of a written row are its terms in order, then the empty match |
| SymOpRender.RowOfTerms | Proyecto/Langchain/Build_Sample.py:38-53 | the parser's sum over a written row's tokens is the row the terms stand for |
| SymOpRender.RowRoundTrip | Proyecto/Langchain/Build_Sample.py:35-53 | a written row is read back as the row it stands for |
| SymOpRender.RenderSplit | Proyecto/Langchain/Build_Sample.py:28 | the parts of a written operation are its three written rows |
| SymOpRender.ParseRender | Proyecto/Langchain/Build_Sample.py:18-55 | round trip: an operation written from known terms parses as exactly the affine map those terms stand for |
| SymOpExamples.ShiftExample | Proyecto/Langchain/Build_Sample.py:19-20 | `x+1/3,y+2/3,z+2/3` parses as the identity with translation (1/3, 2/3, 2/3) |
| SymOpExamples.RotationExample | Proyecto/Langchain/Build_Sample.py:19-20 | `-y,x-y,+z` parses with rows (0,−1,0), (1,−1,0), (0,0,1) and no translation |
| SymOpExamples.IdentityExample | Proyecto/Langchain/Build_Sample.py:18-55 | `x,y,z` parses as the identity matrix with no translation |
| SymOpExamples.UnitTermMeaning | Proyecto/Langchain/Build_Sample.py:43-50 | a lone variable term stands for that variable's unit row |
| SymOpExamples.VariablePart | Proyecto/Langchain/Build_Sample.py:43-50 | a part that is a single variable reads as that variable with coefficient 1 |
| SymOpExamples.SignedDecimalTokens | Proyecto/Langchain/Build_Sample.py:25-37 | a signed decimal is scanned as its signed integer part followed by `.digits` with the variable |
| SymOpExamples.SignedDecimalRow | Proyecto/Langchain/Build_Sample.py:25-53 | the sign of a decimal reaches its integer part only, which goes to the translation, while the fraction goes to the variable's column |
| SymOpExamples.NegativeDecimalPart | Proyecto/Langchain/Build_Sample.py:25-53 | the part `-0.5` adds +0.5 to the translation |
| SymOpExamples.DecimalCoefficientPart | Proyecto/Langchain/Build_Sample.py:25-53 | the part `1.5x` adds 1 to the translation and 0.5 to the coefficient of x |
| Orbits.Orbits | Proyecto/Langchain/Build_Sample.py:57-69 | every label gets exactly one image per operation, and the `k`-th is `M_k p + t_k` with the site's occupancy |
| Orbits.OrbitOfOwnSite | Proyecto/Langchain/Build_Sample.py:59-69 | a label's list depends on its own site only |
| Orbits.ParseAll | Proyecto/Langchain/Build_Sample.py:62-63 | the operations are all parsed exactly when each parses, and then in order |
| Orbits.ParseAllFirstError | Proyecto/Langchain/Build_Sample.py:62-63 | the error is that of the first operation that fails |
| Dedup.CloseWithinAtol | Proyecto/Langchain/Build_Sample.py:82 | values within `atol` are close in both directions |
| Dedup.CloseIsAsymmetric | Proyecto/Langchain/Build_Sample.py:82 | the test is not symmetric: 0 is close to a kept 0.00001000005, but not the other way round |
| Dedup.CloseNotTransitive | Proyecto/Langchain/Build_Sample.py:82 | the test is not transitive: 0.000009 is close to 0 and 0.000018 is close to 0.000009, but 0.000018 and 0 are not close |
| Dedup.Dedup | Proyecto/Langchain/Build_Sample.py:71-87 | the result is no longer than the input, has no element that is a duplicate of an earlier one, and starts with the first input element |
| Dedup.RemoveDuplicates | Proyecto/Langchain/Build_Sample.py:77-87 | the nested scan with its early `break` computes the result above |
| Dedup.KeptIndices | Proyecto/Langchain/Build_Sample.py:77-87 | one index of the input per kept element, in strictly increasing order |
| Dedup.KeptAt | Proyecto/Langchain/Build_Sample.py:77-87 | the kept elements are the input's elements at the kept indices, so the result is an order-preserving subsequence |
| Dedup.KeptIff | Proyecto/Langchain/Build_Sample.py:78-86 | an element is kept exactly when it is not a duplicate of one kept before it; so each dropped element is a duplicate of an earlier kept one |
| Dedup.DedupPrefix | Proyecto/Langchain/Build_Sample.py:77-87 | what is kept from a prefix is a prefix of what is kept from the whole |
| Dedup.DedupOfDistinct | Proyecto/Langchain/Build_Sample.py:77-87 | a list with no duplicate of an earlier element is returned unchanged |
| Dedup.DedupFixedPoint | Proyecto/Langchain/Build_Sample.py:77-87 | a list is returned unchanged exactly when no element is a duplicate of an earlier one |
| Dedup.DedupIdempotent | Proyecto/Langchain/Build_Sample.py:77-87 | removing duplicates twice is removing them once |
| Dedup.DedupAll | Proyecto/Langchain/Build_Sample.py:89-90 | every label keeps its key; its new list is no longer than its orbit and holds no position that is a duplicate of an earlier one |
| Dedup.ScanMiddleSecond | Proyecto/Langchain/Build_Sample.py:77-87 | with 0, 0.000009, 0.000018 on the x axis in that order, the middle one is dropped as a duplicate of 0 and the last is kept |
| Dedup.ScanMiddleFirst | Proyecto/Langchain/Build_Sample.py:77-87 | with the middle value first, it absorbs both others and is kept alone |
| Dedup.DedupDependsOnOrder | Proyecto/Langchain/Build_Sample.py:77-87 | the number of positions kept depends on the order of the orbit, not only on its set of positions |
| Vectors.DetScale | Proyecto/Langchain/Build_Sample.py:134-146 | scaling the three lattice vectors by `n` scales the determinant of their matrix by `n³` |
| Vectors.MulLinear | Proyecto/Langchain/Build_Sample.py:67 | `M @ p` is linear in `p` |
| Supercell.CartesianIsMatrixProduct | Proyecto/Langchain/Build_Sample.py:92-98 | `x·a + y·b + z·c` is the product of the matrix with columns `a`, `b`, `c` and the fractional vector |
| Supercell.CartesianLinear | Proyecto/Langchain/Build_Sample.py:92-98 | the conversion is linear in the fractional coordinate |
| Supercell.CartesianList | Proyecto/Langchain/Build_Sample.py:103-109 | each position of a list is converted in place, with its occupancy |
| Supercell.CartesianAll | Proyecto/Langchain/Build_Sample.py:100-109 | every label keeps its key and as many positions as before; position `k` becomes the Cartesian form of fractional position `k`, with its occupancy |
| Supercell.ReplicasLength | Proyecto/Langchain/Build_Sample.py:121-129 | the three nested loops give `n³` copies of a position |
| Supercell.ReplicasMember | Proyecto/Langchain/Build_Sample.py:121-129 | the copies of a position are exactly `pos + i·a + j·b + k·c` for `0 ≤ i, j, k < n` |
| Supercell.ReplicasAt | Proyecto/Langchain/Build_Sample.py:121-129 | among the `n³` copies of one position, the copy in cell `(i, j, k)` is entry `i·n² + j·n + k`, so `i` varies slowest and `k` fastest |
| Supercell.SupercellLength | Proyecto/Langchain/Build_Sample.py:114-129 | a label's supercell list has `n³` entries per position, and none when `n ≤ 0` |
| Supercell.SupercellMember | Proyecto/Langchain/Build_Sample.py:114-129 | the supercell list holds exactly the copies `pos + i·a + j·b + k·c`, with the occupancy, of the label's positions |
| Supercell.SupercellAt | Proyecto/Langchain/Build_Sample.py:114-129 | position `m` owns the `m`-th block of `n³` entries, and within it the copy in cell `(i, j, k)` is at `i·n² + j·n + k` |
| Supercell.SupercellShape | Proyecto/Langchain/Build_Sample.py:113-129 | for every label: the supercell list has `n³` entries per position; it holds exactly the shifted copies of its positions; and the copy of position `m` in cell `(i, j, k)` is entry `m·n³ + i·n² + j·n + k` |
| Supercell.OneCellIsIdentity | Proyecto/Langchain/Build_Sample.py:110-129 | replicating over a supercell of size 1 changes nothing, which agrees with the early return |
| Supercell.SupercellAll | Proyecto/Langchain/Build_Sample.py:113-129 | every label keeps its key; its list has `n³` entries per position, holds exactly the copies `pos + i·a + j·b + k·c` of its positions, and has the copy of position `m` in cell `(i, j, k)` at entry `m·n³ + i·n² + j·n + k`: the positions in order, each with `i` outermost and `k` innermost |
| BuildSample.SingularIff | Proyecto/Langchain/Build_Sample.py:134-147 | the supercell lattice is singular exactly when `sample_size` is 0 or the unit-cell lattice is singular |
| BuildSample.Assemble | Proyecto/Langchain/Build_Sample.py:57-183 | once the input is read, the build fails exactly when `sample_size` is not 1 and is 0 or the lattice is singular, and the failure is the singular-matrix error; on success the labels are those of the site table |
| BuildSample.Build | Proyecto/Langchain/Build_Sample.py:4-183 | the first failure is that of the cell, then of the sites, then of the operations; once all are read the result is that of the stage after reading; the labels returned are those of the site records |
| BuildSample.KeptAreImages | Proyecto/Langchain/Build_Sample.py:59-90 | every position kept for a label is the image of its site under one of the operations |
| BuildSample.UnitCellResult | Proyecto/Langchain/Build_Sample.py:57-111 | with `sample_size` 1 the build succeeds; each label gets the Cartesian images of its deduplicated orbit, at most one per operation, none a duplicate of an earlier one, each the image of its site under some operation |
| BuildSample.SupercellResult | Proyecto/Langchain/Build_Sample.py:110-129 | with any other `sample_size`, a build that succeeds gives each label `n³` entries per unit-cell position, the copy of unit-cell position `m` in cell `(i, j, k)` being entry `m·n³ + i·n² + j·n + k` |
| BuildSample.NegativeSizeEmpty | Proyecto/Langchain/Build_Sample.py:121-129 | with a negative `sample_size` a build that succeeds returns every label with an empty list |
| BuildSample.IdentityFixesSite | Proyecto/Langchain/Build_Sample.py:67 | under the identity operation `M p + t` gives back every site, with its occupancy |
| BuildSample.IdentityFirst | Proyecto/Langchain/Build_Sample.py:57-109 | when the first operation is `x,y,z`, each label's unit-cell list starts with its own site in Cartesian coordinates |

## Left out

- The lattice vectors of lines 13-16 use `cos`, `sin` and `sqrt` on floats, and they feed the
  angles in unconverted. They are a parameter `geometry` of the build.
- `float()` and the float rounding of `eval`, `@`, `+` and `isclose` are not modelled. Numbers are exact reals, and `float()` is a parameter.
- Python's `\d` also matches non-ASCII digits. The model's digits are `0`-`9`.
- The CIF writer of lines 131-183 is left out, except for the failure of `np.linalg.inv` on a
  singular matrix. Left out are:
  - the norms and the formatting;
  - the reduction `% 1.0`;
  - the file write and the `print`.
  These are floating point and I/O. In floating point, `inv` fails only on an exactly singular
  LU factorisation; the model uses the exact determinant.
- Dictionary iteration order is not modelled. Results are maps keyed by label, and each label's list is order-exact.
- `Proyecto/Langchain/test.py` is a demonstration caller that asserts nothing. It is not part of this model.
- Lexer.FindAll: that the last tuple is the final empty match is proved only for texts made of tokens (`FindAllTokens`), the case the round trip needs, and not for every text.
- Orbits.Orbits: the growth of the lists one operation at a time is not stated as a separate lemma. The contract gives every list in full.
- SymOpParser.EvalNumber: the contract bounds the value (never negative) rather than stating it in full. The exact values of integers and of `.digits` are proved for the cases used, in SymOpExamples.
- SymOpParser.EvalNumber: the `OverflowError` of `float()` on a literal beyond the float range (such as 400 nines) is not modelled, because numbers are exact reals. Nor is the error Python 3.11 and later raise when `eval` meets an integer literal of more than 4300 digits.
