# CSV cleaning pass of front-csv, in Dafny

front-csv is a small web page. It reads a semicolon-separated CSV export of
a municipal property register and cuts every value to the length its column
allows. Values in decimal columns are also cut to two digits after the
decimal point. Rows left blank are dropped before the file is written back.
This project models the data part of that pass, found in `src/app/page.tsx`:

- `FieldRules` holds the per-column length table (`fieldRules`, 62 columns)
  and the list of decimal columns (`decimalFields`, 8 columns), both copied
  entry by entry.
- `ByteOrderMark` models `removeBOM`, which drops a leading U+FEFF before the
  text is parsed.
- `JsText` models the JavaScript string operations the pass relies on:
  `split` on a one-character separator (with `join` as its inverse, used
  only in the proofs), `trim` and its white-space set.
- `Records` models a parsed row: the ordered `[field, value]` entries of a
  JavaScript object, together with `row[name] = value`.
- `RowTransform` models the per-row loop.
  - It is written as a method that reassigns the value step by step and
    builds the output row entry by entry (`ProcessValue`, `TransformRow`).
  - It is also written as the function `TransformedRow`, which specifies
    the method, and `TransformAll` applies that function to every row.
- `RowFilter` models the blank-row filter.
- `CleanPass` models the two stages together: transform every row, then
  drop the blank ones.
- `Scenarios` holds worked cases on concrete columns: `bic`, `distrito`,
  `valor_m2` and `iptu`.

A string is a sequence of Dafny characters, one per code unit of the
JavaScript string: `|s|` is `s.length` and `s[..n]` is `s.slice(0, n)` for
text in the Basic Multilingual Plane. Outside it the model counts code
points where JavaScript counts UTF-16 code units.

Three behaviours of the code are worth stating because they are easy to
misread:

- `iptu` is limited to 10 code units (`src/app/page.tsx:61`), while the
  other value columns `vvt`, `vvi` and `vve` get 20.
- `split(".")` cuts at every dot, and the destructuring keeps only the first
  two pieces, so only the piece between the first and second dot is
  examined: `1.2345.6` becomes `1.23` but `1.23.456` is kept whole. At most
  two digits after the point are guaranteed only for values with a single
  dot. `ClampDecimalSingleDot`, `ClampDecimalDropsLaterDots` and
  `ClampDecimalKeepsShortFirstPiece` state the three cases.
- Lengths are `.length` and `.slice` counts, that is UTF-16 code units.

## Model

| member | source | states |
|---|---|---|
| FieldRules.RuleFor | src/app/page.tsx:10-73 | a column has a length rule exactly when it is one of the 62 keys of `fieldRules`; every rule is a positive length |
| FieldRules.IsDecimalField | src/app/page.tsx:75-84 | `decimalFields.includes(name)`: a decimal column is one of the 8 listed, and every one of them also has a length rule |
| Scenarios.IptuRule | src/app/page.tsx:61 | `iptu` is limited to 10 code units and is a decimal column |
| ByteOrderMark.RemoveBom | src/app/page.tsx:86-91 | the result is the text or the text without its first code unit; it differs from the text exactly when the text is non-empty and starts with U+FEFF; the empty text is returned unchanged |
| ByteOrderMark.RemoveBomStripsOne | src/app/page.tsx:86-91 | a leading mark is removed and only one: a second mark right after it stays |
| JsText.Split | src/app/page.tsx:127 | `split` always yields at least one piece |
| JsText.SplitPiecesLackSeparator | src/app/page.tsx:127 | no piece of `split(".")` contains a dot |
| JsText.JoinSplit | src/app/page.tsx:127 | joining the pieces of `split` with the separator gives back the text |
| JsText.SplitUnique | src/app/page.tsx:127 | any cutting of a text into separator-free pieces that joins back to it is its `split` |
| JsText.IsWhitespace | src/app/page.tsx:139 | the white space `trim()` removes: the ECMAScript WhiteSpace and LineTerminator code points |
| JsText.TrimStart | src/app/page.tsx:139 | a suffix of the text; the part removed is white space, and the result is empty or starts with a character that is not |
| JsText.TrimEnd | src/app/page.tsx:139 | a prefix of the text; the part removed is white space, and the result is empty or ends with a character that is not |
| JsText.Trim | src/app/page.tsx:139 | `trim()`: a contiguous middle piece of the text whose cut-off start and end are white space, and which is empty or neither starts nor ends with white space |
| JsText.TrimEmptyIffBlank | src/app/page.tsx:139 | `value.trim()` is empty exactly when every code unit of the value is white space |
| Records.Values | src/app/page.tsx:139 | `Object.values(row)`: the row's values, one per entry, in entry order |
| Records.Assign | src/app/page.tsx:133 | `processedRow[field] = value`: an existing key keeps its place and takes the value, a new key goes last, other entries are untouched, keys stay distinct |
| RowTransform.LengthBound | src/app/page.tsx:121 | `fieldRules[field] \|\| processedValue.length`: the value exceeds it exactly when the column has a rule and the value is longer than that rule; an unknown column never triggers the cut |
| RowTransform.TruncateToRule | src/app/page.tsx:121-123 | the value is a prefix of the input whose length is the column's rule when the column has one and the input is longer, and the input's length otherwise |
| RowTransform.ClampDecimal | src/app/page.tsx:127-130 | the clamp never adds anything: its result is a prefix of its input |
| RowTransform.ClampDecimalNoDot | src/app/page.tsx:127-130 | a value without a dot is never clamped |
| RowTransform.ClampDecimalPieces | src/app/page.tsx:127-130 | with `a` the text before the first dot and `b` the piece after it up to the next dot or the end, a `b` longer than 2 leaves `a.` plus the first two code units of `b`, and any other value is unchanged |
| RowTransform.DottedValueShape | src/app/page.tsx:127 | every value holding a dot has that first-piece, dot, second-piece, rest shape |
| RowTransform.ClampDecimalSingleDot | src/app/page.tsx:127-130 | a value with exactly one dot keeps at most two code units after it, and the part before it is unchanged |
| RowTransform.ClampDecimalIdempotent | src/app/page.tsx:127-130 | clamping a clamped value changes nothing |
| RowTransform.TransformValue | src/app/page.tsx:121-130 | the transformed value is a prefix of the original; it is no longer than the column's rule; a column with no rule that is not a decimal column keeps its value exactly |
| RowTransform.TransformColumn | src/app/page.tsx:117-133 | one `[field, value]` entry after the transform keeps its name and gets a prefix of its value |
| RowTransform.TransformedRow | src/app/page.tsx:117-134 | the transformed row has one entry per input entry |
| RowTransform.TransformValueIdempotent | src/app/page.tsx:121-130 | transforming a transformed value changes nothing |
| RowTransform.ProcessValue | src/app/page.tsx:118-131 | the step-by-step reassignment of `processedValue` ends with the value `TransformValue` specifies |
| RowTransform.TransformRow | src/app/page.tsx:115-135 | the loop over the entries builds exactly `TransformedRow(row)`: entry by entry, with keys in their original order |
| RowTransform.TransformedRowKeepsColumns | src/app/page.tsx:117-134 | the transformed row has the same column names in the same order; every value is a prefix of the original, within its column's rule, and unchanged in a column with no rule of either kind |
| RowTransform.TransformedRowIdempotent | src/app/page.tsx:117-134 | transforming a transformed row changes nothing |
| RowTransform.TransformAll | src/app/page.tsx:114 | the `map` keeps the number and order of the rows and transforms each one |
| RowFilter.SomeNonBlank | src/app/page.tsx:139 | `some(value => value.trim() !== '')` holds exactly when some value has a code unit that is not white space |
| RowFilter.KeepRow | src/app/page.tsx:139 | a row passes exactly when one of its values is not white space only; a row with no columns fails |
| RowFilter.FilterRows | src/app/page.tsx:139 | the kept rows are input rows that pass, every passing row is kept, and no rows are added |
| RowFilter.FilterRowsCounts | src/app/page.tsx:139 | every occurrence of a passing row is kept and every occurrence of a failing row dropped, so repeated rows stay repeated |
| RowFilter.FilterRowsIsSubsequence | src/app/page.tsx:139 | the kept rows keep their relative order |
| RowFilter.FilterRowsAppend | src/app/page.tsx:139 | the filter works row by row: filtering a concatenation is concatenating the filtered parts |
| RowFilter.FilterRowsAllKept | src/app/page.tsx:139 | rows that all pass are returned unchanged |
| CleanPass.CleanRows | src/app/page.tsx:114-139 | the map-then-filter pass yields no more rows than came in, each a transformed input row that is not blank |
| CleanPass.CleanRowsRespectRules | src/app/page.tsx:114-139 | every output row is the transform of an input row, and every value in it is within its column's rule |
| CleanPass.CleanRowsKeepsExactly | src/app/page.tsx:114-139 | an input row's transform is in the output exactly when it has a non-blank value, as often as it occurs among the transformed rows, and the output keeps their order |
| CleanPass.CleanRowsIdempotent | src/app/page.tsx:114-139 | cleaning cleaned rows changes nothing |
| CleanPass.CleanSingleRow | src/app/page.tsx:114-139 | on one row, the pass is the transform followed by the blank test |
| CleanPass.BlankRowStaysBlank | src/app/page.tsx:114-139 | a row whose values are all white space stays blank after the transform and is dropped |
| Scenarios.LongBicIsCut | src/app/page.tsx:11-14 | a 23-character `bic` is cut to 20 and a 5-character `distrito` kept, and the row survives |
| Scenarios.DistritoValueIsCut | src/app/page.tsx:14 | a `distrito` value longer than 5 keeps its first 5 code units |
| Scenarios.ValorM2IsClamped | src/app/page.tsx:57 | a `valor_m2` value of at most 20 code units with one dot loses every digit after the second decimal place |
| Scenarios.ClampDecimalDropsLaterDots | src/app/page.tsx:127-130 | when the piece after the first dot is longer than 2, everything after its first two code units is dropped, later dots included |
| Scenarios.ClampDecimalKeepsShortFirstPiece | src/app/page.tsx:127-130 | when the piece after the first dot is at most 2 long, the value is kept whole however long the text after the second dot |
| Scenarios.BlankRowIsDropped | src/app/page.tsx:139 | a row with an empty `bic` and a white-space `distrito` is dropped |
| Scenarios.TruncationCanBlankARow | src/app/page.tsx:121-123 | the filter sees the transformed row: a row whose only visible characters lie past the `distrito` rule passes the test before the transform but is dropped |

## Left out

- Parsing and writing the CSV (`Papa.parse`, `Papa.unparse`) belong to a third-party library whose code is not part of this model. The model starts from the parsed rows and ends with the cleaned rows. Quoting, header handling and `skipEmptyLines` are not modelled.
- Reading the file (`FileReader`), the Promise and callback wiring, the progress and error log (`setLogs`), the React component, the toasts and the download are I/O and UI state. They are left out.
- `src/app/layout.tsx` is not part of this model. It holds only page layout and metadata.
- JavaScript object quirks that only the parser or the runtime can trigger are not modelled:
  - `Object.entries` listing integer-like keys first;
  - a column named like a property of `Object.prototype` being found in `fieldRules`;
  - the `__parsed_extra` array produced for ragged rows.

  Every value is taken to be a string.
- RowTransform.TransformRow: requires that the row's column names be distinct. Keys of a JavaScript object always are, so this states what any parsed row satisfies rather than narrowing the source.
- Text outside the Basic Multilingual Plane is not modelled as JavaScript sees it. A Dafny `char` is a Unicode scalar value, so a character such as an emoji counts 1 where `.length` counts 2. For such text, lengths and cuts in the model are in code points, and the model cannot show `slice` cutting a surrogate pair in half.
- FieldRules.IsDecimalField: states only that each decimal column has some rule, not its value. The values appear in the table itself and, for the columns used there, in `Scenarios`.
- FieldRules.RuleFor: the count of 62 entries is a property of the table text and is not stated as a proof obligation.
