# GeoCmdLine layer expansion and JSON-to-CSV conversion, in Dafny

GeoCmdLine downloads the layers of an ArcGIS-style map service and converts each
layer's JSON payload into a CSV file. This project models the two parts of
`main.go` that carry logic, and proves properties of the model.

- **Layer selection** (`getLayers`). The configured layer list, for example
  `"0,2-4,7"`, is split at commas. A token holding a `-` is a range: its bounds
  are read with `strconv.ParseInt`, and every number from start to end is
  appended as a numeral. Any other token is appended verbatim. Each selected
  layer then names its payload file after a display name: layer 0 uses name 0,
  and layer n uses name n-1.
- **Conversion** (`convertJsonFile`).
  - The payload's `fields` array fixes the columns. The header record holds the
    field names in order.
  - A name-to-type map records each name's declared ESRI type; the last
    descriptor with a name wins.
  - Every feature's `attributes` then yields one record with one cell per field.
    The cell is the attribute serialized by the type switch, then trimmed:
    - text types give the string
    - integer types give the base-10 integer
    - real types give five-decimal fixed point
    - every other type gives nothing
  - The records go through Go's `encoding/csv` writer with default settings.

Modules and files:

| file | module | what it holds |
|---|---|---|
| `text.dfy` | `GoText` | `strings.TrimSpace` (with `unicode.IsSpace`), `strings.Split`, `strings.Join` |
| `numbers.dfy` | `GoNumbers` | `strconv.FormatInt` and `strconv.ParseInt` for base 10 and 64 bits, including clamping on overflow |
| `layers.dfy` | `LayerSelection` | the layer-list expansion and the name index |
| `convert.dfy` | `Conversion` | schema extraction, the type switch, record projection |
| `csv.dfy` | `CsvText` | the CSV writer's quoting and a reader for the same format (used to state the round trip) |
| `file.dfy` | `LayerFile` | the conversion of one layer end to end |
| `wrappers.dfy`, `seqs.dfy` | `Wrappers`, `SeqFacts` | `Option`, and small generic sequence facts |

Some behaviours of the code worth knowing:
- A malformed range bound reads as 0, because the program discards ParseInt's error, unless its leading digits already overflow a uint64; then it reads as the nearest int64 bound, whatever follows them.
- A payload without `fields` gives an empty header and empty records; it is not an error.
- An absent integer attribute gives `"0"`, and an absent real attribute gives `"0.00000"`, not an empty cell.
- Duplicate field names make both columns use the last declared type.

## Model

| member | source | states |
|---|---|---|
| GoText.TrimSpace | main.go:252 | the trimmed cell has no white space at either end, and is the input with an all-space prefix (the longest one) and an all-space suffix removed |
| GoText.TrimSpaceFixedPoints | main.go:252 | trimming leaves a string unchanged exactly when it has no white space at either end |
| GoText.TrimSpaceIdempotent | main.go:252 | trimming an already trimmed cell changes nothing |
| GoText.Split | main.go:96 | splitting always gives at least one piece; more than one exactly when the separator occurs; no piece holds the separator; joining the pieces with the separator restores the input |
| GoText.SplitHead | main.go:105 | the first piece of a split is the text before the first separator, or the whole text when there is none |
| GoText.SplitSecond | main.go:106 | the second piece of a split is the first piece of the text after the first separator |
| GoText.SplitJoin | main.go:101 | splitting undoes joining when no piece holds the separator |
| GoText.SplitAppend | main.go:96 | the pieces of `a,b` are the pieces of `a` followed by the pieces of `b`, so token order is kept |
| GoNumbers.FormatInt | main.go:111 | a layer numeral is a minus sign (present exactly for negative numbers) followed by decimal digits |
| GoNumbers.FormatParseInt | main.go:122 | reading a layer numeral back with ParseInt gives the number that was formatted, for every int64 |
| GoNumbers.ParseDecimal | main.go:105-106 | a plain or minus-signed digit string reads as its value, clamped to the int64 bounds |
| GoNumbers.ScanDigits | main.go:105-106 | on a digit string the parse fails only by overflow past the largest uint64; otherwise it yields the numeral's value |
| GoNumbers.ParseInt | main.go:105-106 | a bound with no digit in it reads as 0 (the discarded syntax error) |
| GoNumbers.ScanNonDigit | main.go:105-106 | the digit loop reports a syntax error when it meets a non-digit before the value read so far can overflow |
| GoNumbers.OverflowFirst | main.go:105-106 | once the digits read so far exceed the largest uint64 the digit loop reports a range error, before any later non-digit |
| GoNumbers.OverflowReadsBound | main.go:105-106 | a bound whose leading digits exceed the largest uint64 reads as the largest int64, or the smallest with a minus sign, whatever characters follow |
| GoNumbers.MalformedReadsZero | main.go:105-106 | a bound whose unsigned part is empty or not all digits, and at most 19 characters long, reads as 0: the value Go returns with the discarded syntax error |
| GoNumbers.MalformedExamples | main.go:105-106 | the bounds `2a`, `1.5`, ` 3` and `+-3` each read as 0 |
| GoNumbers.FormatIntValue | main.go:111 | the digits after the optional sign spell the number's magnitude, which tells the numerals of the int64 bounds apart from longer numerals that ParseInt would clamp to the same value |
| GoNumbers.FormatIntCanonical | main.go:111 | a numeral has no leading zero: the first digit after the optional sign is `0` only in the numeral `"0"` itself |
| GoNumbers.FormatIntNoDot | main.go:242 | an integer numeral never holds a decimal point |
| GoNumbers.FormatIntTrimmed | main.go:242 | an integer cell has no white space at either end, so trimming it changes nothing |
| LayerSelection.RangeNumerals | main.go:108-113 | a range has end-start+1 numerals, or none when start > end; numeral k is that of start+k |
| LayerSelection.RangeBounds | main.go:101-106 | a range token's bounds are the number before its first `-` and the number between the first and the second `-` (or up to the end), each as ParseInt reads it |
| LayerSelection.ExpandToken | main.go:100-116 | a token without `-` contributes itself; a range token contributes as many numerals as its bounds give (end-start+1, or none), numeral k being that of start+k |
| LayerSelection.AppendRange | main.go:108-113 | the counting loop appends exactly the range's numerals, in ascending order, after the layers already collected |
| LayerSelection.GetLayers | main.go:96-117 | the expansion loop yields the layer list the specification string denotes; its length is the sum of the per-token sizes computed from the bounds alone |
| LayerSelection.ExpansionLength | main.go:99-117 | the expansion's length is the sum over tokens of end-start+1 for a range, 0 for a descending one and 1 for a plain token |
| LayerSelection.ExpandSpecAppend | main.go:99-117 | the layers of `a,b` are the layers of `a` followed by the layers of `b` |
| LayerSelection.SingleToken | main.go:96-99 | a list without a comma is one token, expanded on its own |
| LayerSelection.PlainToken | main.go:114-116 | a token without `-` is passed through verbatim as one layer, even when it is not a number |
| LayerSelection.RangeTokenBounds | main.go:101-106 | the token written as `a-b` from two non-negative numbers reads back the bounds a and b |
| LayerSelection.RangeToken | main.go:100-113 | a token `a-b` with non-negative bounds gives the numerals of a, a+1, ..., b in ascending order, and nothing when a > b |
| LayerSelection.ExampleRange | main.go:100-113 | `"2-4"` selects layers 2, 3 and 4 |
| LayerSelection.ExampleList | main.go:96-117 | `"0,2-4,7"` selects layers 0, 2, 3, 4 and 7, in that order |
| LayerSelection.ExampleConcat | main.go:99-117 | the layers of `a,b,c` are those of `a`, `b` and `c` in turn |
| LayerSelection.ExampleDescending | main.go:109 | `"5-3"` selects nothing |
| LayerSelection.ExampleEmpty | main.go:96 | an empty layer list is one empty token, passed through as one layer |
| LayerSelection.NameIndex | main.go:136-140 | the name index is non-negative exactly for non-negative layers, lies below the layer number except for layer 0, and is one below the layer number for every layer but 0 |
| LayerSelection.LayerName | main.go:136-140 | a layer's file name, when defined, is one of the configured display names |
| LayerSelection.NameIndexInBounds | main.go:136-140 | the name index is in bounds exactly for layer 0 (given one name) and for layers 1 to the number of names |
| LayerSelection.NameIndexCollision | main.go:136-140 | layers 0 and 1 are the only two distinct layers that share a display name |
| LayerSelection.NumberedLayerName | main.go:122-140 | a selected layer numbered n is saved under name n-1 (name 0 for layer 0), and has no name past the end of the list |
| LayerSelection.RangeAsWritten | main.go:109-113 | the counting loop with Go's int64 counter, cut off after a given number of turns, appends at most that many numerals, the first being the start's |
| LayerSelection.RangeAsWrittenNeverEnds | main.go:109 | with the end bound at the largest int64 the loop takes every turn it is allowed: it never stops |
| LayerSelection.RangeAsWrittenWraps | main.go:109 | after the numeral of the largest int64 the loop appends the numeral of the smallest, a negative layer |
| LayerSelection.RangeAsWrittenAgrees | main.go:109-113 | for every end bound below the largest int64, the loop with the int64 counter appends exactly the range's numerals |
| LayerSelection.HugeEndBound | main.go:106 | an end bound too large for an int64, as in `0-99999999999999999999`, reads as the largest int64 |
| Conversion.ParseType | main.go:234-250 | a type string selects the type whose name it is, and selects the default case exactly when it is no known type's name |
| Conversion.ParseTypeName | main.go:234-250 | each of the thirteen ESRI type names selects its own case of the type switch |
| Conversion.ClassesPartition | main.go:234-250 | every type falls into exactly one of the text, integer, real and opaque classes |
| Conversion.OpaqueTypeNames | main.go:234-250 | a type string is rendered as nothing exactly when it is not one of the nine text, integer or real type names |
| Conversion.Render | main.go:234-250 | text types give the string value; integer types give a trimmed numeral that reads back as the integer; real types give the five-decimal text; every other type gives nothing |
| Conversion.Cell | main.go:252 | a cell never starts or ends with white space and is never longer than the serialized value |
| Conversion.OpaqueCell | main.go:238-249 | Blob, Raster, XML, Geometry and unknown types give the empty cell whatever the value |
| Conversion.TextCell | main.go:235-236 | String, Date and GUID give the string value, trimmed |
| Conversion.IntegerCell | main.go:241-242 | integer types give the base-10 numeral, unchanged by trimming, with no decimal point, reading back as the same integer |
| Conversion.RealCell | main.go:244-245 | Double and Single give the five-decimal float text, trimmed |
| Conversion.CellIdempotent | main.go:252 | trimming a cell again changes nothing |
| Conversion.MissingInteger | main.go:241-242 | an integer field absent from the feature gives `"0"`, not an empty cell |
| Conversion.MissingReal | main.go:244-245 | a real field absent from the feature gives `"0.00000"` |
| Conversion.MissingText | main.go:235-236 | a text field absent from the feature gives the empty cell |
| Conversion.AbsentTextCell | main.go:225-236 | a text-typed field the feature lacks gives an empty cell at its own position in the record |
| Conversion.DeclaredType | main.go:202-212 | the type recorded for a name is that of the last descriptor with the name, and empty when no descriptor has it |
| Conversion.UniqueNamesOwnType | main.go:207 | with distinct names every field is serialized with its own declared type |
| Conversion.DuplicateNameLastTypeWins | main.go:207-230 | every column whose name is last declared at position j is serialized with the type of descriptor j, whatever type its own descriptor gives |
| Conversion.OidThenString | main.go:207-236 | a name declared first as an OID and then as a String gives the trimmed string value in both of its columns |
| Conversion.Header | main.go:202-218 | the header has one entry per descriptor, its name, in descriptor order |
| Conversion.Row | main.go:223-253 | a feature's record has exactly one cell per field, whatever keys the feature carries, and no cell has white space at either end |
| Conversion.SameNameSameCell | main.go:207-230 | two columns with the same name always hold the same cell |
| Conversion.RowCell | main.go:225-252 | cell i of a feature's record is field i's attribute, looked up by name, serialized with the type the map holds for that name, and trimmed |
| Conversion.Records | main.go:216-257 | the records are one more than the features, and the first is the header |
| Conversion.RowIgnoresOtherKeys | main.go:225-230 | a record depends only on the attributes named in the schema; extra keys are ignored |
| Conversion.ExtractSchema | main.go:192-214 | the schema pass gives the names in order; a name-to-type map defined exactly on the names, holding the last type per name; an index-to-name map agreeing with the name list; and the keys 0..F-1 already in sorted order |
| Conversion.ProjectFeature | main.go:223-253 | the projection loop gives one trimmed cell per field, cell i serialized from the attribute of field i |
| Conversion.ConvertRecords | main.go:216-257 | the records are the header of field names followed by one record per feature in order, each with exactly one cell per field whatever keys it carries, every cell trimmed |
| Conversion.RecordsShape | main.go:216-257 | the records form a table: the header of field names, one record per feature, one cell per field in every record |
| Conversion.RecordIsRow | main.go:222-255 | the record after the header at position j is the record of feature j-1 |
| Conversion.RecordCells | main.go:225-255 | cell i of each feature's record comes from field i's attribute, serialized with the type declared for its name |
| Conversion.RecordsTrimmed | main.go:252 | no cell of any feature's record has white space at either end |
| Conversion.IdNameRow | main.go:225-253 | a layer of an id field and a name field gives, for a feature with both, the id numeral and the name |
| Conversion.IdNameRowMissingName | main.go:225-253 | the same layer gives a full two-cell record with an empty last cell for a feature without the name |
| CsvText.WriteRecords | main.go:266-275 | the write loop produces the records' lines, one per record, in order |
| CsvText.ReadWriteAll | main.go:266-275 | reading the written text back gives exactly the records, embedded commas, quotes and line breaks included, when no record is empty |
| CsvText.ReadWrittenRecord | main.go:269 | a record's line reads back to that record and leaves the text after it |
| CsvText.ReadEncodedField | main.go:269 | every field, quoted or bare, reads back to itself |
| CsvText.ReadEscape | main.go:269 | the inside of a quoted field, quotes doubled, reads back to the field up to the closing quote |
| CsvText.ReadBarePlain | main.go:269 | a field written without quotes reads back verbatim |
| CsvText.PlainRecord | main.go:269 | a record whose fields need no quoting is written as its fields joined by commas |
| CsvText.EmptyRecordIsBlankLine | main.go:269 | a record with no fields and a record of one empty field are written as the same blank line |
| CsvText.EmptyRecordsBlankLines | main.go:266-272 | records without fields are written as blank lines, one each |
| LayerFile.ConvertJsonFile | main.go:187-279 | with at least one field, the CSV file reads back as the header and every feature's record; with no fields it is one blank line per record |
| LayerFile.NumeralUnquoted | main.go:242 | integer cells are never quoted in the CSV text |
| LayerFile.OneFeatureRecords | main.go:216-257 | a layer with one feature gives exactly a header record and one data record |
| LayerFile.TwoPlainLines | main.go:266-272 | two records of two plain fields each become two comma-separated lines |
| LayerFile.IdNameFile | main.go:187-279 | an id/name layer with one feature gives the file `id,name` then `<numeral>,<name>` |
| LayerFile.IdNameFileMissingName | main.go:187-279 | a feature without the name gives the second line `<numeral>,` with a trailing empty field |

## Left out

- Reading the configuration, logging, creating directories, the HTTP request per layer, building file paths and deriving each CSV name by replacing the first `json` in the file name with `csv` (main.go:137-139, 170), and writing files are left out. They are I/O. The model starts from the parsed layer list and the parsed payload, and ends with the CSV text.
- JSON parsing and gjson path semantics are left out:
  - `Conversion.Field` holds a descriptor's `name` and `type` strings.
  - `Conversion.Value` holds the three views the type switch reads: `Str`, `Int()`, and the `FormatFloat(Num, 'f', 5, 64)` text.
  - An attribute is found by its literal name, so a name containing gjson path syntax (for example `.`, `*`, `?`, `#`) is not interpreted as a path.
- Conversion.Value: floating-point formatting is not modelled. The five-decimal text is an input, so RealCell states only that the cell is that text trimmed.
- LayerSelection.AppendRange: counts with unbounded integers, which is the intended behaviour. The loop as written, with an int64 counter that wraps around, is `LayerSelection.RangeAsWritten`; see "## Findings".
- LayerSelection.LayerName: an index outside the name list yields `None`; the program panics there.
- GoText.TrimSpace: strings are sequences of Unicode scalar values. Go's handling of invalid UTF-8 bytes is not represented.
- CsvText.ReadAll: this is a reader for the format of section 2 of RFC 4180, used to state the round trip. It is not Go's `csv.Reader`, which also skips blank lines and turns `\r\n` inside quoted fields into `\n`.
- The writer's error results are left out. With a comma delimiter `Writer.Write` fails only on an I/O error of the underlying file, which the program turns into a fatal exit; `Flush` errors are I/O too.
- The `sort.Ints` call on the key list (main.go:214) is not modelled as a sort. The key list is built in ascending order, and `ExtractSchema` states that it already is 0, 1, ..., F-1.

## Findings

| source | as written | input that shows it | evidently intended | confidence | as-written member | corrected member |
|---|---|---|---|---|---|---|
| main.go:108-113 | the range loop counts with an int64 that is incremented after the guard `layer <= end`; when end is the largest int64 the guard always holds, the counter wraps to the smallest int64, and the loop never ends | layer list `0-99999999999999999999`, `0-99999999999999999999x` or `0-9223372036854775807` (the first two end bounds are clamped to the largest int64 by ParseInt) | the loop stops after appending the numeral of end | not executed | LayerSelection.RangeAsWrittenNeverEnds | LayerSelection.AppendRange |
