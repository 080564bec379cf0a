# convertidor-ANAM: the `.asc` record normaliser, modelled in Dafny

The converter reads pipe-delimited `.asc` text files and writes each one out as a
spreadsheet. Its core is in `procesar_archivo_asc` and `limpiar_dato` (main.py).

- The first line of the file is the header. It is stripped and split on `|`, and
  every piece is cleaned into a column name.
- Every later line is one record. It is stripped, each line break is replaced by
  `-|-`, and it is split on `|`. Every piece is cleaned. The list is then cut to
  the header's width, or extended to it with empty cells.
- Cleaning a cell (`limpiar_dato`) deletes every character U+0000–U+001F and
  U+007F. It then strips the whitespace at both ends, as Python's `str.strip()`
  does.

The model has three modules:

- `TextOps` (text_ops.dfy) gives the Python string operations the converter uses, and the character count its contracts are stated with.
  - `str.strip()` is `Strip`, with whitespace exactly as `str.isspace()` defines it.
  - `str.split('|')` is `Split`, with `Join` as its inverse.
  - `str.replace('\n', '-|-')` is `MarkLineBreaks`.
  - `Occurrences` counts a character; the piece counts of `Split`, `Header` and
    `Pieces` are stated with it (the converter itself does not call `str.count`).
- `Cleaner` (cleaner.dfy) is `limpiar_dato` on strings.
- `Normalizer` (normalizer.dfy) is the header and row stages.
  - `ConvertLines` takes the decoded lines. It runs the row loop as a `for` loop
    that appends one record per pass.
  - It is proved against the functional specification `Header`, `NormalizeRow`
    and `Records`.

An empty file has no first line, and the code then fails with `IndexError` on
`lineas[0]`. The model makes that failure explicit: `ConvertLines` returns
`Failure(EmptyInput)` for an empty list of lines, and for nothing else. A file
with only a header line gives a table with no rows.

The line-break replacement is modelled as written. A line as `readlines` returns
it has a line break only at its end. `strip()` removes that break before the
replacement runs, so the replacement never changes such a line
(`MarkerInertOnReadLines`). It would only split a cell when a caller passes a
line with a break inside it.

## Model

| member | source | states |
|---|---|---|
| TextOps.IsWhitespace | main.py:11 | The whitespace set of `str.isspace()`, which `strip()` removes: U+0009–U+000D, U+001C–U+0020, U+0085, U+00A0, U+1680, U+2000–U+200A, U+2028, U+2029, U+202F, U+205F and U+3000. |
| TextOps.Strip | main.py:11 | The stripped string is no longer than the input and has no whitespace at either end. |
| TextOps.StripSlice | main.py:11 | Strip only removes characters: the result is the input less a whitespace prefix and a whitespace suffix. |
| TextOps.StripUnique | main.py:11 | Strip is the only such operation: whitespace + r + whitespace, with no whitespace at the ends of r, strips to exactly r. |
| TextOps.TrimLeftDrops | main.py:11 | Stripping the start removes a prefix made of whitespace only. |
| TextOps.TrimRightDrops | main.py:11 | Stripping the end removes a suffix made of whitespace only. |
| TextOps.TrimMembers | main.py:11 | A stripped string holds only characters of the string it was cut from. |
| TextOps.Split | main.py:26 | Splitting on `\|` gives one piece more than there are delimiters, so at least one, and no piece contains the delimiter. |
| TextOps.SplitCons | main.py:26 | A leading non-delimiter character belongs to the first piece. |
| TextOps.SplitPrefix | main.py:26 | A delimiter-free prefix belongs to the first piece, and the other pieces are unchanged. |
| TextOps.JoinSplit | main.py:26 | Joining the pieces with `\|` gives back the original line. |
| TextOps.SplitJoin | main.py:26 | Splitting the join of delimiter-free pieces gives back exactly those pieces, in order. |
| TextOps.JoinAvoids | main.py:26 | A character that is neither the delimiter nor in any piece is not in the joined line. |
| TextOps.JoinEdges | main.py:26 | Pieces without edge whitespace join into a line without edge whitespace. |
| TextOps.JoinedLine | main.py:26 | A line written from parts without edge whitespace or line breaks has no line break inside, and is its own stripped form with or without a final line break. |
| TextOps.Occurrences | main.py:26 | The count in which the piece-count promise of main.py:26 is stated: never more than the length of the string (its additivity is OccurrencesAppend). |
| TextOps.OccurrencesAppend | main.py:33 | The number of occurrences of a character in a concatenation is the sum of the counts in its parts. |
| TextOps.MarkLineBreaks | main.py:33 | After the replacement no line break is left, each line break adds one delimiter, and a string without line breaks is unchanged. |
| TextOps.MarkLineBreaksAppend | main.py:33 | The replacement works character by character: it distributes over concatenation, so every other character keeps its place. |
| TextOps.MarkLineBreaksChar | main.py:33 | A single line break becomes `-\|-` and any other single character is kept. |
| TextOps.MarkLineBreaksAt | main.py:33 | At the first line break, the text before it is kept, the break becomes `-\|-`, and the rest is replaced in turn. |
| Cleaner.IsControl | main.py:9 | The character class `[\x00-\x1F\x7F]` of the substitution. |
| Cleaner.RemoveControl | main.py:9 | The substitution never lengthens a string; what it keeps and in which order is stated by RemoveControlFilters, RemoveControlAppend and RemoveControlKeepsClean. |
| Cleaner.RemoveControlFilters | main.py:9 | Deleting control characters leaves none, and adds no character. |
| Cleaner.RemoveControlAppend | main.py:9 | The deletion works character by character: it distributes over concatenation, so it keeps order. |
| Cleaner.RemoveControlKeepsClean | main.py:9 | A string without control characters is left unchanged. |
| Cleaner.Clean | main.py:6-12 | A cleaned cell has no control character, no whitespace at either end, and is no longer than the input. |
| Cleaner.CleanIsSlice | main.py:9-11 | The cleaned cell is the control-free input less a whitespace prefix and a whitespace suffix. |
| Cleaner.CleanIdempotent | main.py:6-12 | Cleaning a cleaned cell changes nothing. |
| Cleaner.CleanFixedPoints | main.py:6-12 | Cleaning leaves a string unchanged exactly when it has no control character and no whitespace at either end. |
| Cleaner.CleanAddsNothing | main.py:6-12 | A character absent from the input is absent from the cleaned cell. |
| Cleaner.RemoveControlExample | main.py:9 | The bell character is deleted from `"  caf\x07é  "` and everything else is kept. |
| Cleaner.CleanExample | main.py:6-12 | `"  caf\x07é  "` cleans to `"café"`. |
| Normalizer.CleanAll | main.py:33 | The comprehension gives exactly one cell per piece (what each cell holds is CleanAllAt). |
| Normalizer.CleanAllAt | main.py:26 | In the comprehension that cleans every piece, cell k is piece k cleaned. |
| Normalizer.CleanedPiecesAreCells | main.py:26 | The cleaned pieces of a split line are finished cells: no control character, no edge whitespace, no delimiter. |
| Normalizer.CleanAllFixes | main.py:26 | Cleaning every finished cell changes none of them. |
| Normalizer.Header | main.py:26-27 | The header has one column per delimiter of the stripped first line plus one, so at least one. Every column name is a finished cell. |
| Normalizer.HeaderShape | main.py:26 | Column k of the header is the k-th piece of the stripped first line, cleaned. |
| Normalizer.Pieces | main.py:33 | A data line gives one piece per delimiter and per line break of the stripped line, plus one. No piece contains the delimiter. |
| Normalizer.Padding | main.py:41 | The padding has exactly the missing number of cells, all empty. |
| Normalizer.FitWidth | main.py:36-41 | The fitted row has exactly the header's width. Its leading cells are the row's cells in order: the excess is dropped and the shortfall is filled with empty cells. |
| Normalizer.NormalizeRow | main.py:33-41 | Every record read from a line has exactly the header's width; its cells are given by NormalizeRowShape. |
| Normalizer.NormalizeRowShape | main.py:33-41 | A record is exactly as wide as the header. Cell k is the cleaned piece k where the line has one, and empty otherwise; every cell is finished. |
| Normalizer.Records | main.py:30-43 | The loop produces exactly one record per data line; RecordsAt and RecordsSnoc say which record and in what order. |
| Normalizer.RecordsAt | main.py:30-43 | Record i is read from data line i alone, is as wide as the header, and is made of finished cells. |
| Normalizer.RecordsSnoc | main.py:43 | One more data line appends exactly its record at the end. |
| Normalizer.ReadRecord | main.py:33-41 | One pass of the loop body computes exactly the normalised record of the line. |
| Normalizer.ConvertLines | main.py:25-43 | Empty input is an error and nothing else is. Otherwise the header comes from the first line and there is one record per later line, in order. Record i comes from line i + 1 at the header's width, and the table is well formed. |
| Normalizer.RowRoundTrip | main.py:30-43 | A record written as one line reads back as the same cells fitted to the width. At its own width it reads back as itself. |
| Normalizer.HeaderRoundTrip | main.py:26-27 | A header line written from finished column names reads back as the same names. |
| Normalizer.MarkerInertOnReadLines | main.py:33 | On a line whose only break is at its end, the line-break replacement changes nothing, and the piece count is the delimiter count plus one. |
| Normalizer.ScenarioShortRow | main.py:39-41 | With a three-column header, the line `2\|Luis` reads as `2`, `Luis` and an empty cell. |
| Normalizer.ScenarioLongRow | main.py:36-38 | With a three-column header, the line `3\|Eva\|Quito\|Extra` reads as `3`, `Eva`, `Quito`. |

## Left out

- Reading the file and the UTF-8 to Latin-1 fallback (main.py:16-23) are left out. The model starts from the list of decoded lines, so splitting into lines and decoding bytes are not modelled.
- Building the DataFrame (main.py:46) is left out. `Table` holds the column names and the rows that would be passed to it.
- Listing the directory, naming and writing the `.xlsx` files, and the progress messages (main.py:49-72) are file-system and output glue, and are left out.
- The non-string branch of `limpiar_dato` (main.py:7, 12) is left out. The converter only ever passes strings to it.
- Regular expressions in general are left out. Only the one character class of main.py:9 is modelled, as a per-character filter.
- Lone surrogate code points are left out. A Python string can hold them, but a Dafny `char` is a Unicode scalar value.
- The row loop's in-place list updates (`append`, `extend`) are left out. They are modelled as reassignment of sequence values, so aliasing of the lists is not modelled.
