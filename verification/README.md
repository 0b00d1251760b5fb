# cekbttbycsv client pipeline, in Dafny

This project models the browser-side pipeline of the BTT tracing tool
(`public/app.js`). That pipeline takes the text of an uploaded CSV file,
keeps the lines that carry a tracking code ("BTT") and looks each code up
through the local `/api/trace` proxy. Each reply becomes a result record
with a status badge. The result list can then be downloaded as CSV.

Each stage is a pure function over strings and sequences:

- `Text`: the JavaScript string operations the code relies on: `trim`,
  `split`, `includes`, ASCII `toLowerCase`, and global one-character
  `replace`.
- `Html`: `escapeHtml`.
- `Btt`: `validateBTT`, and the extraction of the candidate code from a line.
- `Ingest`:
  - splitting the text into lines and dropping blank lines;
  - dropping the header line;
  - the limit of 1000 data lines;
  - the errors that abort a run.
- `Records`: how a lookup reply becomes a record, and which badge class the
  row gets.
- `Batch`:
  - the processing loop of `processCSV`, as a fold over the data lines;
  - the same loop as a method with a `while` loop, which also records the
    codes it looks up.
- `Export`:
  - `exportToCSV`;
  - a reader for its output that follows the quoting rules of RFC 4180,
    section 2, used to state round trips.
- `Decimal`: how `${n}` writes a record number, and a reader for it.

The network lookup is a parameter, `Gateway = (nat, string) -> Reply`. It
receives the data-line index as well as the code, so replies may differ
from one call to the next. A `Reply` is one of:

- a rejected `fetch`, or a body that is not JSON, carrying the thrown message;
- a non-2xx HTTP status;
- a parsed body, with or without a `detail` object.

Facts about `public/app.js` that the model keeps:

- `validateBTT` bounds the length only from above (app.js:19-22). Any code
  of 1 to 50 allowed characters passes.
- A record's `no` is its data-line index plus one (app.js:141, 175), so
  skipped lines leave gaps in the numbering.
- A lookup has no timeout (app.js:112). No stored field is truncated
  (app.js:127-130, 140-147).
- The reply's fields are stored as the proxy returns them.
- A text with no non-blank line makes `lines[0].toLowerCase()` throw
  (app.js:61). The run then fails like the other aborts (`RunError.NoLines`).

## Model

| member | source | states |
|---|---|---|
| Html.EscapeHtmlSafe | public/app.js:7-15 | Empty input gives `-`. Otherwise the output holds no `<`, `>`, `"` or `'`, and every `&` in it begins one of the five entities, so nothing is escaped twice. |
| Html.ChainIsCharwise | public/app.js:9-14 | The five global replacements, applied in order with `&` first, equal escaping each input character exactly once. |
| Html.EscapeHtmlRoundTrip | public/app.js:9-14 | For non-empty input the escape loses nothing: decoding the five entities gives the input back. |
| Btt.MatchesPattern | public/app.js:22 | The anchored pattern `^[a-zA-Z0-9\-_]+$` matches exactly the non-empty strings whose characters are all in the class. |
| Btt.ValidateBtt | public/app.js:18-23 | A code is accepted if and only if it has 1 to 50 characters, all letters, digits, `-` or `_`. |
| Btt.ExtractBtt | public/app.js:85 | The candidate code never holds a comma, `'` or `"`. It is no longer than the line, and every character of it comes from the line. |
| Btt.ExtractCell | public/app.js:85 | The code of a line whose first field is a cell with whitespace around it is that cell with its quotes removed, whether a comma and more columns follow or not. The second `trim` drops the whitespace between the cell and the comma. |
| Btt.ExtractBlankField | public/app.js:85 | A blank first field gives the empty code. |
| Btt.ExtractFirstColumn | public/app.js:84-85 | A valid code in the first column, bare or in double quotes, is extracted unchanged, whatever whitespace comes before the comma and whether or not more columns follow. |
| Text.Trim | public/app.js:58 | `trim()` gives an empty result exactly for all-whitespace input. Otherwise the result starts and ends with non-whitespace. |
| Text.TrimPadded | public/app.js:81 | Trimming removes exactly the surrounding whitespace and keeps the inner text unchanged. |
| Text.TrimIdempotent | public/app.js:81-85 | Trimming an already trimmed line again changes nothing. |
| Text.Split | public/app.js:58 | `split` gives at least one part, no part holds the separator, and joining the parts with the separator gives the text back. |
| Text.SplitJoin | public/app.js:58 | Splitting a join of separator-free parts gives the parts back. |
| Text.SplitLength | public/app.js:58 | `split` gives one more part than the text has separators. |
| Text.ContainsIff | public/app.js:61 | `includes` holds exactly when the needle occurs at some index. |
| Text.RemoveQuotes | public/app.js:85 | `replace(/['"]/g, '')` leaves no quote, and a character occurs in the result exactly when it occurs in the input and is not a quote. |
| Text.RemoveQuotesAppend | public/app.js:85 | Quote removal works piecewise, so the kept characters stay in input order and keep their number. |
| Text.RemoveQuotesNone | public/app.js:85 | A string without quotes is left unchanged. |
| Text.LowerMatchesAnyCase | public/app.js:61 | A string lowercases to a lower-case word exactly when it spells that word with each letter in either case. |
| Ingest.NonBlankKeeps | public/app.js:58 | A line is kept exactly when it is in the input and does not trim to empty. |
| Ingest.NonBlankAppend | public/app.js:58 | The filter works piecewise, so the kept lines stay in their original order. |
| Ingest.NoLinesIffBlank | public/app.js:58-61 | No line survives the filter exactly when the whole text is whitespace. |
| Ingest.DropHeader | public/app.js:60-62 | The first line is dropped exactly when its lowercase form holds `btt` or `no`. Otherwise every line is kept. The kept lines are a suffix of the input. |
| Ingest.HeaderAnyCase | public/app.js:61 | The header test ignores case: a line is a header exactly when it spells `btt` or `no` somewhere, each letter in either case. |
| Ingest.HeaderWord | public/app.js:61 | A line holding `BTT`, `Btt`, `NO`, `No` or any other casing of either word, anywhere in it, is a header. |
| Ingest.DataLines | public/app.js:57-72 | A successful ingestion gives 1 to 1000 lines, none of them blank. A too-many-lines error carries a count above 1000. The count is the model's own addition: the source's message shows only the limit. |
| Ingest.DataLinesSpec | public/app.js:58-72 | A run fails for lack of lines exactly when the text is blank. It fails for lack of data exactly when the only line is a header, and for too many lines exactly when more than 1000 remain. Otherwise the data lines are the non-blank lines minus the header. |
| Records.OrDash | public/app.js:127-130 | The `'-'` default for a detail field is never empty. It is `-` exactly for a missing, empty or `-` value, and otherwise it is the value. |
| Records.MakeRecord | public/app.js:112-181 | Number and code are stored as given, and no other field is empty. A failed lookup stores `-`, `Error: ` plus the message, `-` and `ERROR`. A reply without detail stores four dashes. For a detail, each field is its value when present and non-empty, and `-` otherwise. |
| Records.BadgeMatchesRecord | public/app.js:124-136 | The badge is `status-delivered` exactly when a successful lookup's status lowercases to `delivered`. It is `status-error` exactly when the lookup failed or the status is `-`. Otherwise it is `status-onprocess`. |
| Records.DeliveredAnyCase | public/app.js:130-133 | A detail reply gets `status-delivered` exactly when its status is present and spells `delivered` with each letter in either case. |
| Records.UpperDelivered | public/app.js:130-133 | A detail whose status is `DELIVERED` gets `status-delivered`. |
| Decimal.DecimalRoundTrip | public/app.js:232 | Reading back the decimal text of a record number gives the number. |
| Batch.StepFirstColumn | public/app.js:81-91 | A line whose first column is a valid code, bare or in double quotes, is looked up under exactly that code. This holds whatever whitespace surrounds the line or comes before the comma, and whatever columns follow. Its record has number `i + 1` and is built from the reply to that code. |
| Batch.StepForeignChar | public/app.js:81-91 | A line whose first column, once trimmed, holds a character that is neither allowed in a code nor a quote leads to no lookup. Whitespace at either end of the column is trimmed away and does not count. |
| Batch.StepBlankLine | public/app.js:81-82 | A blank line leads to no lookup. |
| Batch.CollectSpec | public/app.js:80-91 | The fold stores one record per line that gives one. Each record comes from the line its number names, numbers strictly increase, and no such line is missed. |
| Batch.LoopSound | public/app.js:80-147 | Every stored record has a number between 1 and the number of data lines. It comes from an accepted line, holds that line's code, and is built from the reply to that code. |
| Batch.LoopComplete | public/app.js:80-91 | Records keep input order (strictly increasing numbers), and every accepted line has a record with its number, whatever the replies. |
| Batch.LoopCount | public/app.js:80-91 | The loop stores exactly as many records as there are accepted data lines, counted without any reply. |
| Batch.RunSpec | public/app.js:56-91 | A run stops for lack of lines exactly when the text is blank. A completed run stores one record per accepted data line, at most 1000, numbered 1 to 1000. |
| Batch.RunShape | public/app.js:80-147 | The replies never change whether a run completes, how many records it stores, or their numbers and codes. |
| Batch.ProcessLines | public/app.js:80-181 | The `while` loop stores exactly the records of the fold. It looks up exactly the stored codes, in order. |
| Batch.ProcessCsv | public/app.js:47-91 | The method's outcome is the run's. An aborted run makes no lookup and leaves `resultsData` empty. A completed run looks up exactly its records' codes, in order. |
| Export.ExportText | public/app.js:222-233 | An empty list gives no download. Otherwise the download starts with the header line. |
| Export.ExportLines | public/app.js:229-233 | Split on `\n`, a download whose values hold no line break is the header, one row per record in order, and an empty piece after the final break. |
| Export.ExportLineCount | public/app.js:229-233 | When no value holds a line break, the download holds one line break per record plus one. |
| Export.ParseRowText | public/app.js:232 | A row reads back as its record when its values hold no quote, or when quotes are doubled. |
| Export.ExportRoundTrip | public/app.js:222-233 | Reading the download back gives the records, when no value holds a quote or a line break. |
| Export.QuoteBreaksExport | public/app.js:232 | Take a list in which no value holds a line break. If some record has a column whose first quote is followed by neither a quote nor a comma, with no quote in the columns before it, the download as written reads back as no list at all. |
| Export.QuoteSampleBreaks | public/app.js:232 | In particular, the description `say "hi"` makes the download of its record unreadable. |
| Export.ExportEscapedRoundTrip | public/app.js:232 | With quotes doubled, every list whose values hold no line break reads back exactly. |
| Export.EscapedAgreesWithoutQuotes | public/app.js:232 | When no value holds a quote, doubling quotes leaves the download unchanged. |

## Left out

- The DOM is not modelled:
  - table rows and temporary rows;
  - status messages and the progress bar, including its percentage;
  - alerts;
  - the event listener wiring.
  It is display only.
- The `File` object checks are not modelled: the missing file, the `.csv`
  extension and the 5 MB size limit. They read host objects.
- `file.text()` (app.js:57) becomes the `text` argument of `Run` and
  `ProcessCsv`. A rejected read is not modelled: app.js:213 catches it,
  and `resultsData` stays empty.
- The following become the `Gateway` parameter: `fetch` with
  `encodeURIComponent`, `response.ok` and `response.json()`. So do the
  proxy server and the upstream service behind it.
- The `console.warn` and `console.error` logging (app.js:89, 171, 214) is
  not modelled. It changes no state.
- The 200 ms pause between lookups is not modelled. It is timing only.
- The Blob, object URL and link click of the download are not modelled.
  The model stops at the CSV text.
- The message of the `TypeError` thrown on an empty file is not modelled;
  that case is `RunError.NoLines`.
- Detail fields that are JSON values other than strings are not modelled.
  A truthy non-string `status` makes `toLowerCase` (app.js:132) throw, and
  the failed-lookup record of app.js:170-181 is stored. A truthy non-string
  `tanggal`, `keterangan` or `posisi` is stored as it is. A falsy one (`0`,
  `false`) becomes `-` without any throw.
- `toLowerCase` is modelled on ASCII letters only. For the fixed needles
  `btt`, `no` and `delivered` this decides the same way for ASCII input.
- `escapeHtml`'s `String(...)` conversion of non-strings is not modelled.
  Neither is `validateBTT`'s `typeof` test: every value in the model is a
  string.
- Export.ExportRoundTrip: stated only for values without line breaks. The
  reader reads one record per line, though RFC 4180 allows line breaks
  inside quoted fields.
- Export.ExportEscapedRoundTrip: stated only for values without line
  breaks, for the same reason.
- Export.QuoteBreaksExport: stated only for lists whose values hold no
  line break, for the same reason.

## Findings

| source | as written | input that shows it | evidently intended | confidence | as-written member | corrected member |
|---|---|---|---|---|---|---|
| public/app.js:232 | Each value is put between double quotes verbatim. A `"` inside a value is not doubled, so it closes the cell early. | A lookup whose `keterangan` is `say "hi"`. The row `1,"AB12","-","say "hi"","-","-"` no longer reads as six fields. | Each `"` inside a value is written as `""` (RFC 4180, section 2, rule 7), and every list reads back. | not executed | Export.QuoteBreaksExport | Export.ExportEscapedRoundTrip |
