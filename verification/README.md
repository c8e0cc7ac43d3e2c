# kukua-stats spreadsheet renderer, modelled in Dafny

This project models the report-building core of `src/generate.js` in kukua-stats:

- `createSpreadsheet(rows, delimiter = '\t')` turns a list of plain objects into delimited text.
  Different rows may have different keys.
  - The header is every key that occurs in any row. Each key appears once, in order of first appearance.
  - Each row is padded out to the header, with `''` for keys the row lacks.
  - Each row is written as one delimiter-joined line, with its values in header order.
  - The header and the body lines are joined with `'\n'`.
  - Nothing is escaped.
- The device-query callback builds one object `{'Device name', 'UDID', 'Template'}` per record the query returns, keeping the query's order. It then renders those rows with the default tab delimiter.

Modules:

- `Text` (`text.dfy`): `Join` is `Array.prototype.join`. `Split` cuts a string at one character. `Split` is not in the source. It is the inverse used to state what the unescaped output lets a reader recover.
- `Dedup` (`dedup.dfy`): `Uniq` is first-occurrence de-duplication, underscore's `_.uniq` on an unsorted list. It comes with an independent characterisation: no duplicates, the same elements, listed by first position.
- `Records` (`records.dfy`): a JavaScript object as an ordered association list.
  - `Row` is such a list whose keys are unique.
  - `Keys`/`Values` model `_.keys`/`_.values`, and `Lookup` models reading a property.
  - `Put` models property assignment, `Assign` models `Object.assign`, `Pick` models `_.pick` and `Blank` models `_.object(columns, ['', …])`.
- `Spreadsheet` (`spreadsheet.dfy`): the renderer as the same chain the source uses.
  - `Columns` is `uniq(flatten(map(keys)))`.
  - `Filled` is `Object.assign({}, defaultValues, pick(row, columns))`.
  - `Line` and `Render` build the output text. `Render`'s delimiter defaults to a tab.
  - `Cell` and `PaddedCells` give the reference meaning of a body line.
- `SpreadsheetExample` (`spreadsheet_example.dfy`): the rows `[{a: '1', b: '2'}, {b: '3', c: '4'}]` rendered in full.
- `DeviceReport` (`devices.dfy`): the `forEach`/`push` loop as the method `BuildRows`, and the text the callback writes as `ReportText`.

`Render` is a function of `(rows, delimiter)` over immutable values. So identical inputs give identical output, and the input rows are never changed. The model states this by construction, not as a separate lemma.

## Model

| member | source | states |
|---|---|---|
| `Dedup.Uniq` | src/generate.js:41 | the result holds exactly the elements of the input, each once |
| `Dedup.UniqFirstSeen` | src/generate.js:38-42 | `Uniq` lists the elements in order of their first occurrence in the input |
| `Dedup.UniqCharacterised` | src/generate.js:38-42 | any duplicate-free list with exactly the input's elements, in first-occurrence order, equals `Uniq` of the input |
| `Records.Lookup` | src/generate.js:49 | a property read succeeds exactly when the key is among the object's keys, and the value it gives belongs to that key |
| `Records.PutLookup` | src/generate.js:50 | after `r[k] = v`, key `k` reads `v` and every other key reads as before |
| `Records.PutKeys` | src/generate.js:50 | `r[k] = v` keeps an existing key in its place and appends a new key at the end |
| `Records.AssignKeepsKeys` | src/generate.js:44-50 | `Object.assign` from a source whose keys the target already has leaves the target's key order unchanged |
| `Records.AssignLookup` | src/generate.js:50 | after `Object.assign(target, source)`, keys of `source` read `source`'s values and all other keys read the target's |
| `Records.AssignFresh` | src/generate.js:50 | assigning properties with new keys appends them in order, so `Object.assign({}, defaults)` copies `defaults` |
| `Records.PickLookup` | src/generate.js:49 | `_.pick(row, ...columns)` reads like the row on the listed keys and lacks every other key |
| `Records.PickKeys` | src/generate.js:49 | the picked object has only listed keys, and unique keys when the list has no repeats |
| `Records.Blank` | src/generate.js:44 | `defaultValues` has exactly the columns as keys, in column order, each mapped to `''` |
| `Spreadsheet.AllKeys` | src/generate.js:38-40 | a key occurs in the flattened key list exactly when some row has it |
| `Spreadsheet.Columns` | src/generate.js:38-42 | the header columns are exactly the keys occurring in some row, with no repeats |
| `Spreadsheet.ColumnsFirstSeen` | src/generate.js:38-42 | the columns are ordered by first appearance, across rows and within each row |
| `Spreadsheet.ColumnsCharacterised` | src/generate.js:38-42 | the header is the unique repeat-free, first-appearance-ordered list of all keys |
| `Spreadsheet.UniformColumns` | src/generate.js:38-42 | with at least one row, when every row has the same key list, the header is that list |
| `Spreadsheet.Cell` | src/generate.js:44-50 | under column `c` a row shows its own value for `c`, or `''` when it lacks `c` |
| `Spreadsheet.FilledCells` | src/generate.js:44-50 | a filled-out row has the header's keys in header order, not the row's own order, and its values are the row's cells under those columns |
| `Spreadsheet.LineCells` | src/generate.js:44-51 | a body line is the row's cells, in header order, joined by the delimiter |
| `Spreadsheet.LineFields` | src/generate.js:44-51 | for a one-character delimiter, such as the default tab, and at least one column: if no value contains the delimiter, a body line has exactly `|columns| - 1` delimiters and splits back into one field per column, equal to the padded cells |
| `Spreadsheet.RenderEmpty` | src/generate.js:46-53 | no rows render as exactly `"\n"` |
| `Spreadsheet.RenderLines` | src/generate.js:46-53 | with at least one row and no newline in keys, values or delimiter, the output has one newline per row and splits into the header line followed by each row's line, in input order |
| `Spreadsheet.HeaderFields` | src/generate.js:46 | for a one-character delimiter, such as the default tab, and at least one key: the header line splits back into the columns when no key contains the delimiter, whatever the values hold |
| `Spreadsheet.RenderRoundTrip` | src/generate.js:37-54 | with at least one key, and if no key or value contains the delimiter or a newline, splitting the output on newlines and then on the delimiter gives back the columns and every padded row |
| `SpreadsheetExample.MixedKeysExample` | src/generate.js:37-54 | `[{a:'1',b:'2'},{b:'3',c:'4'}]` renders as `a\tb\tc\n1\t2\t\n\t3\t4` |
| `Text.SplitJoin` | src/generate.js:51 | joining at least one part with a one-character separator that none of them contains, then splitting the result, gives back the parts |
| `Text.JoinSplit` | src/generate.js:51 | splitting any string and joining the pieces with the same character gives back the string |
| `Text.FieldCount` | src/generate.js:51 | joining `n >= 1` parts with a one-character separator that none of them contains puts exactly `n - 1` separators in the result, and splitting gives `n` fields |
| `DeviceReport.BuildRows` | src/generate.js:65-73 | exactly one row per device record, in query order, each with keys `Device name`, `UDID`, `Template` in that order and the record's name, identifier and template as values |
| `DeviceReport.DeviceHeader` | src/generate.js:67-75 | with at least one device, the header is exactly `Device name\tUDID\tTemplate` |
| `DeviceReport.DeviceRowLine` | src/generate.js:68-72 | a device row renders as name, identifier and template separated by tabs |
| `DeviceReport.DeviceReportText` | src/generate.js:65-75 | for a non-empty device list, the rendered text is the fixed header, a newline, and one tab-separated line per device, in query order |
| `DeviceReport.ReportText` | src/generate.js:65-75 | the text written for the query's results: `"\n"` for no devices, otherwise the fixed header followed by one line per device |

## Left out

- Database connections, the device SQL query, its error branch and `done` (src/generate.js:14-35, 56-63) are I/O against external servers. The model takes the query's records as an input sequence.
- Environment loading with `dotenv`, the clock-stamped output path, the file write and the console logging (src/generate.js:1-12, 75) are environment, clock and file I/O.
- The asynchronous callback is modelled as a plain method of its `results` argument.
- JavaScript's enumeration order for integer-like keys is not modelled. Such keys are listed first regardless of insertion order. Rows are modelled as association lists with string keys and values, which matches the three keys used here. With such a key the source's body cells fall out of line with the header. For rows `[{a: 'x'}, {'1': 'y'}]` the header is `a\t1`, but `defaultValues` enumerates `'1'` before `'a'` and `Object.assign` keeps that order, so the first body line is `\tx`. The model does not reproduce this: `FilledCells` puts cells in header order for every key.
- The association-list model has no prototype chain. `_.pick` also keeps a listed key that the row only inherits from `Object.prototype`. For example, a column `toString` shows the inherited function's text, not `''`. A column named `__proto__` never becomes an own property under `_.object` and `Object.assign`. Keys named after `Object.prototype` members, and `__proto__`, are therefore not modelled. The three device keys are unaffected.
- `null` or `undefined` values are not modelled. The renderer would print them as `''`. All values are strings.
- The underscore library is not part of this model. `_.uniq`, `_.pick`, `_.keys`, `_.values` and `_.object` are modelled from their documented behaviour. `Pick` lists the picked keys in the order of the key list. Either order gives the same output, because `Object.assign` onto `defaultValues` fixes the key order.
- Spreadsheet.RenderRoundTrip: the round trip is stated only for a one-character delimiter, such as the default tab. Splitting on a longer delimiter is ambiguous even when no cell contains it.
- Text.SplitJoin: stated only for a one-character separator, for the same reason.
- Text.FieldCount: stated only for a one-character separator, for the same reason.
- Spreadsheet.LineFields: stated only for a one-character delimiter, for the same reason.
- Spreadsheet.HeaderFields: stated only for a one-character delimiter, for the same reason.
- Per-device validity statistics, the status classification, bounded-concurrency fan-out with a timeout, and mail delivery are not in `src/generate.js`. They are not part of this model. In that source a device row has only the three columns `Device name`, `UDID` and `Template`.
