# QR attendance scanner: the dedup-and-upsert engine

This project models the core of a browser QR/barcode attendance scanner. Each decoded payload (an employee badge, say) passes a duplicate-suppression gate. The gate drops empty payloads, and it drops a repeat of the last accepted payload that arrives less than 2500 ms after it. An accepted payload is then upserted into an attendance log that is kept newest first. The first scan of a payload on a calendar day creates a record whose log-in is the scan time and whose log-out is empty. Every later scan on that day overwrites the record's log-out. The log keeps its 200 newest records. The model also covers the HTML escaping used when the log is shown, and the CSV export of the log.

Files:

- `wrappers.dfy`: module `Wrappers`, the `Option` type.
- `attendance.dfy`: module `AttendanceLog`, the value-level model. It holds the record type `Entry`, the gate `Accepts`, the first-match search `FirstMatch`, the upsert `SaveLog`, one engine call `Handle` and a run of calls `Replay`. The module's lemmas cover the upsert, uniqueness per (text, date), bursts of repeats, and the in/out and next-day scenarios.
- `engine.dfy`: module `Scanner`, the engine as the page runs it. The class `Engine` has the fields `lastSeen` and `log`. Its methods `HandleResult`, `SaveLogItem` and `ClearLog` overwrite those fields. `HandleResult` and `SaveLogItem` are proved against the functions of `AttendanceLog`; `ClearLog` states its new state directly. `FindEntry` is the loop behind the log's `find`.
- `html.dfy`: module `Html`, the escaping `EscapeHtml`. Its partner `UnescapeHtml` decodes the five entities the way an HTML parser does.
- `csv.dfy`: module `CsvExport`, the export `ExportCsv`. Its partners `Split` (cut the file into lines) and `ReadQuoted` (read one quoted field) read the file back.

Inputs that the page takes from the browser are parameters of the model:

- The clock reading of a call is `now` in milliseconds. One reading per call gives both `now` and the locale strings `today` and `timeStr`.
- The snapshot image is an opaque string.
- The list kept in local storage is the `log` field.
- A decoder result that is `undefined` or `null` is passed as the empty string. The source rejects it exactly as it rejects `""`.

Points where the code's behaviour is worth spelling out:

- Log-in and log-out are the locale time strings, not instants.
- Within a day the lookup takes the FIRST matching record (`find`). Uniqueness per (text, date) is an invariant the engine keeps (`SaveLogKeepsUnique`, `Engine.Valid`). It is not assumed of a log read from storage.
- The gate compares `now - lastSeen.time < 2500`. A clock that went backwards therefore also suppresses a repeat.
- Clearing the log does not reset `lastSeen`.
- The gate ignores the date. Two scans of one payload less than 2500 ms apart across midnight (23:59:59, then 00:00:01) give one record: the second is dropped (`DayChangeInsideWindow`).

## Model

| member | source | states |
|---|---|---|
| `AttendanceLog.Accepts` | script.js:97-99 | definition of the gate: an empty text, or a repeat of the last accepted text less than 2500 ms after it, is rejected; characterised by `RepeatsAreDropped`, `BurstCountsOnce` and the contract of `Scanner.Engine.HandleResult` |
| `AttendanceLog.Matches` | script.js:122 | definition of the `find` test (same text and same date); characterised by `FirstMatch` and `Scanner.FindEntry` |
| `AttendanceLog.NewEntry` | script.js:124 | definition of the record a first scan of the day creates; characterised by `SaveLogInserts` |
| `AttendanceLog.Handle` | script.js:96-112 | definition of one `handleResult` call on the state; characterised by `RepeatsAreDropped`, `BurstCountsOnce`, `SameDayInThenOut`, `TwoDaysTwoRecords`, `DayChangeInsideWindow`, and equal to the effect of `Scanner.Engine.HandleResult` |
| `AttendanceLog.FirstMatch` | script.js:122 | the index found holds a record of (text, date) and no earlier record does; none is found exactly when no record matches |
| `AttendanceLog.Take` | script.js:129 | the cut log has min(length, n) records, each equal to the record at the same index |
| `AttendanceLog.SaveLog` | script.js:119-131 | the log after an upsert never has more than 200 records |
| `AttendanceLog.SaveLogInserts` | script.js:122-125 | with no record for (text, today), the new record is first, with the given text, type and snapshot, log-in timeStr and empty log-out; the old records follow in order; the length is min(old + 1, 200) |
| `AttendanceLog.SaveLogUpdates` | script.js:126-129 | with the first record for (text, today) at index i, only that record's log-out changes (to timeStr); every other record, the order and the length (min(old, 200)) stay |
| `AttendanceLog.SaveLogKeepsUnique` | script.js:122-128 | if the log holds at most one record per (text, date) before the upsert, it still does after it |
| `AttendanceLog.RepeatsAreDropped` | script.js:99 | once `t` was accepted at time T, any run of detections of `t` before T + 2500 leaves the state (lastSeen and log) unchanged |
| `AttendanceLog.BurstCountsOnce` | script.js:96-100 | a burst of one text within 2500 ms of its first, accepted, detection has the effect of that first detection alone |
| `AttendanceLog.SameDayInThenOut` | script.js:99-128 | two detections of a payload on one day, at least 2500 ms apart: the first creates a record with log-in = first time and empty log-out; after the second the record keeps that log-in, has log-out = second time, no record is added, and lastSeen is the second detection |
| `AttendanceLog.TwoDaysTwoRecords` | script.js:121-125 | detections on two different days give two separate records, the newer day's first |
| `AttendanceLog.DayChangeInsideWindow` | script.js:99-100 | a repeat less than 2500 ms after an accepted detection is dropped even when the day changed in between, so the new day gets no record from it |
| `AttendanceLog.BadgeScenario` | script.js:95-131 | from an empty log: a scan at 09:00:00, a repeat one second later (dropped), a scan at 17:30:00 (log-out set) and a scan the next day (second record) give exactly the records expected |
| `Scanner.FindEntry` | script.js:122 | the loop returns the index of the first record of (text, date), or none exactly when no record matches |
| `Scanner.Engine.constructor` | script.js:95 | at page load nothing has been seen and the log is the stored list |
| `Scanner.Engine.HandleResult` | script.js:96-112 | an empty text, or a repeat of lastSeen's text less than 2500 ms after it, changes neither lastSeen nor the log; otherwise lastSeen becomes (t, now) and the log is the upsert of the detection; the invariant (at most 200 records, one per (text, date)) is kept |
| `Scanner.Engine.SaveLogItem` | script.js:119-131 | the new log is the upsert of the old one, has at most 200 records, and keeps one record per (text, date) |
| `Scanner.Engine.ClearLog` | script.js:171 | the log becomes empty and lastSeen is untouched |
| `Html.EscapeChar` | script.js:144 | each of & < > " ' becomes an entity that starts with & and ends with ; and holds no markup character; every other character is kept |
| `Html.EscapeHtml` | script.js:144 | the escaped text holds no raw <, >, " or ' and is at least as long as the input |
| `Html.EscapeHtmlAppend` | script.js:144 | escaping distributes over concatenation, so it is a per-character mapping |
| `Html.EscapeHtmlKeepsPlainText` | script.js:144 | a text free of the five special characters is returned unchanged |
| `Html.UnescapeEscapeHtml` | script.js:144 | decoding the entities of the escaped text gives back the original text |
| `Html.EscapeHtmlInjective` | script.js:144 | two different texts never escape to the same markup |
| `CsvExport.DoubleQuotes` | script.js:175 | doubling quotes adds no line feed |
| `CsvExport.SourceName` | script.js:175 | the `type` field is `camera` or `image`: non-empty, with no quote and no line feed, so it needs no escaping |
| `CsvExport.Row` | script.js:175 | the row template: it starts with a quote, and has no line feed when the record's fields have none; its first field is characterised by `RowFirstField` |
| `CsvExport.Join` | script.js:175 | `join('\n')`: the joined text starts with the first line; characterised by `SplitJoin` |
| `CsvExport.Rows` | script.js:175 | one row per record, in log order |
| `CsvExport.ExportCsv` | script.js:174-175 | the export is nothing exactly when the log is empty |
| `CsvExport.SplitJoin` | script.js:175 | lines without line feeds are recovered by cutting their join at line feeds |
| `CsvExport.ExportLines` | script.js:174-175 | the export of a non-empty log whose fields hold no line feed reads back as 1 + the number of records lines: the header, then the row of each record in log order |
| `CsvExport.ReadQuotedDoubled` | script.js:175 | a text with its quotes doubled, then a closing quote, reads back as exactly that text |
| `CsvExport.RowFirstField` | script.js:175 | each row opens with a quoted field that reads back as the payload text, whatever quotes it holds, followed by a comma |

## Left out

- Camera start and stop, the animation-frame tick loop and its asynchronous scheduling (script.js:40-89): browser I/O and async control flow.
- The native barcode detector, the jsQR fallback and its loading from a CDN (script.js:21-38, 74-86, 146-167): foreign calls. Decoding is an oracle whose output is the optional text passed to `HandleResult`.
- Drawing boxes and polygons, clearing the overlay and capturing the snapshot (script.js:91-93, 104-110): canvas work. The snapshot is an opaque string parameter.
- The status and last-result text and the HTML rendering in `renderLog` (script.js:101-102, 133-142): DOM output. Only the escaping it applies is modelled.
- The beep, the clipboard copy and opening a URL (script.js:114-116), and the Blob download of the CSV with its "No entries" alert (script.js:174, 176-182): side effects. The empty-log case is the `None` of `ExportCsv`.
- The JSON round trip through local storage (script.js:120, 129, 134, 171): the log is held as an in-memory sequence. Storage failures are not modelled.
- `toLocaleDateString` and `toLocaleTimeString`: their results are opaque string parameters. `Date` arithmetic is plain integer milliseconds.
- `ExportLines`: when a payload or a locale string holds a line feed, its quoted field spans several lines. The line count is stated only for records without line feeds.
