# Backup checklist: a Dafny model

This project models the logic at the centre of a small backup checklist for two groups of
publications. It has four parts:

- **Catalog.** There are two categories. `clasificados` holds Edictos, Cristina, Homero, MP
  and Qhubo. `suscripciones` holds Ana and Juliana.
- **The page (`index.js`).**
  - It keeps a table: category → item → list of backup timestamps, newest first.
  - It keeps a map of checked items.
  - The save action records one shared timestamp on every checked item and keeps at most
    ten entries per list.
  - For each item row it decides the last backup, the day count, the overdue flag, the
    badge and the history section.
  - The save button is enabled when any item is checked.
  - The export builds a spreadsheet matrix of "SÍ"/"NO" cells over a window of dates,
    followed by a summary.
- **The write endpoint (`save_backups.php`).**
  - It validates the batch and skips incomplete entries.
  - It converts "DD/MM/YYYY, HH:MM" to "YYYY-MM-DD HH:MM:00".
  - It inserts inside one transaction and counts the successful inserts.
  - It commits at the end, or rolls back on any exception.
- **The read endpoint (`get_backups.php`).**
  - It fills the fixed catalog skeleton with the stored rows, keeping the query's order.
  - It drops rows whose pair is not in the catalog.
  - It shows each stored DATETIME as "DD/MM/YYYY, HH:MM".

Modules, one per file:

| module | file | flavour |
|---|---|---|
| `Common` | `common.dfy` | `Option`, `Min` |
| `Text` | `text.dfy` | split, join, reverse, trim and decimal text on `seq<char>` |
| `DateText` | `dates.dfy` | the display and storage forms and the conversions between them |
| `Catalog` | `catalog.dfy` | the catalog and the table shape; category resolution |
| `Checklist` | `checklist.dfy` | pure per-item decisions, and the class `Page` whose `HandleSave` updates the table in a loop |
| `Export` | `export.dfy` | specification functions for the sheet, and methods that build it with nested loops |
| `SaveBackups` | `save_backups.dfy` | the batch specification, and the class `Connection` holding committed and staged rows |
| `GetBackups` | `get_backups.dfy` | grouping specification, counting lemmas, and the loop that fills the skeleton |

Three behaviours of the code that the model keeps:

- No list is trimmed to ten when it is read. The read endpoint returns every stored row of a
  catalog item, and `GroupedTotal` proves that nothing is dropped. Only the page's save
  action keeps ten.
- The page's save action updates its table and clears the selection unconditionally. It
  does not wait for the write to storage or look at its result. `Page.HandleSave` models the
  table update and the cleared selection; the write to storage is not modelled.
- An item with no backup has no badge at all, and its last backup reads "Nunca".

## Model

| member | source | states |
|---|---|---|
| `Catalog.Skeleton` | get_backups.php:21-33 | the skeleton has exactly the catalog's two levels of keys, and every list is empty |
| `Catalog.PairsAreCatalog` | index.js:1-13 | the seven listed pairs are exactly the catalog pairs |
| `Catalog.PairsDistinct` | index.js:1-13 | no pair is listed twice |
| `Catalog.ItemInOneCategory` | index.js:1-13 | no item name belongs to two categories, so an item resolves to at most one category |
| `Catalog.ShapedKeys` | get_backups.php:44 | on a table with the catalog's keys, a pair is present exactly when it is a catalog pair |
| `Catalog.FirstContaining` | index.js:204-206 | the result is a category, in key order, that holds the item, with no earlier one holding it; none exactly when no category holds it |
| `Catalog.CategoryOfShaped` | index.js:204-207 | on a catalog-shaped table an item resolves to its own catalog category, and to none when it is outside the catalog |
| `Catalog.CategoryOfSameKeys` | index.js:204-206 | resolution depends only on the keys, so updating lists never changes it |
| `Checklist.Record` | index.js:208-211 | the new list starts with the timestamp, has length min(old+1, 10), and its tail is the first min(old, 9) old entries |
| `Checklist.RecordAllKeepsNewest` | index.js:208-211 | after any number of saves, a list that started with at most ten entries holds the ten newest timestamps, newest first |
| `Checklist.LastBackup` | index.js:59-65 | the first entry when the list is non-empty, otherwise "Nunca" |
| `Checklist.DaysSince` | index.js:68-78 | no value exactly for an empty list; otherwise the clock's age of the newest entry's date part |
| `Checklist.OverdueBoundary` | index.js:83 | an item is overdue only with a day count above 7: 7 days is on time, 8 days is late, and more days stay late |
| `Checklist.BadgeFor` | index.js:89-94 | no badge exactly without a day count; "Hoy" exactly on day 0, otherwise "Hace N días" with N in decimal; "warning" style exactly when overdue (more than 7 days), "success" otherwise |
| `Checklist.BadgeTextsDiffer` | index.js:92 | different day counts give different badge texts |
| `Checklist.HistoryFor` | index.js:96-117 | a history section exists exactly when the list has more than one entry; it counts all entries and lists every entry after the newest |
| `Checklist.CreateBackupItem` | index.js:81-97 | the row is overdue exactly when its newest backup is more than 7 days old, and then its badge is the warning one; the last backup is the newest entry or "Nunca"; a badge exactly when there is a backup; a history section exactly when there are two or more |
| `Checklist.ViewAfterRecord` | index.js:81-98 | just after a save dated today, the row shows that timestamp, reads "Hoy", is not overdue, and its history lists the kept older entries |
| `Checklist.SaveButtonFor` | index.js:179-190 | the button is enabled exactly when some value of the selection is true |
| `Checklist.SaveKeepsShape` | index.js:202-214 | saving keeps both levels of keys and keeps every list within ten |
| `Checklist.SaveChecked` | index.js:202-212 | a checked item held by the table gets `Record(timestamp, old list)` |
| `Checklist.SaveUnchecked` | index.js:203 | an item that is not in the selection, or is selected as false, keeps its list |
| `Checklist.SaveUnknownItem` | index.js:204-207 | a checked name outside the catalog leaves the table unchanged |
| `Checklist.Page.Select` | index.js:170-173 | sets one selection entry and changes nothing else; checking an item enables the save button |
| `Checklist.Page.HandleSave` | index.js:199-221 | the table becomes `AfterSave` of the old table, selection and timestamp; the catalog keys and the ten-entry bound are kept; the selection is empty and the button disabled |
| `Text.JoinSplit` | index.js:71 | joining the pieces of a split with the same separator gives back the string |
| `Text.NatToString` | index.js:92 | the decimal text is non-empty, all digits, with no leading zero |
| `Text.ParseNatToString` | index.js:92 | the decimal text reads back as the number |
| `DateText.DatePartOfDated` | index.js:71 | for any text that starts with "DD/MM/YYYY, ", whatever time follows, the date built by split-reverse-join is "YYYY-MM-DD", which is the date half of the stored form |
| `DateText.DayTextOfDated` | index.js:256 | for any text that starts with "DD/MM/YYYY, ", the text before the first comma, trimmed, is that date |
| `DateText.ToStorageOfStamp` | save_backups.php:35-41 | "DD/MM/YYYY, HH:MM" converts to "YYYY-MM-DD HH:MM:00" (so "05/12/2024, 14:30" gives "2024-12-05 14:30:00") |
| `DateText.ToStorageOfDated` | save_backups.php:37-41 | text that starts with "DD/MM/YYYY, " is stored as "YYYY-MM-DD", a space, the text after ", " up to any further ", ", and ":00", whatever that time text looks like |
| `DateText.ToStorageOfDate` | save_backups.php:39-41 | a date with no ", " time part is stored at "00:00:00" |
| `DateText.FromStorage` | get_backups.php:41-42 | the display text of a DATETIME names the same calendar day and 24-hour time |
| `DateText.DisplayRoundTrip` | save_backups.php:37-41 | a display stamp of a calendar day converts to a DATETIME text of that day that reads back as the same stamp |
| `DateText.StorageRoundTrip` | get_backups.php:41-42 | a stored DATETIME, shown and converted again, comes back with its seconds set to zero |
| `Export.Capitalize` | index.js:248 | the result has the input's length and differs from it at most in the first character, which changes exactly when it is a lower-case letter, and then to an upper-case one |
| `Export.HasBackupOnSome` | index.js:255-258 | the scan finds a match exactly when some backup of the list is on that date |
| `Export.RowsOfCatalog` | index.js:245-264 | the nested walk gives one row per catalog pair, in catalog order |
| `Export.SheetLayout` | index.js:235-285 | the sheet is the header, 7 item rows, a blank row, "RESUMEN", a blank row, and 7 summary rows, each pair in order |
| `Export.MatrixCells` | index.js:238-262 | header and item rows have 2 + number of dates cells; a cell is "SÍ" exactly when some backup's pre-comma trimmed text equals the column date, and "NO" otherwise |
| `Export.MatrixCellsOfDated` | index.js:253-259 | for backups that start with "DD/MM/YYYY, ", whatever their time looks like, a cell is "SÍ" exactly when one of them was taken on that day |
| `Export.SummaryCells` | index.js:271-284 | the summary row has five cells: the capitalised category, the item, the last backup, "Sin copias" exactly without backups and "N días" otherwise, and ATRASADO exactly when overdue ("AL DÍA" otherwise) |
| `Export.MatrixLine` | index.js:247-262 | the row built by the date loop is the specified item row |
| `Export.HeaderLine` | index.js:238-242 | the header is the two labels followed by the dates |
| `Export.MatrixRows` | index.js:245-264 | the nested loops build the specified item rows |
| `Export.SummaryLine` | index.js:273-283 | the row built for one item has five cells: the capitalised category, the item, the last backup, "Sin copias" exactly when the item has no backup, and ATRASADO exactly when the item is overdue |
| `Export.SummaryRows` | index.js:271-285 | the nested loops build the specified summary rows |
| `Export.ExportToExcel` | index.js:224-285 | the array handed to the spreadsheet writer is `Sheet` of the table, the dates and the clock |
| `SaveBackups.RowOfReadsBack` | save_backups.php:37-45 | a complete entry with a display date is stored as a DATETIME text that reads back as that date |
| `SaveBackups.WantedFrom` | save_backups.php:29-45 | every row a batch wants to insert is the row of a complete entry, with categoria and item passed through unchanged |
| `SaveBackups.WantedCovers` | save_backups.php:29-45 | every complete entry's row is among the rows to insert, whatever its categoria and item |
| `SaveBackups.Batch` | save_backups.php:28-50 | the rows staged are among the wanted rows, and there are no more of them than complete entries |
| `SaveBackups.AllExecuted` | save_backups.php:29-50 | when every execute succeeds, the batch stages exactly the rows of the complete entries, in order |
| `SaveBackups.AbortsOnRaise` | save_backups.php:29-50 | a batch aborts exactly when one of its executes throws, one execute per complete entry |
| `SaveBackups.CountIsInserts` | save_backups.php:28-49 | insertCount equals the number of executes that returned true |
| `SaveBackups.Expected` | save_backups.php:14-16 | a missing or non-array `items` fails with "Datos inválidos"; success needs a connection, no thrown execute and a commit |
| `SaveBackups.Connection.BeginTransaction` | save_backups.php:26 | opens the transaction with nothing staged and the table unchanged |
| `SaveBackups.Connection.Execute` | save_backups.php:47-49 | reports success exactly when the insert happened, and then stages exactly that row; the table is unchanged |
| `SaveBackups.Connection.Commit` | save_backups.php:52 | the staged rows are appended to the table; a commit that throws changes nothing |
| `SaveBackups.Connection.RollBack` | save_backups.php:60-63 | the staged rows are discarded and the table is unchanged |
| `SaveBackups.Save` | save_backups.php:9-70 | on failure the response is 500 with the message and the table is unchanged; on success the table grows by exactly the staged rows, in order, and `count` is their number |
| `GetBackups.Collect` | get_backups.php:35-47 | an item's list holds display-form dates, no more than there are rows |
| `GetBackups.Append` | get_backups.php:44-45 | the date goes at the end of that item's list; both levels of keys and every other list stay as they were |
| `GetBackups.CollectConcat` | get_backups.php:35-46 | later rows come after earlier ones in each list, so the query's order (newest first) is kept |
| `GetBackups.CollectCounts` | get_backups.php:44-46 | each list has one entry per row of its pair: nothing is truncated |
| `GetBackups.GroupedSkeleton` | get_backups.php:21-33 | with no rows, or no catalog rows, the result is exactly the skeleton |
| `GetBackups.OutsideRowsIgnored` | get_backups.php:44-46 | rows outside the catalog add nothing to any list |
| `GetBackups.GroupedTotal` | get_backups.php:35-47 | the lists hold as many entries in all as there are rows with a catalog pair, which is at most the number of rows |
| `GetBackups.SavedThenRead` | get_backups.php:41-45 | a row saved from a display-form entry reads back as that same date, appended to its item's list |
| `GetBackups.Get` | get_backups.php:7-60 | an exception gives 500 with the message; otherwise the result has the catalog's keys and each list is the display dates of its pair's rows in row order |

## Left out

- DOM rendering, the HTML strings, `toggleHistory`, the event wiring and `alert` are left out. They are presentation. What the page shows is modelled as the `ItemView` values.
- `window.storage` loading and saving and the JSON round trip are left out. They are asynchronous I/O that swallows its errors. Loading a stored table that lacks the catalog's keys or has longer lists is not modelled; `Page.Valid` assumes the catalog shape.
- `getCurrentTimestamp`, `toLocaleString` and `toLocaleDateString` are left out because they are locale library calls. The save timestamp and the export's date columns are inputs.
- The clock arithmetic of `getDaysSince` is left out: the `Date` subtraction, `Math.abs` and `Math.floor`. It is a parameter `ageOf` applied to the date part that the model computes.
- XLSX workbook creation, column widths and the file name are left out because they are a foreign library and file output.
- The PDO connection, the statement and its bound parameters, the HTTP headers, `json_decode`/`json_encode`, `strtotime` and `date` are left out. What the database does is an input (`Backend`, `Fetch`). `date`/`strtotime` are modelled as string reformatting on well-formed DATETIME text.
- `GetBackups.Get` requires every stored date to be well-formed DATETIME text. The database column guarantees this. `strtotime` on other text is not modelled.
- Entries whose fields are numbers rather than strings are not modelled. A non-array element of `items` counts as an entry with every field absent, and it is skipped.
- A PHP date with fewer than three '/' parts reads the missing parts as "" (`DateText.Part`). The notices PHP prints for those are not modelled.
- The proved conversions cover only dates of the calendar with a four-digit year and a 24-hour time (`IsDisplayStamp`, `IsStorageStamp`). The DATETIME column holds only such dates. The write endpoint converts any text without checking it. What MySQL does with an impossible date, how `strtotime` rolls one over ("2024-02-31" becomes 2 March), and how `new Date` parses one are not modelled.
- The page's timestamps come from the locale formatter, which can give a 12-hour time such as "05/12/2024, 02:30 p. m.". The page-side lemmas need only the leading "DD/MM/YYYY, " (`DatePartOfDated`, `DayTextOfDated`, `MatrixCellsOfDated`). The write endpoint keeps such a time text as it is (`ToStorageOfDated`); what the database makes of it is not modelled.
- Checklist.DaysSince: the day count is always a natural number given by `ageOf`. The source's `NaN` for a date that `new Date` cannot parse, which the badge shows as "Hace NaN días", is not modelled.
- `toUpperCase` is modelled for ASCII letters only. The category names are ASCII.
- Iteration order of `Object.keys` over the selection is left open: `HandleSave` picks items in any order. This does not matter, because each item touches only its own list.
- `SaveBackups.Save`: a failure to connect or prepare the statement is modelled as a failure response that changes nothing. In the source, the `catch` still calls `rollBack` when `$conn` is set but no transaction was started; what PDO then throws escapes the handler, and that is not modelled.
- The exact JSON text of the responses is left out. The responses are the `Response` and `Reply` values.
