# Emotions diary bot: the diary store

A Telegram bot keeps an emotions diary for each user. Every text message a user
sends becomes an entry (its date, the situation text, and empty "facts" and
"emotions" fields) appended to that user's list in `diary.json`. After each
message the whole diary is copied into the spreadsheet `diary.xlsx`, which the
`/export` command sends back. This project models that store in Dafny:

- `wrappers.dfy` — `Option`, `Result` and `Outcome` values for absent keys and
  raised exceptions.
- `diary.dfy` — the diary: an entry is a map from field name to string; the JSON
  object is a `Dict` of its keys in insertion order (Python dicts and `json.load`
  keep that order, and the spreadsheet rows follow it) together with the
  key-to-list map, with distinct keys and the same keys on both sides. `Assign`
  is Python's `d[k] = v`, `NewEntry` the entry built for a message, `Recorded` the
  diary once a message is stored.
- `workbook.dfy` — the spreadsheet as a sequence of rows: the header, the row of
  one entry, the (user, entry) pairs the nested loops of `save_to_excel` visit,
  the `KeyError` those loops raise on an incomplete entry (`FirstMissing`), and
  the lemmas about how recording a message changes the visited pairs and rows.
- `bot.dfy` — the handlers. `LoadData` is a function of the file state; the two
  files are the fields of the class `DiaryStore` (`diaryJson`: no file, a diary, or
  text `json.load` rejects; `diaryXlsx`: no file, or its rows), and `SaveData`,
  `SaveToExcel`, `HandleText` and `ExportData` are its methods. `SaveToExcel`
  runs the two nested loops of `save_to_excel`, the inner one as the method
  `AppendRows`, each proved against the row sequence `Rows(Items(data))`.

What the code does, and the model with it:

- Every message rewrites the spreadsheet from the whole diary without clearing
  it, so every earlier entry is appended again: the sheet grows by the diary's
  total number of entries, not by one row (`HandleText`, `RepeatedRows`).
- The new entry's row lands after its user's earlier rows. It is the last row of
  the sheet when the sender is new or is the last key of the diary
  (`RecordedLastRow`). When the sender is an earlier key and the last key holds
  an entry (as in every diary the bot wrote itself), the last row is that key's
  last entry, not the new one (`RecordedNotLastRow`). So the last row after a
  message is, in general, not that message's entry.
- An entry without a situation, facts or emotions field makes `save_to_excel`
  raise `KeyError` before `workbook.save`, so the spreadsheet keeps its old
  content while `diary.json` already holds the new entry. The entries the bot
  itself writes are complete, so a diary that raises once raises on every later
  message (`RecordedKeepsFirstMissing`).

## Model

| member | source | states |
|---|---|---|
| Diary.Assign | bot.py:50-51 | `d[u] = es`: an existing key keeps its place, a new key goes last; u maps to es and every other key keeps its list |
| Diary.NewEntry | bot.py:54-59 | the entry has exactly the four keys date, situation, facts, emotions; the date and the text are stored, facts and emotions are empty |
| Diary.Recorded | bot.py:49-59 | the only key added is the sender's; the sender's list is the old one (empty for a new sender) plus the entry at the end; a new sender becomes the last key; every other list is unchanged |
| Bot.AppendIsRecorded | bot.py:49-59 | creating an empty list for a new sender and then appending the entry to the sender's list yields exactly `Recorded` |
| Bot.LoadData | bot.py:14-19 | a missing file loads as the empty diary, a written diary loads as itself, and only unparsable content fails |
| Bot.DiaryStore.SaveData | bot.py:21-23 | the file is replaced by the diary, and loading it next yields exactly that diary |
| Bot.DiaryStore.SaveToExcel | bot.py:25-38 | with every entry complete, the saved sheet is the header (new file) or the old rows, followed by one row per entry in user then list order; the old rows are a prefix; the sheet grows by the total number of entries; otherwise it raises the first missing key and the file is unchanged |
| Bot.AppendRows | bot.py:35-36 | the inner loop appends one row per entry of the user in list order, or reports the key missing from the first incomplete entry |
| Bot.UserStopsAt | bot.py:35-36 | an incomplete entry reached after complete ones raises its own missing key for the whole user |
| Bot.StopsAt | bot.py:34-36 | a `KeyError` inside the i-th user's entries, reached after complete earlier users, is the one the whole diary raises |
| Bot.DiaryStore.HandleText | bot.py:44-64 | an unparsable diary.json fails and changes nothing; otherwise diary.json holds `Recorded(before, user, entry)`; if the stored diary had no incomplete entry the reply is sent, the sheet gets the rows of the whole new diary (total entries + 1 rows), else the same `KeyError` as before is raised and diary.xlsx is unchanged |
| Bot.DiaryStore.ExportData | bot.py:66-71 | the document (diary.xlsx, with its caption) is sent exactly when the spreadsheet exists, and the "diary is empty" text otherwise |
| Bot.RepeatedRows | bot.py:61-62 | two messages from one user on fresh files give the sheet `[header, row1]` and then `[header, row1, row1, row2]` |
| Bot.FirstMessage | bot.py:49-62 | a first message on a fresh diary makes its sender the only key, raises no `KeyError`, and gives the single row `[date, user, text, "", ""]` |
| Workbook.Opened | bot.py:26-32 | the sheet save_to_excel starts from: a missing file gives a new sheet holding only the header, an existing file its saved rows with no header added |
| Workbook.Complete | bot.py:36 | an entry's row can be built exactly when it has the situation, facts and emotions fields; only the date has a default (a predicate; `MissingKey` and `FirstMissingNone` tie it to the `KeyError`) |
| Workbook.Items | bot.py:34-35 | the (user, entry) pairs the loops visit: the keys in dict order and, within a key, its entries in list order (`ItemsAt` pins each entry's position) |
| Workbook.Rows | bot.py:34-36 | the rows the loops append: one row per visited pair, in visiting order |
| Workbook.FirstMissing | bot.py:34-36 | the `KeyError` the loops raise: the missing key of the first incomplete entry in visiting order, or none (`FirstMissingNone` and `FirstMissingAt` characterise it) |
| Workbook.RowOf | bot.py:36 | a row has as many cells as the header |
| Workbook.NewEntryRow | bot.py:36 | the entry built for a message is complete, and its row is `[date, user, text, "", ""]` |
| Workbook.RowUser | bot.py:36 | the second cell of an entry's row is its user id |
| Workbook.MissingKey | bot.py:36 | no key is missing exactly when situation, facts and emotions are present; a reported key is absent from the entry and one of those three; the lookups go situation, then facts, then emotions, so an entry missing several keys reports the first of them |
| Workbook.ItemsOf | bot.py:34-35 | the loops visit one pair per entry of the visited keys |
| Workbook.ItemsVisitedBefore | bot.py:34-35 | the pairs visited before entry j of the i-th user are a prefix of all the pairs |
| Workbook.ItemsAt | bot.py:34-35 | entry j of the i-th user is visited right after the entries of the users before it and its own first j entries |
| Workbook.RowsAt | bot.py:34-36 | there is one row per entry, and row `EntryCount(users[..i]) + j` is the row of entry j of the i-th user |
| Workbook.FirstMissingNone | bot.py:34-36 | no `KeyError` is raised exactly when every visited entry is complete |
| Workbook.FirstMissingAt | bot.py:34-36 | the raised key is that of the first incomplete entry |
| Workbook.FirstMissingConcat | bot.py:34-36 | a `KeyError` in an earlier run of pairs wins over any later one |
| Workbook.FirstMissingSnoc | bot.py:34-36 | one more pair raises its own missing key only when none was raised before |
| Workbook.RecordedItems | bot.py:49-62 | recording inserts the new pair right after the sender's earlier pairs (at the end for a new sender), all other pairs keep their order |
| Workbook.RecordedTotal | bot.py:49-62 | recording adds exactly one entry to the total |
| Workbook.RecordedRows | bot.py:49-62 | the rows of the new diary are the old rows with the new entry's row inserted at the same place, one row more |
| Workbook.RecordedLastRow | bot.py:49-62 | for a new sender or the last key, the new rows are the old rows followed by the new entry's row |
| Workbook.RecordedNotLastRow | bot.py:49-62 | for an existing sender who is not the last key, while the last key holds an entry, the last row stays the last key's last entry and does not carry the sender's id |
| Workbook.RecordedKeepsFirstMissing | bot.py:49-62 | recording a complete entry leaves the raised `KeyError` (or its absence) unchanged |
| Workbook.FirstMissingInsert | bot.py:34-36 | inserting a complete entry anywhere leaves the raised `KeyError` unchanged |
| Workbook.RowsInsert | bot.py:34-36 | inserting a pair inserts its row at the same place among the rows |

## Left out

- The `/start` handler, handler registration, the webhook, the port and host lookup, the bot token and logging (bot.py:8-12, bot.py:40-42, bot.py:73-89): transport with no logic of the store.
- voice.py is not part of this model: it downloads audio, calls a speech-to-text service and routes a web hook.
- Telegram I/O: a handler's reply is its return value (`HandleText`'s reply text, `ExportData`'s `Reply`), and the sender id and message date arrive as strings; `strftime` formatting is not modelled, the date is an opaque string.
- JSON encoding (`ensure_ascii`, `indent`) and the file system: diary.json is abstract state. Bot.LoadData: every read error other than a missing file (malformed JSON, a permission or encoding error) is one `Unparsable` state raising one error value.
- Diary.Recorded: assumes diary.json holds an object mapping user ids to lists of objects with string values; other JSON shapes (a top-level list, a number where an entry's field is) are not modelled.
- openpyxl internals: a sheet is the list of its rows as appended; cell types, reading empty strings back as empty cells, trailing blank rows, an unreadable xlsx and the active-sheet choice are not modelled.
- Workbook.RowOf: is total, with an empty-string fallback for situation, facts and emotions; the source never builds a row for an entry missing one of them (it raises), and `SaveToExcel` only uses rows of complete entries.
- Concurrency, locking and atomic replacement: the code has none, and a handler runs from load to save without yielding.
- The language-model analysis of entries: it is not in this code.
