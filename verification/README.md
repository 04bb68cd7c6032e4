# Password manager: record and visibility bookkeeping

A Dafny model of the in-memory core of a small Tkinter password manager
(`PassStore.py`). The application keeps a list of credential records (url,
user name, password, comment, tags) and a dictionary whose keys are the
positions of the records whose password is shown in clear. From these it
fills a table. An empty search box shows every record. A search query shows
only the records whose lower-cased URL or user name contains the lower-cased
query. Passwords are masked with `*` unless revealed. Empty comments and tags
are shown as `-`. The user adds, imports, edits, deletes and reveals or hides
entries by selecting table rows.

The model is functional:

- `text.dfy` (`Text`) models lower-casing, Python's `in` substring test and the `*` mask.
- `store.dfy` (`Store`) models the record list, the visible-index set and the mutations by data index. This covers appending, extending, replacing an entry and hiding its password, deleting an entry and renumbering the visible keys, and toggling visibility.
- `table.dfy` (`Table`) models row rendering, the search filter, the view for a query and the mapping from a selected row to a data index. It also holds three methods: `RefreshTable` and `ScanMatches` are loops that mirror `refresh_table` and the matching loop of `search_entries`, and `SearchEntries` chooses between them as `search_entries` does.
- `session.dfy` (`Session`) models user actions on a selected row, a run of actions from the loaded state, and two small scenarios.

Records are identified by their position in the list, as the code does. A
design that gives every record a stable identifier would need no renumbering
on delete. The model follows the code instead and proves that its
renumbering keeps visibility attached to each surviving record.

## Model

| member | source | states |
|---|---|---|
| Text.LowerChar | PassStore.py:113-114 | each known capital becomes its own small letter (A-Z by 32, Latin-1 by 32, U+0400-U+040F by 80, U+0410-U+042F by 32), the result is never a capital, and every other character is unchanged |
| Text.Lower | PassStore.py:113-114 | the lower-cased string has the same length and is `LowerChar` applied at every position, so it contains no capital and keeps every non-capital character in place |
| Text.LowerExample | PassStore.py:100 | `BaNK` lower-cases to `bank`, and the Cyrillic `ПоЧТА` lower-cases to `почта` |
| Text.Contains | PassStore.py:117 | the empty string is in every string, and a string longer than the field is never in it |
| Text.LowerIdempotent | PassStore.py:100 | lower-casing an already lower-cased query changes nothing |
| Text.ContainsIsSubstring | PassStore.py:117 | the `in` test holds exactly when the query occurs at some position of the lower-cased field |
| Text.Mask | PassStore.py:121 | `"*" * n` has length n and holds only `*` |
| Store.Initial | PassStore.py:11-14 | the loaded list is kept as is, no password starts revealed, and the state satisfies the bounds invariant |
| Store.Add | PassStore.py:364 | length grows by one, the new record is last, earlier records and the visible set are unchanged, and bounds are kept |
| Store.Import | PassStore.py:247 | the result is the old records followed by the imported ones in file order, and the visible set is unchanged |
| Store.ImportIsRepeatedAdd | PassStore.py:247 | importing a list of records is the same as adding them one at a time, in file order |
| Store.Edit | PassStore.py:356-361 | only the record at the index is replaced and the length is unchanged; that index is no longer visible and every other visible index stays as it was |
| Store.Toggle | PassStore.py:227-237 | membership of exactly the toggled index flips, the records are unchanged, and bounds are kept |
| Store.ToggleTwice | PassStore.py:227-237 | toggling the same entry twice restores the original state |
| Store.Shift | PassStore.py:397-401 | a surviving key below the deleted index is kept and a key above it moves down by one |
| Store.Renumber | PassStore.py:395-402 | a key is in the new set iff it was below the deleted index and visible, or at or above it and its successor was visible |
| Store.Delete | PassStore.py:386-402 | length shrinks by one, records before the index are unchanged, records after it shift down by one, the visible keys are renumbered around the index, and bounds are kept |
| Store.DeleteKeepsVisibilityWithRecord | PassStore.py:388-402 | every surviving record moves to its shifted position and is visible there iff it was visible before |
| Table.Placeholder | PassStore.py:183-190 | an empty comment or tags value is shown as `-`; any other value is shown unchanged |
| Table.SecretCell | PassStore.py:177-180 | the password cell has the password's length; it is the password when revealed and all `*` otherwise |
| Table.MaskRevealsOnlyLength | PassStore.py:119-121 | two passwords of equal length have identical masked cells |
| Table.RenderRow | PassStore.py:176-198 | a row carries the record's url and user name, the real or masked password as its index's visibility says, and the placeholder-substituted comment and tags |
| Table.MatchesIsOccurrence | PassStore.py:113-117 | a record matches iff the lower-cased query occurs at some position of its lower-cased url or of its lower-cased user name |
| Table.MatchIgnoresFieldCase | PassStore.py:113-117 | lower-casing a record's url and user name never changes whether it matches a query |
| Table.MatchingIndicesStep | PassStore.py:112-117 | scanning one more record appends its index exactly when it matches |
| Table.MatchingIndices | PassStore.py:112-117 | the result is strictly increasing, in bounds, and no longer than the list; an index is in it iff its record's lower-cased url or user name contains the query |
| Table.ViewIndices | PassStore.py:98-117 | the indices shown for any query are in bounds, strictly increasing and no more than the records |
| Table.View | PassStore.py:133-139 | row k of the table renders the k-th shown record, and there are never more rows than records |
| Table.EmptyQueryShowsAll | PassStore.py:103-105 | an empty search box shows one row per record in stored order |
| Table.QueryShowsExactlyMatches | PassStore.py:112-139 | a non-empty query shows exactly the matching records, in stored order, with no more rows than records |
| Table.SearchIgnoresQueryCase | PassStore.py:100-117 | a query and its lower-cased form give the same table |
| Table.ToggleFlipsCell | PassStore.py:227-237 | after a toggle the entry's cell shows the password if it was masked and a full-length mask if it was shown; other rows are unchanged |
| Table.RefreshTable | PassStore.py:171-202 | the loop builds exactly the unfiltered view |
| Table.SearchEntries | PassStore.py:98-105 | the handler builds exactly the view for the query, falling back to the full table when the lower-cased query is empty |
| Table.ScanMatches | PassStore.py:112-139 | the loop builds exactly the rows of the matching records, in stored order |
| Table.ResolveRow | PassStore.py:222 | a selected row resolves iff something is selected inside the view; the resolved index is a shown, in-bounds index with exactly `row` shown indices below it, and the row renders its record |
| Table.RankDeterminesIndex | PassStore.py:222 | two shown indices with the same number of shown indices below them are equal, so the rank in the view fixes the data index |
| Table.ResolveIsIdentityUnfiltered | PassStore.py:176 | without a filter a row's position is its data index |
| Table.ToggleCellAsWritten | PassStore.py:227-236 | the cell written into the selected row on a toggle has the length of the password of the record at the row's position, and is that password when it was hidden and its mask when it was shown |
| Table.AsWrittenToggleShowsOtherPassword | PassStore.py:227-236 | under the query "bank" a toggle of the only row writes the first record's password `pa` into the row showing the second record, where a refill would show `**` |
| Table.ResolveRowAsWritten | PassStore.py:222 | the application's lookup returns the row position itself as the data index |
| Table.AsWrittenAgreesUnfiltered | PassStore.py:103-105 | the application's lookup and the resolved lookup agree while the search box is empty |
| Table.AsWrittenPicksWrongRecordUnderFilter | PassStore.py:112-117 | under the query "bank" the only row shows the second record, yet the application's lookup selects the first |
| Session.Select | PassStore.py:222 | a selection resolves iff a row of the view is selected; the index is in bounds and is the view lookup's or the row position, as the lookup says |
| Session.Step | PassStore.py:204-393 | toggle, import, add/edit save and delete: an action on a row fails with no selection, changing nothing, exactly when no row of the view is selected; add and import append; a declined delete changes nothing; edit, confirmed delete and toggle apply to the selected index; bounds are kept |
| Session.Run | PassStore.py:204-406 | running no action leaves the state as it is; after any sequence of actions, under either lookup, every visible key still names a stored record |
| Session.SessionKeepsBounded | PassStore.py:13-14 | a session started from any loaded list never has a dangling visible key, in the application as written and with the corrected lookup |
| Session.ToggleFromRowFlipsShownCell | PassStore.py:227-237 | toggling from a row of a possibly filtered table, through the view, flips the password cell of that same row and leaves the other rows unchanged |
| Session.AddRevealDeleteScenario | PassStore.py:176-198 | one added entry shows as `*******`, `-`, `-`; revealing it shows `hunter2`; deleting it empties the table |
| Session.SearchScenario | PassStore.py:112-117 | with entries for `bob` and `alice`, the query `bo` keeps only the first |
| Session.OnlyBobMatches | PassStore.py:112-117 | of the entries for `bob` and `alice`, only the first matches `bo` |

## Left out

- The Tkinter user interface is not modelled: frames, the table widget, scroll bars, dialogs, message boxes, the context menu and click coordinates. A selection is a row position or nothing.
- The table handles stored as values of the visibility dictionary are not modelled, only its keys. Rewriting those values during a search changes no key.
- CSV reading and writing through pandas is not modelled. `Store.Initial` takes the loaded list as a parameter, and a failed load is `Initial([])`. The save after every mutation is not modelled either. Missing cells are taken as empty strings, which stands in for `fillna` and the `pd.isna` checks. This also applies to imported files, although `import_csv` never calls `fillna`. In the application an imported empty cell stays NaN. Its url or user name then reads as `"nan"` in a search, and its password makes the table refresh raise an error after the list has been extended. Non-string cells converted with `str` are not modelled.
- Clipboard copying (`copy_selected`) is not modelled because it is a foreign call. Its index lookup is the same one covered by the finding below.
- Prefilling the edit form is form handling, so it is not modelled. `Session.Step` receives the record the user saved.
- The delete confirmation dialog is modelled only by its answer, the `confirmed` flag.
- After an add, edit or delete, the application refills the full table even if the search box still holds text. `Event.query` is therefore the filter the displayed table reflects, not the text in the search box.
- A toggle does not refill the table. It patches the selected row in place with the cell `Table.ToggleCellAsWritten` computes from the record at the row's position. Under a filter that cell can belong to a different record than the row shows, as `Table.AsWrittenToggleShowsOtherPassword` proves. After an as-written toggle the displayed table can differ from `Table.View`. The model of the table state is `Table.View`, and the patched cell is modelled only by `Table.ToggleCellAsWritten`.
- Text.LowerChar, Text.Lower: lower-casing covers only ASCII A-Z, the Latin-1 capitals and the basic Cyrillic capitals U+0400-U+042F. Other Cyrillic capitals, such as U+0490, and the Cyrillic Supplement are left unchanged. Python's `str.lower` covers all of Unicode, including mappings that change the string's length.
- Text.LowerIdempotent: lower-casing covers only ASCII A-Z, the Latin-1 capitals and the basic Cyrillic capitals U+0400-U+042F. Python's `str.lower` covers all of Unicode, including mappings that change the string's length.
- Store.Toggle: data-index operations require the index to be in range. The application would raise `IndexError` on an out-of-range index, but it never produces one, because the index comes from an existing row.

## Findings

| source | as written | input that shows it | evidently intended | confidence | as-written member | corrected member |
|---|---|---|---|---|---|---|
| PassStore.py:222 | The selected row's position in the displayed table is used as the index into the record list. The same lookup appears at lines 278, 356, 386 and 423. | Take records (`ab`, `c`) and (`bank`, `bob`) and search for `bank`. Select the only row, which shows the second record. | The action applies to the record shown in the selected row, index 1. | high (not executed) | Table.ResolveRowAsWritten | Table.ResolveRow |

The as-written lookup selects index 0, the first record, as
`Table.AsWrittenPicksWrongRecordUnderFilter` proves. So under a filter that
hides a record before the selected one, toggling, editing, deleting or copying
can act on a record the user did not select. A filter that keeps a prefix of
the list leaves the positions unchanged and picks the right record. A toggle
can do worse: it writes the password of the record at the row's position into
the selected row, which may show another record.
`Table.AsWrittenToggleShowsOtherPassword` proves that under the query `bank`
the row showing `bank`/`bob` then displays the first record's password `pa`.
`Session.Step` and `Session.Run` take the lookup as a parameter. `ByPosition`
is the application as written, and `ThroughView` is the corrected lookup
through `Table.ResolveRow`.
