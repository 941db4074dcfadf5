# Quotation management: the estimate store and its helpers, in Dafny

This project models the sequential core of a small quotation application and
proves properties about the model. The application prices catalogue items,
saves estimates in a versioned SQLite store and lists them in a history.

- **The versioned-record store** (`database.py`). An estimate is a record:
  - a customer payload and a company payload;
  - a total, a file name and an `is_final` flag;
  - a `created_at` time;
  - a `root_id` that ties it to a *lineage* (all versions of one estimate) and
    a `parent_id` that names the record it was revised from;
  - its own list of line items.

  `save_estimate` either refreshes the lineage's final record in place, adds a
  revision to an existing lineage, or starts a new lineage whose root is the
  new record itself. It then replaces that record's items wholesale. Any
  failing statement rolls the whole transaction back. `get_estimate_version`
  counts the lineage's records created no later than the given one.
  `get_estimate_history` lists every record newest first, with a `final` or
  `vN` label and a `[최신]` (latest) marker. `load_estimate` merges the two
  payloads.
- **The application helpers** (`main.py`):
  - the file name a saved estimate gets (`generate_filename`);
  - the split of the "name/position" field;
  - the version label proposed for the next save;
  - the one-line summary of a history entry.
- **Line items** (`estimate_handler.py`):
  - turning quantities typed against the catalogue into priced line items;
  - totalling them.

Modules:

- `Wrappers`: `Option` and `Result`.
- `Text`: the part of Python's `str` the code relies on: `strip`, `split`,
  `join`, `replace`, `int`, `str` and `{:,}` grouping.
- `Estimates`: `estimate_handler.py`.
- `Database`: the store, the save protocol, the version count and the load.
- `SaveProperties`: what a save does, branch by branch, its rollback and its
  invariant.
- `History`: the history query.
- `Versions`: versions against saves and loads.
- `App`: the `main.py` helpers.

Things the model takes as parameters:

- The SQLite clock `CURRENT_TIMESTAMP` is a caller-supplied natural number
  `now`.
- An exception inside the save transaction is a parameter `fault`: the number
  of the SQL statement that raises.
- The formatted estimate date and the stored `created_at` text are passed in
  as strings.

## Model

| member | source | states |
|---|---|---|
| Database.GetEstimateVersion | database.py:62-82 | An unknown id counts 0. A record that belongs to a lineage has a version between 1 and the size of that lineage. |
| Database.FindFinalFrom | database.py:107-111 | The final-record lookup, a scan in rowid order, only ever returns a final record of the given lineage inside the scanned range. When it returns nothing, no record in that range is final in that lineage. |
| Database.LoadEstimate | database.py:181-223 | An unknown id gives the `(None, None)` result, and only an unknown id does. Otherwise the keys are the customer and company keys plus `estimate_id` and `is_final`. Company fields win over customer fields. `estimate_id` is the id and `is_final` is 1 or 0. The items are exactly that record's item rows. |
| Database.Merged | database.py:199-204 | Customer fields overlaid by company fields overlaid by the two integer columns: key set, precedence and values. |
| SaveProperties.SaveCommitted | database.py:87-170 | A save that raises nothing returns the id of the record it wrote. The records table becomes the one the chosen branch describes. The AUTOINCREMENT counter moves only when a row is inserted. The written record's items are exactly the supplied items, and every other record's items are unchanged. |
| SaveProperties.SaveAllOrNothing | database.py:92-176 | Whatever statement raises, the call either fails and leaves the store exactly as before, or ends exactly as a save with no exception would. |
| SaveProperties.SaveFailsOnlyByFault | database.py:92-176 | A save with no exception succeeds. A failed save re-raises the exception of the statement that failed and leaves the store untouched. |
| SaveProperties.FailureNamesFault | database.py:172-176 | A failing transaction always fails with the exception of the injected statement. |
| SaveProperties.FindFinalIsTheFinal | database.py:107-111 | In a well-formed store, the final-record lookup finds a record exactly when the lineage has a final one, and then it finds that unique record. |
| SaveProperties.SaveStartsNewLineage | database.py:137-152 | With no parent, or a parent id that is 0 or names no row, the save inserts exactly one record under the next id. That record has `root_id` equal to its own id and no parent, and its lineage is just itself. |
| SaveProperties.SaveAddsRevision | database.py:96-136 | When the parent resolves and the save does not refresh a final record, exactly one record is inserted under the next id. It adopts the parent's `root_id`, keeps the given `parent_id`, and grows that lineage by itself. |
| SaveProperties.SaveFinalizesInPlace | database.py:104-126 | A final save into a lineage that has a final record updates that record in place: payloads, total, file name and `updated_at` change. No record is added. Root, parent, finality and `created_at` stay, and every other record is untouched. |
| SaveProperties.UpdateFinalKeepsLinks | database.py:117-126 | The in-place update keeps the key set, every record's root, parent, finality and creation time, and every lineage. |
| SaveProperties.SaveReplacesItems | database.py:154-166 | After any successful save, the saved record's items are exactly the supplied ones, and every other record's items are unchanged. |
| SaveProperties.SavePreservesWellFormed | database.py:87-176 | From a well-formed store, every save leaves a well-formed store, whether it commits or rolls back. Well-formed means all of the following. Ids are within the counter, and items belong only to existing records. Every record's root exists and is its own root. A record has no parent exactly when it is its own root, and a parent is an earlier record of the same lineage. Each lineage has at most one final record. |
| SaveProperties.RunSavesWellFormed | database.py:87-176 | Any sequence of saves, each committing or rolling back, keeps a well-formed store well-formed. |
| SaveProperties.SavesFromEmptyKeepOneFinal | database.py:18-58 | Starting from the empty tables `create_tables` makes, after any sequence of saves the store is well-formed, and each lineage has at most one final record. |
| History.RowNumber | database.py:245-251 | `ROW_NUMBER()` within the `root_id` partition is between 1 and the partition size. |
| History.RowNumberInjective | database.py:245-251 | Two records of one partition never get the same row number. |
| History.RowNumberVersion | database.py:62-82 | The history's row number never exceeds `get_estimate_version`. The two agree when creation times within the lineage are distinct. |
| History.NewestFirst | database.py:275 | `ORDER BY created_at DESC`: every id exactly once, with creation times non-increasing. |
| History.GetEstimateHistory | database.py:229-305 | One entry per record and each record once. Every entry is its record's entry: status, defaults, total and row number. Entries are ordered by `created_at` descending. |
| History.EntriesFollowOrder | database.py:278-303 | Building entries along an ordering of all ids keeps the ids, the distinctness and the time order. |
| History.StatusReadsBack | database.py:259-291 | The status is `final` exactly for final records. Otherwise it splits into `v` followed by a number that parses back to the row number. A second word is present exactly when the record is the latest of its lineage, and that word is `[최신]`. |
| History.LatestExists | database.py:236-271 | Every non-empty lineage has a record flagged latest. |
| History.EntryDefaults | database.py:293-303 | A missing customer name, subject or date becomes `''`, and a NULL total becomes 0. Present values are copied as they are. |
| Versions.VersionMonotone | database.py:62-82 | Within a lineage, a record created no later has a version no larger, and one created strictly earlier has a strictly smaller version. |
| Versions.VersionOfNewest | database.py:62-82 | A record's version equals its lineage's size exactly when no record of the lineage was created after it. |
| Versions.SaveRevisionVersions | database.py:127-136 | With a clock later than every record, a new revision gets version "lineage size + 1", and no existing version changes. |
| Versions.SaveNewLineageVersions | database.py:137-152 | With a later clock, a new lineage's first record has version 1, and no existing version changes. |
| Versions.SaveInPlaceVersions | database.py:113-126 | Refreshing the final record in place changes no version. |
| Versions.LoadAfterSave | database.py:87-223 | Loading the id a successful save returned gives back the saved payloads overlaid in the load order, the requested finality and exactly the saved items. |
| Estimates.Categories | estimate_handler.py:15 | `unique()`: the categories appear once each, and they are exactly the categories of the catalogue rows. |
| Estimates.CategoriesInFirstAppearanceOrder | estimate_handler.py:15 | `unique()` keeps first-appearance order. Whenever one category is listed after another, every row of the later category has a row of the earlier one before it. |
| Estimates.Enumerate | estimate_handler.py:16-17 | `reset_index` with `iterrows`: each row of a category is paired with its position inside that category. |
| Estimates.SlotsArePermutationOfCatalog | estimate_handler.py:15-17 | Walking the catalogue category by category visits every catalogue row exactly once, as a multiset. Categories are text values here; see Left out for empty category cells. |
| Estimates.QtyKeyInjective | estimate_handler.py:18 | Different (category, index) pairs get different `qty_{cat}_{i}` widget keys. |
| Estimates.ProcessSelectedItems | estimate_handler.py:9-30 | The nested loop over categories and rows gives the same result as one pass over the flat list of catalogue slots. |
| Estimates.SelectConcat | estimate_handler.py:15-30 | Processing two runs of slots one after the other is processing their concatenation: items in order, and the first failure wins. |
| Estimates.ProcessFailsIff | estimate_handler.py:17-21 | `process_selected_items` raises exactly when some catalogue row with a positive quantity has a price text that, once its commas are removed and it is stripped, does not parse as an integer. |
| Estimates.ProcessedItemsArePriced | estimate_handler.py:18-28 | Every produced item has a positive quantity and amount = quantity × unit price. |
| Estimates.ProcessedItemOrigin | estimate_handler.py:17-28 | There is exactly one item per selected row, in order. Item k copies the code, name and unit of the k-th selected row. Its unit price parses from the comma-stripped price text, its positive quantity is the one stored under the row's widget key, and its amount is quantity × unit price. |
| Estimates.NothingSelectedGivesNoItems | estimate_handler.py:18-34 | With no positive quantity, no items are produced and their total is 0. |
| Estimates.TotalConcat | estimate_handler.py:32-34 | The total of two lists of items, one after the other, is the sum of their totals. |
| Estimates.TotalOfProcessed | estimate_handler.py:28-34 | `calculate_total` of the processed items equals the sum of the produced amounts. |
| Text.Strip | main.py:228-229 | `strip()` leaves no whitespace at either end and adds no characters. It is the identity on stripped text, and gives empty exactly for all-whitespace text. |
| Text.StripIsSlice | main.py:228-229 | `strip()` returns a slice of its input with only whitespace before and after it. Since that slice is itself stripped, it runs from the first to the last non-whitespace character. |
| Text.WordsOfStrip | main.py:130 | `s.strip().split() == s.split()`: whitespace splitting ignores the whitespace around the text. |
| Text.KeepAlnumOrSpace | main.py:224-225 | The character filter keeps a character exactly when it is in the input and is a letter, a digit or whitespace. |
| Text.KeepAlnumOrSpaceOne | main.py:224-225 | On one character, the filter gives that character when it is a letter, a digit or whitespace, and nothing otherwise. |
| Text.KeepAlnumOrSpaceConcat | main.py:224-225 | The filter of a concatenation is the concatenation of the filters. With the one-character case this fixes the result: the kept characters, in input order, repeats included. |
| Text.SplitOn | main.py:127 | `split('/')` gives one more part than there are `/`. No part contains `/`, and joining the parts with `/` gives the input back. |
| Text.WordsOfJoin | main.py:130-133 | `split()` of a single-space join of words gives the words back. |
| Text.UngroupFormatThousands | main.py:22 | Removing the commas of `{:,}` grouping gives the plain decimal text of the number. |
| Text.ParseIntOfIntToString | estimate_handler.py:21 | `int(str(n)) == n` for every integer. |
| App.CompanyPartShape | main.py:224-232 | The company part of a file name is never empty, has no `_` and is stripped. It is `NoCompany` when the name has no letter or digit. Otherwise it is the cleaned name: the name filtered to letters, digits and whitespace, then stripped. |
| App.ProjectPartShape | main.py:225-237 | The project part has one to four characters and no `_`. It is the start of the cleaned project name, or `NoPr` when nothing is left after cleaning. |
| App.CompanyPartIdempotent | main.py:224-232 | Cleaning an already cleaned company part changes nothing. |
| App.FilenameReadsBack | main.py:208-240 | The file name starts with the date text. Splitting the rest at its first two `_` gives back the company part, the project part and the version text, whatever the version text contains. |
| App.SplitNamePosition | main.py:125-135 | The name/position split fails (Python's two-target unpacking raises) exactly when the field has two or more `/`. |
| App.SplitWithoutSlash | main.py:128-135 | For any field without `/`, surrounding whitespace included: with two or more whitespace-separated words, the last word is the position and the others, joined by single spaces, are the name. Otherwise the field is kept exactly as typed, with an empty position. |
| App.SplitAtSlash | main.py:126-127 | With exactly one `/`, the name and position are the stripped texts on either side of it. |
| App.PrefillRoundTrip | main.py:105-135 | The field is pre-filled with name and position joined by a space. Splitting it gives back a name of single-spaced words together with a one-word position. |
| App.PrefillRoundTripNoPosition | main.py:105-135 | A one-word name with an empty position also survives the pre-fill and split. |
| App.PrefillMovesLastWord | main.py:105-135 | A multi-word name saved with an empty position does not survive. After the pre-fill and split, its last word comes back as the position. |
| App.NextLabelReadsBack | main.py:286-291 | The proposed label is `final` exactly when there is a current estimate and the session is final. Otherwise it is `v` followed by a number that parses back to the current version plus one, or 1 when there is no current estimate. |
| App.ChosenVersion | main.py:293-304 | Ticking the final box forces `final`. Otherwise the text the user typed is used, and with nothing typed the proposed label is used. |
| App.NextLabelNamesSavedVersion | main.py:286-291 | A non-final save of a revision of the current estimate, with a later clock, commits. The proposed label names the version the new record actually gets exactly when the current record is the newest of its lineage. |
| App.AmountTextReadsBack | main.py:22 | The amount text of a history line reads back through the catalogue's price parser as the amount. |
| App.HistoryItemShape | main.py:18-27 | With a file name, the line is the file name, ` - `, the amount text, then `원`. Removing the amount text's commas gives `str(total)`, and the amount text parses back to the total. Without a file name, the line is the customer name, ` - `, the subject, ` (`, the date, `) ` and the status. The date shown is the estimate date, or else the creation time cut to its first ten characters (all of it when shorter). |

## Left out

- Streamlit rendering, widgets and `st.session_state`: `render_*` (apart from the helpers above), `clear_session_state`, `load_estimate_to_session` and `run`. These are user interface code over global state. The session values they read are parameters of the helpers.
- SQLite connections, SQL text and JSON (de)serialisation. The tables are an in-memory map; payloads are maps from text keys to text values.
- The `created_at` clock is a natural-number parameter, not the one-second `CURRENT_TIMESTAMP`. Equal times are allowed everywhere.
- PDF generation in `estimate_handler.py` (fpdf) and HTML templating in `estimate_template.py` (jinja2): foreign libraries and file I/O.
- `data_manager.py`: a thin layer over the store, plus pandas CSV reading and writing. It builds the two payloads from the session's fields and re-wraps exceptions, and `save_estimate` itself is modelled directly.
- Database.StartLineage: the `if estimate_id:` guards at database.py:149 and 154 are always taken in the model, because an inserted row's id is at least 1.
- App.ChosenVersion: the version box being disabled while the session is final is not modelled. A caller passes `None` for text the user could not type.
- `Estimate_App.py` and `Quote_Reload_App.py`: standalone Streamlit scripts over CSV files.
- Floating-point amounts and `{:,.0f}`: amounts are integers, and `{:,.0f}` of an integer is modelled as `{:,}`.
- `strptime`/`today()` in `generate_filename`: the formatted `(YYYY-MM-DD)` date text is a parameter.
- Two sessions finalising the same lineage concurrently: saves are sequential here.
- History.GetEstimateHistory: the `except` path that returns `[]` on a query error is not modelled, because the modelled query cannot fail.
- History.GetEstimateHistory: SQL leaves the order of rows with equal `created_at` open, and so does the model, which picks any order.
- History.RowNumber: SQL leaves the order of equal `created_at` values inside a `ROW_NUMBER()` partition open. The model breaks those ties by `estimate_id`.
- History.EntryDefaults: `row[1] or ''` also turns a stored empty or falsy JSON value into `''`. The model stores text only, so the default applies to missing keys.
- pandas NaN cells: an empty `분류` cell is NaN, and `df['분류'] == nan` selects no row, so the handler never visits such rows. The model's categories are always text, so every row is visited; Estimates.SlotsArePermutationOfCatalog holds only for catalogues without empty category cells.
- Estimates.ParsePrice: the handler parses `str(row['기본단가'])`, the text pandas gives for the cell value. A price column with a missing cell is read as floats, `str` then gives text such as `1000.0`, and `int()` raises for every selected row. The model takes the price text as given and does not model pandas type inference.
- `df.columns = df.columns.str.strip()` (estimate_handler.py:13) renames the caller's columns in place. The model's catalogue rows have fixed fields, so there are no column names to strip.
- The `print` of the error before re-raising in `save_estimate` (database.py:175) is console output and is not modelled.
- Text.IsAlnum: `str.isalnum` is modelled for ASCII letters and digits and the Hangul syllable block only. Other Unicode letters and digits count as removed characters in file names.
- Text.ParseInt: Python's `int()` also accepts `_` between digits and non-ASCII decimal digits. The model accepts an optional sign followed by ASCII digits only.
- App.ProjectPartShape: the project part is not idempotent under cleaning: a cut such as `ab c` → `ab c` is, but `abc d` → `abc ` ends in a space, so no idempotence is claimed.
