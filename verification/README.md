# DataFrame group manager — a Dafny model of its core

The application keeps named **groups** of data files. It loads a group into one
combined table, applies a **null policy** to it, and lets the user edit the
group registry from its window.

This project models that core in Dafny:

- **Loading a group** (`load_dataframe_group`), in module `Loader`:
  - an unknown or empty group gives no table;
  - a missing file is reported before anything is read;
  - every path is sent to the reader its lower-cased suffix selects: `.csv`, `.xls`/`.xlsx`, or the whitespace-delimited `.rowout` log;
  - a path with an unrecognised suffix is skipped;
  - the tables read are stacked;
  - if stacking reports duplicate column names, column `c` of table `i` is renamed `c_i` and stacking is tried once more.
- **The `.rowout` reader**, in module `Readers`:
  - the first line, split on whitespace, gives the headers;
  - every further non-blank line gives a row, padded with missing values or truncated to the header width;
  - a `FILE_NAME` column holding the file's stem is put first.
- **Stacking**, in module `Concat`:
  - `pd.concat(..., ignore_index=True)` on a name-aligned union of the columns;
  - the rename fallback.
- **The null policy** (`process_dataframe`), in module `NullPolicy`: `"drop"` removes rows with a missing cell, `"zero"` fills missing cells with 0, and any other policy keeps the table.
- **The registry edits** behind the create, add-files, remove-files and delete buttons, in module `Registry`.

Supporting modules:

- `Results`: `Option` and `Result`.
- `Seqs`: order-preserving filter, duplicate-freedom and first-occurrence de-duplication.
- `Text`: lower-casing, `basename`, `split(".")[0]`, `strip()`, whitespace `split()`, and decimal rendering.
- `Tables`: cells, rows and rectangular tables.

Things outside the core become parameters:

- The file system is a `Disk`. It holds the set of existing paths and three reader functions, one each for CSV, spreadsheet, and text lines.
- Whether `pd.concat` fails, and why, is a `ConcatCheck` oracle. It answers "no failure", "duplicate names", or "another failure".
- Python exceptions and the error dialogs become the `Failure` cases of a `Result`.

The model follows the code where it differs from other descriptions of the program:

- **Column order.** The stacked table's columns are the union of the inputs' columns in order of first appearance, as `pd.concat` builds them. A `.csv` table with `[x, y]` followed by a `.rowout` table with `[FILE_NAME, x, y]` therefore stacks to `[x, y, FILE_NAME]` (`Loader.StackedColumnOrder`). `FILE_NAME` does not come first.
- **Row width in `.rowout`.** The model assumes that `read_csv` with `names` and `index_col=False` pads a short data line with missing values and cuts a long one to the header width, so no line makes the read fail. Where pandas behaves otherwise is listed under "Left out".
- **Row count in `.rowout`.** Blank data lines are skipped, as `read_csv` skips them, so the row count is the number of non-blank lines after the header.
- **Bad `.rowout` headers.** The model assumes that `read_csv` rejects a `names` list that repeats a name, and treats an empty header line as a read error too. Where pandas behaves otherwise is listed under "Left out".
- **Creating a group.** An empty group name has its own error, separate from the duplicate-name error.
- **Removing files** goes through basenames, as the dialog does (see Findings).

## Model

| member | source | states |
|---|---|---|
| Loader.LoadGroup | DataFrameManager.py:46-104 | No table results exactly for an unknown or empty group, or a group whose files all exist but none has a reader. If any file is missing, the error lists exactly the missing paths. Otherwise a failed read fails the load with the loop's error, and a failed stacking fails it with the stacking error. A table results only when every file exists and every read succeeds. It is the plain concatenation of the tables read when stacking reported no failure, and the renamed one after a duplicate-names report. It has as many rows as they have together. |
| Loader.LoadGroupSomeIff | DataFrameManager.py:46-104 | A group loads to a table if and only if all its files exist, every read succeeds, at least one file has a reader, and stacking (possibly after the renamed retry) succeeds. |
| Loader.Missing | DataFrameManager.py:54 | The reported paths are exactly the group's paths that do not exist. |
| Loader.MissingDecidedBeforeReading | DataFrameManager.py:54-56 | When a file is missing, the outcome does not depend on what the readers or stacking would do: nothing is read. |
| Loader.ReadOne | DataFrameManager.py:62-74 | The delimited reader gives exactly the CSV reader's table or its failure reason. The spreadsheet reader does the same with the Excel reader. A `.rowout` read succeeds if and only if the file's lines can be read and the row-output reader accepts them, and then gives that reader's table. A failing read is a read error naming that path. A `.rowout` table puts `FILE_NAME` first and has no repeated column. |
| Loader.ReadPathsRecognized | DataFrameManager.py:60-77 | The loop reads exactly the paths whose suffix has a reader, in group order; the rest are skipped by `continue`. |
| Loader.Collect | DataFrameManager.py:59-78 | A finished loop yields one table per path read. It can fail only if some path was read. |
| Loader.CollectInOrder | DataFrameManager.py:59-78 | The i-th table collected is what the reader gives for the i-th path read. |
| Loader.CollectFailure | DataFrameManager.py:59-78 | A failed loop reports the error of the first path whose read fails, and every earlier read succeeded. |
| Loader.CollectSkipsUnread | DataFrameManager.py:76-77 | Dropping the skipped paths beforehand changes nothing in the loop's outcome. |
| Loader.CollectSucceedsIff | DataFrameManager.py:59-78 | The loop succeeds if and only if every path it reads is read successfully. |
| Loader.LoadReadError | DataFrameManager.py:59-78 | A read error from loading names a path of the group that has a reader and whose read failed with that reason. |
| Loader.Combine | DataFrameManager.py:88-104 | Stacking succeeds if and only if the first attempt reports no failure, or it reports duplicate names and the renamed retry reports none. The result is the concatenation of the tables actually stacked: the plain ones after a clean first attempt, the renamed ones after the retry. It has as many rows as the inputs together. Every failure is a stacking failure, and one other than duplicate names is passed on unchanged. |
| Loader.FallbackOnlyOnDuplicateNames | DataFrameManager.py:88-104 | With no failure the plain concatenation is returned. A duplicate-names report followed by a successful retry gives the renamed concatenation. A failed retry fails with the retry's own error. Any other failure is re-raised as is. |
| Loader.FallbackKeepsEveryColumn | DataFrameManager.py:95-101 | After the renamed retry, every input column survives under its own name, so there are as many columns as the inputs have together. |
| Loader.LoadedRowsInFileOrder | DataFrameManager.py:88-101 | Whenever stacking succeeds, plainly or after the renamed retry, row j of the i-th table lands at row offset(i)+j of the result. Each cell is carried over by column name, using the renamed names after the retry. |
| Loader.StackedColumnOrder | DataFrameManager.py:70-90 | A table with columns `x, y` followed by a `.rowout` table with `FILE_NAME, x, y` stacks to `x, y, FILE_NAME`. The reordering inside the reader does not put `FILE_NAME` first in the stacked table. |
| Loader.RowOutTableShape | DataFrameManager.py:66-74 | In any group, a table read from a `.rowout` path has `FILE_NAME` as its first column and no repeated column. |
| Readers.Dispatch | DataFrameManager.py:62-77 | The delimited reader is chosen if and only if the lower-cased path ends in `.csv`. The spreadsheet reader is chosen if and only if it ends in `.xls` or `.xlsx`. The log reader is chosen if and only if it ends in `.rowout`. |
| Readers.DispatchIgnoresCase | DataFrameManager.py:62-66 | Letter case never changes the reader chosen. |
| Readers.DispatchDependsOnSuffixOnly | DataFrameManager.py:62-66 | Text in front of the last seven characters never changes the reader chosen. |
| Readers.ReadRowOut | DataFrameManager.py:66-74 | The read fails if and only if the header line is empty or repeats a name. Otherwise the columns are `FILE_NAME` followed by the other headers in order, with no repeats. There is one row per non-blank data line, and each row starts with the file's stem. |
| Readers.HeaderOf | DataFrameManager.py:68 | Every header is a non-empty word without whitespace. There are no headers if and only if the file has no lines or its first line is all whitespace. |
| Readers.DataLines | DataFrameManager.py:69 | The lines that become rows are exactly the non-blank lines after the first one, so there are fewer of them than lines. |
| Readers.DataLinesSkipBlank | DataFrameManager.py:69 | A trailing blank line adds no row. |
| Readers.Fit | DataFrameManager.py:69 | A data line gives one cell per header: field k under header k, and a missing value where the line is short. |
| Readers.RowOutCell | DataFrameManager.py:69 | The field at position k of a data line lands under header k, or is missing when the line is short. |
| Readers.RowOutColumnsWithoutFileNameHeader | DataFrameManager.py:70-74 | Without a `FILE_NAME` header, the columns are `FILE_NAME` followed by the header line's names. |
| Readers.RowOutTable | DataFrameManager.py:69-74 | The log table's columns are `FILE_NAME` followed by the non-`FILE_NAME` headers, with no repeats. It has one row per data line, each starting with the stem. |
| Text.Tokens | DataFrameManager.py:68-69 | Every token of a whitespace split is a non-empty word without whitespace. |
| Text.TokensSplitAt | DataFrameManager.py:68-69 | Splitting a text cut at a whitespace character gives the split of the part before it followed by the split of the part after it. So runs of whitespace separate just like one whitespace character. |
| Text.TokensOfJoin | DataFrameManager.py:68 | Splitting on whitespace gives back the words that a whitespace character joined. |
| Text.TokensEmpty | DataFrameManager.py:68 | A line splits into no header at all if and only if it is all whitespace. |
| Text.Lower | DataFrameManager.py:62-66 | Lower-casing keeps the length and lower-cases each ASCII letter in place. |
| Text.Stem | DataFrameManager.py:61 | The stem is the longest prefix without a `.`, so the extension and everything after the first dot are cut. |
| Text.AfterLastIsSuffix | DataFrameManager.py:61 | The basename is the suffix of the path right after its last `/`, or the whole path when it has none. |
| Text.StripBounds | DataFrameManager.py:291 | A stripped name is empty if and only if the entered text is all whitespace, and otherwise starts and ends with a non-whitespace character. |
| Text.StripIsInfix | DataFrameManager.py:291 | `strip()` removes only surrounding whitespace. The result is the text right after the leading whitespace, and everything after it is whitespace. |
| Text.StripIdempotent | DataFrameManager.py:291 | Stripping a stripped name changes nothing. |
| Text.NatToString | DataFrameManager.py:98 | The rendered index is a non-empty string of digits, with no leading zero unless the index is 0. |
| Text.ParseNatToString | DataFrameManager.py:98 | The index rendered into a renamed column reads back as that index. |
| Concat.UnionColumns | DataFrameManager.py:90 | The stacked columns have no repeats and are exactly the names some input table has. |
| Concat.Concatenate | DataFrameManager.py:90 | The stacked table has the union columns and as many rows as the inputs together. |
| Concat.RowPlacement | DataFrameManager.py:90 | The rows of table i come after those of the tables before it, in their own order, realigned by name. |
| Concat.ConcatCell | DataFrameManager.py:90 | A stacked cell holds the source row's value under that column name, or a missing value when the source table lacks the column. |
| Concat.SameSchemaConcat | DataFrameManager.py:90 | Tables sharing one duplicate-free header stack to that header over their rows, one table after another. |
| Concat.ConcatSingle | DataFrameManager.py:90 | A single table with duplicate-free columns stacks to itself. |
| Concat.RenameColumns | DataFrameManager.py:97-98 | Renaming turns column k into `c_i` and leaves the rows untouched. |
| Concat.RenameAll | DataFrameManager.py:96-99 | There is one renamed table per input, and table i is renamed with suffix i. |
| Concat.SuffixedReadsBack | DataFrameManager.py:98 | A renamed column starts with its old name, and the text after its last `_` reads back as the table's index. |
| Concat.SuffixedInjective | DataFrameManager.py:98 | Two renamed columns are equal only when both the column and the table index are equal. |
| Concat.RenamedDistinct | DataFrameManager.py:96-99 | Renaming keeps a duplicate-free table duplicate-free. |
| Concat.RenamedDisjoint | DataFrameManager.py:96-99 | After renaming, no two input tables share a column name. |
| Concat.RenamedConcatShape | DataFrameManager.py:95-101 | Stacking the renamed tables merges no columns: it keeps every input column and every input row. |
| NullPolicy.Process | DataFrameManager.py:108-118 | There is a result if and only if there is a table, and its columns are the table's. After "drop" or "zero" no cell is missing. "drop" never adds rows and "zero" keeps the row count. Any other policy returns the table unchanged. "drop" gives exactly `DropNullRows` of the table and "zero" exactly `FillZero`. |
| NullPolicy.DropNullRows | DataFrameManager.py:113-114 | "drop" keeps the columns and exactly the rows without a missing cell. |
| NullPolicy.DropCounts | DataFrameManager.py:113-114 | Each row without a missing cell survives as often as it occurred, and every other row disappears. |
| NullPolicy.DropKeepsOrder | DataFrameManager.py:113-114 | The survivors keep their order: dropping from a+b is dropping from a, then from b. |
| NullPolicy.DropIsIdentityIffNullFree | DataFrameManager.py:113-114 | "drop" leaves the table unchanged if and only if no cell is missing. |
| NullPolicy.DropShrinks | DataFrameManager.py:113-114 | A row with a missing cell costs at least one row. |
| NullPolicy.DropIdempotent | DataFrameManager.py:113-114 | Dropping twice is dropping once. |
| NullPolicy.FillZero | DataFrameManager.py:115-116 | "zero" turns every missing cell into 0 and keeps every other cell, the shape and the columns. |
| NullPolicy.FillZeroIsIdentityIffNullFree | DataFrameManager.py:115-116 | "zero" leaves the table unchanged if and only if no cell is missing. |
| NullPolicy.FillZeroIdempotent | DataFrameManager.py:115-116 | Filling twice is filling once. |
| NullPolicy.DropAfterFillZero | DataFrameManager.py:113-116 | After "zero" there is nothing left for "drop" to remove. |
| Registry.CreateGroup | DataFrameManager.py:289-301 | Creation fails if and only if the stripped name is empty (empty-name error) or already a group (duplicate error). Otherwise exactly that group is added, empty, and no other group changes. |
| Registry.CreatePreservesWellFormed | DataFrameManager.py:289-301 | Creating a group keeps every group name stripped and non-empty, and every group free of repeated paths. |
| Registry.CreateThenDelete | DataFrameManager.py:301 | Deleting a group that was just created gives back the registry it was created in. |
| Registry.AppendNew | DataFrameManager.py:324-326 | The old entries stay in front unchanged, and the result holds exactly the old paths and the chosen ones. A group without repeats stays without repeats. |
| Registry.AppendNewSpec | DataFrameManager.py:324-326 | What is appended is the chosen paths in first-choice order, minus those already in the group. |
| Registry.AppendNewIdempotent | DataFrameManager.py:324-326 | Choosing the same paths again appends nothing. |
| Registry.AddPaths | DataFrameManager.py:306-326 | Adding fails only for an unknown group. It changes only the chosen group, which gets the new paths appended. |
| Registry.AddPathsIdempotent | DataFrameManager.py:324-326 | Adding the same paths twice is adding them once. |
| Registry.AddPreservesWellFormed | DataFrameManager.py:324-326 | Adding files keeps the registry well formed. |
| Registry.RemoveFirst | DataFrameManager.py:382 | `list.remove` fails if and only if the path is absent. Otherwise it takes away exactly one occurrence. |
| Registry.RemoveFirstAt | DataFrameManager.py:382 | `list.remove` takes away the first occurrence and keeps everything else in order, repeats included. |
| Registry.RemoveFirstDistinct | DataFrameManager.py:382 | On a list without repeats, `list.remove` keeps every other entry in order. |
| Registry.RemoveEach | DataFrameManager.py:381-382 | Removing the paths one by one succeeds if and only if the group holds each of them as often as it is listed, and then takes away exactly those occurrences. |
| Registry.RemoveEachCons | DataFrameManager.py:381-382 | The paths are removed in the order they are listed: the first one, then the rest from what is left. |
| Registry.RemoveEachDistinct | DataFrameManager.py:381-382 | On a group without repeats, removing distinct paths of the group keeps exactly the other entries, in order. |
| Registry.FirstWithBasename | DataFrameManager.py:374-378 | The resolved path is the first entry with that basename. There is none if and only if no entry has that basename. |
| Registry.PathsToRemove | DataFrameManager.py:373-378 | At most one path per selected name is collected, and every collected path is in the group. When every name resolves, the k-th collected path is the first entry bearing the k-th name. |
| Registry.SelectedPaths | DataFrameManager.py:365-370 | The selected entries are entries of the group, no more of them than the group has. |
| Registry.SelectedMember | DataFrameManager.py:365-370 | In a group without repeats, an entry is selected if and only if its position was selected. |
| Registry.Unselected | DataFrameManager.py:364-382 | The entries left by the intended removal are entries of the group, and together with the selected ones they number as many as the group. |
| Registry.UnselectedMember | DataFrameManager.py:364-382 | In a group without repeats, an entry is left if and only if its position was not selected. |
| Registry.Basenames | DataFrameManager.py:356-357 | The dialog lists the basename of every entry, in group order. |
| Registry.RemoveResolved | DataFrameManager.py:364-382 | The edit to the group succeeds if and only if the group holds every resolved path as often as it is resolved. It then takes away exactly those paths. |
| Registry.RemoveFilesAsWritten | DataFrameManager.py:364-382 | The dialog as written fails for an unknown group. For a known group it succeeds if and only if the group holds every resolved path as often as it is resolved, so a path resolved twice makes the second `list.remove` fail. On success it never changes another group, and the edited group loses exactly the paths its selected basenames resolve to. |
| Registry.AsWrittenPreservesWellFormed | DataFrameManager.py:364-382 | The dialog as written keeps the registry well formed. |
| Registry.AsWrittenRejectsBothShared | DataFrameManager.py:370-382 | For two distinct entries sharing a basename, selecting both fails: both resolve to the first path, and the second `list.remove` finds it gone. |
| Registry.AsWrittenRemovesUnselectedShared | DataFrameManager.py:370-382 | For two distinct entries sharing a basename, selecting only the second removes the first and keeps the second. |
| Registry.AsWrittenAgreesWhenUnambiguous | DataFrameManager.py:364-382 | When no selected entry shares its basename with another entry, the dialog as written removes exactly the selected entries. |
| Registry.RemoveFiles | DataFrameManager.py:364-382 | The intended removal fails only for an unknown group. It changes only that group, which loses as many entries as were selected. |
| Registry.RemoveFilesExact | DataFrameManager.py:364-382 | In a group without repeats, an entry leaves the group if and only if its position was selected. |
| Registry.RemoveFilesOnTwoEntries | DataFrameManager.py:364-382 | On a two-entry group, selecting both empties it and selecting the second keeps the first. |
| Registry.RemovePreservesWellFormed | DataFrameManager.py:364-382 | The intended removal keeps the registry well formed. |
| Registry.DeleteGroup | DataFrameManager.py:403 | Deleting fails if and only if the group is unknown. Otherwise it removes exactly that group and leaves the others unchanged. |
| Registry.DeletePreservesWellFormed | DataFrameManager.py:403 | Deleting a group keeps the registry well formed. |

## Left out

- Window, dialogs and confirmation prompts. Each registry operation is modelled from the point where the user has answered: a chosen group, chosen paths, selected positions. The "no group selected", "no files chosen", "No files selected" and "Cancel" paths change nothing and are not modelled separately, except that an empty selection leaves the group unchanged.
- Group names coming from the listbox. They always name an existing group in the program; `GroupNotFound` stands for the `KeyError` that an unknown name would raise.
- Persistence of the registry to the JSON configuration file after each edit: this is file I/O.
- The pickle table store, saving, listing, and the processing button that calls the loader and the policy: this is file I/O outside the core.
- Parsing of CSV and spreadsheet files. This is reading a file, so it is left to the `Disk` reader functions, which return a table or a reason for failure.
- Parsing of `.rowout` cells. Fields are kept as text and never converted to numbers. pandas' dtype inference and its recognition of `NaN`/`NA` strings as missing values are not modelled.
- The text of the `pd.concat` error message. Matching it against "duplicate names" is modelled as the `ConcatCheck` oracle's `DuplicateNames` answer.
- Floating-point numbers. A cell is missing, zero, an integer or a string.
- Non-ASCII case folding and whitespace. `lower()` and `strip()`/`split()` act on ASCII only.
- `Registry.RemoveFilesAsWritten`: when the second `list.remove` raises, the source has already removed the first path from the in-memory group. The model returns only the error, without that partially edited group.
- `Loader.LoadGroup`: its contract says that a failed read fails the load with the loop's own error, but not which path that error names. `Loader.CollectFailure` states that it is the first path whose read fails.
- `Readers.ReadRowOut`: two pandas behaviours are assumed rather than modelled. A data line after the first that is wider than the header may make pandas raise a `ParserError`; the model cuts it to the header width instead. A blank first line followed by data lines may give pandas a frame with only `FILE_NAME`; the model reports a read error instead.
- `Readers.ReadRowOut`: quoting is not modelled. `read_csv` treats `"` as a quote character by default, so a data line holding `"a b"` gives one field `a b`. The model splits such a line on every whitespace character and keeps the quote characters in the fields.
- `Text.Basename`: it splits on `/` only, as `os.path.basename` does on POSIX. The `\` separator of Windows paths is not modelled.
- `Text.AfterLast`: its own contract only bounds the result. That it is the suffix after the last separator is stated by `Text.AfterLastIsSuffix`.

## Findings

| source | as written | input that shows it | evidently intended | confidence | as-written member | corrected member |
|---|---|---|---|---|---|---|
| DataFrameManager.py:373-382 | Each selected basename is resolved to the first path of the group with that basename, and the resolved paths are removed with `list.remove`. | Group `["/a/x.csv", "/b/x.csv"]` with both positions selected: both names resolve to `/a/x.csv`, and the second `list.remove` raises `ValueError`. | Both selected entries are removed and the group becomes empty. | not executed | Registry.AsWrittenRejectsBothShared | Registry.RemoveFiles |
| DataFrameManager.py:373-382 | Same basename resolution. | Group `["/a/x.csv", "/b/x.csv"]` with only position 1 selected: `/a/x.csv` is removed and `/b/x.csv` stays. | The selected entry `/b/x.csv` is removed and `/a/x.csv` stays. | not executed | Registry.AsWrittenRemovesUnselectedShared | Registry.RemoveFiles |

The corrected removal works by listbox position. `Registry.RemoveFilesExact` proves that an entry leaves the group if and only if its position was selected. `Registry.RemoveFilesOnTwoEntries` gives its result on the two inputs above. `Registry.SharedBasenameFacts` shows that the two example paths are distinct and share the basename `x.csv`. `Registry.AsWrittenAgreesWhenUnambiguous` shows that the two removals agree whenever no selected entry shares its basename with another entry.
