# IFFK planner: programme registry and film scoring, modelled in Dafny

The IFFK planner is a small tool for a film-festival programming team. It keeps films and
talks in a spreadsheet workbook, gives every new entry a serial number and a programme ID
made of a category code and a zero-padded number, and lets the team score films on five
criteria. The scores are saved back to a selection sheet, one record per programme ID, and
the films are shown ranked by selection, average score, year, running time and ID.

This project models that core and proves its properties:

- `wrappers.dfy` (module `Wrappers`): `Option` and `Result`.
- `text.dfy` (module `Text`): Python's `str(int)`, `zfill`, `strip`, `upper` and string
  order, as far as the core uses them.
- `sheets.dfy` (module `Sheets`): a worksheet held in memory.
  - Cells are the values Python sees.
  - `get_all_records` turns rows into records.
  - The grid is always kept trimmed of trailing blank rows, which is where the service appends.
  - The class `Worksheet` has `append_row`, `append_rows` and `batch_clear` of the range A2:Z1000.
- `programme_manager.dfy` (module `ProgrammeRegistry`): `generate_sl_no`,
  `generate_programme_id`, `add_programme_entry`, `replace_sheet_data` and the class
  `ProgrammeManager` over the three sheets.
- `scoring.dfy` (module `Scoring`): the "Film Scoring & Selection" view. It covers the average
  score, the form's defaults from an existing record, the record built for saving, the upsert
  by programme ID and the rewrite of the selection sheet.
- `overview.dfy` (module `Overview`): the "Film Scores Overview" view. It covers the "All"
  category choice, the category filter, the left join with the selection records, the
  five-key stable ranking and the displayed columns. It also holds the hours-and-minutes
  split of a running time on a programme card.

How things are represented:

- The spreadsheet service and the network are replaced by in-memory worksheets.
- pandas' NaN is the cell `Missing`.
- Python's rendering of a float (`str(float)`) is the parameter `realText`.

## Model

| member | source | states |
|---|---|---|
| `Sheets.Worksheet.AppendRow` | programme_manager.py:169 | the row is added after the last row holding data; the header and the other rows stay as they were |
| `Sheets.Worksheet.BatchClear` | programme_manager.py:186 | rows 2 to 1000 and columns A to Z are blanked; data inside that range leaves the sheet empty |
| `Sheets.Worksheet.AppendRows` | programme_manager.py:197 | the rows are added, in order, after the last row holding data |
| `Sheets.RecordsOf` | programme_manager.py:106 | one record per data row, each keyed by exactly the header's column names |
| `Sheets.RecordOfColumn` | programme_manager.py:106 | a record read under the header holds, for a column name that occurs once, that column's cell, or a blank when the row is short |
| `Sheets.ClearRangeIdempotent` | programme_manager.py:186 | clearing the range twice leaves what clearing once leaves, also for a sheet reaching past it |
| `ProgrammeRegistry.SerialNumber` | programme_manager.py:106-108 | the serial number lies between 1 and the number of rows plus 1 |
| `ProgrammeRegistry.SerialNumberIgnoresOtherCategories` | programme_manager.py:107-108 | rows of other categories, before or after, do not change the serial number |
| `ProgrammeRegistry.SerialNumberPermutation` | programme_manager.py:107-108 | the order of the rows does not change the serial number |
| `ProgrammeRegistry.SerialNumberOfMix` | programme_manager.py:107-108 | N rows of the category mixed in any order with rows of other categories give N + 1 |
| `ProgrammeRegistry.SerialNumberAfterAppend` | programme_manager.py:106-108 | appending a row of the category raises the next serial number by exactly one |
| `ProgrammeRegistry.ProgrammeIdShape` | programme_manager.py:119-120 | the ID is the category's code (or X) followed by the decimal digits of the serial number, zero-padded to at least three, which read back as the serial number |
| `ProgrammeRegistry.ProgrammeIdInjective` | programme_manager.py:119-120 | two serial numbers of one category never share an ID |
| `ProgrammeRegistry.ProgrammeIdPadded` | programme_manager.py:119-120 | serial 7 of code F gives F007; an unknown category gives X001 |
| `ProgrammeRegistry.ProgrammeIdUnpadded` | programme_manager.py:120 | serial 1234 gives F1234; serial -5 gives F-05 (the sign stays in front) |
| `ProgrammeRegistry.FirstMissingKey` | programme_manager.py:143-167 | absent exactly when every key the row needs is present; otherwise the first key, in reading order, that is missing |
| `ProgrammeRegistry.TalkRowLayout` | programme_manager.py:144-151 | a talk's row is category, serial number, ID, topic, duration, image URL |
| `ProgrammeRegistry.FilmRowLayout` | programme_manager.py:153-167 | a film's row is category, serial number, ID and the ten film fields in the order of the sheet |
| `ProgrammeRegistry.ProgrammeManager.AddProgrammeEntry` | programme_manager.py:129-172 | without a category, or with a missing field, it fails with that key and changes no sheet. Otherwise it appends the entry's row to the talks sheet (for "Talks & Conversations") or the films sheet, and returns the ID built from the next serial number. The other sheet is untouched |
| `ProgrammeRegistry.Replaced` | programme_manager.py:186-197 | the rewritten sheet holds no trailing blank rows and no more rows than the old sheet and the frame together |
| `ProgrammeRegistry.ReplacedWithinRange` | programme_manager.py:186-197 | when the old data lies inside A2:Z1000, the sheet afterwards holds the stringified rows, up to the last one with text |
| `ProgrammeRegistry.ReplacedRowsWithinRange` | programme_manager.py:186-197 | with the old data inside the range and a last row holding text, the sheet holds exactly the given rows, each cell replaced by its `str` text, in order |
| `ProgrammeRegistry.ReplaceWithNothing` | programme_manager.py:186-194 | an empty frame leaves a sheet whose data lies inside the range empty; doing it again changes nothing |
| `ProgrammeRegistry.ReplaceKeepsRowsBeyondRange` | programme_manager.py:186 | a 1000th data row is not cleared and survives the rewrite |
| `ProgrammeRegistry.ProgrammeManager.ReplaceSheetData` | programme_manager.py:178-197 | it reports an unknown sheet name as not found and changes nothing. Otherwise the named sheet's rows become the cleared rows followed by the stringified frame, and the other sheets are untouched |
| `Scoring.AverageCell` | app.py:289-291 | the saved average is the int 0 exactly when no criterion is rated, and otherwise the average as a positive float |
| `Scoring.PositivesRated` | app.py:290 | every rated criterion is a positive score, and there are none exactly when no score is positive |
| `Scoring.PositivesCount` | app.py:290 | every positive score is rated as often as it occurs, and nothing else is |
| `Scoring.AverageBounds` | app.py:289-291 | with criteria in 0..5 the average is 0 when nothing is rated, and between 1 and 5 when anything is |
| `Scoring.AverageIgnoresZeros` | app.py:290-291 | an unrated criterion, wherever it stands, does not change the average |
| `Scoring.AverageOfOneRated` | app.py:289-291 | [0,0,0,0,5] averages 5.0 |
| `Scoring.AverageOfTwoRated` | app.py:289-291 | [3,4,0,0,0] averages 3.5 |
| `Scoring.AverageOfNoneRated` | app.py:289-291 | [0,0,0,0,0] averages 0 |
| `Scoring.NewEntryColumns` | app.py:295-304 | the saved record has exactly the eight score columns, holding the five criteria, their average and the flag |
| `Scoring.Without` | app.py:307-308 | a row is kept exactly when it does not carry the programme ID |
| `Scoring.WithoutSplit` | app.py:307-308 | filtering a concatenation filters each part, so the kept rows stay in their order |
| `Scoring.WithoutKeepsOrder` | app.py:307-308 | a row without the ID stays, once, between the kept rows before it and those after it; a row with the ID is dropped |
| `Scoring.Upsert` | app.py:306-309 | the new record comes last, and a row stands before it exactly when it is an old row without the ID |
| `Scoring.UpsertReplaces` | app.py:306-309 | afterwards exactly one row has the ID: the last one, with the new values. Every other ID keeps its rows in their order |
| `Scoring.UpsertNewId` | app.py:306-309 | the first save of an ID appends the record to the unchanged table |
| `Scoring.UpsertTwice` | app.py:306-309 | a second save for the same ID leaves what the second save alone leaves; saving the same record twice changes nothing |
| `Scoring.UpsertKeepsUnique` | app.py:306-309 | a table with one record per ID keeps one record per ID |
| `Scoring.FindFirst` | app.py:246-250 | finds the first row with the ID, or reports that no row has it |
| `Scoring.ExistingRecord` | app.py:246-250 | no record exactly when no row has the ID; otherwise the first row that has it |
| `Scoring.FormDefaultsFromRecord` | app.py:246-287 | a film without a record opens at zeros and not selected. A film with records opens on the first record with its ID, showing that record's five criteria and its flag read as the overview reads it |
| `Scoring.SaveThenReload` | app.py:278-309 | the upserted table, looked up again for the film, opens the form on the saved criteria and flag |
| `Scoring.ReopenFromSheet` | app.py:278-287 | a record as the sheet hands it back, with int criteria and the flag as its written text, opens the form on the saved criteria and flag; the as-written default ticks the box for it whatever was saved |
| `Scoring.ShownAverageOfRecord` | app.py:256-258 | for a record as the sheet hands it back, with int criteria in 0..5, the average shown beside it is the average of those criteria: 0 when none is rated, between 1 and 5 otherwise, and the value the form computes when it opens on the record |
| `Scoring.SelectedFlagAccepts` | app.py:350-352 | "true" in any casing, with any whitespace around it, is read as selected |
| `Scoring.SelectedFlagOnlyTrue` | app.py:350-352 | only such text is read as selected |
| `Scoring.SelectedFlagRejectsWord` | app.py:350-352 | a word not four characters long, such as "FALSE", is never read as selected |
| `Scoring.IsSelectedDefaultAsWrittenMisreadsFalse` | app.py:287 | a saved False read back as text ticks the box as written, and leaves it unticked when read as the overview reads it |
| `Scoring.SelectedDefaultRoundTrip` | app.py:287 | with the flag read as text, a saved flag gives back the saved value |
| `Scoring.FrameKeepsSavedValues` | app.py:309 | for a new record keyed by the score columns, framing the upserted table for writing loses nothing: every column of every record is a column of the frame, holding the record's value |
| `Scoring.SaveScore` | app.py:306-314 | the table after the upsert is written over the selection sheet, and the films and talks sheets are untouched |
| `Overview.ProgrammesSection` | app.py:77-83 | each category the programmes view lists is a coded one when "All" is chosen and a chosen one otherwise, and its section shows exactly that category's films |
| `Overview.FilterByCategories` | app.py:335 | keeps exactly the films of the chosen categories |
| `Overview.FilterSplit` | app.py:335 | filtering works part by part, so the films keep their sheet order |
| `Overview.FilterSelection` | app.py:332-335 | a film is shown exactly when its category is chosen, or when "All" is chosen and its category has a code |
| `Overview.FilterAllKeepsEveryFilm` | app.py:332-335 | with "All" chosen, every film of a coded category is shown, in order |
| `Overview.Matching` | app.py:336 | the score records joined to a film are exactly those with its ID |
| `Overview.MergeLeft` | app.py:336 | every film gives at least one joined row, and the joined rows carry exactly the films of the table |
| `Overview.MergeOneRow` | app.py:336 | with one record per ID, a film joins to one row carrying that record's average and flag, or neither when it has no record |
| `Overview.MergeLeftOneToOne` | app.py:336 | with one record per ID, the join keeps the films one for one and in order |
| `Overview.RankCmpFlip` | app.py:337-338 | swapping two rows flips the ranking comparison |
| `Overview.RankCmpTie` | app.py:337-338 | two rows tie exactly when all five keys are equal |
| `Overview.RankCmpTrans` | app.py:337-338 | the ranking order is transitive |
| `Overview.Insert` | app.py:337-338 | inserting into a ranked table gives a ranked table with the same rows plus the new one |
| `Overview.Rank` | app.py:337-338 | the ranked table is a permutation of the joined rows, ordered by the five keys |
| `Overview.RankSorted` | app.py:337-338 | ranking an already ranked table changes nothing |
| `Overview.RankStable` | app.py:337-338 | rows that tie on all five keys keep their relative order |
| `Overview.RankedLexicographic` | app.py:337-338 | of two ranked rows, the first has a flag at least as high (missing last). With equal flags it has an average at least as high (missing last), then a year at least as late, then a running time no longer, then an ID no later |
| `Overview.DisplayedSelectedFirst` | app.py:337-352 | of two well-formed rows in ranking order, the first is shown selected when the second is |
| `Overview.DisplayedAverageOrder` | app.py:337-352 | of two ranked rows shown with the same flag, the first shows at least the second's average, a missing one shown as 0 |
| `Overview.DisplayedRanking` | app.py:337-352 | in the displayed table selected films come first, and among films with the same shown flag the shown average never increases |
| `Overview.HoursMinutes` | markdown_handler.py:43 | the hours and minutes add back up to the running time, with minutes in 0..59 |
| `Overview.HoursMinutesUnique` | markdown_handler.py:43 | that split is the only one with minutes in 0..59 |

## Left out

- Authentication, the spreadsheet client and workbook opening (programme_manager.py:72-102) are not modelled. A sheet is looked up by name among the three in-memory worksheets, and an unknown name is reported as not found (where the service raises an error).
- Loading `CATEGORY_CODES`, countries and languages from JSON files, environment configuration and logging are not modelled. `CATEGORY_CODES` is a map given to the `ProgrammeManager` constructor.
- image_uploader.py is not part of this model. It is an HTTP POST to an image host.
- The HTML templates of markdown_handler.py, all Streamlit widgets, navigation, caching and layout are not modelled. Only the hours-and-minutes arithmetic at markdown_handler.py:43 is.
- The Streamlit data-entry forms that build the `data` dictionary are not modelled.
- Choosing the film by its displayed title in the scoring view (app.py:234-244) is not modelled. The model starts from the chosen film's programme ID.
- The concurrency race is not modelled. Two editors each reading a sheet, computing a serial number or an upsert, and writing back can lose a write or duplicate a serial number; the model is sequential.
- Floating point is not modelled. Averages are exact reals, and the display rounding (`round(2)`, `:.2f`) is left out. The text of a float written to a sheet is the parameter `realText`.
- The service's parsing of `USER_ENTERED` values, and gspread's conversion of numeric text back to numbers, are not modelled. The overview takes the flag as the text "TRUE"/"FALSE" (`Overview.WellFormedRow`), as the service hands back booleans.
- Scoring.FormDefaults: reads a criterion only from an int cell. `int("3")` on a text cell would also succeed in Python.
- Scoring.FormDefaults: does not model the widget rejecting an index outside 0..5.
- Scoring.FrameColumns: models `pd.concat`'s columns as the loaded columns followed by the score columns they lack. Column dtype changes are not modelled.
- ProgrammeRegistry.CellText: a missing cell is written as the empty string, as `astype(str).fillna("")` does in current pandas. Older pandas versions write "nan" instead.
- Text.Upper: upper-cases only ASCII letters. Unicode case mapping is not modelled.
- Python's equality across types (`1 == 1.0 == True`) is not modelled. Cells of different kinds are unequal, which matters only for category and ID comparisons between an int and a float.
- An error from a header with repeated column names in `get_all_records` is not modelled. Records are built with the later column winning.
- Merging onto a selection sheet without any columns (the overview on an empty selection sheet) raises in pandas. The model does not cover it, because the join always has typed score rows.
- The ranking sorts a missing flag or average last, as pandas' `sort_values` does. The code fills the missing averages with 0 only after sorting (app.py:349), so the model follows the code.
- A selection sheet with rows but no PROGRAMME_ID column makes the page raise a `KeyError` (app.py:248, app.py:308). The model reads the missing ID as NaN (`Scoring.KeyOf`) and carries on.
- `st.cache_data` (app.py:41-50) is not modelled. `loaded` in `Scoring.SaveScore` stands for the cached table read at app.py:232, and nothing clears that cache after `replace_sheet_data`. From reading the code (not executed), a second save in the same session rewrites the sheet from the stale table and drops the first save's record. The upsert lemmas (`UpsertReplaces`, `UpsertKeepsUnique`) hold relative to the table passed in, not to the sheet.
- The loaded table's columns are passed to `Scoring.SaveScore` beside its records, tied to them by `Scoring.LoadedUnder` (every record keyed by exactly those distinct columns), rather than read off the sheet's header.
- The comment at programme_manager.py:185 speaks of A2:ZZ, but the code clears A2:Z1000. The model follows the code, and `ReplaceKeepsRowsBeyondRange` shows the bound.
- A `DataFrame` with rows but no columns counts as empty in pandas and is not written. The model writes such rows as empty rows, which trimming removes, giving the same sheet.

## Findings

| source | as written | input that shows it | evidently intended | confidence | as-written member | corrected member |
|---|---|---|---|---|---|---|
| app.py:287 | the checkbox default is `bool(existing["IS_SELECTED"])` | a film saved with Selected unticked: the sheet hands the flag back as the text "FALSE" (or "False"), and `bool("FALSE")` is `True` | read the flag as the overview does, `str(x).strip().upper() == "TRUE"` (app.py:350-352), so a saved False reopens unticked | not executed; high, because the overview normalises the same column as text | `Scoring.SelectedDefaultAsWritten`, shown by `Scoring.IsSelectedDefaultAsWrittenMisreadsFalse` | `Scoring.SelectedDefault`, used by `Scoring.FormDefaults`, proved by `Scoring.SelectedDefaultRoundTrip` and `Scoring.ReopenFromSheet` |
