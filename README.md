# PDFTOON reading history, colour cache, preferences and changelog in Dafny

PDFTOON is an Android PDF reader (Kotlin package `ia.ankherth.grease`).
This project models the logic under its screens and proves properties of it:

- **Reading history.** The `pdf_history` Room table is a map keyed by uri with ordered reads.
  - `PdfRepositoryImpl` merges each new sighting of a document into its row field by field, and keeps the "last opened PDF" preference in step.
  - The older `PdfRepository` keeps a list sorted newest first.
  - `HistoryExportImport` maps rows to a JSON document and back (JSON is a datatype here).
- **Dominant-colour cache (`PdfColorExtractor`).**
  - An in-memory map, then a line-oriented `key|color` file trimmed to 100 lines, then rendering.
  - Rendering is reduced to its outcome: accessible or not, a page count, and the Palette swatches.
- **User preferences (`UserPreferencesManager`).** A map of seven typed keys, with defaults on read and remove-on-null/blank on write; only the user name is trimmed.
- **Changelog.**
  - `ChangelogManager`: a version gate over the `last_version_code` preference that records each build's changes once.
  - `ChangelogDao`: an append-only table with autogenerated ids.
  - `ChangelogAdapter`: the icon, label and diff rules.
- **Screens.**
  - The viewer's controls and progress area, plus the requests it sends to the view model.
  - The list screen's search and count label.
  - The home screen's greeting, recent list and "continue reading" card.
  - The view model's naming, path and "which row to open" rules.

Mapping to Dafny:

- The clock, the hour of day, ContentResolver answers and thumbnail outcomes are parameters.
- Stateful parts are classes whose fields the methods update:
  - the two repositories;
  - the DAO tables;
  - the preference store;
  - the colour cache;
  - the changelog manager;
  - the viewer, list and home screens;
  - the view model.
- Each method is specified by a function of the old state, and lemmas prove what the app promises about those functions.
- The running build is version code 11, name `5.1.2` (`app/build.gradle.kts:20-21`), so the generic changelog branch is the live one (`ChangelogManager.ReleaseBuildEntry`).

File by file:

| file | models |
|---|---|
| `wrappers.dfy` | `Option` and `Result` |
| `text.dfy` | Kotlin `trim`, `isNullOrBlank` and `uppercase` (ASCII), `contains(ignoreCase)`, `split`, decimal rendering and `toIntOrNull` over ASCII digits |
| `order.dfy` | `sortedByDescending`, `filter` and `distinct`, plus the ordered read of a table |
| `progress.dfy` | truncating integer percentages and exact real ones |
| `history_entity.dfy`, `history_dao.dfy`, `history_repository.dfy`, `history_json.dfy` | the Room history |
| `legacy_item.dfy`, `legacy_repository.dfy` | the SharedPreferences history |
| `pdf_item.dfy` | `PdfItem` |
| `user_preferences.dfy` | the DataStore |
| `color_extractor.dfy` | `PdfColorExtractor` |
| `thumbnail.dfy` | `PdfThumbnailGenerator` |
| `time_utils.dfy`, `labels.dfy` | `TimeUtils` and locale-formatted labels |
| `history_adapter.dfy` | `PdfHistoryAdapter` |
| `changelog_entry.dfy`, `changelog_dao.dfy`, `changelog_manager.dfy`, `changelog_adapter.dfy` | the changelog |
| `main_view_model.dfy` | `MainViewModel` |
| `pdf_viewer.dfy` | `PdfViewerActivity` |
| `pdfs_screen.dfy` | `PdfsFragment` |
| `home_screen.dfy` | `HomeFragment` |

## Model

| member | source | states |
|---|---|---|
| Text.TrimStart | app/src/main/java/ia/ankherth/grease/data/preferences/UserPreferencesManager.kt:89 | the result is a suffix of the input that starts with a non-whitespace character; everything dropped is whitespace |
| Text.TrimEnd | app/src/main/java/ia/ankherth/grease/data/preferences/UserPreferencesManager.kt:89 | the result is a prefix that ends with a non-whitespace character; everything dropped is whitespace |
| Text.TrimShape | app/src/main/java/ia/ankherth/grease/data/preferences/UserPreferencesManager.kt:89 | `trim()` yields a contiguous slice of the input, empty or bounded by non-whitespace on both sides |
| Text.TrimIdempotent | app/src/main/java/ia/ankherth/grease/fragment/PdfsFragment.kt:72 | trimming twice is trimming once |
| Text.TrimEmptyIffBlank | app/src/main/java/ia/ankherth/grease/fragment/PdfsFragment.kt:72-73 | the trimmed text is empty exactly when the text is blank |
| Text.TrimNotBlank | app/src/main/java/ia/ankherth/grease/data/preferences/UserPreferencesManager.kt:86-89 | the trim of a non-blank text is not blank |
| Text.TrimmedIsStable | app/src/main/java/ia/ankherth/grease/data/preferences/UserPreferencesManager.kt:86-89 | a trimmed non-blank name is non-blank and trims to itself |
| Text.UpperAsciiString | app/src/main/java/ia/ankherth/grease/adapter/ChangelogAdapter.kt:43 | `uppercase()` maps each ASCII lower-case letter to upper case and keeps every other character, at the same position |
| Text.ContainsOwnSuffix | app/src/main/java/ia/ankherth/grease/viewmodel/MainViewModel.kt:208-211 | a text ending in `q` contains `q`, case ignored |
| Text.SplitSecond | app/src/main/java/ia/ankherth/grease/viewmodel/MainViewModel.kt:153-156 | a text holding the separator splits into at least two parts; the second is the text between the first separator and the next one (or the end) |
| Text.SplitTwo | app/src/main/java/ia/ankherth/grease/util/PdfColorExtractor.kt:136-137 | a text with exactly one separator splits into the two separator-free sides around it |
| Text.ParseIntToString | app/src/main/java/ia/ankherth/grease/util/PdfColorExtractor.kt:138 | `toIntOrNull` of the decimal text of a 32-bit integer gives that integer back |
| Order.SortDesc | app/src/main/java/ia/ankherth/grease/repository/PdfRepository.kt:85 | `sortedByDescending` yields a list ordered by the key, newest first, that holds exactly the input's elements |
| Order.SortDescSorted | app/src/main/java/ia/ankherth/grease/repository/PdfRepository.kt:85 | sorting a list that is already newest first gives it back unchanged |
| Order.SortDescMembers | app/src/main/java/ia/ankherth/grease/repository/PdfRepository.kt:85 | sorting keeps exactly the multiset of elements |
| Order.SortDescUnique | app/src/main/java/ia/ankherth/grease/repository/PdfRepository.kt:85 | sorting keeps keys that were distinct distinct |
| Order.Filter | app/src/main/java/ia/ankherth/grease/fragment/PdfsFragment.kt:138-142 | `filter` keeps exactly the elements satisfying the predicate, in order |
| Order.FilterSorted | app/src/main/java/ia/ankherth/grease/data/room/ChangelogDao.kt:30-31 | filtering a sorted list keeps it sorted |
| Order.FilterConcat | app/src/main/java/ia/ankherth/grease/fragment/PdfsFragment.kt:138-142 | filtering distributes over concatenation, so relative order is kept |
| Order.Distinct | app/src/main/java/ia/ankherth/grease/data/room/ChangelogDao.kt:33-34 | `DISTINCT`: pairwise different values, exactly those of the input |
| Order.SortedValues | app/src/main/java/ia/ankherth/grease/data/room/PdfHistoryDao.kt:11-12 | an `ORDER BY … DESC` read of a keyed table: every row once, ordered by the key |
| Progress.WholePercentTruncates | app/src/main/java/ia/ankherth/grease/model/PdfItem.kt:13 | the integer percentage is the exact percentage truncated toward zero |
| Progress.WholePercentBounds | app/src/main/java/ia/ankherth/grease/model/PdfItem.kt:13 | within the document the integer percentage lies in 0..100 |
| Progress.WholePercentFull | app/src/main/java/ia/ankherth/grease/PdfViewerActivity.kt:232 | all pages read gives exactly 100 |
| Progress.WholePercentMonotone | app/src/main/java/ia/ankherth/grease/model/PdfItem.kt:13 | more pages read never gives a lower percentage |
| Progress.ExactPercentBounds | app/src/main/java/ia/ankherth/grease/data/room/PdfHistoryEntity.kt:28 | within the document the exact percentage lies in 0..100 |
| HistoryEntity.PdfHistoryEntity.ProgressPercentage | app/src/main/java/ia/ankherth/grease/data/room/PdfHistoryEntity.kt:27-28 | with pages, percentage × totalPages = lastPageRead × 100; without pages, 0 |
| HistoryEntity.NewEntity | app/src/main/java/ia/ankherth/grease/data/room/PdfHistoryEntity.kt:12-25 | the constructor defaults: page 0, offset 0, size 0, no path or thumbnail, accessible, not a favourite, progress 0 |
| HistoryEntity.ProgressExamples | app/src/test/java/ia/ankherth/grease/PdfProgressTest.kt:16-113 | the unit tests' cases: 25/100 → 25, 0/50 → 0, 20/20 → 100, 0/0 → 0, 10/1 → 10, 150/200 → 75, 10/45 ≈ 22.22 |
| HistoryEntity.ProgressWithoutPages | app/src/main/java/ia/ankherth/grease/data/room/PdfHistoryEntity.kt:28 | no pages gives 0 whatever page was read |
| HistoryEntity.ProgressBounds | app/src/main/java/ia/ankherth/grease/data/room/PdfHistoryEntity.kt:28 | within the document, 0..100, and 100 on the last page |
| HistoryEntity.ProgressNotClamped | app/src/main/java/ia/ankherth/grease/data/room/PdfHistoryEntity.kt:28 | past the last page the percentage exceeds 100 |
| HistoryDao.WithProgress | app/src/main/java/ia/ankherth/grease/data/room/PdfHistoryDao.kt:32-33 | the three progress columns set, every other column unchanged |
| HistoryDao.WithAccessibility | app/src/main/java/ia/ankherth/grease/data/room/PdfHistoryDao.kt:41-42 | only `isAccessible` set |
| HistoryDao.WithFavorite | app/src/main/java/ia/ankherth/grease/data/room/PdfHistoryDao.kt:44-45 | only `isFavorite` set |
| HistoryDao.UpdateWhere | app/src/main/java/ia/ankherth/grease/data/room/PdfHistoryDao.kt:32-45 | `UPDATE … WHERE uri = :uri`: same keys, only that row changed, nothing when absent |
| HistoryDao.Table.constructor | app/src/main/java/ia/ankherth/grease/data/room/PdfHistoryDao.kt:10 | an empty table |
| HistoryDao.Table.Insert | app/src/main/java/ia/ankherth/grease/data/room/PdfHistoryDao.kt:17-18 | REPLACE: the row under the uri becomes the new one, whatever was there |
| HistoryDao.Table.Update | app/src/main/java/ia/ankherth/grease/data/room/PdfHistoryDao.kt:20-21 | replaces the row with the same key; an unknown key changes nothing |
| HistoryDao.Table.DeleteByUri | app/src/main/java/ia/ankherth/grease/data/room/PdfHistoryDao.kt:23-27 | that uri is gone and every other row is kept |
| HistoryDao.Table.ClearAllHistory | app/src/main/java/ia/ankherth/grease/data/room/PdfHistoryDao.kt:29-30 | the table is empty |
| HistoryDao.Table.UpdateProgress | app/src/main/java/ia/ankherth/grease/data/room/PdfHistoryDao.kt:32-33 | only the progress columns of the matching row change |
| HistoryDao.Table.UpdateAccessibility | app/src/main/java/ia/ankherth/grease/data/room/PdfHistoryDao.kt:41-42 | only the flag of the matching row changes |
| HistoryDao.Table.UpdateFavorite | app/src/main/java/ia/ankherth/grease/data/room/PdfHistoryDao.kt:44-45 | only the flag of the matching row changes |
| HistoryDao.Table.GetPdfByUri | app/src/main/java/ia/ankherth/grease/data/room/PdfHistoryDao.kt:35-36 | the row with that key, or null exactly when there is none |
| HistoryDao.Table.GetAllPdfs | app/src/main/java/ia/ankherth/grease/data/room/PdfHistoryDao.kt:11-12 | every row once, ordered by `lastReadDate` descending |
| HistoryDao.Table.GetMostRecentPdf | app/src/main/java/ia/ankherth/grease/data/room/PdfHistoryDao.kt:14-15 | a stored row with the newest date; null exactly for an empty table |
| HistoryDao.Table.GetFavoritePdfs | app/src/main/java/ia/ankherth/grease/data/room/PdfHistoryDao.kt:47-48 | exactly the favourite rows, each once, newest first |
| HistoryDao.Table.SearchPdfsByName | app/src/main/java/ia/ankherth/grease/data/room/PdfHistoryDao.kt:38-39 | exactly the rows whose name contains the query, each once |
| HistoryRepository.Merge | app/src/main/java/ia/ankherth/grease/repository/PdfRepositoryImpl.kt:72-82 | progress, name and pages from the sighting; date `now`; accessible; path and thumbnail only when new ones exist; size only when the new one is positive; uri and favourite kept |
| HistoryRepository.NewRow | app/src/main/java/ia/ankherth/grease/repository/PdfRepositoryImpl.kt:86-97 | the given fields, date `now`, accessible, not a favourite |
| HistoryRepository.AddOrUpdateRows | app/src/main/java/ia/ankherth/grease/repository/PdfRepositoryImpl.kt:67-99 | the key set gains the uri; every other row is unchanged |
| HistoryRepository.AddOrUpdateIdempotent | app/src/main/java/ia/ankherth/grease/repository/PdfRepositoryImpl.kt:70-99 | repeating the same sighting at the same moment changes nothing more |
| HistoryRepository.InsertAllKeys | app/src/main/java/ia/ankherth/grease/repository/PdfRepositoryImpl.kt:173-175 | the import inserts add exactly the uris of the list |
| HistoryRepository.InsertAllUntouched | app/src/main/java/ia/ankherth/grease/repository/PdfRepositoryImpl.kt:173-175 | rows whose uri the list does not mention are kept |
| HistoryRepository.InsertAllLast | app/src/main/java/ia/ankherth/grease/repository/PdfRepositoryImpl.kt:173-175 | with REPLACE, each uri ends up with the last row the list has for it |
| HistoryRepository.InsertAllValid | app/src/main/java/ia/ankherth/grease/repository/PdfRepositoryImpl.kt:173-175 | each row stays under its own uri |
| HistoryRepository.Repository.constructor | app/src/main/java/ia/ankherth/grease/repository/PdfRepositoryImpl.kt:20-27 | the repository over a table and a preference store |
| HistoryRepository.Repository.AddOrUpdatePdf | app/src/main/java/ia/ankherth/grease/repository/PdfRepositoryImpl.kt:58-103 | the table becomes `AddOrUpdateRows`; last opened is the uri; other preferences are kept |
| HistoryRepository.Repository.UpdateProgress | app/src/main/java/ia/ankherth/grease/repository/PdfRepositoryImpl.kt:111-113 | the DAO progress update, dated `now`; preferences kept |
| HistoryRepository.Repository.DeletePdf | app/src/main/java/ia/ankherth/grease/repository/PdfRepositoryImpl.kt:119-126 | the row is gone; last opened is cleared exactly when it was this uri |
| HistoryRepository.Repository.ClearAllHistory | app/src/main/java/ia/ankherth/grease/repository/PdfRepositoryImpl.kt:131-134 | no rows and no last-opened uri |
| HistoryRepository.Repository.ImportHistory | app/src/main/java/ia/ankherth/grease/repository/PdfRepositoryImpl.kt:168-180 | on success every imported row is inserted with REPLACE and the count is returned; on failure the table is kept and the error is passed on |
| HistoryRepository.Repository.ExportHistory | app/src/main/java/ia/ankherth/grease/repository/PdfRepositoryImpl.kt:158-161 | exports every row once, ordered by `lastReadDate` descending, as the written `history` array; the table is unchanged |
| HistoryJson.ExportEntry | app/src/main/java/ia/ankherth/grease/util/HistoryExportImport.kt:32-43 | exactly the ten keys; a missing path is written as `""` |
| HistoryJson.ExportRecords | app/src/main/java/ia/ankherth/grease/util/HistoryExportImport.kt:29-45 | one object per row, in list order |
| HistoryJson.ExportRoot | app/src/main/java/ia/ankherth/grease/util/HistoryExportImport.kt:47-52 | keys version, exportDate, totalEntries and history; version 1, totalEntries = list size |
| HistoryJson.ExportHistory | app/src/main/java/ia/ankherth/grease/util/HistoryExportImport.kt:23-64 | writes the root to an open stream and succeeds with the count message; no stream still succeeds; a failing stream fails |
| HistoryJson.TruncReal | app/src/main/java/ia/ankherth/grease/util/HistoryExportImport.kt:89-92 | number-to-integer conversion truncates toward zero |
| HistoryJson.GetString | app/src/main/java/ia/ankherth/grease/util/HistoryExportImport.kt:87-88 | succeeds exactly on a string value; otherwise fails naming the key |
| HistoryJson.GetInt | app/src/main/java/ia/ankherth/grease/util/HistoryExportImport.kt:89-92 | succeeds exactly on a number value; otherwise fails naming the key |
| HistoryJson.GetDouble | app/src/main/java/ia/ankherth/grease/util/HistoryExportImport.kt:91 | succeeds exactly on a number value; otherwise fails naming the key |
| HistoryJson.OptLong | app/src/main/java/ia/ankherth/grease/util/HistoryExportImport.kt:93 | a missing key gives the fallback |
| HistoryJson.OptString | app/src/main/java/ia/ankherth/grease/util/HistoryExportImport.kt:94 | a missing key gives `""` |
| HistoryJson.OptBoolean | app/src/main/java/ia/ankherth/grease/util/HistoryExportImport.kt:95-96 | a missing key gives the fallback |
| HistoryJson.NonEmpty | app/src/main/java/ia/ankherth/grease/util/HistoryExportImport.kt:94 | `takeIf { it.isNotEmpty() }` |
| HistoryJson.ImportEntry | app/src/main/java/ia/ankherth/grease/util/HistoryExportImport.kt:85-97 | success needs an object with all six required keys; defaults: size 0, no path, accessible, not a favourite, no thumbnail |
| HistoryJson.ImportAll | app/src/main/java/ia/ankherth/grease/util/HistoryExportImport.kt:84-99 | on success, one row per element |
| HistoryJson.ImportRoot | app/src/main/java/ia/ankherth/grease/util/HistoryExportImport.kt:80-81 | a document with no `history` array fails |
| HistoryJson.Import | app/src/main/java/ia/ankherth/grease/util/HistoryExportImport.kt:74-78 | no stream fails with the message "No se pudo leer el archivo"; a failed read or unparsable text fails with the thrown message |
| HistoryJson.ImportHistory | app/src/main/java/ia/ankherth/grease/util/HistoryExportImport.kt:69-105 | the loop that appends rows and stops at the first failure computes `Import` |
| HistoryJson.ImportExportEntry | app/src/main/java/ia/ankherth/grease/util/HistoryExportImport.kt:32-97 | importing an exported record gives the row without thumbnail, with an empty path as none |
| HistoryJson.ImportAllExport | app/src/main/java/ia/ankherth/grease/util/HistoryExportImport.kt:29-99 | the same for a whole list, in order |
| HistoryJson.ExportImportRoundTrip | app/src/main/java/ia/ankherth/grease/util/HistoryExportImport.kt:29-101 | importing the export of a history gives the same rows in order, normalised |
| HistoryJson.ImportAllPrefixFailure | app/src/main/java/ia/ankherth/grease/util/HistoryExportImport.kt:84-104 | once a prefix fails, the whole import fails the same way |
| HistoryJson.ImportAllElementwise | app/src/main/java/ia/ankherth/grease/util/HistoryExportImport.kt:84-99 | the i-th row of a successful import is the import of the i-th element |
| HistoryJson.ImportAllFailsOnBadElement | app/src/main/java/ia/ankherth/grease/util/HistoryExportImport.kt:102-104 | one failing element fails the whole import; no partial list |
| HistoryJson.ImportFailsOnMissingField | app/src/main/java/ia/ankherth/grease/util/HistoryExportImport.kt:87-92 | an element missing a required key fails the import |
| LegacyItem.PdfHistoryItem.ProgressPercentage | app/src/main/java/ia/ankherth/grease/data/PdfHistoryItem.kt:13-14 | with pages, percentage × totalPages = lastPageRead × 100; without pages, 0 |
| LegacyItem.NewItem | app/src/main/java/ia/ankherth/grease/data/PdfHistoryItem.kt:5-11 | defaults: page 0, size 0, date `now`, progress 0 |
| LegacyItem.ProgressFull | app/src/main/java/ia/ankherth/grease/data/PdfHistoryItem.kt:14 | the last page gives exactly 100 |
| LegacyItem.ProgressBounds | app/src/main/java/ia/ankherth/grease/data/PdfHistoryItem.kt:14 | within the document, 0..100 |
| LegacyRepository.IndexOfFirst | app/src/main/java/ia/ankherth/grease/repository/PdfRepository.kt:34 | the first position holding the uri, or -1 when none does |
| LegacyRepository.AddOrUpdateExisting | app/src/main/java/ia/ankherth/grease/repository/PdfRepository.kt:36-44 | a listed uri is refreshed in place: page, date, pages and name replaced; uri and size kept; other entries untouched |
| LegacyRepository.AddOrUpdateNew | app/src/main/java/ia/ankherth/grease/repository/PdfRepository.kt:45-55 | an unlisted uri adds exactly one entry, at the front |
| LegacyRepository.AddOrUpdateUnique | app/src/main/java/ia/ankherth/grease/repository/PdfRepository.kt:34-55 | distinct uris stay distinct |
| LegacyRepository.ProgressUnique | app/src/main/java/ia/ankherth/grease/repository/PdfRepository.kt:60-72 | distinct uris stay distinct after a progress update |
| LegacyRepository.LegacyStore.constructor | app/src/main/java/ia/ankherth/grease/repository/PdfRepository.kt:21-30 | loads the saved list, sorted newest first |
| LegacyRepository.LegacyStore.SavePdfs | app/src/main/java/ia/ankherth/grease/repository/PdfRepository.kt:84-89 | the sorted list becomes both the saved and the shown list |
| LegacyRepository.LegacyStore.AddOrUpdatePdf | app/src/main/java/ia/ankherth/grease/repository/PdfRepository.kt:32-58 | the sorted refreshed list; same length for a listed uri, one more otherwise; uniqueness kept |
| LegacyRepository.LegacyStore.UpdateProgress | app/src/main/java/ia/ankherth/grease/repository/PdfRepository.kt:60-72 | an unlisted uri changes and saves nothing; a listed one is refreshed and saved sorted |
| LegacyRepository.LegacyStore.DeletePdf | app/src/main/java/ia/ankherth/grease/repository/PdfRepository.kt:74-78 | every entry with the uri goes and every other entry stays |
| LegacyRepository.LegacyStore.GetMostRecentPdf | app/src/main/java/ia/ankherth/grease/repository/PdfRepository.kt:80-82 | the head of the list, which has the newest date; null for an empty list |
| PdfItemModel.PdfItem.ProgressPercent | app/src/main/java/ia/ankherth/grease/model/PdfItem.kt:12-13 | 0 without pages |
| PdfItemModel.ProgressTruncates | app/src/main/java/ia/ankherth/grease/model/PdfItem.kt:13 | the exact percentage truncated toward zero |
| PdfItemModel.ProgressBounds | app/src/main/java/ia/ankherth/grease/model/PdfItem.kt:13 | 0..100 within the document, 100 at the last page |
| PdfItemModel.ProgressMonotone | app/src/main/java/ia/ankherth/grease/model/PdfItem.kt:13 | never decreases as the page grows |
| UserPreferences.StoragePermissionGrantedOf | app/src/main/java/ia/ankherth/grease/data/preferences/UserPreferencesManager.kt:33-35 | false when unset |
| UserPreferences.HapticsEnabledOf | app/src/main/java/ia/ankherth/grease/data/preferences/UserPreferencesManager.kt:57-59 | true when unset |
| UserPreferences.AppThemeOf | app/src/main/java/ia/ankherth/grease/data/preferences/UserPreferencesManager.kt:41-43 | "system" when unset |
| UserPreferences.StringOf | app/src/main/java/ia/ankherth/grease/data/preferences/UserPreferencesManager.kt:37-55 | null when unset; the stored string otherwise |
| UserPreferences.WithStoragePermission | app/src/main/java/ia/ankherth/grease/data/preferences/UserPreferencesManager.kt:62-66 | reads back as written; no other key touched |
| UserPreferences.WithHaptics | app/src/main/java/ia/ankherth/grease/data/preferences/UserPreferencesManager.kt:114-118 | reads back as written; no other key touched |
| UserPreferences.WithAppTheme | app/src/main/java/ia/ankherth/grease/data/preferences/UserPreferencesManager.kt:78-82 | reads back as written; no other key touched |
| UserPreferences.WithLastOpenedPdfUri | app/src/main/java/ia/ankherth/grease/data/preferences/UserPreferencesManager.kt:68-76 | null removes the key; any other value is stored verbatim; no other key touched |
| UserPreferences.WithUserName | app/src/main/java/ia/ankherth/grease/data/preferences/UserPreferencesManager.kt:84-92 | null or blank removes the key; otherwise the trimmed name is stored; no other key touched |
| UserPreferences.WithUriKey | app/src/main/java/ia/ankherth/grease/data/preferences/UserPreferencesManager.kt:94-112 | null or blank removes the key; otherwise the value is stored untrimmed; no other key touched |
| UserPreferences.UserNameIdempotent | app/src/main/java/ia/ankherth/grease/data/preferences/UserPreferencesManager.kt:84-92 | setting the name twice is setting it once |
| UserPreferences.FlagSettersIdempotent | app/src/main/java/ia/ankherth/grease/data/preferences/UserPreferencesManager.kt:62-118 | the permission, haptics and theme setters, applied twice with the same value, are applied once |
| UserPreferences.UriSettersIdempotent | app/src/main/java/ia/ankherth/grease/data/preferences/UserPreferencesManager.kt:68-112 | the last-opened, avatar and storage-tree setters, applied twice with the same value, are applied once |
| UserPreferences.UserNameReadBackStable | app/src/main/java/ia/ankherth/grease/data/preferences/UserPreferencesManager.kt:45-92 | writing back the name as read changes nothing |
| UserPreferences.StoresTrimmed | app/src/main/java/ia/ankherth/grease/data/preferences/UserPreferencesManager.kt:89 | storing an already-stored trimmed name changes nothing |
| UserPreferences.UserNameStoredTrimmed | app/src/main/java/ia/ankherth/grease/data/preferences/UserPreferencesManager.kt:89 | the stored name is not blank and has no leading or trailing whitespace |
| UserPreferences.UriKeyUntrimmed | app/src/main/java/ia/ankherth/grease/data/preferences/UserPreferencesManager.kt:94-112 | a non-blank uri is kept exactly, whitespace included |
| UserPreferences.Store.constructor | app/src/main/java/ia/ankherth/grease/data/preferences/UserPreferencesManager.kt:20 | an empty store |
| UserPreferences.Store.UpdateStoragePermissionStatus | app/src/main/java/ia/ankherth/grease/data/preferences/UserPreferencesManager.kt:62-66 | the store becomes `WithStoragePermission` of the old one |
| UserPreferences.Store.SaveLastOpenedPdfUri | app/src/main/java/ia/ankherth/grease/data/preferences/UserPreferencesManager.kt:68-76 | the store becomes `WithLastOpenedPdfUri` of the old one |
| UserPreferences.Store.SetAppTheme | app/src/main/java/ia/ankherth/grease/data/preferences/UserPreferencesManager.kt:78-82 | the store becomes `WithAppTheme` of the old one |
| UserPreferences.Store.SetUserName | app/src/main/java/ia/ankherth/grease/data/preferences/UserPreferencesManager.kt:84-92 | the store becomes `WithUserName` of the old one |
| UserPreferences.Store.SetUserAvatarUri | app/src/main/java/ia/ankherth/grease/data/preferences/UserPreferencesManager.kt:94-102 | the store becomes `WithUriKey` for the avatar key |
| UserPreferences.Store.SetStorageTreeUri | app/src/main/java/ia/ankherth/grease/data/preferences/UserPreferencesManager.kt:104-112 | the store becomes `WithUriKey` for the tree key |
| UserPreferences.Store.SetHapticsEnabled | app/src/main/java/ia/ankherth/grease/data/preferences/UserPreferencesManager.kt:114-118 | the store becomes `WithHaptics` of the old one |
| ColorExtractor.CacheKey | app/src/main/java/ia/ankherth/grease/util/PdfColorExtractor.kt:42 | the key starts with the absolute path and `:` |
| ColorExtractor.Lookup | app/src/main/java/ia/ankherth/grease/util/PdfColorExtractor.kt:135-141 | no matching line gives null; otherwise the first line that splits into exactly two parts, with the key first, decides |
| ColorExtractor.LoadColor | app/src/main/java/ia/ankherth/grease/util/PdfColorExtractor.kt:130-145 | a missing or unreadable file gives null |
| ColorExtractor.LoadColorFromDiskCache | app/src/main/java/ia/ankherth/grease/util/PdfColorExtractor.kt:130-145 | the early-return loop computes `LoadColor` |
| ColorExtractor.SaveLines | app/src/main/java/ia/ankherth/grease/util/PdfColorExtractor.kt:150-172 | the saved file holds at most 100 lines, the last being the key's line with the colour; every other line comes from the file and does not start with the key and a bar |
| ColorExtractor.SaveLinesShape | app/src/main/java/ia/ankherth/grease/util/PdfColorExtractor.kt:153-168 | exactly one line starts with the key and the bar separator: the last one, key, bar and colour; at most 100 lines, and exactly 100 when 99 or more others survived |
| ColorExtractor.SaveLinesKeepsNewest | app/src/main/java/ia/ankherth/grease/util/PdfColorExtractor.kt:154-164 | the survivors are the newest `min(n, 99)` lines of other keys, in file order |
| ColorExtractor.KeptLineNoMatch | app/src/main/java/ia/ankherth/grease/util/PdfColorExtractor.kt:137-154 | a line a save keeps never answers a lookup of that key |
| ColorExtractor.MatchStartsWithKey | app/src/main/java/ia/ankherth/grease/util/PdfColorExtractor.kt:136-137 | a matching line starts with the key and the bar separator |
| ColorExtractor.CacheLineMatches | app/src/main/java/ia/ankherth/grease/util/PdfColorExtractor.kt:136-167 | the line of key, bar and colour matches its key, and its value is the colour's decimal text |
| ColorExtractor.SaveThenLoad | app/src/main/java/ia/ankherth/grease/util/PdfColorExtractor.kt:135-168 | for a key without a bar character, loading after saving gives the colour back |
| ColorExtractor.FirstPresent | app/src/main/java/ia/ankherth/grease/util/PdfColorExtractor.kt:97-104 | the first present value, or the default when none is present |
| ColorExtractor.ChooseColor | app/src/main/java/ia/ankherth/grease/util/PdfColorExtractor.kt:97-104 | the colour is one of the present swatches, or the default when no swatch is present; a vibrant swatch always wins |
| ColorExtractor.ChooseColorPriority | app/src/main/java/ia/ankherth/grease/util/PdfColorExtractor.kt:97-104 | vibrant, dark vibrant, light vibrant, muted, dark muted, light muted, dominant, then `DEFAULT_COLOR` |
| ColorExtractor.ApplyAlpha | app/src/main/java/ia/ankherth/grease/util/PdfColorExtractor.kt:234-236 | red, green and blue kept; alpha is the low byte of the argument |
| ColorExtractor.DefaultColorBits | app/src/main/java/ia/ankherth/grease/util/PdfColorExtractor.kt:24 | the default colour is the opaque pattern 0xFF6200EE |
| ColorExtractor.Extract | app/src/main/java/ia/ankherth/grease/util/PdfColorExtractor.kt:34-125 | an error changes neither cache; a success leaves the answer in memory under the key, and the disk cache is either as before or the save of that colour |
| ColorExtractor.ExtractMemoryHit | app/src/main/java/ia/ankherth/grease/util/PdfColorExtractor.kt:42-46 | a memory hit returns it and changes no cache |
| ColorExtractor.ExtractDiskHit | app/src/main/java/ia/ankherth/grease/util/PdfColorExtractor.kt:48-54 | a disk hit is copied into memory and returned; the disk is not written |
| ColorExtractor.ExtractFailures | app/src/main/java/ia/ankherth/grease/util/PdfColorExtractor.kt:57-124 | inaccessible file, render failure and zero pages each give their error, and no cache changes |
| ColorExtractor.ExtractRendered | app/src/main/java/ia/ankherth/grease/util/PdfColorExtractor.kt:94-117 | the rendered colour is the chain's choice, stored in memory and found again on disk |
| ColorExtractor.ExtractAgain | app/src/main/java/ia/ankherth/grease/util/PdfColorExtractor.kt:42-117 | asking again after a success gives the same answer with nothing changed |
| ColorExtractor.ColorCache.constructor | app/src/main/java/ia/ankherth/grease/util/PdfColorExtractor.kt:28 | empty memory, the disk file as found |
| ColorExtractor.ColorCache.ExtractDominantColor | app/src/main/java/ia/ankherth/grease/util/PdfColorExtractor.kt:34-125 | the result and both new caches are those of `Extract` |
| ColorExtractor.ColorCache.ClearCache | app/src/main/java/ia/ankherth/grease/util/PdfColorExtractor.kt:177-184 | memory empty and no file, so no key is found |
| Thumbnail.Sanitize | app/src/main/java/ia/ankherth/grease/util/PdfThumbnailGenerator.kt:39 | same length; ASCII letters and digits kept; every other character becomes `_` |
| Thumbnail.SanitizeClean | app/src/main/java/ia/ankherth/grease/util/PdfThumbnailGenerator.kt:39 | the result holds only letters, digits and `_`, and sanitising is idempotent |
| Thumbnail.SanitizeKeepsAlphanumeric | app/src/main/java/ia/ankherth/grease/util/PdfThumbnailGenerator.kt:39 | an alphanumeric segment is kept as it is |
| Thumbnail.ThumbnailName | app/src/main/java/ia/ankherth/grease/util/PdfThumbnailGenerator.kt:39 | the name is `thumb_`, then only ASCII letters, digits and `_`, then `.png` |
| Thumbnail.ThumbnailNameShape | app/src/main/java/ia/ankherth/grease/util/PdfThumbnailGenerator.kt:39 | `thumb_` + the sanitised segment + `.png`; no segment gives `thumb_null.png` |
| Thumbnail.GenerateThumbnail | app/src/main/java/ia/ankherth/grease/util/PdfThumbnailGenerator.kt:15-49 | a path exactly when the PNG was saved (cache directory + name); null on every failure |
| TimeUtils.BucketOf | app/src/main/java/ia/ankherth/grease/util/TimeUtils.kt:18-26 | truncated minutes choose the bucket, each range in both directions; counts 1..59 minutes, 1..23 hours, 1..6 days |
| TimeUtils.FormatRelative | app/src/main/java/ia/ankherth/grease/util/TimeUtils.kt:16-27 | "justo ahora" exactly when less than a minute has passed or the moment is in the future; from one minute, one hour and one day on, the elapsed whole minutes with " min", hours with " h" and days with " d"; the `dd MMM` date of the moment exactly from a week on |
| TimeUtils.BucketCounts | app/src/main/java/ia/ankherth/grease/util/TimeUtils.kt:22-24 | the count shown is the elapsed milliseconds divided by the unit |
| HistoryAdapter.FormatFileSize | app/src/main/java/ia/ankherth/grease/adapter/PdfHistoryAdapter.kt:193-206 | unknown for ≤ 0; bytes below 1 KiB; otherwise KB, MB or GB by range, with the amount in that unit |
| HistoryAdapter.FileSizeInRange | app/src/main/java/ia/ankherth/grease/adapter/PdfHistoryAdapter.kt:196-203 | the formatted amount is in [1, 1024) for KB and MB, and ≥ 1 for GB |
| HistoryAdapter.RelativeTime | app/src/main/java/ia/ankherth/grease/adapter/PdfHistoryAdapter.kt:208-221 | "Ahora" exactly under a minute, the future included; then "Hace n min", "Hace nh" and "Hace n días" with the elapsed whole minutes, hours and days; the `dd/MM/yyyy` date exactly from a week on |
| HistoryAdapter.RelativeTimeCounts | app/src/main/java/ia/ankherth/grease/adapter/PdfHistoryAdapter.kt:214-216 | the counts stay in 1..59, 1..23 and 1..6 |
| HistoryAdapter.Percentage | app/src/main/java/ia/ankherth/grease/adapter/PdfHistoryAdapter.kt:171-173 | 0 without pages; otherwise the exact percentage truncated |
| HistoryAdapter.MetaOf | app/src/main/java/ia/ankherth/grease/adapter/PdfHistoryAdapter.kt:66-74 | page lastPageRead+1; the page count exactly when positive; the relative time |
| HistoryAdapter.MetaText | app/src/main/java/ia/ankherth/grease/adapter/PdfHistoryAdapter.kt:65-73 | `Página` with the 1-based page, then ` de ` and the count exactly when the count is known, then ` • ` and the relative time |
| HistoryAdapter.DiffCallbackConsistent | app/src/main/java/ia/ankherth/grease/adapter/PdfHistoryAdapter.kt:225-232 | same contents implies same item; a progress change keeps the item but changes the contents |
| ChangelogDao.AssignAppends | app/src/main/java/ia/ankherth/grease/data/room/ChangelogDao.kt:18-19 | an insert aborts only on a taken explicit id; otherwise it adds one row under a fresh key, replaces none and keeps the table valid |
| ChangelogDao.AssignAllAppends | app/src/main/java/ia/ankherth/grease/data/room/ChangelogDao.kt:21-22 | a successful `insertAll` adds one row per entry and keeps every old row |
| ChangelogDao.AssignAllFresh | app/src/main/java/ia/ankherth/grease/data/room/ChangelogDao.kt:21-22 | entries without ids always go in: entry i gets id nextId+i, and exactly those keys are added |
| ChangelogDao.AssignAllSingle | app/src/main/java/ia/ankherth/grease/data/room/ChangelogDao.kt:18-22 | a one-entry `insertAll` is an `insert` |
| ChangelogDao.ChangelogTable.constructor | app/src/main/java/ia/ankherth/grease/data/room/ChangelogEntry.kt:12-13 | an empty table whose first generated id is 1 |
| ChangelogDao.ChangelogTable.Insert | app/src/main/java/ia/ankherth/grease/data/room/ChangelogDao.kt:18-19 | the state is `Assign` of the old one, or unchanged on an abort |
| ChangelogDao.ChangelogTable.InsertAll | app/src/main/java/ia/ankherth/grease/data/room/ChangelogDao.kt:21-22 | the loop computes `AssignAll`: all inserted, or nothing on an abort |
| ChangelogDao.ChangelogTable.Update | app/src/main/java/ia/ankherth/grease/data/room/ChangelogDao.kt:24-25 | only the row with that id is replaced; the id counter is kept |
| ChangelogDao.ChangelogTable.Delete | app/src/main/java/ia/ankherth/grease/data/room/ChangelogDao.kt:27-28 | only the row with that id goes; its id is not reused |
| ChangelogDao.ChangelogTable.GetAllChanges | app/src/main/java/ia/ankherth/grease/data/room/ChangelogDao.kt:12-13 | every row once, ordered by date descending |
| ChangelogDao.ChangelogTable.GetUserVisibleChanges | app/src/main/java/ia/ankherth/grease/data/room/ChangelogDao.kt:30-31 | exactly the visible rows, each once, newest first |
| ChangelogDao.ChangelogTable.GetChangesByVersion | app/src/main/java/ia/ankherth/grease/data/room/ChangelogDao.kt:15-16 | exactly the rows with that version name, each once |
| ChangelogDao.ChangelogTable.GetAllVersions | app/src/main/java/ia/ankherth/grease/data/room/ChangelogDao.kt:33-34 | each version name in the table exactly once, and no other |
| ChangelogManager.EntriesFor | app/src/main/java/ia/ankherth/grease/util/ChangelogManager.kt:46-180 | at least one entry; each carries the build's name and code and no id |
| ChangelogManager.Version8Shape | app/src/main/java/ia/ankherth/grease/util/ChangelogManager.kt:56-115 | version code 8: seven entries, all visible and dated now |
| ChangelogManager.Version3Shape | app/src/main/java/ia/ankherth/grease/util/ChangelogManager.kt:53-168 | codes 3 and 4: six entries at the fixed date; only the sixth, the migration, is hidden |
| ChangelogManager.GenericShape | app/src/main/java/ia/ankherth/grease/util/ChangelogManager.kt:171-180 | any other code: a single visible IMPROVEMENT "Actualización a versión name" |
| ChangelogManager.ReleaseBuildEntry | app/build.gradle.kts:20-21 | build 11 records "Actualización a versión 5.1.2" |
| ChangelogManager.Manager.constructor | app/src/main/java/ia/ankherth/grease/util/ChangelogManager.kt:14-21 | the build, the table and the stored code |
| ChangelogManager.Manager.AddChangelogEntries | app/src/main/java/ia/ankherth/grease/util/ChangelogManager.kt:46-182 | the build's entries go in with fresh ids; the state is that of `AssignAll` |
| ChangelogManager.Manager.InitializeChangelog | app/src/main/java/ia/ankherth/grease/util/ChangelogManager.kt:27-40 | when the stored code is below the build's, add the entries and store the code; otherwise nothing changes; afterwards the gate is closed |
| ChangelogManager.Manager.LogChange | app/src/main/java/ia/ankherth/grease/util/ChangelogManager.kt:187-197 | exactly one new row under the next id, holding the build's version and the given fields |
| ChangelogAdapter.IconIgnoresCase | app/src/main/java/ia/ankherth/grease/adapter/ChangelogAdapter.kt:43 | types equal up to ASCII case get the same icon |
| ChangelogAdapter.UpperFixed | app/src/main/java/ia/ankherth/grease/adapter/ChangelogAdapter.kt:43 | upper-casing a text without lower-case letters keeps it |
| ChangelogAdapter.KnownTypeIcons | app/src/main/java/ia/ankherth/grease/adapter/ChangelogAdapter.kt:44-46 | FEATURE, BUGFIX and IMPROVEMENT get their own icons |
| ChangelogAdapter.KnownTypeIcon | app/src/main/java/ia/ankherth/grease/adapter/ChangelogAdapter.kt:43-47 | a known type never gets the generic icon |
| ChangelogAdapter.IconGenericIff | app/src/main/java/ia/ankherth/grease/adapter/ChangelogAdapter.kt:43-48 | the generic icon exactly when the upper-cased type is none of FEATURE, BUGFIX and IMPROVEMENT |
| ChangelogAdapter.RecordedEntriesHaveIcons | app/src/main/java/ia/ankherth/grease/adapter/ChangelogAdapter.kt:43-47 | every entry the manager records gets a specific icon |
| ChangelogAdapter.VersionLabelInjective | app/src/main/java/ia/ankherth/grease/adapter/ChangelogAdapter.kt:38 | "v" + name; equal labels exactly for equal names |
| ChangelogAdapter.DiffCallbackConsistent | app/src/main/java/ia/ankherth/grease/adapter/ChangelogAdapter.kt:59-66 | same contents implies same item; an edited entry is the same item with different contents |
| MainViewModel.LastPathSegment | app/src/main/java/ia/ankherth/grease/viewmodel/MainViewModel.kt:207 | the last segment, null exactly without segments |
| MainViewModel.PdfNameShape | app/src/main/java/ia/ankherth/grease/viewmodel/MainViewModel.kt:206-213 | the name always mentions ".pdf" (case ignored); such names are kept; any other gets ".pdf" appended |
| MainViewModel.PdfName | app/src/main/java/ia/ankherth/grease/viewmodel/MainViewModel.kt:208-212 | the name mentions ".pdf" (case ignored) and begins with the segment |
| MainViewModel.DefaultFileName | app/src/main/java/ia/ankherth/grease/viewmodel/MainViewModel.kt:207-213 | the name mentions ".pdf" and begins with the last segment, or with "documento" when there is none |
| MainViewModel.PdfNameIdempotent | app/src/main/java/ia/ankherth/grease/viewmodel/MainViewModel.kt:208-212 | applying the rule to its own result changes nothing |
| MainViewModel.DefaultFileNameWithoutSegment | app/src/main/java/ia/ankherth/grease/viewmodel/MainViewModel.kt:207-212 | no segment gives "documento.pdf" |
| MainViewModel.ContentPath | app/src/main/java/ia/ankherth/grease/viewmodel/MainViewModel.kt:147-166 | a content uri whose last segment holds `:` maps to the storage root + the text after the first `:` up to the next one |
| MainViewModel.ExtractFilePath | app/src/main/java/ia/ankherth/grease/viewmodel/MainViewModel.kt:143-172 | the path is the uri itself, the file uri's path, or lies under `/storage/emulated/0/` for a content uri |
| MainViewModel.OtherPaths | app/src/main/java/ia/ankherth/grease/viewmodel/MainViewModel.kt:150-168 | file uris give their path or the uri; other schemes, and content uris without `:`, give the uri |
| MainViewModel.RealFileName | app/src/main/java/ia/ankherth/grease/viewmodel/MainViewModel.kt:178-204 | content: the display name, or the default; file: the last segment, or "documento.pdf"; otherwise the default name |
| MainViewModel.PickedSighting | app/src/main/java/ia/ankherth/grease/viewmodel/MainViewModel.kt:96-108 | 0 pages, page 0, offset 0, the derived name, path and size |
| MainViewModel.FirstAccessibleIndex | app/src/main/java/ia/ankherth/grease/viewmodel/MainViewModel.kt:305 | the first accessible position, or -1 when none is accessible |
| MainViewModel.FirstAccessible | app/src/main/java/ia/ankherth/grease/viewmodel/MainViewModel.kt:302-307 | null exactly when no row is accessible; otherwise the first accessible row |
| MainViewModel.MostRecentAccessible | app/src/main/java/ia/ankherth/grease/viewmodel/MainViewModel.kt:302-307 | null exactly when the list is unset or no row is accessible; otherwise the first accessible row of the shown list |
| MainViewModel.MostRecentAccessibleIsNewest | app/src/main/java/ia/ankherth/grease/viewmodel/MainViewModel.kt:299-307 | on a list ordered newest first, no accessible row was read later than the one returned |
| MainViewModel.MaxDateIndex | app/src/main/java/ia/ankherth/grease/viewmodel/MainViewModel.kt:371 | the first position with the newest date |
| MainViewModel.LastReadPdf | app/src/main/java/ia/ankherth/grease/viewmodel/MainViewModel.kt:370-372 | null exactly for an absent or empty list; otherwise a row with the newest date, the first on ties |
| MainViewModel.ViewModel.constructor | app/src/main/java/ia/ankherth/grease/viewmodel/MainViewModel.kt:38 | not loading |
| MainViewModel.ViewModel.AddPdfToHistory | app/src/main/java/ia/ankherth/grease/viewmodel/MainViewModel.kt:91-115 | the table gets the picked sighting; last opened is the uri and every other preference is kept; not loading afterwards |
| MainViewModel.ViewModel.GetLastOpenedPdf | app/src/main/java/ia/ankherth/grease/viewmodel/MainViewModel.kt:312-319 | a non-blank stored uri gives its row or null, with no fallback; otherwise a row with the newest date |
| PdfViewer.ProgressInfoFor | app/src/main/java/ia/ankherth/grease/PdfViewerActivity.kt:226-241 | with pages: page+1, the count and the truncated percentage of page+1; without pages: zeros |
| PdfViewer.ProgressInfoBounds | app/src/main/java/ia/ankherth/grease/PdfViewerActivity.kt:229-234 | 0..100 on a page of the document, and 100 on the last one |
| PdfViewer.ProgressInfoMonotone | app/src/main/java/ia/ankherth/grease/PdfViewerActivity.kt:229-234 | a later page never lowers the bar |
| PdfViewer.FilePathOf | app/src/main/java/ia/ankherth/grease/PdfViewerActivity.kt:213-224 | a path only for `file` uris |
| PdfViewer.Viewer.constructor | app/src/main/java/ia/ankherth/grease/PdfViewerActivity.kt:33-68 | name "Documento" and page 0 by default; no pages; controls shown |
| PdfViewer.Viewer.OnResume | app/src/main/java/ia/ankherth/grease/PdfViewerActivity.kt:76-79 | schedules the auto-hide, nothing else |
| PdfViewer.Viewer.OnPause | app/src/main/java/ia/ankherth/grease/PdfViewerActivity.kt:81-85 | sends the progress and cancels the auto-hide |
| PdfViewer.Viewer.HideControls | app/src/main/java/ia/ankherth/grease/PdfViewerActivity.kt:170-184 | hidden, screen kept on |
| PdfViewer.Viewer.ShowControls | app/src/main/java/ia/ankherth/grease/PdfViewerActivity.kt:186-198 | shown, screen not kept on, auto-hide scheduled |
| PdfViewer.Viewer.AutoHide | app/src/main/java/ia/ankherth/grease/PdfViewerActivity.kt:200-203 | the scheduled hide fires |
| PdfViewer.Viewer.ToggleControls | app/src/main/java/ia/ankherth/grease/PdfViewerActivity.kt:162-168 | visibility flips, so two toggles restore it |
| PdfViewer.Viewer.OnTap | app/src/main/java/ia/ankherth/grease/PdfViewerActivity.kt:157-160 | toggles and consumes the tap |
| PdfViewer.Viewer.LoadComplete | app/src/main/java/ia/ankherth/grease/PdfViewerActivity.kt:135-149 | takes the page count, refreshes the display, registers the document at the current page |
| PdfViewer.Viewer.OnPageChanged | app/src/main/java/ia/ankherth/grease/PdfViewerActivity.kt:151-155 | only the page and the display change; nothing is sent |
| PdfViewer.Viewer.SaveProgress | app/src/main/java/ia/ankherth/grease/PdfViewerActivity.kt:205-211 | sends the 0-based current page when there is a uri |
| PdfsScreen.FilteredList | app/src/main/java/ia/ankherth/grease/fragment/PdfsFragment.kt:135-144 | empty query: the whole list; otherwise exactly the rows whose name contains the query, case ignored |
| PdfsScreen.FilteredListConcat | app/src/main/java/ia/ankherth/grease/fragment/PdfsFragment.kt:138-142 | results keep the original order |
| PdfsScreen.FilteredListAll | app/src/main/java/ia/ankherth/grease/fragment/PdfsFragment.kt:138-142 | a query every name contains shows the full list |
| PdfsScreen.CountLabel | app/src/main/java/ia/ankherth/grease/fragment/PdfsFragment.kt:122-128 | "No hay PDFs", "1 PDF", or "n PDFs" |
| PdfsScreen.CountLabelDistinct | app/src/main/java/ia/ankherth/grease/fragment/PdfsFragment.kt:122-128 | different counts give different labels |
| PdfsScreen.BlankQueryShowsAll | app/src/main/java/ia/ankherth/grease/fragment/PdfsFragment.kt:71-137 | input made only of blanks shows everything |
| PdfsScreen.Screen.constructor | app/src/main/java/ia/ankherth/grease/fragment/PdfsFragment.kt:40-57 | nothing shown yet |
| PdfsScreen.Screen.ObserveData | app/src/main/java/ia/ankherth/grease/fragment/PdfsFragment.kt:112-133 | the new list is cached and shown in full; empty state exactly when empty; count label; not refreshing |
| PdfsScreen.Screen.FilterPdfs | app/src/main/java/ia/ankherth/grease/fragment/PdfsFragment.kt:135-144 | shows `FilteredList` of the cached list |
| PdfsScreen.Screen.AfterTextChanged | app/src/main/java/ia/ankherth/grease/fragment/PdfsFragment.kt:71-75 | trimmed query; clear button exactly when it is non-empty; filtered by it |
| HomeScreen.DayPartOf | app/src/main/java/ia/ankherth/grease/fragment/HomeFragment.kt:159-163 | hours 6–11 morning, 12–17 afternoon, all others night, each in both directions |
| HomeScreen.Greeting | app/src/main/java/ia/ankherth/grease/fragment/HomeFragment.kt:157-165 | the greeting word of the hour's part, a comma and a blank, then the name or "Usuario" |
| HomeScreen.GreetingDetermines | app/src/main/java/ia/ankherth/grease/fragment/HomeFragment.kt:157-165 | equal greetings come from the same part of the day and show the same name |
| HomeScreen.RecentPdfs | app/src/main/java/ia/ankherth/grease/fragment/HomeFragment.kt:138 | the first two rows (all of them when fewer); empty exactly for an empty history |
| HomeScreen.CardFor | app/src/main/java/ia/ankherth/grease/fragment/HomeFragment.kt:180-194 | shown exactly for a row read past page 0; title, page+1, and the count and the truncated percentage of the last page read exactly when pages are known |
| HomeScreen.CardPercent | app/src/main/java/ia/ankherth/grease/fragment/HomeFragment.kt:185 | the card's percentage is the truncated one, within 0..100 |
| HomeScreen.CardText | app/src/main/java/ia/ankherth/grease/fragment/HomeFragment.kt:184-189 | `Página` with the 1-based page; when count and percentage are known, followed by ` / `, the count, ` • `, the percentage and `%`; otherwise nothing follows |
| HomeScreen.CardOfLastRead | app/src/main/java/ia/ankherth/grease/fragment/HomeFragment.kt:144-146 | the card shows exactly when the newest row was read past page 0 |
| HomeScreen.Screen.constructor | app/src/main/java/ia/ankherth/grease/fragment/HomeFragment.kt:65-77 | no rows, card hidden |
| HomeScreen.Screen.OnPdfs | app/src/main/java/ia/ankherth/grease/fragment/HomeFragment.kt:136-199 | the two most recent rows; empty state exactly when there are none; not refreshing |
| HomeScreen.Screen.OnLastRead | app/src/main/java/ia/ankherth/grease/fragment/HomeFragment.kt:144-146 | the card for the last-read row |
| HomeScreen.Screen.OnUserName | app/src/main/java/ia/ankherth/grease/fragment/HomeFragment.kt:148-165 | the greeting for the hour and the name, "Usuario" when unset |

## Left out

- Persistence mechanics are not modelled: Room, DataStore, SharedPreferences with Gson, and LiveData/Flow observers. Tables and preference stores are maps and lists; a `LiveData` value is a field.
- Concurrency is not modelled.
  - Coroutine launches (`viewModelScope`, `lifecycleScope`, `Dispatchers.IO`) are sequential calls. `initializeChangelog` stores the version code after its entries are added, as in the launched block.
  - The unsynchronised global colour map and races on the cache file are out of scope.
- Clock, hour of day and platform queries are parameters.
  - `System.currentTimeMillis()`, `Date()` and `Calendar.HOUR_OF_DAY` are passed in.
  - ContentResolver queries for display name and size, including `getFileSizeFromUri` (MainViewModel.kt:120-138), are given as their results.
  - `Uri` parsing is replaced by scheme, path segments and path values.
- The try/catch around `extractFilePathFromUri` and `extractRealFileNameFromUri` is not modelled: the pure string operations modelled here cannot throw.
- PDF rendering, `Bitmap` and `Palette` are opaque inputs: an accessible flag, a page count or failure message, and the seven optional swatches.
- Stream I/O in `HistoryExportImport` is left out.
  - `rootObject.toString(2)` and `JSONObject(text)` parsing are not modelled; the document is a JSON datatype.
  - The stream's outcome is an input.
  - org.json's lenient coercions (a numeric string read as a number, for instance) are not modelled: getters accept only values of their own JSON type.
- The colour cache file's text layer (`readLines`, `joinToString("\n")`) is not modelled; the file is its list of lines. A write or delete that fails is not modelled either.
- Floating-point and locale behaviour is exact or kept as patterns.
  - Percentages use exact arithmetic: the `Float`/`Double` rounding of `progressPercentage`, `progressPercent` and the adapter, card and viewer percentages is not modelled, and e.g. 29/100 may compute as 28 in the app.
  - File sizes keep the value and the `%.2f` pattern.
  - `SimpleDateFormat` output is a `DateText(pattern, millis)` label.
- Text.ParseInt32: reads only the ASCII digits `0`-`9`. Kotlin's `toIntOrNull` also accepts other Unicode decimal digits, such as "٣". The colour cache (PdfColorExtractor.kt:138) only parses text written by `Int.toString`, which is always ASCII.
- `uppercase()` is modelled for ASCII only; full Unicode case mapping is not. `contains(ignoreCase = true)` compares ASCII letters case-insensitively.
- SQL `LIKE` wildcards inside the search query (`%`, `_`) are not modelled: `searchPdfsByName` matches a literal, case-insensitive substring.
- Widths are not modelled: Kotlin `Int`/`Long` are unbounded integers. Colours are the exception; they are modelled as 32-bit patterns.
- Orderings Room does not promise are not modelled. Rows with equal dates appear in no promised order; `getAllVersions` promises each name once and no order.
- HSV colour maths and luminance contrast (`getContrastColor`, `isDarkColor`, `lightenColor`, `saturateColor`, `darkenColor`, PdfColorExtractor.kt:189-229) are floating-point library code and are left out.
- `ColorExtractor.ApplyAlpha`: states the result for colours given as 32-bit patterns, with red, green and blue taken from the colour; `Color.argb`'s behaviour for components outside 0..255 is not reached from this call.
- Timers and animations are not modelled: the auto-hide delay is a `hideScheduled` flag, and progress-bar and alpha animations are omitted.
- Thin pass-throughs with no logic of their own are covered by the DAO and preference members they call, and have no members of their own:
  - `PdfRepositoryImpl.updateFavorite`, `updateAccessibility`, `getFavoritePdfs`, `getMostRecentPdf`, `getPdfByUri`, `searchPdfsByName`, `updateStoragePermissionStatus` and the preference setters;
  - the matching `MainViewModel` wrappers (`toggleFavorite`, `updatePdfAccessibility`, `deletePdf`, `clearAllHistory`, `exportHistory`, `importHistory`, `searchPdfsByName`);
  - `ChangelogRepository` and `ChangelogViewModel`.
- Not modelled in `MainViewModel`:
  - `updatePdfUri`, which only posts a "not implemented" error;
  - `refreshPdfs` and `refreshPdfAccessibility`, which only toggle `isLoading`;
  - `updateUserAvatar`, a permission call plus the avatar setter;
  - the error events, which are UI messages.
- `HomeFragment.filterPdfs` is empty in the app, so the home search only toggles the clear button. That is not modelled.
- The viewer's toolbar title (`substringBeforeLast`) and the debug build's "-DEBUG" version suffix are not modelled; the release values are used.
- Also out of scope: UI screens without stateable logic, view binding, `CustomScrollHandle`, `GradientDrawableFactory`, `PdfCardColorizer`, the sample data in `PdfViewModel`, and the tooling scripts.
