# DourBase reference-file checker, in Dafny

This project models the part of the DourBase QGIS plugin that decides whether a directory can
serve as the plugin's configuration source: the reference-file checker of `csv_checker.py`.
It also models the pure string and list helpers of `utils.py`.

The checker looks for six fixed `code;label` tables in the directory:
`DEPCO.csv`, `ENTREPRISE.csv`, `ETAT.csv`, `EXPLOITANT.csv`, `MOA.csv` and `Q_SUPPORT.csv`.
It runs in four stages:

- the inventory of the required files (`check_files_exist`);
- the line reader (`_read_csv_file`), which drops blank lines, sets the header aside and splits
  each later line at its first `;`;
- the DEPCO.csv rules (`_validate_depco_content`) on codes and labels;
- the report of `run_checks`, with its success flag, per-file results and summary counts.

`check_csv_files` wraps it all and turns a failed run into a fallback result.

Layout, one module per file:

- `wrappers.dfy` — `Option` and `Result`, standing for `None` and for raised exceptions.
- `strings.dfy` — the Python `str` operations used: `strip`, `split`, `split(c, 1)`,
  `startswith`, `endswith`, `int`, `upper`.
- `diagnostics.dfy` — the problems the checker reports, kept structured, and `Message`, which
  renders each to the checker's French text.
- `csv_reader.dfy` — the specification of the line reader and its lemmas.
- `depco_rules.dfy` — the specification of the DEPCO.csv rules and its lemmas.
- `csv_report.dfy` — the inventory, the per-file integrity check, the report, and their lemmas.
- `csv_checker.dfy` — the `CSVChecker` class. Its fields are `problems`, `missingFiles`,
  `checkedFiles` and `validFiles`. Its methods carry the source's loops and are proved equal
  to the specification functions above.
- `utils.dfy` — `update_file_name`, the path helpers, `check_shapefile_completeness`, the row
  conversion of `open_config`, and the line scan of `get_plugin_version`.

A directory is a value with two separate inputs, as the checker consults two:
- the names the listing (`Path.glob`) finds;
- the names the existence test (`Path.exists`) accepts, each mapped to what reading it yields
  (decoded lines, an encoding failure, or another read failure).

A listed name the existence test rejects, such as a link to nothing, is therefore expressible.
A missing or unreadable directory is an empty listing: `glob` yields nothing for it, so all six
required files are reported missing. The directory's `listingError` stands only for the rarer
failures `glob` still raises, and holds the text of that error.

The model follows the code as written, including these behaviours:

- The reader already drops the header. `check_csv_integrity` then takes the first returned row
  as a header once more, so the DEPCO.csv rules see only the rows after it.
- A file holding only a header with a `;` passes. A file with exactly one data row gets
  "Aucune donnée valide trouvée dans le fichier".
- DEPCO.csv row numbers count from 1 over the rows the rules see. They are not file line numbers.
- A code of zero is accepted: only a negative code is refused, although the comment at
  csv_checker.py:183 says zero is forbidden too.
- The per-row checks on codes and labels apply to DEPCO.csv only, not to every required file.
- Three branches can never fire: "colonnes manquantes" in the reader (csv_checker.py:140-143),
  the short header (csv_checker.py:179-181), and the short row of the DEPCO.csv rules
  (csv_checker.py:78-80). All three are modelled, and lemmas prove them dead.
- `run_checks` counts a file as valid when its own problem list is empty. It reports success
  when the checker's whole problem list, missing files included, is empty.

## Model

| member | source | states |
|---|---|---|
| `CsvReport.RequiredFilesSorted` | csv_checker.py:9-16 | The six required names, listed as the model lists them, are in Python's `sorted()` order. |
| `CsvReport.RequiredFilesDistinct` | csv_checker.py:9-16 | There are six required files, all distinct. |
| `CsvReport.MissingFilesSpec` | csv_checker.py:55-56 | The missing files are sorted, repeat-free, and exactly the required names absent from the directory's `.csv` entries. |
| `CsvChecker.CSVChecker.constructor` | csv_checker.py:33-37 | A new checker is bound to its directory and starts from the cleared state. |
| `CsvChecker.CSVChecker.ResetState` | csv_checker.py:39-44 | Clears the problems, missing files, checked files and valid files. |
| `CsvChecker.CSVChecker.CheckFilesExist` | csv_checker.py:46-70 | A listing failure gives the checker's error and changes nothing. Otherwise the missing files are recorded, one "Missing file" problem is appended per missing file in order, and the result is true iff none is missing. |
| `CsvChecker.CSVChecker.ReadCsvFile` | csv_checker.py:99-154 | Returns exactly the rows and problems the reader specification gives for the file's content, including the encoding and read-failure outcomes. |
| `CsvChecker.CSVChecker.NonBlankLines` | csv_checker.py:117-118 | Its loop builds exactly the numbered non-blank lines. |
| `CsvChecker.CSVChecker.ParseLines` | csv_checker.py:124-147 | Its loop over the lines after the header builds exactly the specified rows and problems. |
| `CsvReader.Parse` | csv_checker.py:99-154 | Every problem the reader returns is one of the reader's own kinds. |
| `CsvReader.NonBlankSpec` | csv_checker.py:118 | Whitespace-only lines are dropped. Every other line is kept, stripped, under its original 1-based number. |
| `CsvReader.EmptyIffBlank` | csv_checker.py:118-122 | The result is exactly one "file is empty" problem and no rows iff every line of the file is blank. |
| `CsvReader.HeaderNotARow` | csv_checker.py:127-145 | The header never becomes a row: there are fewer rows than non-blank lines. |
| `CsvReader.HeaderProblemIff` | csv_checker.py:127-130 | An invalid-header problem appears iff the header lacks `;`. It is then exactly one problem, first in the list, citing the header's line number. |
| `CsvReader.OneOutcomePerLine` | csv_checker.py:132-145 | Each line after the header yields exactly one row or exactly one problem. |
| `CsvReader.ReaderProblemsKinds` | csv_checker.py:136-143 | Lines after the header yield only the two line-format problems. |
| `CsvReader.ColumnsSpec` | csv_checker.py:140 | A line splits at its first `;`: the code holds no `;`, the label may, and both are stripped. |
| `CsvReader.RowsShape` | csv_checker.py:140-145 | Every row has exactly two stripped columns, and the first holds no `;`. |
| `CsvReader.LineOutcome` | csv_checker.py:132-145 | Each line after the header gets its own outcome, placed right after those of the lines before it. A line without `;` gives exactly "Format invalide" with its own number and text. A line with `;` gives the row of its columns and no problem. |
| `CsvReader.ProblemsOfLine` | csv_checker.py:132-143 | When line numbers increase, the problems citing a line's number are exactly that line's own outcome. |
| `CsvReader.RowsInLineOrder` | csv_checker.py:140-145 | Of two lines with `;`, the earlier line's row comes first among the rows. |
| `CsvReader.NoMissingColumns` | csv_checker.py:140-143 | The reader never reports "colonnes manquantes", whatever the file holds. |
| `CsvReader.RowsFromLines` | csv_checker.py:132-145 | Every row is the columns of some line after the header that contains `;`. |
| `CsvReader.LineProblemsOrdered` | csv_checker.py:132-143 | Line-format problems cite the lines' own numbers, in strictly increasing order. |
| `CsvReader.ProblemsInFileOrder` | csv_checker.py:118-147 | All problems of a text file cite line numbers in strictly increasing order, starting from the header's. |
| `CsvReader.BlankLineTransparent` | csv_checker.py:118-147 | Inserting a blank line leaves the rows unchanged. Problems on later lines then cite a number one higher, because problems use original line numbers. |
| `CsvChecker.CSVChecker.ValidateDepcoContent` | csv_checker.py:72-97 | Its loop, with its set of seen codes, returns exactly the specified DEPCO problems. |
| `CsvChecker.CSVChecker.ValidateRow` | csv_checker.py:78-96 | One turn of that loop returns exactly the row's problems given the codes seen before it, and adds the row's code to the seen set when it has one. |
| `DepcoRules.RowProblems` | csv_checker.py:78-96 | A row gets at most two problems, all of the DEPCO kinds and all citing that row's number. |
| `DepcoRules.DepcoProblems` | csv_checker.py:77 | Every DEPCO problem cites a row number between 1 and the number of rows checked. |
| `DepcoRules.SeenCodesSpec` | csv_checker.py:75-88 | A code is in the seen set iff it is non-empty and an earlier row with two columns carries it. |
| `DepcoRules.RowCleanIff` | csv_checker.py:78-96 | A row is clean iff it has two columns, a label, and a new, non-negative integer code. |
| `DepcoRules.ZeroAccepted` | csv_checker.py:89-92 | A new code `0` with a label gives no problem. |
| `DepcoRules.ProblemsOfRow` | csv_checker.py:77-96 | The problems reported for row `j + 1` are exactly that row's own, judged against the codes of the rows before it. |
| `DepcoRules.RowDuplicateIff` | csv_checker.py:85-86 | Within one row, a duplicate is reported iff the code is non-empty and already seen. |
| `DepcoRules.RowProblemsSpec` | csv_checker.py:81-96 | For a row with two columns: a missing code iff the code is empty; an invalid code iff it is non-empty, new and not an integer; a negative code iff it is a new integer below zero; a missing label iff the label is empty. |
| `DepcoRules.DuplicateIff` | csv_checker.py:83-88 | A duplicate is reported on a row iff an earlier row carries the same non-empty code, so the first occurrence is never flagged. |
| `DepcoRules.DuplicateSkipsNumberCheck` | csv_checker.py:85-94 | A duplicated code gets no invalid-code or negative-code problem. |
| `DepcoRules.DepcoCleanIff` | csv_checker.py:72-97 | The rules find nothing iff every row has a label and a non-negative integer code and no code repeats. |
| `Diagnostics.Message` | csv_checker.py:79-187 | Renders each problem to the checker's French text. The texts that begin with "Ligne" are exactly those of problems citing a line or a row. |
| `Diagnostics.MessageCitesNumber` | csv_checker.py:79-142 | A message about a line or a row begins with "Ligne", that number and " : ". |
| `CsvReport.CheckParsed` | csv_checker.py:173-189 | The reader's problems come first. With no rows they are all. A file other than DEPCO.csv gets at most two more. |
| `CsvReport.IntegrityProblems` | csv_checker.py:166-189 | "Fichier introuvable" is reported iff the existence test rejects the file, and then alone. Otherwise the reader's problems come first. |
| `CsvChecker.CSVChecker.CheckCsvIntegrity` | csv_checker.py:156-189 | Returns exactly the specified problems of the named file in the checker's directory. |
| `CsvReport.CheckParsedKinds` | csv_checker.py:173-189 | The reader's problems come first, followed only by the short-header, DEPCO-rule and no-data problems. No DEPCO problem appears for other files. |
| `CsvReport.CheckParsedMarkers` | csv_checker.py:176-187 | The short-header problem appears iff the first returned row has fewer than two columns. "No valid data" appears iff exactly one row was returned. |
| `CsvReport.ParseRowsHaveTwoColumns` | csv_checker.py:140-145 | Every row the reader returns has two columns. |
| `CsvReport.ShortHeaderNeverReported` | csv_checker.py:179-181 | The short-header problem is never reported. |
| `CsvReport.ShortRowNeverReported` | csv_checker.py:78-80 | The DEPCO.csv rules never report a row with fewer than two columns, since the reader returns none. |
| `CsvReport.NoValidDataIff` | csv_checker.py:186-187 | "No valid data" is reported iff the file exists and the reader returned exactly one row. |
| `CsvReport.RulesOnlyForDepco` | csv_checker.py:183-184 | No file other than DEPCO.csv gets a DEPCO-rule problem. |
| `CsvReport.HeaderOnlyPasses` | csv_checker.py:176-177 | A file whose only non-blank line is a header with `;` has no problem. |
| `CsvReport.RepeatedCodeParsed` | csv_checker.py:117-147 | The reader turns the lines `code;libelle`, `1;Foo`, `1;Bar` into the rows `[1, Foo]` and `[1, Bar]`, with no problem. |
| `CsvReport.FirstDataRowUnchecked` | csv_checker.py:179-184 | As written, a DEPCO.csv holding those three lines has no problem: the first data row escapes the rules. |
| `CsvReport.IntendedChangesOnlyRules` | csv_checker.py:179-187 | The correction changes only which rows the DEPCO.csv rules see. Other files get the same problems, and every problem not from those rules is reported alike in both versions. |
| `CsvReport.IntendedFlagsDuplicate` | csv_checker.py:183-184 | With every row checked, the same file gives exactly one problem: a duplicate of code 1 on row 2. |
| `CsvReport.IntendedDepcoCleanIff` | csv_checker.py:183-184 | With every row checked, DEPCO.csv gets no DEPCO-rule problem iff all its rows are valid. |
| `CsvReport.IntendedDuplicateIff` | csv_checker.py:183-184 | With every row checked, a duplicate is reported iff an earlier row, the first included, has the same code. |
| `CsvReport.PresentFilesAreFound` | csv_checker.py:170-171 | A required file that is listed and passes the existence test is never reported as not found, and its report says it exists. |
| `CsvReport.ListedButNotFound` | csv_checker.py:168-171 | A required file that is listed but fails the existence test is not missing. Its only problem is "Fichier introuvable", its report says it exists and is not valid, and the check fails. |
| `CsvChecker.CSVChecker.FormatProblems` | csv_checker.py:191-199 | Returns each message behind the file's name, in order, on both branches. |
| `CsvChecker.CSVChecker.RunChecks` | csv_checker.py:201-248 | Runs from a cleared state. A listing failure gives the checker's error. Otherwise the report equals the one specified from the directory alone, so two runs give equal reports. The fields end holding the specified problems, missing files and valid files. |
| `CsvChecker.CSVChecker.CheckEachFile` | csv_checker.py:216-233 | The loop over the required files, in sorted order, builds the per-file reports, the formatted problems and the valid files. |
| `CsvChecker.CSVChecker.CheckOneFile` | csv_checker.py:217-233 | One file: checked only when found; its problems appended behind its name; recorded valid iff it has none. |
| `CsvChecker.CSVChecker.CountWithErrors` | csv_checker.py:242-243 | Counts the files found whose report is not valid. |
| `CsvReport.ReportedMissing` | csv_checker.py:218 | The files the report lists as absent are exactly the missing files of the inventory. |
| `CsvReport.VerdictsSpec` | csv_checker.py:218-224 | A required file is checked iff it is not missing, and its problems are those of its integrity check. |
| `CsvReport.FileReportsSpec` | csv_checker.py:216-233 | The report holds one entry per required file and no other. |
| `CsvReport.FileReportValidIff` | csv_checker.py:217-229 | A file's report says valid iff the file exists and has no problem. |
| `CsvReport.ReportSuccessIff` | csv_checker.py:235-237 | Success holds iff every required file was found with no problem, and the problems flag is always its negation. |
| `CsvReport.SuccessIff` | csv_checker.py:235-237 | For a directory: success iff every required file is listed and passes its integrity check. |
| `CsvReport.EmptyListingAllMissing` | csv_checker.py:54-61 | When the listing finds nothing, as for a missing or unreadable directory, all six required files are missing, in sorted order, and the check fails. |
| `CsvReport.CountsAddUp` | csv_checker.py:239-245 | Over distinct names, missing + with errors + valid equals the number of names. |
| `CsvReport.SummaryAddsUp` | csv_checker.py:239-245 | `missing + with_errors + valid == total_files == 6`. |
| `CsvChecker.CheckCsvFiles` | csv_checker.py:250-284 | The result is the report when the directory can be listed. Otherwise it is the fallback with success false and a one-element problem list. It succeeds iff every required file is listed and clean. |
| `Strings.StripBlank` | csv_checker.py:118 | A line strips to "" iff it is whitespace only. |
| `Strings.SplitOnceSpec` | csv_checker.py:140 | `split(';', 1)` gives one piece without `;`, otherwise two pieces that rejoin with `;` to the line, the first without `;`. |
| `Strings.ParseIntRoundTrip` | csv_checker.py:90 | `int` reads back a decimal numeral, with or without a sign. |
| `Utils.UpdateFileName` | utils.py:77-92 | Fails iff no flag is set, with the source's message. Otherwise it returns the name the source builds, line 88 included. |
| `Utils.GeneratedNameShape` | utils.py:82-90 | The name has no lower-case letter, starts with the upper-cased DEPCO code and ends with `_` and the upper-cased source number. |
| `Utils.EplRepeatsPrefix` | utils.py:82-90 | Without EPL the name is the intended one. With EPL it is the intended one with the upper-cased prefix written in front a second time. |
| `Utils.EplDuplicatesName` | utils.py:87-90 | `("29019", "001", aep, epl)` gives `"29019_AEP29019_AEP_EPL_001"`. |
| `Utils.IntendedExample` | utils.py:87-90 | Corrected, the same call gives `"29019_AEP_EPL_001"`. |
| `Utils.IntendedNameJoins` | utils.py:82-90 | The corrected name is the DEPCO code, the tags of the flags set and the source number, upper-cased and joined by `_`. |
| `Utils.IntendedNameSplits` | utils.py:82-90 | The corrected name splits on `_` back into the DEPCO code, the tags in order and the source number. |
| `Utils.Basename` | utils.py:176 | The base name has no `/`, ends the path, and follows a `/` when shorter than the path. |
| `Utils.SplitExt` | utils.py:177 | Root and extension rejoin to the path. The extension is empty or a dot followed by no dot or `/`. |
| `Utils.SplitExtAppend` | utils.py:177 | Appending an extension to a name with a stem is undone by `splitext`. |
| `Utils.FilenameWithoutExtension` | utils.py:171-179 | The result holds no `/`. |
| `Utils.FilenameWithoutExtensionOf` | utils.py:171-179 | `folder/stem.x` gives back `stem`, and a bare name without a dot gives itself. |
| `Utils.SuffixAfterLastUnderscore` | utils.py:181-189 | The result has no `_` and ends the extension-less name. It is the whole name when the name has no `_`, and otherwise follows the last `_`. |
| `Utils.SourceNumberReadBack` | utils.py:181-189 | A file named by the corrected scheme gives back its upper-cased source number. |
| `Utils.CheckShapefileCompleteness` | utils.py:144-169 | Fails iff some required part of some shapefile is missing. The message names each missing file once and is singular iff one file is missing. Otherwise it returns each shapefile name once. |
| `Utils.CollectMissing` | utils.py:150-158 | The loop over shapefile names collects each missing file exactly once. |
| `Utils.AddMissing` | utils.py:152-158 | One shapefile adds exactly its own missing files. |
| `Utils.AppendWithExts` | utils.py:156-157 | Appends `basename + ext` for each given extension, without repeats. |
| `Utils.ListOf` | utils.py:169 | `list(s)` holds each element of the set exactly once. |
| `Utils.ShapefileMissingMessageSingular` | utils.py:160-164 | The message uses the singular wording iff exactly one file is missing. |
| `Utils.MissingPartsIff` | utils.py:154-157 | For a shapefile name, `name + ext` is reported iff `ext` is not among that name's extensions. |
| `Utils.MissingIffUnlisted` | utils.py:146-157 | For a shapefile name, a required part is reported missing iff no listed file has that name. |
| `Utils.ConvertConfigRows` | utils.py:121-135 | The loop returns the specified entries, and the count is that of the successful conversions. |
| `Utils.ConfigEntriesSpec` | utils.py:127-134 | The entries are the rows with at least two fields, converted one by one in order. |
| `Utils.EntryIff` | utils.py:127-131 | `(label, code)` is an entry iff some row with two fields carries that label and a first field that reads as that integer. |
| `Utils.RowCountIff` | utils.py:126-135 | The count never exceeds the entries. It equals them iff every row with two fields has an integer first field. |
| `Utils.GetPluginVersion` | utils.py:12-17 | The loop returns at the first `version=` line, as the specification function says. |
| `Utils.NoVersionLine` | utils.py:14-17 | Without a `version=` line the version is "Unknown". |
| `Utils.FirstVersionLine` | utils.py:14-16 | The version is that of the first `version=` line; later ones are ignored. |
| `Utils.VersionOfSpec` | utils.py:16 | The version is the text after `version=` up to the next `=`, if there is one. |

## Left out

- Opening and decoding files: a file's content is an input (decoded lines, an encoding failure, or a read failure with its message). The `utf-8-sig` byte-order-mark handling is not modelled.
- `Path.glob` and `Path.exists` are separate inputs: the listed names, the names that exist with their content, and a listing failure. A missing, non-directory or unreadable directory is modelled as an empty listing, since `glob` yields nothing for it. Which rarer errors `glob` still raises is not modelled; `listingError` stands for any of them.
- `CsvReport.IntegrityProblems` and `CsvChecker.CheckCsvFiles`: an existence test that raises (for example `PermissionError` from `Path.exists`) is not modelled; every name either exists or not. In the source that error escapes `run_checks` and `check_csv_files` returns its fallback outcome.
- Logging calls: side effects with no bearing on the results.
- `Strings.ParseInt`: Python's `int()` also accepts underscores between digits and non-ASCII digits; the model accepts an optional sign followed by ASCII digits, after stripping white space.
- `Strings.Upper`: upper-cases ASCII letters only; Python's `str.upper` also maps other letters.
- `Strings.IsSpace`: the white space `str.strip` removes is the set `str.isspace` accepts. The set is written out by code point.
- `Utils.ConvertConfigRows`: `csv.reader`'s quote-aware tokenising is not modelled; the rows arrive already split. The error text stands for Python's `ValueError` message and does not reproduce `repr` quoting of unusual strings.
- `Utils.GetPluginVersion`: reading `metadata.txt` is not modelled; its lines are an input.
- `Utils.CheckShapefileCompleteness`: Python's set iteration order is left open, so the contract fixes which names appear in the message, and how often, but not their order. `os.listdir` is an input.
- `Utils.FilenameWithoutExtension`: POSIX `os.path` only; Windows drive letters and `\` separators are not modelled.
- `has_errors` in dour_base_dialog.py only reads the report; the dialog, database, subprocess and download code around it are not part of this model. The dialog reads `missing_files` and `list_problems`, which `run_checks` never sets.
- theme.py, core/export_utils.py and dour_base.py are not part of this model: palette handling, zip and settings I/O, and plugin bootstrap.
- `setup_logging`, `get_config_dir`, `get_param`, `get_shamas`, `prepare_convert_folder`, `copy_actual_shp_files` and `main_prepare_shapefiles` in utils.py are not part of this model: they need settings, a database or file copies.

## Findings

| source | as written | input that shows it | evidently intended | confidence | as-written member | corrected member |
|---|---|---|---|---|---|---|
| utils.py:88 | `name += f"{name}_EPL"` appends a copy of the name built so far | `update_file_name("29019", "001", aep=True, epl=True)` gives `"29019_AEP29019_AEP_EPL_001"` | `name = f"{name}_EPL"`, giving `"29019_AEP_EPL_001"`, whose `_`-pieces are the code, the tags and the source number | high, not executed | `Utils.EplDuplicatesName` | `Utils.IntendedNameSplits` |
| csv_checker.py:179-184 | the reader already drops the header, yet `lines[0]` is taken as a header again and the DEPCO.csv rules run on `lines[1:]` | DEPCO.csv holding `code;libelle`, `1;Foo`, `1;Bar` gives no problem | the rules run on every returned row, reporting one duplicate of code 1 on the second row; nothing else in the check changes | medium, not executed | `CsvReport.FirstDataRowUnchecked` | `CsvReport.IntendedDuplicateIff` |
