/**
 * The reference-file checker of csv_checker.py: a `CSVChecker` bound to a directory collects
 * the missing required files, the problems of each file and the valid files, and `RunChecks`
 * returns the report. Each method is proved against the specification in CsvReader,
 * DepcoRules and CsvReport.
 */
module CsvChecker {
  import opened Wrappers
  import opened Strings
  import opened Diagnostics
  import opened CsvReader
  import opened DepcoRules
  import opened CsvReport

  class CSVChecker {
    const directory: Directory
    /** Every problem found so far, as listed in the report. */
    var problems: seq<string>
    var missingFiles: seq<string>
    /** Never added to by any check. */
    var checkedFiles: set<string>
    var validFiles: set<string>

    /** The state `_reset_state` leaves. */
    predicate Cleared()
      reads this
    {
      problems == [] && missingFiles == [] && checkedFiles == {} && validFiles == {}
    }

    constructor(dir: Directory)
      ensures directory == dir && Cleared()
    {
      directory := dir;
      problems := [];
      missingFiles := [];
      checkedFiles := {};
      validFiles := {};
    }

    method ResetState()
      modifies this
      ensures Cleared()
    {
      problems := [];
      missingFiles := [];
      checkedFiles := {};
      validFiles := {};
    }

    /**
     * Records the missing required files, in sorted order, and one problem per missing file.
     * When the listing raises an error, fails with the checker's error and changes nothing;
     * a missing or unreadable directory is not such an error but an empty listing.
     */
    method CheckFilesExist() returns (r: Result<bool, string>)
      modifies this
      ensures directory.listingError.Some? ==>
        r == Failure(ListingFailure(directory.listingError.value)) && unchanged(this)
      ensures directory.listingError.None? ==>
        && r == Success(MissingFiles(directory) == [])
        && missingFiles == MissingFiles(directory)
        && problems == old(problems) + MissingMessages(MissingFiles(directory))
        && checkedFiles == old(checkedFiles) && validFiles == old(validFiles)
    {
      if directory.listingError.Some? {
        return Failure(ListingFailure(directory.listingError.value));
      }
      // sorted(REQUIRED_FILES - existing): see MissingFilesSpec.
      var missing := MissingFiles(directory);
      missingFiles := missing;
      for i := 0 to |missing|
        invariant problems == old(problems) + MissingMessages(missing[..i])
        invariant missingFiles == missing && checkedFiles == old(checkedFiles) && validFiles == old(validFiles)
      {
        problems := problems + [MissingMessage(missing[i])];
        assert MissingMessages(missing[..i + 1]) == MissingMessages(missing[..i]) + [MissingMessage(missing[i])];
      }
      assert missing[..|missing|] == missing;
      return Success(|missing| == 0);
    }

    /**
     * Reads one file's content: keeps the non-blank lines with their numbers, checks the
     * header, and splits every later line into its columns.
     */
    method ReadCsvFile(content: Content) returns (rows: seq<seq<string>>, ps: seq<Problem>)
      ensures Parsed(rows, ps) == Parse(content)
    {
      match content
      case Undecodable =>
        return [], [EncodingError];
      case Unreadable(reason) =>
        return [], [ReadFailure(reason)];
      case Text(lines) =>
        var e := NonBlankLines(lines);
        if e == [] {
          return [], [FileEmpty];
        }
        rows, ps := ParseLines(e);
    }

    /** The non-blank lines with their 1-based numbers, each stripped. */
    method NonBlankLines(lines: seq<string>) returns (e: seq<NumberedLine>)
      ensures e == NonBlank(lines)
    {
      ghost var ss := StrippedLines(lines);
      e := [];
      for i := 0 to |lines|
        invariant e == Numbered(ss[..i])
      {
        var text := Strip(lines[i]);
        assert ss[..i + 1] == ss[..i] + [text];
        if text != "" {
          e := e + [NumberedLine(i + 1, text)];
        }
      }
      assert ss[..|lines|] == ss;
    }

    /** Checks the header, then splits every later line into its columns. */
    method ParseLines(e: seq<NumberedLine>) returns (rows: seq<seq<string>>, ps: seq<Problem>)
      requires e != []
      ensures Parsed(rows, ps) == ParseNumbered(e)
    {
      rows, ps := [], [];
      if ';' !in e[0].text {
        ps := [InvalidHeader(e[0].num, e[0].text)];
      }
      ghost var header := ps;
      for j := 1 to |e|
        invariant rows == Rows(e[1..j])
        invariant ps == header + LineProblems(e[1..j])
      {
        var l := e[j];
        LinesStep(e, j);
        AppendAssoc(header, LineProblems(e[1..j]), LineProblem(l));
        if ';' !in l.text {
          ps := ps + [InvalidLine(l.num, l.text)];
          continue;
        }
        var columns := Columns(l.text);
        if |columns| < 2 {
          ps := ps + [MissingColumns(l.num, l.text)];
          continue;
        }
        rows := rows + [columns];
      }
      assert e[1..|e|] == e[1..];
    }

    /** Applies the DEPCO.csv rules to `rows`, remembering the codes seen. */
    method ValidateDepcoContent(rows: seq<seq<string>>) returns (ps: seq<Problem>)
      ensures ps == DepcoProblems(rows)
    {
      ps := [];
      var seen: set<string> := {};
      for i := 0 to |rows|
        invariant seen == SeenCodes(rows[..i])
        invariant ps == DepcoProblems(rows[..i])
      {
        DepcoStep(rows, i);
        var found;
        found, seen := ValidateRow(rows[i], i + 1, seen);
        ps := ps + found;
      }
      assert rows[..|rows|] == rows;
    }

    /** One turn of the loop of `_validate_depco_content`: the problems of row number `n` and
        the seen codes once the row's code, when it has one, is recorded. */
    method ValidateRow(row: seq<string>, n: nat, seen: set<string>) returns (found: seq<Problem>, seen': set<string>)
      ensures found == RowProblems(row, n, seen)
      ensures seen' == if |row| < 2 || Code(row) == "" then seen else seen + {Code(row)}
    {
      seen' := seen;
      if |row| < 2 {
        return [ShortRow(n)], seen';
      }
      var code, name := Strip(row[0]), Strip(row[1]);
      found := [];
      if code == "" {
        found := [MissingCode(n)];
      } else if code in seen' {
        found := [DuplicateCode(n, code)];
      } else {
        seen' := seen' + {code};
        match ParseInt(code)
        case None =>
          found := [InvalidCode(n, code)];
        case Some(v) =>
          if v < 0 {
            found := [NegativeCode(n, code)];
          }
      }
      assert found == CodeProblems(code, n, seen);
      if name == "" {
        found := found + [MissingLabel(n, code)];
      }
    }

    /** The problems of one required file, read from the checker's directory. */
    method CheckCsvIntegrity(filename: string) returns (ps: seq<Problem>)
      ensures ps == IntegrityProblems(filename, directory)
    {
      if filename !in directory.files {
        return [FileNotFound(filename)];
      }
      var rows, readProblems := ReadCsvFile(directory.files[filename]);
      ghost var parsed := Parsed(rows, readProblems);
      ps := readProblems;
      if rows == [] {
        return;
      }
      var header := rows[0];
      if |header| < 2 {
        ps := ps + [ShortHeader];
      }
      if filename == Depco {
        var depco := ValidateDepcoContent(rows[1..]);
        ps := ps + depco;
      }
      if |rows| <= 1 {
        ps := ps + [NoValidData];
      }
      assert ps == CheckParsed(filename, parsed);
    }

    /** Puts the file's name in front of each of its problems; both branches of the source
        do the same. */
    method FormatProblems(filename: string, ps: seq<Problem>) returns (formatted: seq<string>)
      ensures formatted == Formatted(filename, ps)
    {
      formatted := [];
      for i := 0 to |ps|
        invariant formatted == Formatted(filename, ps[..i])
      {
        var message := Message(ps[i]);
        FormattedStep(filename, ps, i);
        if StartsWith(message, "Ligne") {
          formatted := formatted + [filename + ": " + message];
        } else {
          formatted := formatted + [filename + ": " + message];
        }
      }
      assert ps[..|ps|] == ps;
    }

    /**
     * Runs every check from a cleared state and returns the report, which depends on the
     * directory alone; the state left behind holds the same problems, missing and valid files.
     * A listing that raises an error makes the run fail with the text of that error.
     */
    method RunChecks() returns (r: Result<Report, string>)
      modifies this
      ensures directory.listingError.Some? ==>
        r == Failure(ListingFailure(directory.listingError.value)) && Cleared()
      ensures directory.listingError.None? ==>
        && r == Success(ExpectedReport(directory))
        && problems == AllMessages(Verdicts(directory))
        && missingFiles == MissingFiles(directory)
        && validFiles == ValidFiles(Verdicts(directory), RequiredFiles)
        && checkedFiles == {}
    {
      ResetState();
      var exist := CheckFilesExist();
      if exist.Failure? {
        return Failure(exist.error);
      }
      var files := CheckEachFile();
      var withErrors := CountWithErrors(files);
      ReportedMissing(directory);
      var summary := Summary(|RequiredFiles|, |missingFiles|, withErrors, |validFiles|);
      return Success(Report(|problems| == 0, |problems| > 0, files, summary));
    }

    /** The loop of `run_checks` over the required files, in sorted order. */
    method CheckEachFile() returns (files: map<string, FileReport>)
      requires directory.listingError.None? && missingFiles == MissingFiles(directory) && validFiles == {}
      modifies this
      ensures files == FileReports(Verdicts(directory), RequiredFiles)
      ensures problems == old(problems) + FileMessages(Verdicts(directory), RequiredFiles)
      ensures validFiles == ValidFiles(Verdicts(directory), RequiredFiles)
      ensures missingFiles == old(missingFiles) && checkedFiles == old(checkedFiles)
    {
      ghost var verdicts := Verdicts(directory);
      files := map[];
      for i := 0 to |RequiredFiles|
        invariant missingFiles == old(missingFiles) && checkedFiles == old(checkedFiles)
        invariant problems == old(problems) + FileMessages(verdicts, RequiredFiles[..i])
        invariant validFiles == ValidFiles(verdicts, RequiredFiles[..i])
        invariant files == FileReports(verdicts, RequiredFiles[..i])
      {
        var filename := RequiredFiles[i];
        MessagesStep(verdicts, RequiredFiles, i);
        ValidStep(verdicts, RequiredFiles, i);
        ReportsStep(verdicts, RequiredFiles, i);
        ghost var added := if filename in verdicts then Formatted(filename, verdicts[filename]) else [];
        AppendAssoc(old(problems), FileMessages(verdicts, RequiredFiles[..i]), added);
        var report := CheckOneFile(filename);
        files := files[filename := report];
      }
      assert RequiredFiles[..|RequiredFiles|] == RequiredFiles;
    }

    /** One turn of that loop: checks the file when it was found, records its problems behind
        its name, records it as valid when it has none, and returns its report. */
    method CheckOneFile(filename: string) returns (report: FileReport)
      requires directory.listingError.None? && missingFiles == MissingFiles(directory)
      requires filename in RequiredFiles
      modifies this
      ensures var verdicts := Verdicts(directory);
        && report == FileReportOf(verdicts, filename)
        && problems == old(problems) + (if filename in verdicts then Formatted(filename, verdicts[filename]) else [])
        && validFiles == old(validFiles) + (if filename in verdicts && verdicts[filename] == [] then {filename} else {})
      ensures missingFiles == old(missingFiles) && checkedFiles == old(checkedFiles)
    {
      VerdictsSpec(directory, filename);
      report := FileReport(filename !in missingFiles, [], false);
      if report.fileExists {
        var ps := CheckCsvIntegrity(filename);
        report := FileReport(true, ps, |ps| == 0);
        if report.valid {
          validFiles := validFiles + {filename};
        }
        var formatted := FormatProblems(filename, ps);
        problems := problems + formatted;
      } else {
        assert problems == problems + [];
      }
    }

    /** How many required files were found but are not valid, counted over their reports. */
    method CountWithErrors(files: map<string, FileReport>) returns (n: nat)
      requires directory.listingError.None?
      requires files == FileReports(Verdicts(directory), RequiredFiles)
      ensures n == WithErrors(Verdicts(directory), RequiredFiles)
    {
      ghost var verdicts := Verdicts(directory);
      FileReportsSpec(verdicts, RequiredFiles);
      n := 0;
      for i := 0 to |RequiredFiles|
        invariant n == WithErrors(verdicts, RequiredFiles[..i])
      {
        WithErrorsStep(verdicts, RequiredFiles, i);
        var report := files[RequiredFiles[i]];
        if report.fileExists && !report.valid {
          n := n + 1;
        }
      }
      assert RequiredFiles[..|RequiredFiles|] == RequiredFiles;
    }
  }

  /** What `check_csv_files` returns: the report, or the fallback built from the error that
      stopped the checks, whose success flag is false and problems flag true. */
  datatype Outcome =
    | Checked(report: Report)
    | Aborted(listProblems: seq<string>, missingFiles: seq<string>, checkedFiles: seq<string>, validFiles: seq<string>)
  {
    predicate Succeeded() {
      Checked? && report.success
    }
  }

  /** Checks the reference files of a directory, turning a failure into the fallback outcome. */
  method CheckCsvFiles(dir: Directory) returns (o: Outcome)
    ensures dir.listingError.None? ==> o == Checked(ExpectedReport(dir))
    ensures dir.listingError.Some? ==>
      o == Aborted(["Error during validation: " + ListingFailure(dir.listingError.value)], [], [], [])
    ensures o.Succeeded() <==>
      dir.listingError.None? && forall f | f in RequiredFiles :: f in CsvNames(dir) && IntegrityProblems(f, dir) == []
  {
    var checker := new CSVChecker(dir);
    var r := checker.RunChecks();
    match r
    case Success(report) =>
      SuccessIff(dir);
      return Checked(report);
    case Failure(error) =>
      return Aborted(["Error during validation: " + error], [], [], []);
  }
}
