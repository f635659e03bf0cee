/**
 * Specification of what the reference-file checker of csv_checker.py reports for a directory:
 * which of the six required files are missing (`check_files_exist`), the problems of each file
 * present (`check_csv_integrity`), and the report `run_checks` assembles from them.
 */
module CsvReport {
  import opened Wrappers
  import opened Strings
  import opened Diagnostics
  import opened CsvReader
  import opened DepcoRules

  const Depco: string := "DEPCO.csv"

  /** The required files (`REQUIRED_FILES`), listed in the order Python's sorted() gives. */
  const RequiredFiles: seq<string> :=
    ["DEPCO.csv", "ENTREPRISE.csv", "ETAT.csv", "EXPLOITANT.csv", "MOA.csv", "Q_SUPPORT.csv"]

  /**
   * A directory as the checker sees it, through two separate inputs: `listed` holds the names
   * the listing finds, and `files` the names the existence test accepts, each with what reading
   * it yields. The two can disagree: the listing shows a link whose target is gone, which the
   * existence test follows and rejects, and a file can vanish between the two calls.
   * A missing or unreadable directory is an empty listing, as `glob` yields nothing for it;
   * `listingError` holds the text of an error the listing still raises.
   */
  datatype Directory = Directory(listed: set<string>, files: map<string, Content>, listingError: Option<string>)

  /** Python's ordering of strings: by code point, a proper prefix first. */
  predicate Less(a: string, b: string) {
    if a == [] then b != []
    else if b == [] then false
    else if a[0] != b[0] then a[0] < b[0]
    else Less(a[1..], b[1..])
  }

  /** Strictly increasing, hence also free of repeats. */
  predicate Sorted(s: seq<string>) {
    forall i, j | 0 <= i < j < |s| :: Less(s[i], s[j])
  }

  lemma {:induction false} LessIrreflexive(a: string)
    ensures !Less(a, a)
  {
    if a != [] {
      LessIrreflexive(a[1..]);
    }
  }

  lemma {:induction false} LessAsymmetric(a: string, b: string)
    ensures !(Less(a, b) && Less(b, a))
  {
    if a != [] && b != [] && a[0] == b[0] {
      LessAsymmetric(a[1..], b[1..]);
    }
  }

  lemma FirstCharLess(a: string, b: string)
    requires a != [] && b != [] && a[0] < b[0]
    ensures Less(a, b)
  {
  }

  lemma SecondCharLess(a: string, b: string)
    requires |a| >= 2 && |b| >= 2 && a[0] == b[0] && a[1] < b[1]
    ensures Less(a, b)
  {
    FirstCharLess(a[1..], b[1..]);
  }

  /** The listing of the required files is in sorted order, so it is what sorted() returns
      for them. */
  lemma RequiredFilesSorted()
    ensures Sorted(RequiredFiles)
  {
    var r := RequiredFiles;
    forall i, j | 0 <= i < j < |r| ensures Less(r[i], r[j]) {
      if 1 <= i && j <= 3 {
        SecondCharLess(r[i], r[j]);
      } else {
        FirstCharLess(r[i], r[j]);
      }
    }
  }

  /** There are six required files, all distinct. */
  lemma RequiredFilesDistinct()
    ensures |RequiredFiles| == 6
    ensures forall i, j | 0 <= i < j < |RequiredFiles| :: RequiredFiles[i] != RequiredFiles[j]
  {
    RequiredFilesSorted();
    forall i, j | 0 <= i < j < |RequiredFiles| ensures RequiredFiles[i] != RequiredFiles[j] {
      LessIrreflexive(RequiredFiles[i]);
    }
  }

  /** The `.csv` entries the listing finds. */
  function CsvNames(d: Directory): set<string> {
    set n | n in d.listed && EndsWith(n, ".csv")
  }

  /** The names of `names` that are not in `present`, in the order of `names`. */
  function MissingAmong(names: seq<string>, present: set<string>): (m: seq<string>)
    ensures |m| <= |names|
    ensures forall x | x in m :: x in names && x !in present
  {
    if names == [] then []
    else
      var last := names[|names| - 1];
      MissingAmong(names[..|names| - 1], present) + (if last in present then [] else [last])
  }

  /** The missing required files, in sorted order (`self.missing_files`). */
  function MissingFiles(d: Directory): seq<string> {
    MissingAmong(RequiredFiles, CsvNames(d))
  }

  lemma {:induction false} MissingAmongMembers(names: seq<string>, present: set<string>)
    ensures forall x :: x in MissingAmong(names, present) <==> x in names && x !in present
  {
    if names != [] {
      var init := names[..|names| - 1];
      MissingAmongMembers(init, present);
      assert names == init + [names[|names| - 1]];
    }
  }

  lemma {:induction false} MissingAmongSorted(names: seq<string>, present: set<string>)
    requires Sorted(names)
    ensures Sorted(MissingAmong(names, present))
  {
    if names != [] {
      var init := names[..|names| - 1];
      var last := names[|names| - 1];
      assert Sorted(init) by {
        forall i, j | 0 <= i < j < |init| ensures Less(init[i], init[j]) {
          assert init[i] == names[i] && init[j] == names[j];
        }
      }
      MissingAmongSorted(init, present);
      var m := MissingAmong(init, present);
      forall i | 0 <= i < |m| ensures Less(m[i], last) {
        assert m[i] in init;
        var k :| 0 <= k < |init| && init[k] == m[i];
        assert names[k] == init[k];
      }
    }
  }

  /** The missing files are listed in sorted order, without repeats, and are exactly the
      required files the `.csv` listing does not find. */
  lemma MissingFilesSpec(d: Directory)
    ensures Sorted(MissingFiles(d))
    ensures forall x :: x in MissingFiles(d) <==> x in RequiredFiles && x !in CsvNames(d)
  {
    RequiredFilesSorted();
    MissingAmongSorted(RequiredFiles, CsvNames(d));
    MissingAmongMembers(RequiredFiles, CsvNames(d));
  }

  /** What `check_csv_integrity` makes of what the reader returned. The reader has already
      dropped the header, yet the first row is taken as a header once more: it is the one
      checked for two columns, the DEPCO.csv rules see only the rows after it, and a file
      needs two rows to count as holding data. */
  function CheckParsed(filename: string, parsed: Parsed): (ps: seq<Problem>)
    ensures parsed.problems <= ps
    ensures parsed.rows == [] ==> ps == parsed.problems
    ensures filename != Depco ==> |ps| <= |parsed.problems| + 2
  {
    var rows := parsed.rows;
    if rows == [] then parsed.problems
    else
      var header := if |rows[0]| < 2 then parsed.problems + [ShortHeader] else parsed.problems;
      var rules := if filename == Depco then header + DepcoProblems(rows[1..]) else header;
      if |rows| <= 1 then rules + [NoValidData] else rules
  }

  /** What `check_csv_integrity` returns for one file: "not found" alone when the existence
      test rejects it, and otherwise the reader's problems followed by those the check adds. */
  function IntegrityProblems(filename: string, d: Directory): (ps: seq<Problem>)
    ensures filename !in d.files ==> ps == [FileNotFound(filename)]
    ensures filename in d.files ==> Parse(d.files[filename]).problems <= ps
    ensures FileNotFound(filename) in ps <==> filename !in d.files
  {
    if filename !in d.files then [FileNotFound(filename)]
    else
      CheckParsedKinds(filename, Parse(d.files[filename]));
      CheckParsed(filename, Parse(d.files[filename]))
  }

  /** Every row the reader returns has two columns. */
  lemma ParseRowsHaveTwoColumns(c: Content)
    ensures forall r | r in Parse(c).rows :: |r| == 2
  {
    if c.Text? {
      var e := NonBlank(c.lines);
      if e != [] {
        RowsShape(e[1..]);
      }
    }
  }

  /** The problems `check_csv_integrity` adds to the reader's when there are rows: the short
      header, those of the DEPCO.csv rules, then "no valid data". */
  function Added(filename: string, rows: seq<seq<string>>): seq<Problem>
    requires rows != []
  {
    var short: seq<Problem> := if |rows[0]| < 2 then [ShortHeader] else [];
    var rules: seq<Problem> := if filename == Depco then DepcoProblems(rows[1..]) else [];
    short + rules + (if |rows| <= 1 then [NoValidData] else [])
  }

  lemma CheckParsedAdds(filename: string, parsed: Parsed)
    requires parsed.rows != []
    ensures CheckParsed(filename, parsed) == parsed.problems + Added(filename, parsed.rows)
  {
  }

  lemma AddedSpec(filename: string, rows: seq<seq<string>>)
    requires rows != []
    ensures forall q | q in Added(filename, rows) :: q.ShortHeader? || q.NoValidData? || q.FromDepcoRules()
    ensures ShortHeader in Added(filename, rows) <==> |rows[0]| < 2
    ensures NoValidData in Added(filename, rows) <==> |rows| == 1
    ensures filename != Depco ==> forall q | q in Added(filename, rows) :: !q.FromDepcoRules()
  {
    var rules: seq<Problem> := if filename == Depco then DepcoProblems(rows[1..]) else [];
    assert forall q | q in rules :: q.FromDepcoRules();
  }

  /** The problems of a file that was read are those of the reader, first, then the short
      header, those of the DEPCO.csv rules, and "no valid data"; files other than DEPCO.csv
      get no problem from those rules. */
  lemma CheckParsedKinds(filename: string, parsed: Parsed)
    requires forall q | q in parsed.problems :: q.FromReader()
    ensures var ps := CheckParsed(filename, parsed);
      && parsed.problems <= ps
      && forall q | q in ps :: q.FromReader() || q.ShortHeader? || q.NoValidData? || q.FromDepcoRules()
    ensures filename != Depco ==> forall q | q in CheckParsed(filename, parsed) :: !q.FromDepcoRules()
  {
    if parsed.rows != [] {
      CheckParsedAdds(filename, parsed);
      AddedSpec(filename, parsed.rows);
    }
  }

  /** The short-header problem is reported exactly when the first row has fewer than two
      columns, and "no valid data" exactly when there is one row. */
  lemma CheckParsedMarkers(filename: string, parsed: Parsed)
    requires forall q | q in parsed.problems :: q.FromReader()
    ensures ShortHeader in CheckParsed(filename, parsed) <==> parsed.rows != [] && |parsed.rows[0]| < 2
    ensures NoValidData in CheckParsed(filename, parsed) <==> |parsed.rows| == 1
  {
    assert ShortHeader !in parsed.problems && NoValidData !in parsed.problems;
    if parsed.rows != [] {
      CheckParsedAdds(filename, parsed);
      AddedSpec(filename, parsed.rows);
    }
  }

  /** The short-header problem is never reported, since every row has two columns. */
  lemma ShortHeaderNeverReported(filename: string, d: Directory)
    ensures ShortHeader !in IntegrityProblems(filename, d)
  {
    if filename in d.files {
      var parsed := Parse(d.files[filename]);
      ParseRowsHaveTwoColumns(d.files[filename]);
      CheckParsedMarkers(filename, parsed);
      if parsed.rows != [] {
        assert parsed.rows[0] in parsed.rows;
      }
    }
  }

  /** When every row has two columns, nothing the check adds is a row of the wrong shape. */
  lemma NoShortRowAdded(filename: string, rows: seq<seq<string>>)
    requires rows != [] && forall r | r in rows :: |r| == 2
    ensures forall q | q in Added(filename, rows) :: !q.ShortRow?
  {
    var checked := rows[1..];
    assert forall i | 0 <= i < |checked| :: checked[i] in rows;
    NoShortRow(checked);
    var short: seq<Problem> := if |rows[0]| < 2 then [ShortHeader] else [];
    var rules: seq<Problem> := if filename == Depco then DepcoProblems(checked) else [];
    var tail: seq<Problem> := if |rows| <= 1 then [NoValidData] else [];
    assert Added(filename, rows) == short + rules + tail;
  }

  /** The DEPCO.csv rules never report a row of the wrong shape, since every row the reader
      returns has two columns. */
  lemma ShortRowNeverReported(filename: string, d: Directory)
    ensures forall q | q in IntegrityProblems(filename, d) :: !q.ShortRow?
  {
    if filename in d.files {
      var parsed := Parse(d.files[filename]);
      ParseRowsHaveTwoColumns(d.files[filename]);
      if parsed.rows != [] {
        CheckParsedAdds(filename, parsed);
        NoShortRowAdded(filename, parsed.rows);
      }
    }
  }

  /** The "no valid data" problem is reported exactly when the reader returns one row: a file
      holding a header and one good data line gets it, and a file holding only a header does
      not. */
  lemma NoValidDataIff(filename: string, d: Directory)
    ensures NoValidData in IntegrityProblems(filename, d) <==>
      filename in d.files && |Parse(d.files[filename]).rows| == 1
  {
    if filename in d.files {
      CheckParsedMarkers(filename, Parse(d.files[filename]));
    }
  }

  /** The DEPCO.csv rules apply to DEPCO.csv only. */
  lemma RulesOnlyForDepco(filename: string, d: Directory)
    requires filename != Depco
    ensures forall q | q in IntegrityProblems(filename, d) :: !q.FromDepcoRules()
  {
    if filename in d.files {
      CheckParsedKinds(filename, Parse(d.files[filename]));
    }
  }

  /** A file whose only non-blank line is a header with a ';' passes the check. */
  lemma HeaderOnlyPasses(filename: string, d: Directory, lines: seq<string>)
    requires filename in d.files && d.files[filename] == Text(lines)
    requires |NonBlank(lines)| == 1 && ';' in NonBlank(lines)[0].text
    ensures IntegrityProblems(filename, d) == []
  {
    var e := NonBlank(lines);
    assert e[1..] == [];
  }

  /** The DEPCO.csv of the example: a header, then two rows with the same code 1. */
  const RepeatedCodeLines: seq<string> := ["code;libelle", "1;Foo", "1;Bar"]

  /** A line `a;b` whose parts are already stripped splits into the columns `a` and `b`. */
  lemma ColumnsOfPair(a: string, b: string)
    requires ';' !in a && Strip(a) == a && Strip(b) == b
    ensures Columns(a + ";" + b) == [a, b]
  {
    var text := a + ";" + b;
    assert text[..|a|] == a && text[|a|] == ';' && text[|a| + 1..] == b;
    IndexOfUnique(text, ';', |a|);
  }

  /** The example's lines are already stripped and none is blank, so all three are kept. */
  lemma RepeatedCodeNonBlank()
    ensures NonBlank(RepeatedCodeLines)
      == [NumberedLine(1, "code;libelle"), NumberedLine(2, "1;Foo"), NumberedLine(3, "1;Bar")]
  {
    var lines := RepeatedCodeLines;
    var l0, l1, l2 := lines[0], lines[1], lines[2];
    StripUnchanged(l0);
    StripUnchanged(l1);
    StripUnchanged(l2);
    assert StrippedLines(lines) == [l0] + [l1] + [l2];
    NumberedSnoc([], l0);
    NumberedSnoc([l0], l1);
    NumberedSnoc([l0] + [l1], l2);
    assert [] + [l0] == [l0];
  }

  /** The example's data lines split into their stripped parts. */
  lemma RepeatedCodeColumns()
    ensures Columns("1;Foo") == ["1", "Foo"] && Columns("1;Bar") == ["1", "Bar"]
  {
    StripUnchanged("1");
    StripUnchanged("Foo");
    StripUnchanged("Bar");
    ColumnsOfPair("1", "Foo");
    ColumnsOfPair("1", "Bar");
    assert "1;Foo" == "1" + ";" + "Foo" && "1;Bar" == "1" + ";" + "Bar";
  }

  /** Both data lines of the example split into a row, and neither gives a problem. */
  lemma RepeatedCodeDataLines()
    ensures Rows([NumberedLine(2, "1;Foo"), NumberedLine(3, "1;Bar")]) == [["1", "Foo"], ["1", "Bar"]]
    ensures LineProblems([NumberedLine(2, "1;Foo"), NumberedLine(3, "1;Bar")]) == []
  {
    RepeatedCodeColumns();
    var data := [NumberedLine(2, "1;Foo"), NumberedLine(3, "1;Bar")];
    assert data[..1] == [data[0]] && data[..1][..0] == [];
    assert ';' in data[0].text && ';' in data[1].text by {
      assert data[0].text[1] == ';' && data[1].text[1] == ';';
    }
  }

  /** What the reader returns for the example: the header is set aside and both data lines
      become rows. */
  lemma RepeatedCodeParsed()
    ensures Parse(Text(RepeatedCodeLines)) == Parsed([["1", "Foo"], ["1", "Bar"]], [])
  {
    RepeatedCodeNonBlank();
    RepeatedCodeDataLines();
    var e := NonBlank(RepeatedCodeLines);
    assert e[1..] == [NumberedLine(2, "1;Foo"), NumberedLine(3, "1;Bar")];
  }

  /** The DEPCO.csv rules on the example's rows: on both, one duplicate on row 2; on the
      second alone, nothing. */
  lemma RepeatedCodeRules()
    ensures DepcoProblems([["1", "Foo"], ["1", "Bar"]]) == [DuplicateCode(2, "1")]
    ensures DepcoProblems([["1", "Bar"]]) == []
  {
    var rows := [["1", "Foo"], ["1", "Bar"]];
    StripUnchanged("1");
    StripUnchanged("Foo");
    StripUnchanged("Bar");
    assert ParseInt("1") == Some(1) by {
      assert DigitsValue("1") == 1 by {
        assert "1"[..0] == "";
      }
    }
    assert rows[..1] == [["1", "Foo"]];
    assert [["1", "Foo"]][..0] == [] && [["1", "Bar"]][..0] == [];
    assert SeenCodes([["1", "Foo"]]) == {"1"};
    assert DepcoProblems([["1", "Foo"]]) == [];
  }

  /** In DEPCO.csv the first data row escapes the rules: a file holding a header and the rows
      `1;Foo` and `1;Bar` passes, the repeated code 1 unreported. */
  lemma FirstDataRowUnchecked(d: Directory)
    requires Depco in d.files && d.files[Depco] == Text(RepeatedCodeLines)
    ensures IntegrityProblems(Depco, d) == []
  {
    RepeatedCodeParsed();
    RepeatedCodeRules();
    var rows := [["1", "Foo"], ["1", "Bar"]];
    assert rows[1..] == [["1", "Bar"]];
    CheckParsedAdds(Depco, Parsed(rows, []));
  }

  /** `check_csv_integrity` as it evidently means to work: the reader has already set the
      header aside, so the DEPCO.csv rules see every row it returns. Nothing else changes. */
  function CheckParsedIntended(filename: string, parsed: Parsed): (ps: seq<Problem>)
    ensures parsed.problems <= ps
  {
    var rows := parsed.rows;
    if rows == [] then parsed.problems
    else
      var header := if |rows[0]| < 2 then parsed.problems + [ShortHeader] else parsed.problems;
      var rules := if filename == Depco then header + DepcoProblems(rows) else header;
      if |rows| <= 1 then rules + [NoValidData] else rules
  }

  /** The correction touches only the DEPCO.csv rules: other files get the same problems, and
      every problem that does not come from those rules is reported in both versions alike. */
  lemma IntendedChangesOnlyRules(filename: string, parsed: Parsed)
    ensures filename != Depco ==> CheckParsedIntended(filename, parsed) == CheckParsed(filename, parsed)
    ensures forall q: Problem | !q.FromDepcoRules() ::
      q in CheckParsedIntended(filename, parsed) <==> q in CheckParsed(filename, parsed)
  {
    var rows := parsed.rows;
    if rows != [] && filename == Depco {
      var header := if |rows[0]| < 2 then parsed.problems + [ShortHeader] else parsed.problems;
      var tail: seq<Problem> := if |rows| <= 1 then [NoValidData] else [];
      assert CheckParsedIntended(filename, parsed) == header + DepcoProblems(rows) + tail;
      assert CheckParsed(filename, parsed) == header + DepcoProblems(rows[1..]) + tail;
    }
  }

  /** With every row checked, the file of the example gives exactly one problem: the repeated
      code, on the second row. */
  lemma IntendedFlagsDuplicate()
    ensures CheckParsedIntended(Depco, Parse(Text(RepeatedCodeLines))) == [DuplicateCode(2, "1")]
  {
    RepeatedCodeParsed();
    RepeatedCodeRules();
  }

  /** The corrected check on a file with rows: the reader's problems, the short header, the
      DEPCO.csv rules on every row, then "no valid data". */
  lemma IntendedParts(parsed: Parsed)
    requires parsed.rows != []
    ensures var rows := parsed.rows;
      CheckParsedIntended(Depco, parsed)
      == (if |rows[0]| < 2 then parsed.problems + [ShortHeader] else parsed.problems)
         + DepcoProblems(rows) + (if |rows| <= 1 then [NoValidData] else [])
  {
  }

  /** With every row checked, the DEPCO.csv rules add nothing to what a file gets exactly when
      all its rows, the first one included, are valid. */
  lemma IntendedDepcoCleanIff(parsed: Parsed)
    requires forall q | q in parsed.problems :: q.FromReader()
    ensures (forall q | q in CheckParsedIntended(Depco, parsed) :: !q.FromDepcoRules()) <==> ValidRows(parsed.rows)
  {
    var rows := parsed.rows;
    DepcoCleanIff(rows);
    if rows != [] {
      IntendedParts(parsed);
      var header := if |rows[0]| < 2 then parsed.problems + [ShortHeader] else parsed.problems;
      var tail: seq<Problem> := if |rows| <= 1 then [NoValidData] else [];
      var ps := DepcoProblems(rows);
      assert forall q: Problem | q in header + tail :: !q.FromDepcoRules();
      if ps != [] {
        assert ps[0] in header + ps + tail;
      }
    }
  }

  /** With every row checked, a repeated code is reported on row `j + 1` exactly when an earlier
      row, the first one included, carries the same non-empty code. */
  lemma IntendedDuplicateIff(parsed: Parsed, j: nat)
    requires forall q | q in parsed.problems :: q.FromReader()
    requires j < |parsed.rows| && |parsed.rows[j]| >= 2
    ensures var rows := parsed.rows;
      DuplicateCode(j + 1, Code(rows[j])) in CheckParsedIntended(Depco, parsed) <==>
        Code(rows[j]) != "" && exists i :: 0 <= i < j && |rows[i]| >= 2 && Code(rows[i]) == Code(rows[j])
  {
    var rows := parsed.rows;
    DuplicateIff(rows, j);
    var header := if |rows[0]| < 2 then parsed.problems + [ShortHeader] else parsed.problems;
    var tail := if |rows| <= 1 then [NoValidData] else [];
    assert CheckParsedIntended(Depco, parsed) == header + DepcoProblems(rows) + tail;
    assert DuplicateCode(j + 1, Code(rows[j])) !in header + tail;
  }

  /** What `run_checks` reports for one required file. */
  datatype FileReport = FileReport(fileExists: bool, problems: seq<Problem>, valid: bool)

  datatype Summary = Summary(totalFiles: nat, missing: nat, withErrors: nat, valid: nat)

  /** The report `run_checks` returns; `hasProblems` is its "problems" flag. */
  datatype Report = Report(success: bool, hasProblems: bool, files: map<string, FileReport>, summary: Summary)

  /** The error `check_files_exist` raises when the listing itself raises one. */
  function ListingFailure(reason: string): string {
    "Error while checking files: " + reason
  }

  /** What the checker found for one required file, given the problems of each required
      file the listing found. */
  function FileReportOf(verdicts: map<string, seq<Problem>>, f: string): FileReport {
    if f !in verdicts then FileReport(false, [], false)
    else FileReport(true, verdicts[f], verdicts[f] == [])
  }

  /** How a missing file is listed in the checker's problem list. */
  function MissingMessage(f: string): string {
    "Missing file: " + f
  }

  /** A file's problems as the checker lists them: each message behind the file's name. */
  function Formatted(filename: string, ps: seq<Problem>): (r: seq<string>)
    ensures |r| == |ps|
  {
    seq(|ps|, i requires 0 <= i < |ps| => filename + ": " + Message(ps[i]))
  }

  lemma FormattedStep(filename: string, ps: seq<Problem>, i: nat)
    requires i < |ps|
    ensures Formatted(filename, ps[..i + 1]) == Formatted(filename, ps[..i]) + [filename + ": " + Message(ps[i])]
  {
    var a, b := Formatted(filename, ps[..i + 1]), Formatted(filename, ps[..i]);
    assert a[..i] == b by {
      forall k | 0 <= k < i ensures a[k] == b[k] {
        assert ps[..i + 1][k] == ps[..i][k];
      }
    }
    assert a == a[..i] + [a[i]];
  }

  function MissingMessages(missing: seq<string>): (r: seq<string>)
    ensures |r| == |missing|
  {
    seq(|missing|, i requires 0 <= i < |missing| => MissingMessage(missing[i]))
  }

  /** The formatted problems of the files `names` that were found, in the order of `names`. */
  function FileMessages(verdicts: map<string, seq<Problem>>, names: seq<string>): seq<string> {
    if names == [] then []
    else
      var f := names[|names| - 1];
      FileMessages(verdicts, names[..|names| - 1]) + (if f in verdicts then Formatted(f, verdicts[f]) else [])
  }

  /** The number of the files `names` that were found and have problems. */
  function WithErrors(verdicts: map<string, seq<Problem>>, names: seq<string>): nat {
    if names == [] then 0
    else
      var f := names[|names| - 1];
      WithErrors(verdicts, names[..|names| - 1]) + (if f in verdicts && verdicts[f] != [] then 1 else 0)
  }

  /** The files among `names` that were found and have no problem. */
  function ValidFiles(verdicts: map<string, seq<Problem>>, names: seq<string>): set<string> {
    if names == [] then {}
    else
      var f := names[|names| - 1];
      ValidFiles(verdicts, names[..|names| - 1]) + (if f in verdicts && verdicts[f] == [] then {f} else {})
  }

  /** The per-file reports of the files `names`, keyed by name. */
  function FileReports(verdicts: map<string, seq<Problem>>, names: seq<string>): map<string, FileReport> {
    if names == [] then map[]
    else
      var f := names[|names| - 1];
      FileReports(verdicts, names[..|names| - 1])[f := FileReportOf(verdicts, f)]
  }

  /** The checker's full problem list: the missing files, then each present file's problems. */
  function AllMessages(verdicts: map<string, seq<Problem>>): seq<string> {
    MissingMessages(MissingAmong(RequiredFiles, verdicts.Keys)) + FileMessages(verdicts, RequiredFiles)
  }

  /** The report assembled from the problems of the required files found. */
  function ReportFrom(verdicts: map<string, seq<Problem>>): Report {
    var msgs := AllMessages(verdicts);
    Report(
      msgs == [], |msgs| > 0,
      FileReports(verdicts, RequiredFiles),
      Summary(
        |RequiredFiles|, |MissingAmong(RequiredFiles, verdicts.Keys)|,
        WithErrors(verdicts, RequiredFiles), |ValidFiles(verdicts, RequiredFiles)|))
  }

  /** The problems of each required file the listing finds. */
  function Verdicts(d: Directory): map<string, seq<Problem>> {
    map f | f in RequiredFiles && f in CsvNames(d) :: IntegrityProblems(f, d)
  }

  /** The report `run_checks` returns when the directory can be listed. */
  function ExpectedReport(d: Directory): Report {
    ReportFrom(Verdicts(d))
  }

  lemma {:induction false} MissingAmongAgree(names: seq<string>, p1: set<string>, p2: set<string>)
    requires forall x | x in names :: x in p1 <==> x in p2
    ensures MissingAmong(names, p1) == MissingAmong(names, p2)
  {
    if names != [] {
      MissingAmongAgree(names[..|names| - 1], p1, p2);
    }
  }

  /** The files the report lists as missing are those `check_files_exist` finds missing. */
  lemma ReportedMissing(d: Directory)
    ensures MissingAmong(RequiredFiles, Verdicts(d).Keys) == MissingFiles(d)
  {
    MissingAmongAgree(RequiredFiles, Verdicts(d).Keys, CsvNames(d));
  }

  /** The per-file part of the report `run_checks` returns for a directory. */
  lemma ExpectedFiles(d: Directory)
    ensures ExpectedReport(d).files == FileReports(Verdicts(d), RequiredFiles)
  {
  }

  /** A listed file that the existence test also accepts is never reported as not found, and
      the report lists it as existing. */
  lemma PresentFilesAreFound(d: Directory, f: string)
    requires f in RequiredFiles && f in CsvNames(d) && f in d.files
    ensures FileNotFound(f) !in IntegrityProblems(f, d)
    ensures f in ExpectedReport(d).files && ExpectedReport(d).files[f].fileExists
  {
    var v := Verdicts(d);
    assert f in v;
    ExpectedFiles(d);
    FileReportsSpec(v, RequiredFiles);
  }

  /** A listed file the existence test rejects (a link to nothing, or a file removed after the
      listing) counts as present, yet its only problem is "not found": the report says it
      exists and is not valid, and the check fails. */
  lemma ListedButNotFound(d: Directory, f: string)
    requires f in RequiredFiles && f in CsvNames(d) && f !in d.files
    ensures IntegrityProblems(f, d) == [FileNotFound(f)]
    ensures f !in MissingFiles(d)
    ensures f in ExpectedReport(d).files
    ensures ExpectedReport(d).files[f] == FileReport(true, [FileNotFound(f)], false)
    ensures !ExpectedReport(d).success
  {
    var v := Verdicts(d);
    assert f in v && v[f] == [FileNotFound(f)];
    MissingFilesSpec(d);
    ExpectedFiles(d);
    FileReportsSpec(v, RequiredFiles);
    SuccessIff(d);
  }

  lemma {:induction false} FileMessagesEmptyIff(verdicts: map<string, seq<Problem>>, names: seq<string>)
    ensures FileMessages(verdicts, names) == [] <==>
      forall f | f in names && f in verdicts :: verdicts[f] == []
  {
    if names != [] {
      var init := names[..|names| - 1];
      FileMessagesEmptyIff(verdicts, init);
      assert names == init + [names[|names| - 1]];
    }
  }

  /** The report succeeds exactly when every required file was found and has no problem; it
      then lists no problem at all, and its two flags always disagree. */
  lemma ReportSuccessIff(verdicts: map<string, seq<Problem>>)
    ensures ReportFrom(verdicts).success <==>
      forall f | f in RequiredFiles :: f in verdicts && verdicts[f] == []
    ensures ReportFrom(verdicts).success != ReportFrom(verdicts).hasProblems
  {
    MissingAmongMembers(RequiredFiles, verdicts.Keys);
    FileMessagesEmptyIff(verdicts, RequiredFiles);
    var missing := MissingAmong(RequiredFiles, verdicts.Keys);
    assert missing == [] <==> forall f | f in RequiredFiles :: f in verdicts by {
      if missing != [] {
        assert missing[0] in missing;
      }
    }
  }

  /** The check succeeds exactly when every required file is listed and passes its integrity
      check. */
  lemma SuccessIff(d: Directory)
    ensures ExpectedReport(d).success <==>
      forall f | f in RequiredFiles :: f in CsvNames(d) && IntegrityProblems(f, d) == []
  {
    ReportSuccessIff(Verdicts(d));
  }

  lemma {:induction false} NothingPresent(names: seq<string>, present: set<string>)
    requires forall x | x in names :: x !in present
    ensures MissingAmong(names, present) == names
  {
    if names != [] {
      NothingPresent(names[..|names| - 1], present);
      assert names[..|names| - 1] + [names[|names| - 1]] == names;
    }
  }

  /** A directory whose listing finds nothing, as for a missing or unreadable one, has all six
      required files missing, in sorted order, and fails the check. */
  lemma EmptyListingAllMissing(d: Directory)
    requires d.listed == {}
    ensures MissingFiles(d) == RequiredFiles
    ensures !ExpectedReport(d).success
  {
    NothingPresent(RequiredFiles, CsvNames(d));
    SuccessIff(d);
    assert "DEPCO.csv" in RequiredFiles;
  }

  lemma {:induction false} ValidFilesWithin(verdicts: map<string, seq<Problem>>, names: seq<string>)
    ensures forall f | f in ValidFiles(verdicts, names) :: f in names
  {
    if names != [] {
      var init := names[..|names| - 1];
      ValidFilesWithin(verdicts, init);
      assert names == init + [names[|names| - 1]];
    }
  }

  /** Each of a list of distinct names is counted once: missing, with errors, or valid. */
  lemma {:induction false} CountsAddUp(verdicts: map<string, seq<Problem>>, names: seq<string>)
    requires forall i, j | 0 <= i < j < |names| :: names[i] != names[j]
    ensures |MissingAmong(names, verdicts.Keys)| + WithErrors(verdicts, names) + |ValidFiles(verdicts, names)| == |names|
  {
    if names != [] {
      var init := names[..|names| - 1];
      var f := names[|names| - 1];
      CountsAddUp(verdicts, init);
      assert f !in ValidFiles(verdicts, init) by {
        ValidFilesWithin(verdicts, init);
      }
    }
  }

  /** Every required file is counted once in the summary: missing, with errors, or valid. */
  lemma SummaryAddsUp(verdicts: map<string, seq<Problem>>)
    ensures var s := ReportFrom(verdicts).summary;
      s.missing + s.withErrors + s.valid == s.totalFiles == 6
  {
    RequiredFilesDistinct();
    CountsAddUp(verdicts, RequiredFiles);
  }

  /** The per-file reports cover exactly the files named, each with its own report. */
  lemma {:induction false} FileReportsSpec(verdicts: map<string, seq<Problem>>, names: seq<string>)
    ensures forall f :: f in FileReports(verdicts, names) <==> f in names
    ensures forall f | f in names :: FileReports(verdicts, names)[f] == FileReportOf(verdicts, f)
  {
    if names != [] {
      var init := names[..|names| - 1];
      FileReportsSpec(verdicts, init);
      assert names == init + [names[|names| - 1]];
    }
  }

  /** Every required file has a report, which calls it valid exactly when it was found and
      has no problem. */
  lemma FileReportValidIff(verdicts: map<string, seq<Problem>>, f: string)
    requires f in RequiredFiles
    ensures f in ReportFrom(verdicts).files
    ensures var r := ReportFrom(verdicts).files[f];
      r.valid <==> r.fileExists && r.problems == [] && f in verdicts
  {
    FileReportsSpec(verdicts, RequiredFiles);
  }

  /** One more name: the steps the checker's loops over the required files take. */
  lemma MessagesStep(verdicts: map<string, seq<Problem>>, names: seq<string>, i: nat)
    requires i < |names|
    ensures var f := names[i];
      FileMessages(verdicts, names[..i + 1])
      == FileMessages(verdicts, names[..i]) + (if f in verdicts then Formatted(f, verdicts[f]) else [])
  {
    assert names[..i + 1][..i] == names[..i];
  }

  lemma ValidStep(verdicts: map<string, seq<Problem>>, names: seq<string>, i: nat)
    requires i < |names|
    ensures var f := names[i];
      ValidFiles(verdicts, names[..i + 1])
      == ValidFiles(verdicts, names[..i]) + (if f in verdicts && verdicts[f] == [] then {f} else {})
  {
    assert names[..i + 1][..i] == names[..i];
  }

  lemma ReportsStep(verdicts: map<string, seq<Problem>>, names: seq<string>, i: nat)
    requires i < |names|
    ensures FileReports(verdicts, names[..i + 1]) == FileReports(verdicts, names[..i])[names[i] := FileReportOf(verdicts, names[i])]
  {
    assert names[..i + 1][..i] == names[..i];
  }

  lemma WithErrorsStep(verdicts: map<string, seq<Problem>>, names: seq<string>, i: nat)
    requires i < |names|
    ensures var f := names[i];
      WithErrors(verdicts, names[..i + 1])
      == WithErrors(verdicts, names[..i]) + (if f in verdicts && verdicts[f] != [] then 1 else 0)
  {
    assert names[..i + 1][..i] == names[..i];
  }

  /** Which required files have a verdict, and what it is. */
  lemma VerdictsSpec(d: Directory, f: string)
    requires f in RequiredFiles
    ensures f in Verdicts(d) <==> f !in MissingFiles(d)
    ensures f in Verdicts(d) ==> Verdicts(d)[f] == IntegrityProblems(f, d)
  {
    MissingFilesSpec(d);
  }
}
