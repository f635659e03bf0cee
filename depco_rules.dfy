/**
 * The rules csv_checker.py applies to the data rows of DEPCO.csv (`_validate_depco_content`):
 * every row needs a code and a label; a code must be new, an integer, and not negative.
 * Rows are numbered from 1 among the rows given to the rules, not by file line.
 */
module DepcoRules {
  import opened Wrappers
  import opened Strings
  import opened Diagnostics

  /** The code of a row: its first column, stripped. */
  function Code(row: seq<string>): string
    requires |row| >= 1
  {
    Strip(row[0])
  }

  /** The label of a row: its second column, stripped. */
  function Label(row: seq<string>): string
    requires |row| >= 2
  {
    Strip(row[1])
  }

  /** The codes recorded as seen once `rows` have been validated: the non-empty code of every
      row with two columns (recording a code already seen changes nothing). */
  function SeenCodes(rows: seq<seq<string>>): set<string> {
    if rows == [] then {}
    else
      var row := rows[|rows| - 1];
      if |row| < 2 || Code(row) == "" then SeenCodes(rows[..|rows| - 1])
      else SeenCodes(rows[..|rows| - 1]) + {Code(row)}
  }

  /** The verdict on a row's code given the codes seen before it. A duplicate is reported as
      such and not also checked as a number. The code is already stripped, so the stripping
      Python's int() does itself changes nothing. */
  function CodeProblems(code: string, n: nat, seen: set<string>): seq<Problem> {
    if code == "" then [MissingCode(n)]
    else if code in seen then [DuplicateCode(n, code)]
    else match ParseInt(code)
      case None => [InvalidCode(n, code)]
      case Some(v) => if v < 0 then [NegativeCode(n, code)] else []
  }

  /** The problems of row number `n`, given the codes seen on the rows before it. */
  function RowProblems(row: seq<string>, n: nat, seen: set<string>): (ps: seq<Problem>)
    ensures |ps| <= 2
    ensures forall p | p in ps :: p.FromDepcoRules() && p.row == n
  {
    if |row| < 2 then [ShortRow(n)]
    else
      CodeProblems(Code(row), n, seen) + (if Label(row) == "" then [MissingLabel(n, Code(row))] else [])
  }

  /** All problems the rules find in `rows`, in row order. */
  function DepcoProblems(rows: seq<seq<string>>): (ps: seq<Problem>)
    ensures forall p | p in ps :: p.FromDepcoRules() && 1 <= p.row <= |rows|
  {
    if rows == [] then []
    else
      var init := rows[..|rows| - 1];
      DepcoProblems(init) + RowProblems(rows[|rows| - 1], |rows|, SeenCodes(init))
  }

  /** Rows of two columns or more never get the "invalid format" problem. */
  lemma {:induction false} NoShortRow(rows: seq<seq<string>>)
    requires forall i | 0 <= i < |rows| :: |rows[i]| >= 2
    ensures forall q | q in DepcoProblems(rows) :: !q.ShortRow?
  {
    if rows != [] {
      var init, last := rows[..|rows| - 1], rows[|rows| - 1];
      NoShortRow(init);
      RowNotShort(last, |rows|, SeenCodes(init));
    }
  }

  /** A row of two columns or more is judged on its code and label only. */
  lemma RowNotShort(row: seq<string>, n: nat, seen: set<string>)
    requires |row| >= 2
    ensures forall q | q in RowProblems(row, n, seen) :: !q.ShortRow?
  {
    var cs := CodeProblems(Code(row), n, seen);
    assert forall q | q in cs :: !q.ShortRow?;
  }

  /** One more row: the step the loop over the rows takes. */
  lemma DepcoStep(rows: seq<seq<string>>, i: nat)
    requires i < |rows|
    ensures var before, row := rows[..i], rows[i];
      && DepcoProblems(rows[..i + 1]) == DepcoProblems(before) + RowProblems(row, i + 1, SeenCodes(before))
      && SeenCodes(rows[..i + 1]) ==
           if |row| < 2 || Code(row) == "" then SeenCodes(before) else SeenCodes(before) + {Code(row)}
  {
    var p := rows[..i + 1];
    assert p[..|p| - 1] == rows[..i];
    assert p[|p| - 1] == rows[i];
  }

  /** A code the rules accept, seen codes aside: a non-empty integer that is not negative. */
  predicate NonNegativeInteger(code: string) {
    code != "" && ParseInt(code).Some? && ParseInt(code).value >= 0
  }

  /** What a clean DEPCO.csv looks like: every row has a label and a non-negative integer code,
      and no code appears twice. */
  predicate ValidRows(rows: seq<seq<string>>) {
    && (forall j | 0 <= j < |rows| ::
          |rows[j]| >= 2 && Label(rows[j]) != "" && NonNegativeInteger(Code(rows[j])))
    && (forall i, j | 0 <= i < j < |rows| && |rows[i]| >= 2 && |rows[j]| >= 2 ::
          Code(rows[i]) != Code(rows[j]))
  }

  /** A code has been seen exactly when an earlier row with two columns carries it. */
  lemma {:induction false} SeenCodesSpec(rows: seq<seq<string>>, c: string)
    ensures c in SeenCodes(rows) <==>
      c != "" && exists j :: 0 <= j < |rows| && |rows[j]| >= 2 && Code(rows[j]) == c
  {
    if rows != [] {
      var init := rows[..|rows| - 1];
      SeenCodesSpec(init, c);
      if exists j :: 0 <= j < |init| && |init[j]| >= 2 && Code(init[j]) == c {
        var j :| 0 <= j < |init| && |init[j]| >= 2 && Code(init[j]) == c;
        assert rows[j] == init[j];
      }
      if exists j :: 0 <= j < |rows| && |rows[j]| >= 2 && Code(rows[j]) == c {
        var j :| 0 <= j < |rows| && |rows[j]| >= 2 && Code(rows[j]) == c;
        if j < |init| {
          assert init[j] == rows[j];
        }
      }
    }
  }

  /** A row is clean exactly when it has two columns, a label, and a new, non-negative
      integer code. */
  lemma RowCleanIff(row: seq<string>, n: nat, seen: set<string>)
    ensures RowProblems(row, n, seen) == [] <==>
      |row| >= 2 && Label(row) != "" && NonNegativeInteger(Code(row)) && Code(row) !in seen
  {
  }

  /** Zero is an accepted code, although the comment beside the DEPCO dispatch says a key may
      be neither negative nor zero. */
  lemma ZeroAccepted(name: string, n: nat, seen: set<string>)
    requires Strip(name) != "" && "0" !in seen
    ensures RowProblems(["0", name], n, seen) == []
  {
    assert Strip("0") == "0" by {
      assert LeadingSpaces("0") == 0;
      assert TrailingSpaces("0") == 0;
    }
    assert ParseInt("0") == Some(0) by {
      assert DigitsValue("0") == 0 by {
        assert "0"[..0] == "";
      }
    }
  }

  /** The problems reported for row number `j + 1` are those of that row alone, judged against
      the codes of the rows before it. */
  lemma {:induction false} ProblemsOfRow(rows: seq<seq<string>>, j: nat, p: Problem)
    requires j < |rows|
    ensures p in DepcoProblems(rows) && p.FromDepcoRules() && p.row == j + 1 <==>
      p in RowProblems(rows[j], j + 1, SeenCodes(rows[..j]))
  {
    var init := rows[..|rows| - 1];
    var last := RowProblems(rows[|rows| - 1], |rows|, SeenCodes(init));
    assert DepcoProblems(rows) == DepcoProblems(init) + last;
    if j < |init| {
      ProblemsOfRow(init, j, p);
      assert init[j] == rows[j] && init[..j] == rows[..j];
      assert p in last ==> p.row == |rows|;
    } else {
      assert rows[..j] == init;
      assert p in DepcoProblems(init) ==> p.row <= |init|;
    }
  }

  /** Within one row, a duplicate is reported exactly when the code is non-empty and seen. */
  lemma RowDuplicateIff(row: seq<string>, n: nat, seen: set<string>)
    requires |row| >= 2
    ensures DuplicateCode(n, Code(row)) in RowProblems(row, n, seen) <==> Code(row) != "" && Code(row) in seen
  {
  }

  /** For a row with two columns, each verdict on its own: a missing code iff the code is empty,
      an invalid code iff it is non-empty, new and not an integer, a negative code iff it is a
      new integer below zero, and a missing label iff the label is empty. */
  lemma RowProblemsSpec(row: seq<string>, n: nat, seen: set<string>)
    requires |row| >= 2
    ensures MissingCode(n) in RowProblems(row, n, seen) <==> Code(row) == ""
    ensures InvalidCode(n, Code(row)) in RowProblems(row, n, seen) <==>
      Code(row) != "" && Code(row) !in seen && ParseInt(Code(row)).None?
    ensures NegativeCode(n, Code(row)) in RowProblems(row, n, seen) <==>
      Code(row) != "" && Code(row) !in seen && ParseInt(Code(row)).Some? && ParseInt(Code(row)).value < 0
    ensures MissingLabel(n, Code(row)) in RowProblems(row, n, seen) <==> Label(row) == ""
  {
  }

  /** A duplicate is reported on row `j + 1` exactly when its code is non-empty and an earlier
      row with two columns has the same code; the first row carrying a code is never flagged. */
  lemma DuplicateIff(rows: seq<seq<string>>, j: nat)
    requires j < |rows| && |rows[j]| >= 2
    ensures DuplicateCode(j + 1, Code(rows[j])) in DepcoProblems(rows) <==>
      Code(rows[j]) != "" && exists i :: 0 <= i < j && |rows[i]| >= 2 && Code(rows[i]) == Code(rows[j])
  {
    var code := Code(rows[j]);
    var before := rows[..j];
    ProblemsOfRow(rows, j, DuplicateCode(j + 1, code));
    RowDuplicateIff(rows[j], j + 1, SeenCodes(before));
    SeenCodesSpec(before, code);
    assert forall i | 0 <= i < j :: before[i] == rows[i];
  }

  /** A duplicated code is not checked as a number: no invalid or negative code is reported
      on its row. */
  lemma DuplicateSkipsNumberCheck(row: seq<string>, n: nat, seen: set<string>)
    requires |row| >= 2 && Code(row) in seen
    ensures forall p | p in RowProblems(row, n, seen) :: !p.InvalidCode? && !p.NegativeCode?
  {
  }

  /** Validity of a sequence of rows, one row at a time. */
  lemma ValidRowsSnoc(rows: seq<seq<string>>)
    requires rows != []
    ensures var init, last := rows[..|rows| - 1], rows[|rows| - 1];
      ValidRows(rows) <==>
        && ValidRows(init)
        && |last| >= 2 && Label(last) != "" && NonNegativeInteger(Code(last))
        && forall i | 0 <= i < |init| && |init[i]| >= 2 :: Code(init[i]) != Code(last)
  {
    var init := rows[..|rows| - 1];
    assert forall i | 0 <= i < |init| :: init[i] == rows[i];
  }

  /** The rules find nothing exactly when the rows are valid. */
  lemma {:induction false} DepcoCleanIff(rows: seq<seq<string>>)
    ensures DepcoProblems(rows) == [] <==> ValidRows(rows)
  {
    if rows != [] {
      var init := rows[..|rows| - 1];
      var last := rows[|rows| - 1];
      DepcoCleanIff(init);
      RowCleanIff(last, |rows|, SeenCodes(init));
      ValidRowsSnoc(rows);
      if |last| >= 2 {
        SeenCodesSpec(init, Code(last));
      }
    }
  }
}
