/** The builder of the requirements table from the KUCCPS courses table: each subject cell is
    parsed into a (subject, grade) pair, each cutoff is turned into a minimum mean grade, and
    rows of the same programme are merged, the first row fixing the grade. */
module BuildRequirements {
  import opened Wrappers
  import opened PyStrings
  import opened Dicts
  import opened Grades
  import opened Eligibility

  // ---------------------------------------------------------------- parse_subject

  /** `\w` (ASCII) */
  predicate IsWordChar(c: char)
  {
    'a' <= c <= 'z' || 'A' <= c <= 'Z' || '0' <= c <= '9' || c == '_'
  }

  /** `\d` (ASCII) */
  predicate IsDigit(c: char)
  {
    '0' <= c <= '9'
  }

  /** Length of the run of characters satisfying `p` that starts at position `k` (a greedy
      `p*` there). */
  function RunFrom(s: string, k: nat, p: char -> bool): (n: nat)
    requires k <= |s|
    ensures k + n <= |s|
    decreases |s| - k
  {
    if k == |s| || !p(s[k]) then 0 else 1 + RunFrom(s, k + 1, p)
  }

  /** `.*`: the text up to the first line break. */
  function LineOf(s: string): (r: string)
    ensures |r| <= |s| && r == s[..|r|] && '\n' !in r
    ensures |r| < |s| ==> s[|r|] == '\n'
  {
    if |s| == 0 || s[0] == '\n' then "" else [s[0]] + LineOf(s[1..])
  }

  /** `re.match(r'(\w+)\s*\w*\(\d+\):(.*)', s)`: the code (group 1) and the raw grade
      (group 2). Each greedy run is maximal, since every later part of the pattern starts
      with a character the run cannot hold. */
  function MatchSubject(s: string): Option<(string, string)>
  {
    var n1 := RunFrom(s, 0, IsWordChar);
    var n2 := n1 + RunFrom(s, n1, IsSpace);
    var n3 := n2 + RunFrom(s, n2, IsWordChar);
    if n1 == 0 || n3 >= |s| || s[n3] != '(' then None
    else
      var n4 := n3 + 1 + RunFrom(s, n3 + 1, IsDigit);
      if n4 == n3 + 1 || n4 + 1 >= |s| || s[n4] != ')' || s[n4 + 1] != ':' then None
      else Some((s[..n1], LineOf(s[n4 + 2..])))
  }

  /** `subj_map` */
  const SubjectCodes: seq<(string, string)> := [
    ("MAT", "Mathematics"), ("ENG", "English"), ("KIS", "Kiswahili"), ("BIO", "Biology"),
    ("CHE", "Chemistry"), ("PHY", "Physics"), ("HIS", "History"), ("GEO", "Geography"),
    ("COM", "Computer_Studies"), ("BUS", "Business_Studies"), ("AGR", "Agriculture"),
    ("FRE", "French"), ("GER", "German"), ("ARA", "Arabic"), ("MUS", "Music"),
    ("ART", "Art_and_Design"), ("CRE", "Christian_Religious_Education"),
    ("IRE", "Islamic_Religious_Education"), ("HRE", "Hindu_Religious_Education"),
    ("HOM", "Home_Science"), ("BST", "Building_Construction"), ("PHE", "Physical_Education"),
    ("AVI", "Aviation"), ("ELE", "Electricity"), ("PWR", "Power_Mechanics"), ("MET", "Metalwork"),
    ("WOD", "Woodwork"), ("DRW", "Drawing_and_Design"), ("AVT", "Automotive"),
    ("ELT", "Electrical_Electronics"), ("CMP", "Computer_Studies"),
    ("INF", "Information_Communication_Technology")]

  /** `subj_map.get(subj_code, subj_code)` */
  function SubjectName(code: string): string
  {
    GetOr(SubjectCodes, code, code)
  }

  /** `parse_subject(sub_str)`: None for a missing or empty cell, or one the pattern rejects;
      otherwise the subject name and the stripped grade. */
  function ParseSubject(cell: Option<string>): (r: Option<(string, string)>)
    ensures cell.None? || cell == Some("") ==> r.None?
  {
    match cell
    case None => None
    case Some(s) =>
      if s == "" then None
      else
        match MatchSubject(s)
        case None => None
        case Some((code, rest)) => Some((SubjectName(code), Strip(rest)))
  }

  /** A run of `m` characters satisfying `p` from position `k`, followed by the end of the text
      or by one that does not, is read whole. */
  lemma {:induction false} RunOver(s: string, k: nat, m: nat, p: char -> bool)
    requires k + m <= |s|
    requires forall i :: k <= i < k + m ==> p(s[i])
    requires k + m == |s| || !p(s[k + m])
    ensures RunFrom(s, k, p) == m
    decreases m
  {
    if m > 0 {
      RunOver(s, k + 1, m - 1, p);
    }
  }

  /** A property of every character of a piece holds at the positions the piece occupies. */
  lemma PieceAt(s: string, lo: nat, a: string, p: char -> bool)
    requires lo + |a| <= |s| && s[lo..lo + |a|] == a
    requires forall i :: 0 <= i < |a| ==> p(a[i])
    ensures forall i :: lo <= i < lo + |a| ==> p(s[i])
  {
    forall i | lo <= i < lo + |a|
      ensures p(s[i])
    {
      assert s[i] == a[i - lo];
    }
  }

  /** A piece whose characters all satisfy `p`, followed by the end of the text or by one that
      does not, is read whole by the run starting where it starts. */
  lemma RunPiece(s: string, lo: nat, a: string, p: char -> bool)
    requires lo + |a| <= |s| && s[lo..lo + |a|] == a
    requires forall i :: 0 <= i < |a| ==> p(a[i])
    requires lo + |a| == |s| || !p(s[lo + |a|])
    ensures RunFrom(s, lo, p) == |a|
  {
    PieceAt(s, lo, a, p);
    RunOver(s, lo, |a|, p);
  }

  /** The pattern reads back every cell written as `CODE ALT(DIGITS):GRADE`: the subject of the
      code and the stripped grade. */
  lemma ParseFormatted(code: string, alt: string, digits: string, grade: string, s: string)
    requires |code| > 0 && forall i :: 0 <= i < |code| ==> IsWordChar(code[i])
    requires forall i :: 0 <= i < |alt| ==> IsWordChar(alt[i])
    requires |digits| > 0 && forall i :: 0 <= i < |digits| ==> IsDigit(digits[i])
    requires '\n' !in grade
    requires s == code + " " + alt + "(" + digits + "):" + grade
    ensures ParseSubject(Some(s)) == Some((SubjectName(code), Strip(grade)))
  {
    MatchFormatted(code, alt, digits, grade, s);
    assert LineOf(grade) == grade;
  }

  /** The match succeeds once every run ends where the next part of the pattern begins. */
  lemma MatchAt(s: string, n1: nat, n2: nat, n3: nat, n4: nat)
    requires 0 < n1 <= n2 <= n3 && n3 + 1 < n4 && n4 + 1 < |s|
    requires RunFrom(s, 0, IsWordChar) == n1 && RunFrom(s, n1, IsSpace) == n2 - n1
    requires RunFrom(s, n2, IsWordChar) == n3 - n2 && s[n3] == '('
    requires RunFrom(s, n3 + 1, IsDigit) == n4 - (n3 + 1) && s[n4] == ')' && s[n4 + 1] == ':'
    ensures MatchSubject(s) == Some((s[..n1], LineOf(s[n4 + 2..])))
  {
  }

  /** Where the pieces of a formatted cell sit. */
  lemma Layout(code: string, alt: string, digits: string, grade: string, s: string)
    requires s == code + " " + alt + "(" + digits + "):" + grade
    ensures var n1 := |code|; var n3 := n1 + 1 + |alt|; var n4 := n3 + 1 + |digits|;
      && |s| == n4 + 2 + |grade|
      && s[..n1] == code && s[n1] == ' ' && s[n1 + 1..n3] == alt && s[n3] == '('
      && s[n3 + 1..n4] == digits && s[n4] == ')' && s[n4 + 1] == ':' && s[n4 + 2..] == grade
  {
    var t1 := code + " ";
    var t2 := t1 + alt;
    var t3 := t2 + "(";
    var t4 := t3 + digits;
    var t5 := t4 + "):";
    assert s == t5 + grade;
    assert s[..|t5|] == t5;
    assert s[..|t4|] == t4 by {
      assert t5[..|t4|] == t4;
    }
    assert s[..|t3|] == t3 by {
      assert t4[..|t3|] == t3;
    }
    assert s[..|t2|] == t2 by {
      assert t3[..|t2|] == t2;
    }
    assert s[..|t1|] == t1 by {
      assert t2[..|t1|] == t1;
    }
    assert s[..|code|] == code by {
      assert t1[..|code|] == code;
    }
    assert s[|t1|..|t2|] == alt by {
      assert s[|t1|..|t2|] == t2[|t1|..];
    }
    assert s[|t3|..|t4|] == digits by {
      assert s[|t3|..|t4|] == t4[|t3|..];
    }
  }

  /** The match on a formatted cell, position by position. */
  lemma MatchFormatted(code: string, alt: string, digits: string, grade: string, s: string)
    requires |code| > 0 && forall i :: 0 <= i < |code| ==> IsWordChar(code[i])
    requires forall i :: 0 <= i < |alt| ==> IsWordChar(alt[i])
    requires |digits| > 0 && forall i :: 0 <= i < |digits| ==> IsDigit(digits[i])
    requires s == code + " " + alt + "(" + digits + "):" + grade
    ensures MatchSubject(s) == Some((code, LineOf(grade)))
  {
    var n1 := |code|;
    var n2 := n1 + 1;
    var n3 := n2 + |alt|;
    var n4 := n3 + 1 + |digits|;
    Layout(code, alt, digits, grade, s);
    assert RunFrom(s, 0, IsWordChar) == n1 by {
      RunPiece(s, 0, code, IsWordChar);
    }
    assert RunFrom(s, n1, IsSpace) == 1 by {
      assert s[n1..n2] == " ";
      RunPiece(s, n1, " ", IsSpace);
    }
    assert RunFrom(s, n2, IsWordChar) == |alt| by {
      RunPiece(s, n2, alt, IsWordChar);
    }
    assert RunFrom(s, n3 + 1, IsDigit) == |digits| by {
      RunPiece(s, n3 + 1, digits, IsDigit);
    }
    MatchAt(s, n1, n2, n3, n4);
  }

  /** The example of the comment: "MAT A(121):C" gives ("Mathematics", "C"). */
  lemma MathematicsExample(s: string)
    requires s == "MAT A(121):C"
    ensures ParseSubject(Some(s)) == Some(("Mathematics", "C"))
  {
    var code, alt, digits, grade := "MAT", "A", "121", "C";
    assert s == code + " " + alt + "(" + digits + "):" + grade;
    ExamplePieces(code, alt, digits, grade);
    ParseFormatted(code, alt, digits, grade, s);
    MatIsMathematics(code);
    StripOneLetter(grade);
  }

  /** The pieces of "MAT A(121):C" have the shape the pattern reads. */
  lemma ExamplePieces(code: string, alt: string, digits: string, grade: string)
    requires code == "MAT" && alt == "A" && digits == "121" && grade == "C"
    ensures |code| > 0 && forall i :: 0 <= i < |code| ==> IsWordChar(code[i])
    ensures forall i :: 0 <= i < |alt| ==> IsWordChar(alt[i])
    ensures |digits| > 0 && forall i :: 0 <= i < |digits| ==> IsDigit(digits[i])
    ensures '\n' !in grade
  {
    assert code[0] == 'M' && code[1] == 'A' && code[2] == 'T';
    assert digits[0] == '1' && digits[1] == '2' && digits[2] == '1';
  }

  lemma MatIsMathematics(code: string)
    requires code == "MAT"
    ensures SubjectName(code) == "Mathematics"
  {
    IndexOfKeyIs(SubjectCodes, code, 0);
  }

  lemma StripOneLetter(grade: string)
    requires grade == "C"
    ensures Strip(grade) == "C"
  {
    assert TrimStart(grade) == "C";
    assert TrimEnd(grade) == "C";
  }

  /** COM and CMP both name Computer_Studies. */
  lemma ComputerStudiesTwice()
    ensures SubjectName("COM") == "Computer_Studies" && SubjectName("CMP") == "Computer_Studies"
  {
    ComIsComputerStudies("COM");
    CmpIsComputerStudies("CMP");
  }

  lemma ComIsComputerStudies(code: string)
    requires code == "COM"
    ensures SubjectName(code) == "Computer_Studies"
  {
    IndexOfKeyIs(SubjectCodes, code, 8);
    assert Get(SubjectCodes, code) == Some(SubjectCodes[8].1);
  }

  lemma CmpIsComputerStudies(code: string)
    requires code == "CMP"
    ensures SubjectName(code) == "Computer_Studies"
  {
    IndexOfKeyIs(SubjectCodes, code, 30);
  }

  /** A code missing from the table is kept as the subject name. */
  lemma UnknownCodeKept(code: string)
    requires forall i :: 0 <= i < |SubjectCodes| ==> SubjectCodes[i].0 != code
    ensures SubjectName(code) == code
  {
    assert IndexOfKey(SubjectCodes, code).None?;
  }

  // ---------------------------------------------------------------- cutoff

  /** A cutoff cell: missing, a number, or text `float` rejects. */
  datatype Cutoff = Blank | Number(value: real) | Unparsable

  /** The minimum mean grade of a cutoff. */
  function MinGradeFor(cutoff: real): (g: string)
    ensures g == "B-" || g == "C+" || g == "C-" || g == "D+"
  {
    if cutoff >= 10.0 then "B-" else if cutoff >= 7.0 then "C+" else if cutoff >= 5.0 then "C-" else "D+"
  }

  /** A higher cutoff never gives a lower minimum grade. */
  lemma MinGradeMonotone(a: real, b: real)
    requires a <= b
    ensures Points(MinGradeFor(a)) <= Points(MinGradeFor(b))
  {
  }

  /** A courses row: programme, both cutoffs and the cells of Subject_1 .. Subject_4 (None for a
      missing value or column). */
  datatype Row = Row(programme: Option<string>, cutoff2023: Cutoff, cutoff2022: Cutoff, subjects: seq<Option<string>>)

  /** The cutoff a row uses: the 2023 one unless it is missing, then the 2022 one; None when
      the row is skipped for a missing or non-numeric cutoff. */
  function RowCutoff(row: Row): (r: Option<real>)
    ensures row.cutoff2023.Number? ==> r == Some(row.cutoff2023.value)
    ensures row.cutoff2023.Unparsable? ==> r == None
    ensures row.cutoff2023.Blank? && row.cutoff2022.Number? ==> r == Some(row.cutoff2022.value)
    ensures row.cutoff2023.Blank? && !row.cutoff2022.Number? ==> r == None
  {
    var c := if row.cutoff2023.Blank? then row.cutoff2022 else row.cutoff2023;
    if c.Number? then Some(c.value) else None
  }

  /** The row is used: it names a programme and has a usable cutoff. */
  predicate Accepted(row: Row)
  {
    row.programme.Some? && RowCutoff(row).Some?
  }

  // ---------------------------------------------------------------- merging

  /** `required_subjects` of a row: every parsed cell in column order, a later cell for the
      same subject overwriting the earlier grade. */
  function RowSubjects(cells: seq<Option<string>>): seq<(string, string)>
  {
    if |cells| == 0 then []
    else
      var d := RowSubjects(cells[..|cells| - 1]);
      match ParseSubject(cells[|cells| - 1])
      case None => d
      case Some((subj, grade)) => Put(d, subj, grade)
  }

  /** The subject loop of one row. */
  method ParseRowSubjects(cells: seq<Option<string>>) returns (required: seq<(string, string)>)
    ensures required == RowSubjects(cells)
  {
    required := [];
    for i := 0 to |cells|
      invariant required == RowSubjects(cells[..i])
    {
      assert cells[..i + 1][..i] == cells[..i];
      var parsed := ParseSubject(cells[i]);
      if parsed.Some? {
        var (subj, grade) := parsed.value;
        required := Put(required, subj, grade);
      }
    }
    assert cells[..|cells|] == cells;
  }

  /** `existing` after the merge loop: each subject of `incoming` not yet present is added. */
  function MergeNew(existing: seq<(string, string)>, incoming: seq<(string, string)>): seq<(string, string)>
  {
    if |incoming| == 0 then existing
    else
      var m := MergeNew(existing, incoming[..|incoming| - 1]);
      var (subj, grade) := incoming[|incoming| - 1];
      if HasKey(m, subj) then m else Put(m, subj, grade)
  }

  /** The merge loop of a repeated programme. */
  method MergeSubjects(existing: seq<(string, string)>, incoming: seq<(string, string)>) returns (merged: seq<(string, string)>)
    ensures merged == MergeNew(existing, incoming)
  {
    merged := existing;
    for i := 0 to |incoming|
      invariant merged == MergeNew(existing, incoming[..i])
    {
      assert incoming[..i + 1][..i] == incoming[..i];
      var (subj, grade) := incoming[i];
      if !HasKey(merged, subj) {
        merged := Put(merged, subj, grade);
      }
    }
    assert incoming[..|incoming|] == incoming;
  }

  /** The table after one row. */
  function Step(reqs: seq<(string, Requirement)>, row: Row): seq<(string, Requirement)>
  {
    if !Accepted(row) then reqs
    else
      var prog := row.programme.value;
      var subjects := RowSubjects(row.subjects);
      match Get(reqs, prog)
      case None => Put(reqs, prog, Requirement(MinGradeFor(RowCutoff(row).value), subjects, Some("Degree"), None))
      case Some(e) => Put(reqs, prog, e.(requiredSubjects := MergeNew(e.requiredSubjects, subjects)))
  }

  /** The table after all rows. */
  function Built(rows: seq<Row>): seq<(string, Requirement)>
  {
    if |rows| == 0 then [] else Step(Built(rows[..|rows| - 1]), rows[|rows| - 1])
  }

  /** The top-level loop of the script. */
  method BuildRequirements(rows: seq<Row>) returns (reqs: seq<(string, Requirement)>)
    ensures reqs == Built(rows)
  {
    reqs := [];
    for i := 0 to |rows|
      invariant reqs == Built(rows[..i])
    {
      assert rows[..i + 1][..i] == rows[..i];
      var row := rows[i];
      if row.programme.None? {
        continue;
      }
      var prog := row.programme.value;
      var cutoffCell := row.cutoff2023;
      if cutoffCell.Blank? {
        cutoffCell := row.cutoff2022;
      }
      if !cutoffCell.Number? {
        continue;
      }
      var cutoff := cutoffCell.value;
      var minGrade := if cutoff >= 10.0 then "B-" else if cutoff >= 7.0 then "C+" else if cutoff >= 5.0 then "C-" else "D+";
      var required := ParseRowSubjects(row.subjects);
      var entry := Get(reqs, prog);
      if entry.None? {
        reqs := Put(reqs, prog, Requirement(minGrade, required, Some("Degree"), None));
      } else {
        var merged := MergeSubjects(entry.value.requiredSubjects, required);
        reqs := Put(reqs, prog, entry.value.(requiredSubjects := merged));
      }
    }
    assert rows[..|rows|] == rows;
  }

  // ---------------------------------------------------------------- what the builder promises

  /** A later cell for a subject overwrites the grade of an earlier one in the same row. */
  lemma LaterCellOverwrites(cells: seq<Option<string>>, c: Option<string>, subj: string, grade: string, q: string)
    requires ParseSubject(c) == Some((subj, grade))
    ensures Get(RowSubjects(cells + [c]), q) == if q == subj then Some(grade) else Get(RowSubjects(cells), q)
  {
    assert (cells + [c])[..|cells|] == cells;
    GetPut(RowSubjects(cells), subj, grade, q);
  }

  /** Merging never overwrites: a subject already present keeps its grade, and a new one takes
      the grade the row gives it. */
  lemma {:induction false} MergeKeeps(existing: seq<(string, string)>, incoming: seq<(string, string)>, q: string)
    ensures Get(MergeNew(existing, incoming), q) == if HasKey(existing, q) then Get(existing, q) else Get(incoming, q)
    decreases |incoming|
  {
    if |incoming| > 0 {
      var init := incoming[..|incoming| - 1];
      var m := MergeNew(existing, init);
      var (subj, grade) := incoming[|incoming| - 1];
      MergeKeeps(existing, init, q);
      MergeKeeps(existing, init, subj);
      assert incoming == init + [(subj, grade)];
      GetAppend(init, subj, grade, q);
      if !HasKey(m, subj) {
        GetPut(m, subj, grade, q);
      }
    }
  }

  /** The first accepted row of programme `p`, if any. */
  function FirstAccepted(rows: seq<Row>, p: string): (r: Option<nat>)
    ensures r.Some? ==> r.value < |rows| && Accepted(rows[r.value]) && rows[r.value].programme == Some(p)
    ensures r.Some? ==> forall j :: 0 <= j < r.value ==> !(Accepted(rows[j]) && rows[j].programme == Some(p))
    ensures r.None? ==> forall j :: 0 <= j < |rows| ==> !(Accepted(rows[j]) && rows[j].programme == Some(p))
  {
    if |rows| == 0 then None
    else
      var r := FirstAccepted(rows[..|rows| - 1], p);
      if r.Some? then r
      else if Accepted(rows[|rows| - 1]) && rows[|rows| - 1].programme == Some(p) then Some(|rows| - 1)
      else None
  }

  /** A programme has an entry exactly when one of its rows is accepted; the first such row
      fixes its minimum mean grade, and every entry has level "Degree" and no note. */
  lemma {:induction false} FirstRowFixesGrade(rows: seq<Row>, p: string)
    ensures Get(Built(rows), p).Some? <==> FirstAccepted(rows, p).Some?
    ensures FirstAccepted(rows, p).Some? ==>
      var e := Get(Built(rows), p).value;
      && e.minMeanGrade == MinGradeFor(RowCutoff(rows[FirstAccepted(rows, p).value]).value)
      && e.level == Some("Degree") && e.note == None
    decreases |rows|
  {
    if |rows| > 0 {
      var init := rows[..|rows| - 1];
      var row := rows[|rows| - 1];
      FirstRowFixesGrade(init, p);
      var reqs := Built(init);
      if Accepted(row) {
        var prog := row.programme.value;
        var subjects := RowSubjects(row.subjects);
        match Get(reqs, prog)
        case None =>
          GetPut(reqs, prog, Requirement(MinGradeFor(RowCutoff(row).value), subjects, Some("Degree"), None), p);
        case Some(e) =>
          GetPut(reqs, prog, e.(requiredSubjects := MergeNew(e.requiredSubjects, subjects)), p);
      }
      var r := FirstAccepted(init, p);
      if r.Some? {
        assert rows[r.value] == init[r.value];
      }
    }
  }

  /** Later rows of a programme only add subjects: after a row, the entry reads every subject
      it had as before, and a subject it lacked as the row gives it. */
  lemma LaterRowsOnlyAdd(reqs: seq<(string, Requirement)>, row: Row, q: string)
    requires Accepted(row) && HasKey(reqs, row.programme.value)
    ensures var before := Get(reqs, row.programme.value).value;
      var after := Get(Step(reqs, row), row.programme.value).value;
      && after.minMeanGrade == before.minMeanGrade && after.level == before.level
      && Get(after.requiredSubjects, q) ==
         if HasKey(before.requiredSubjects, q) then Get(before.requiredSubjects, q) else Get(RowSubjects(row.subjects), q)
  {
    var prog := row.programme.value;
    var e := Get(reqs, prog).value;
    var merged := e.(requiredSubjects := MergeNew(e.requiredSubjects, RowSubjects(row.subjects)));
    GetPut(reqs, prog, merged, prog);
    MergeKeeps(e.requiredSubjects, RowSubjects(row.subjects), q);
  }

  /** No programme is stored twice. */
  lemma {:induction false} BuiltDistinct(rows: seq<Row>)
    ensures DistinctKeys(Built(rows))
    decreases |rows|
  {
    if |rows| > 0 {
      var init := rows[..|rows| - 1];
      var row := rows[|rows| - 1];
      BuiltDistinct(init);
      if Accepted(row) {
        var reqs := Built(init);
        var prog := row.programme.value;
        var subjects := RowSubjects(row.subjects);
        match Get(reqs, prog)
        case None =>
          PutDistinct(reqs, prog, Requirement(MinGradeFor(RowCutoff(row).value), subjects, Some("Degree"), None));
        case Some(e) =>
          PutDistinct(reqs, prog, e.(requiredSubjects := MergeNew(e.requiredSubjects, subjects)));
      }
    }
  }
}
