/** The department classifier of the job importer: a fuzzy pass over the department list
    (best of title, description and qualification scores, at least the threshold), then a
    keyword fallback; plus the department list read from the courses table and the labelled
    field of a job description. The fuzzy scorer is a parameter: any function into 0..100. */
module ImportJobs {
  import opened Wrappers
  import opened PyStrings
  import opened Dicts
  import opened Seqs
  import opened Cascade

  type Score = x: int | 0 <= x <= 100

  /** A scraped job; a missing field reads as "" (`job_data.get(key, '')`). */
  datatype JobData = JobData(title: Option<string>, description: Option<string>, qualification: Option<string>)

  /** The lowercased title, description and qualification joined by spaces. */
  function CombinedText(job: JobData): string
  {
    Lower(job.title.GetOr("") + " " + job.description.GetOr("") + " " + job.qualification.GetOr(""))
  }

  /** `max(a, b, c)` */
  function Max3(a: Score, b: Score, c: Score): (m: Score)
    ensures m >= a && m >= b && m >= c
    ensures m == a || m == b || m == c
  {
    if a >= b && a >= c then a else if b >= c then b else c
  }

  /** The department's best score over title, description and qualification. */
  function Total(dept: string, job: JobData, fuzz: (string, string) -> Score): Score
  {
    Max3(fuzz(Lower(dept), Lower(job.title.GetOr(""))), fuzz(Lower(dept), Lower(job.description.GetOr(""))),
         fuzz(Lower(dept), Lower(job.qualification.GetOr(""))))
  }

  /** `best_match` after the fuzzy pass over `depts`: replaced only by a strictly higher total
      that also reaches the threshold. */
  function BestFuzzy(depts: seq<string>, job: JobData, threshold: int, fuzz: (string, string) -> Score): (string, Score)
  {
    if |depts| == 0 then ("Unclassified", 0)
    else
      var best := BestFuzzy(depts[..|depts| - 1], job, threshold, fuzz);
      var dept := depts[|depts| - 1];
      var total := Total(dept, job, fuzz);
      if total > best.1 && total >= threshold then (dept, total) else best
  }

  /** The keyword lists of the fallback: each department's lowercased words. */
  function KeywordGroups(depts: seq<string>): (gs: seq<seq<string>>)
    ensures |gs| == |depts|
  {
    seq(|depts|, i requires 0 <= i < |depts| => Words(Lower(depts[i])))
  }

  /** The department `classify_department` returns. */
  function Classified(job: JobData, depts: seq<string>, threshold: int, fuzz: (string, string) -> Score): (d: string)
    ensures d in depts || d == "Unclassified"
  {
    var best := BestFuzzy(depts, job, threshold, fuzz);
    BestFuzzyFrom(depts, job, threshold, fuzz);
    if best.0 != "Unclassified" then best.0
    else
      match FirstGroup(CombinedText(job), KeywordGroups(depts))
      case Some(i) => depts[i]
      case None => best.0
  }

  /** `classify_department(job_data, departments, threshold)` */
  method ClassifyDepartment(job: JobData, depts: seq<string>, threshold: int, fuzz: (string, string) -> Score)
    returns (d: string)
    ensures d == Classified(job, depts, threshold, fuzz)
  {
    var best := FuzzyPass(job, depts, threshold, fuzz);
    if best.0 == "Unclassified" {
      var hit := KeywordPass(CombinedText(job), KeywordGroups(depts));
      if hit.Some? {
        return depts[hit.value];
      }
    }
    return best.0;
  }

  /** The first loop: the best total reaching the threshold, first department on ties. */
  method FuzzyPass(job: JobData, depts: seq<string>, threshold: int, fuzz: (string, string) -> Score)
    returns (best: (string, Score))
    ensures best == BestFuzzy(depts, job, threshold, fuzz)
  {
    best := ("Unclassified", 0);
    var i := 0;
    while i < |depts|
      invariant 0 <= i <= |depts|
      invariant best == BestFuzzy(depts[..i], job, threshold, fuzz)
    {
      var dept := depts[i];
      var scoreTitle := fuzz(Lower(dept), Lower(job.title.GetOr("")));
      var scoreDesc := fuzz(Lower(dept), Lower(job.description.GetOr("")));
      var scoreQual := fuzz(Lower(dept), Lower(job.qualification.GetOr("")));
      var scoreTotal := Max3(scoreTitle, scoreDesc, scoreQual);
      if scoreTotal > best.1 && scoreTotal >= threshold {
        best := (dept, scoreTotal);
      }
      assert depts[..i + 1][..i] == depts[..i];
      i := i + 1;
    }
    assert depts[..i] == depts;
  }

  /** The fallback loops: the first department with one of its words in the combined text. */
  method KeywordPass(combined: string, groups: seq<seq<string>>) returns (hit: Option<nat>)
    ensures hit == FirstGroup(combined, groups)
  {
    var k := 0;
    while k < |groups|
      invariant 0 <= k <= |groups|
      invariant forall m :: 0 <= m < k ==> !AnyIn(combined, groups[m])
    {
      var keywords := groups[k];
      var j := 0;
      while j < |keywords|
        invariant 0 <= j <= |keywords|
        invariant forall w :: 0 <= w < j ==> !Contains(combined, keywords[w])
      {
        if Contains(combined, keywords[j]) {
          FirstGroupIs(combined, groups, k);
          return Some(k);
        }
        j := j + 1;
      }
      k := k + 1;
    }
    return None;
  }

  // ---------------------------------------------------------------- what the classifier promises

  /** The fuzzy pass names a department of the list, or keeps ("Unclassified", 0); its score
      reaches the threshold and beats every earlier department's total, and no department
      reaching the threshold has a higher total. */
  lemma {:induction false} BestFuzzyFrom(depts: seq<string>, job: JobData, threshold: int, fuzz: (string, string) -> Score)
    ensures var best := BestFuzzy(depts, job, threshold, fuzz);
      && (best.1 == 0 ==> best.0 == "Unclassified")
      && (best.1 > 0 ==> exists k :: 0 <= k < |depts| && depts[k] == best.0 && Total(depts[k], job, fuzz) == best.1
                                     && best.1 >= threshold
                                     && forall m :: 0 <= m < k ==> Total(depts[m], job, fuzz) < best.1 || Total(depts[m], job, fuzz) < threshold)
      && (forall m :: 0 <= m < |depts| && Total(depts[m], job, fuzz) >= threshold ==> Total(depts[m], job, fuzz) <= best.1)
    decreases |depts|
  {
    if |depts| > 0 {
      var init := depts[..|depts| - 1];
      BestFuzzyFrom(init, job, threshold, fuzz);
      var prev := BestFuzzy(init, job, threshold, fuzz);
      assert forall m :: 0 <= m < |init| ==> depts[m] == init[m];
      if prev.1 > 0 {
        var k :| 0 <= k < |init| && init[k] == prev.0 && Total(init[k], job, fuzz) == prev.1 && prev.1 >= threshold
                 && forall m :: 0 <= m < k ==> Total(init[m], job, fuzz) < prev.1 || Total(init[m], job, fuzz) < threshold;
        assert depts[k] == init[k];
      }
    }
  }

  /** The keyword fallback runs only when the fuzzy pass found nothing: once some department
      reaches the threshold with a positive total (and none is itself called "Unclassified"),
      the fuzzy choice is returned. */
  lemma FuzzyWins(job: JobData, depts: seq<string>, threshold: int, fuzz: (string, string) -> Score, k: nat)
    requires "Unclassified" !in depts
    requires k < |depts| && Total(depts[k], job, fuzz) >= threshold && Total(depts[k], job, fuzz) > 0
    ensures Classified(job, depts, threshold, fuzz) == BestFuzzy(depts, job, threshold, fuzz).0
    ensures Classified(job, depts, threshold, fuzz) in depts
  {
    BestFuzzyFrom(depts, job, threshold, fuzz);
  }

  /** With no department reaching a positive threshold the fuzzy pass finds nothing. */
  lemma NothingReachesThreshold(job: JobData, depts: seq<string>, threshold: int, fuzz: (string, string) -> Score)
    requires threshold > 0
    requires forall m :: 0 <= m < |depts| ==> Total(depts[m], job, fuzz) < threshold
    ensures BestFuzzy(depts, job, threshold, fuzz) == ("Unclassified", 0)
  {
    BestFuzzyFrom(depts, job, threshold, fuzz);
  }

  /** When no department reaches the threshold, the first department (in list order) with one
      of its words inside the combined text is returned, and "Unclassified" when none has. */
  lemma KeywordFallback(job: JobData, depts: seq<string>, threshold: int, fuzz: (string, string) -> Score)
    requires threshold > 0
    requires forall m :: 0 <= m < |depts| ==> Total(depts[m], job, fuzz) < threshold
    ensures Classified(job, depts, threshold, fuzz) ==
            match FirstGroup(CombinedText(job), KeywordGroups(depts))
            case Some(i) => depts[i]
            case None => "Unclassified"
  {
    NothingReachesThreshold(job, depts, threshold, fuzz);
  }

  // ---------------------------------------------------------------- departments list

  /** A cell of the departments column: text, a missing value, or anything else. */
  datatype Cell = Text(s: string) | Missing | Other

  /** `dropna()` */
  function DropMissing(column: seq<Cell>): (r: seq<Cell>)
    ensures |r| <= |column|
    ensures forall i :: 0 <= i < |r| ==> r[i] != Missing
  {
    if |column| == 0 then []
    else DropMissing(column[..|column| - 1]) + (if column[|column| - 1] == Missing then [] else [column[|column| - 1]])
  }

  /** `d.strip().lower()` */
  function Normalised(s: string): string
  {
    Lower(Strip(s))
  }

  /** `[f(d) for d in cells if isinstance(d, str)]` */
  function MapTexts(cells: seq<Cell>, f: string -> string): (r: seq<string>)
    ensures |r| <= |cells|
  {
    if |cells| == 0 then []
    else MapTexts(cells[..|cells| - 1], f) + (if cells[|cells| - 1].Text? then [f(cells[|cells| - 1].s)] else [])
  }

  /** `get_departments_from_csv`: [] when the table could not be read or lacks the column;
      otherwise the distinct non-missing cells that are text, stripped and lowercased. */
  function DepartmentsFromCsv(table: Option<seq<(string, seq<Cell>)>>, column: string): (r: seq<string>)
  {
    match table
    case None => []
    case Some(columns) =>
      match Get(columns, column)
      case None => []
      case Some(cells) => MapTexts(Unique(DropMissing(cells)), Normalised)
  }

  /** The mapped texts are the images of the text cells. */
  lemma {:induction false} MapTextsMembers(cells: seq<Cell>, f: string -> string, s: string)
    ensures s in MapTexts(cells, f) <==> exists i :: 0 <= i < |cells| && cells[i].Text? && s == f(cells[i].s)
    decreases |cells|
  {
    if |cells| > 0 {
      var init := cells[..|cells| - 1];
      var last := cells[|cells| - 1];
      MapTextsMembers(init, f, s);
      assert MapTexts(cells, f) == MapTexts(init, f) + (if last.Text? then [f(last.s)] else []);
      if exists i :: 0 <= i < |cells| && cells[i].Text? && s == f(cells[i].s) {
        var i :| 0 <= i < |cells| && cells[i].Text? && s == f(cells[i].s);
        if i < |init| {
          assert init[i] == cells[i];
        }
      }
      if exists i :: 0 <= i < |init| && init[i].Text? && s == f(init[i].s) {
        var i :| 0 <= i < |init| && init[i].Text? && s == f(init[i].s);
        assert cells[i] == init[i];
      }
    }
  }

  /** Every present cell survives `dropna()`, and only cells of the column do. */
  lemma {:induction false} DropMissingMembers(column: seq<Cell>, c: Cell)
    ensures c in DropMissing(column) <==> c in column && c != Missing
    decreases |column|
  {
    if |column| > 0 {
      var init := column[..|column| - 1];
      DropMissingMembers(init, c);
      assert column == init + [column[|column| - 1]];
    }
  }

  /** A text cell survives `dropna()` and `unique()`. */
  lemma TextCellKept(cells: seq<Cell>, i: nat)
    requires i < |cells| && cells[i].Text?
    ensures cells[i] in Unique(DropMissing(cells))
  {
    DropMissingMembers(cells, cells[i]);
    var d := DropMissing(cells);
    var j :| 0 <= j < |d| && d[j] == cells[i];
  }

  /** Only cells of the column survive `dropna()` and `unique()`. */
  lemma KeptCellFrom(cells: seq<Cell>, c: Cell)
    requires c in Unique(DropMissing(cells))
    ensures c in cells
  {
    var u := Unique(DropMissing(cells));
    var i :| 0 <= i < |u| && u[i] == c;
    DropMissingMembers(cells, c);
  }

  /** Dropping missing cells and duplicates keeps every text cell's image. */
  lemma UniqueTexts(cells: seq<Cell>, f: string -> string, s: string)
    ensures s in MapTexts(Unique(DropMissing(cells)), f) <==>
            exists i :: 0 <= i < |cells| && cells[i].Text? && s == f(cells[i].s)
  {
    var u := Unique(DropMissing(cells));
    MapTextsMembers(u, f, s);
    if exists i :: 0 <= i < |cells| && cells[i].Text? && s == f(cells[i].s) {
      var i :| 0 <= i < |cells| && cells[i].Text? && s == f(cells[i].s);
      TextCellKept(cells, i);
      var k :| 0 <= k < |u| && u[k] == cells[i];
    }
    if exists i :: 0 <= i < |u| && u[i].Text? && s == f(u[i].s) {
      var i :| 0 <= i < |u| && u[i].Text? && s == f(u[i].s);
      KeptCellFrom(cells, u[i]);
      var k :| 0 <= k < |cells| && cells[k] == u[i];
    }
  }

  /** What the department list holds: exactly the stripped, lowercased text cells of the
      column (missing and non-text cells dropped). */
  lemma DepartmentsAreTextCells(columns: seq<(string, seq<Cell>)>, column: string, cells: seq<Cell>, s: string)
    requires Get(columns, column) == Some(cells)
    ensures s in DepartmentsFromCsv(Some(columns), column) <==>
            exists i :: 0 <= i < |cells| && cells[i].Text? && s == Normalised(cells[i].s)
  {
    UniqueTexts(cells, Normalised, s);
  }

  /** A table that could not be read, or lacks the column, gives no departments. */
  lemma UnreadableGivesNone(table: Option<seq<(string, seq<Cell>)>>, column: string)
    requires table.None? || !HasKey(table.value, column)
    ensures DepartmentsFromCsv(table, column) == []
  {
  }

  /** Distinctness is decided before normalising: two different cells that normalise alike
      (" IT" and "it") both stay, as the same department twice. */
  lemma DuplicatesAfterNormalising(columns: seq<(string, seq<Cell>)>, column: string, a: string, b: string)
    requires columns == [(column, [Text(a), Text(b)])]
    requires a != b && Normalised(a) == Normalised(b)
    ensures DepartmentsFromCsv(Some(columns), column) == [Normalised(a), Normalised(a)]
  {
    IndexOfKeyIs(columns, column, 0);
    TwoTextCells(a, b, Normalised);
  }

  /** Two different text cells both survive, each mapped. */
  lemma TwoTextCells(a: string, b: string, f: string -> string)
    requires a != b
    ensures MapTexts(Unique(DropMissing([Text(a), Text(b)])), f) == [f(a), f(b)]
  {
    var cells := [Text(a), Text(b)];
    assert cells[..1] == [Text(a)];
    assert DropMissing(cells) == cells;
    assert Unique(cells[..1]) == [Text(a)];
    assert Unique(cells) == cells;
    assert MapTexts(cells[..1], f) == [f(a)];
  }

  // ---------------------------------------------------------------- description fields

  /** `extract(label)`: the rest of the line after the first "<label>:" (ignoring case),
      stripped; "" when the description has none. */
  function Extract(desc: string, tag: string): (r: string)
    ensures !Contains(Lower(desc), Lower(tag) + ":") ==> r == ""
    ensures !Contains(r, "\n")
  {
    match LabelAt(desc, tag)
    case None => ""
    case Some(i) => LineRest(desc[i + |tag| + 1..])
  }

  /** Where the first "<label>:" starts, ignoring case. */
  function LabelAt(desc: string, tag: string): (r: Option<nat>)
    ensures r == IndexOf(Lower(desc), Lower(tag) + ":")
    ensures r.Some? ==> r.value + |tag| + 1 <= |desc|
  {
    var found := IndexOf(Lower(desc), Lower(tag) + ":");
    if found.Some? then
      assert OccursAt(Lower(desc), Lower(tag) + ":", found.value);
      found
    else found
  }

  /** The first line of `s`, stripped. */
  function LineRest(s: string): (r: string)
    ensures !Contains(r, "\n")
  {
    var line := Split(s, "\n")[0];
    StripKeepsNoNewline(line);
    Strip(line)
  }

  lemma StripKeepsNoNewline(line: string)
    requires !Contains(line, "\n")
    ensures !Contains(Strip(line), "\n")
  {
    if Contains(Strip(line), "\n") {
      ContainsTrans(line, Strip(line), "\n");
    }
  }

  /** Wherever the first "<label>:" sits, ignoring case, the result is the rest of its line,
      stripped: for a line that a line break ends, ... */
  lemma ExtractFound(desc: string, tag: string, pre: string, written: string, v: string, rest: string)
    requires desc == pre + written + ":" + v + "\n" + rest
    requires Lower(written) == Lower(tag) && '\n' !in v
    requires forall j :: 0 <= j < |pre| ==> !OccursAt(Lower(desc), Lower(tag) + ":", j)
    ensures Extract(desc, tag) == Strip(v)
  {
    LabelPieces(desc, pre, written, v + "\n" + rest);
    FirstLabelAt(desc, tag, |pre|, written);
    ExtractAt(desc, tag);
    FirstLineOf(v, rest);
  }

  /** `desc` split as `pre`, a written label, ':' and the text after it. */
  lemma LabelPieces(desc: string, pre: string, written: string, after: string)
    requires desc == pre + written + ":" + after
    ensures |pre| + |written| < |desc|
    ensures desc[|pre|..|pre| + |written|] == written && desc[|pre| + |written|] == ':'
    ensures desc[|pre| + |written| + 1..] == after
  {
  }

  /** Once the search has found "<tag>:", the result is the rest of that line, stripped. */
  lemma ExtractAt(desc: string, tag: string)
    requires LabelAt(desc, tag).Some?
    ensures Extract(desc, tag) == LineRest(desc[LabelAt(desc, tag).value + |tag| + 1..])
  {
  }

  /** The first line of `v + "\n" + rest` is `v` when `v` has no line break. */
  lemma FirstLineOf(v: string, rest: string)
    requires '\n' !in v
    ensures LineRest(v + "\n" + rest) == Strip(v)
  {
    var s := v + "\n" + rest;
    assert s == v + ['\n'] + rest;
    IndexOfAfterFree(v, '\n', rest);
    assert s[..|v|] == v;
  }

  /** ... and for the last line of the description. */
  lemma ExtractFoundLastLine(desc: string, tag: string, pre: string, written: string, v: string)
    requires desc == pre + written + ":" + v
    requires Lower(written) == Lower(tag) && '\n' !in v
    requires forall j :: 0 <= j < |pre| ==> !OccursAt(Lower(desc), Lower(tag) + ":", j)
    ensures Extract(desc, tag) == Strip(v)
  {
    LabelPieces(desc, pre, written, v);
    FirstLabelAt(desc, tag, |pre|, written);
    ExtractAt(desc, tag);
    LastLineOf(v);
  }

  /** Text with no line break is a single line. */
  lemma LastLineOf(v: string)
    requires '\n' !in v
    ensures LineRest(v) == Strip(v)
  {
    AbsentByChar(v, "\n", 0);
  }

  /** A written found at `at`, equal to `tag` up to case and followed by ':', with no earlier
      "<tag>:" in the lowercased text, is the match the search returns. */
  lemma FirstLabelAt(desc: string, tag: string, at: nat, written: string)
    requires at + |written| < |desc| && desc[at..at + |written|] == written && desc[at + |written|] == ':'
    requires Lower(written) == Lower(tag)
    requires forall j :: 0 <= j < at ==> !OccursAt(Lower(desc), Lower(tag) + ":", j)
    ensures |tag| == |written|
    ensures IndexOf(Lower(desc), Lower(tag) + ":") == Some(at)
    ensures LabelAt(desc, tag) == Some(at)
  {
    var key := Lower(tag) + ":";
    var low := Lower(desc);
    assert |Lower(written)| == |written|;
    forall m | 0 <= m < |key|
      ensures low[at + m] == key[m]
    {
      if m < |written| {
        assert desc[at + m] == written[m];
        assert Lower(written)[m] == LowerChar(written[m]);
      } else {
        assert desc[at + m] == ':';
      }
    }
    assert low[at..at + |key|] == key;
    assert OccursAt(low, key, at);
  }
}
