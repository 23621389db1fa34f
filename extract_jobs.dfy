/** The classifiers of the job-listing scraper: the department of a job title by best fuzzy
    keyword score, the working arrangement of a listing by a substring cascade with a fuzzy
    fallback, and the labelled field of a job description. The fuzzy scorer is a parameter:
    any function into 0..100. */
module ExtractJobs {
  import opened Wrappers
  import opened PyStrings
  import opened Cascade

  /** What `fuzz.partial_ratio` returns. */
  type Score = x: int | 0 <= x <= 100

  // ---------------------------------------------------------------- department

  /** The (department, keyword) pairs of one table row. */
  function Row(department: string, keywords: seq<string>): (ps: seq<(string, string)>)
    ensures |ps| == |keywords|
    ensures forall j :: 0 <= j < |keywords| ==> ps[j] == (department, keywords[j])
  {
    seq(|keywords|, j requires 0 <= j < |keywords| => (department, keywords[j]))
  }

  /** Every (department, keyword) pair of the table, in the order the nested loops visit them. */
  function Pairs(table: seq<(string, seq<string>)>): (ps: seq<(string, string)>)
  {
    if |table| == 0 then []
    else Pairs(table[..|table| - 1]) + Row(table[|table| - 1].0, table[|table| - 1].1)
  }

  /** `best_match` after visiting `pairs`, starting from ("Other", 0) and replaced only by a
      strictly higher score. */
  function BestOf(pairs: seq<(string, string)>, title: string, fuzz: (string, string) -> Score): (string, Score)
  {
    if |pairs| == 0 then ("Other", 0)
    else
      var best := BestOf(pairs[..|pairs| - 1], title, fuzz);
      var pair := pairs[|pairs| - 1];
      var score := fuzz(pair.1, title);
      if score > best.1 then (pair.0, score) else best
  }

  /** `classify_department`: the department of the best-scoring keyword when that score is
      above 75, "Other" otherwise. */
  method ClassifyDepartment(title: string, table: seq<(string, seq<string>)>, fuzz: (string, string) -> Score)
    returns (d: string)
    ensures var best := BestOf(Pairs(table), Lower(title), fuzz);
      d == if best.1 > 75 then best.0 else "Other"
  {
    var t := Lower(title);
    var best: (string, Score) := ("Other", 0);
    var i := 0;
    while i < |table|
      invariant 0 <= i <= |table|
      invariant best == BestOf(Pairs(table[..i]), t, fuzz)
    {
      var (department, keywords) := table[i];
      var j := 0;
      assert Pairs(table[..i]) + Row(department, keywords)[..0] == Pairs(table[..i]);
      while j < |keywords|
        invariant 0 <= j <= |keywords|
        invariant best == BestOf(Pairs(table[..i]) + Row(department, keywords)[..j], t, fuzz)
      {
        var score := fuzz(keywords[j], t);
        if score > best.1 {
          best := (department, score);
        }
        assert Pairs(table[..i]) + Row(department, keywords)[..j + 1]
            == (Pairs(table[..i]) + Row(department, keywords)[..j]) + [(department, keywords[j])];
        j := j + 1;
      }
      assert table[..i + 1][..i] == table[..i];
      assert Row(department, keywords)[..j] == Row(department, keywords);
      i := i + 1;
    }
    assert table[..i] == table;
    d := if best.1 > 75 then best.0 else "Other";
  }

  /** The running best is the first pair reaching the highest score: no pair scores more, the
      pair it names reaches it and every earlier pair scores less; with every score 0 it is
      still ("Other", 0). */
  lemma {:induction false} BestIsFirstMax(pairs: seq<(string, string)>, title: string, fuzz: (string, string) -> Score)
    ensures var best := BestOf(pairs, title, fuzz);
      && (forall k :: 0 <= k < |pairs| ==> fuzz(pairs[k].1, title) <= best.1)
      && (best.1 > 0 ==> exists k :: 0 <= k < |pairs| && pairs[k].0 == best.0 && fuzz(pairs[k].1, title) == best.1
                                     && forall m :: 0 <= m < k ==> fuzz(pairs[m].1, title) < best.1)
      && (best.1 == 0 ==> best.0 == "Other")
    decreases |pairs|
  {
    if |pairs| > 0 {
      var init := pairs[..|pairs| - 1];
      BestIsFirstMax(init, title, fuzz);
      var prev := BestOf(init, title, fuzz);
      var score := fuzz(pairs[|pairs| - 1].1, title);
      forall k | 0 <= k < |pairs| - 1
        ensures pairs[k] == init[k]
      {
      }
      if score > prev.1 {
        forall m | 0 <= m < |pairs| - 1
          ensures fuzz(pairs[m].1, title) < score
        {
          assert fuzz(init[m].1, title) <= prev.1;
        }
      } else if prev.1 > 0 {
        var k :| 0 <= k < |init| && init[k].0 == prev.0 && fuzz(init[k].1, title) == prev.1
                 && forall m :: 0 <= m < k ==> fuzz(init[m].1, title) < prev.1;
        assert pairs[k] == init[k];
      }
    }
  }

  /** The department returned: "Other" when no keyword scores above 75; otherwise the
      department of the first pair with the highest score (ties keep the earlier pair). */
  lemma ClassifiedDepartment(title: string, table: seq<(string, seq<string>)>, fuzz: (string, string) -> Score, k: nat)
    requires var ps := Pairs(table); var t := Lower(title);
      && k < |ps| && fuzz(ps[k].1, t) > 75
      && (forall m :: 0 <= m < |ps| ==> fuzz(ps[m].1, t) <= fuzz(ps[k].1, t))
      && (forall m :: 0 <= m < k ==> fuzz(ps[m].1, t) < fuzz(ps[k].1, t))
    ensures BestOf(Pairs(table), Lower(title), fuzz) == (Pairs(table)[k].0, fuzz(Pairs(table)[k].1, Lower(title)))
  {
    var ps := Pairs(table);
    var t := Lower(title);
    BestIsFirstMax(ps, t, fuzz);
    var best := BestOf(ps, t, fuzz);
    var k' :| 0 <= k' < |ps| && ps[k'].0 == best.0 && fuzz(ps[k'].1, t) == best.1
              && forall m :: 0 <= m < k' ==> fuzz(ps[m].1, t) < best.1;
    assert fuzz(ps[k].1, t) <= best.1;
    FirstMaxUnique(ps, t, fuzz, k, k');
  }

  /** Two pairs that each score above every pair before them, with equal scores, are the same. */
  lemma FirstMaxUnique(ps: seq<(string, string)>, t: string, fuzz: (string, string) -> Score, k: nat, k': nat)
    requires k < |ps| && k' < |ps| && fuzz(ps[k].1, t) == fuzz(ps[k'].1, t)
    requires forall m :: 0 <= m < k ==> fuzz(ps[m].1, t) < fuzz(ps[k].1, t)
    requires forall m :: 0 <= m < k' ==> fuzz(ps[m].1, t) < fuzz(ps[k'].1, t)
    ensures k == k'
  {
  }

  /** With no keyword scoring above 75 the title is "Other". */
  lemma LowScoresAreOther(title: string, table: seq<(string, seq<string>)>, fuzz: (string, string) -> Score)
    requires forall m :: 0 <= m < |Pairs(table)| ==> fuzz(Pairs(table)[m].1, Lower(title)) <= 75
    ensures BestOf(Pairs(table), Lower(title), fuzz).1 <= 75
  {
    BestIsFirstMax(Pairs(table), Lower(title), fuzz);
  }

  // ---------------------------------------------------------------- location

  const LocationLabels: seq<string> := ["Remote", "Hybrid", "Onsite", "Part time"]

  /** The substring tests, in the order of the if-chain. */
  const LocationGroups: seq<seq<string>> := [
    ["remote", "remotely", "work from home"],
    ["hybrid", "mixed model", "both remote and onsite"],
    ["onsite", "on-site", "office", "in-person", "physical location"],
    ["part time", "part-time", "flexible hours"]]

  /** The fuzzy terms of the fallback, category by category in the same order. */
  const FuzzyTerms: seq<seq<string>> := [
    ["virtual", "telecommute", "home-based", "telework"],
    ["hybrid model", "split office", "part remote"],
    ["office environment", "at the office", "work at site"],
    ["part time", "flex schedule", "temporary"]]

  /** Some term of the category scores at least 80. */
  predicate FuzzyHit(terms: seq<string>, text: string, fuzz: (string, string) -> Score)
  {
    exists j :: 0 <= j < |terms| && fuzz(terms[j], text) >= 80
  }

  /** The first category, from `from` on, with a term scoring at least 80. */
  function FirstFuzzyFrom(text: string, fuzz: (string, string) -> Score, from: nat): (r: Option<nat>)
    ensures r.Some? ==> from <= r.value < |FuzzyTerms| && FuzzyHit(FuzzyTerms[r.value], text, fuzz)
    ensures r.Some? ==> forall c :: from <= c < r.value ==> !FuzzyHit(FuzzyTerms[c], text, fuzz)
    ensures r.None? ==> forall c :: from <= c < |FuzzyTerms| ==> !FuzzyHit(FuzzyTerms[c], text, fuzz)
    decreases |FuzzyTerms| - from
  {
    if from >= |FuzzyTerms| then None
    else if FuzzyHit(FuzzyTerms[from], text, fuzz) then Some(from)
    else FirstFuzzyFrom(text, fuzz, from + 1)
  }

  /** `classify_location` */
  function ClassifyLocation(text: string, fuzz: (string, string) -> Score): (r: string)
    ensures r in LocationLabels || r == "Unclear"
    ensures |text| == 0 ==> r == "Unclear"
  {
    if |text| == 0 then "Unclear"
    else
      var t := Lower(text);
      match FirstGroup(t, LocationGroups)
      case Some(i) => LocationLabels[i]
      case None =>
        match FirstFuzzyFrom(t, fuzz, 0)
        case Some(c) => LocationLabels[c]
        case None => "Unclear"
  }

  /** The substring tests take precedence in the order Remote, Hybrid, Onsite, Part time: a
      text hitting group `i` gets label `i` or an earlier one, whatever the fuzzy scores. */
  lemma LocationPrecedence(text: string, fuzz: (string, string) -> Score, i: nat)
    requires i < |LocationGroups| && AnyIn(Lower(text), LocationGroups[i])
    ensures exists k :: 0 <= k <= i && ClassifyLocation(text, fuzz) == LocationLabels[k] &&
                        AnyIn(Lower(text), LocationGroups[k])
  {
    var j :| 0 <= j < |LocationGroups[i]| && Contains(Lower(text), LocationGroups[i][j]);
    assert |LocationGroups[i][j]| > 0;
    assert |text| > 0;
    var k := FirstGroup(Lower(text), LocationGroups).value;
    assert ClassifyLocation(text, fuzz) == LocationLabels[k];
  }

  /** The fuzzy fallback, reached only when no substring hits: the first category with a term
      scoring at least 80, or "Unclear" when there is none. */
  lemma FuzzyFallback(text: string, fuzz: (string, string) -> Score)
    requires |text| > 0
    requires forall i :: 0 <= i < |LocationGroups| ==> !AnyIn(Lower(text), LocationGroups[i])
    ensures ClassifyLocation(text, fuzz) == "Unclear" <==>
            forall c :: 0 <= c < |FuzzyTerms| ==> !FuzzyHit(FuzzyTerms[c], Lower(text), fuzz)
    ensures forall c :: 0 <= c < |FuzzyTerms| && FuzzyHit(FuzzyTerms[c], Lower(text), fuzz)
              && (forall e :: 0 <= e < c ==> !FuzzyHit(FuzzyTerms[e], Lower(text), fuzz))
              ==> ClassifyLocation(text, fuzz) == LocationLabels[c]
  {
    var r := FirstFuzzyFrom(Lower(text), fuzz, 0);
    if r.Some? {
      assert ClassifyLocation(text, fuzz) == LocationLabels[r.value];
    }
  }

  /** The Hybrid phrase "both remote and onsite" holds the Remote keyword at position 5. */
  lemma RemoteInsideBoth()
    ensures OccursAt(LocationGroups[1][2], LocationGroups[0][0], 5)
  {
    var phrase, head := LocationGroups[1][2], "both " + "remote";
    assert phrase == head + " and onsite";
    assert phrase[5..11] == head[5..] == LocationGroups[0][0];
  }

  /** "both remote and onsite" can never select Hybrid: the text then contains "remote", which
      the Remote test before it catches. */
  lemma BothRemoteAndOnsiteIsRemote(text: string, fuzz: (string, string) -> Score)
    requires Contains(Lower(text), "both remote and onsite")
    ensures ClassifyLocation(text, fuzz) == "Remote"
  {
    RemoteInsideBoth();
    ContainsTrans(Lower(text), LocationGroups[1][2], LocationGroups[0][0]);
    LocationPrecedence(text, fuzz, 0);
  }

  // ---------------------------------------------------------------- description fields

  /** `line.split(":", 1)[-1]`: what follows the first ':', or the whole line without one. */
  function AfterColon(line: string): (r: string)
    ensures |r| <= |line| && r == line[|line| - |r|..]
    ensures ':' !in line ==> r == line
    ensures ':' in line ==> |r| < |line| && line[|line| - |r| - 1] == ':' && ':' !in line[..|line| - |r| - 1]
  {
    match IndexOf(line, ":")
    case None =>
      NoChar(line, ':');
      line
    case Some(i) =>
      assert line[i..i + 1] == ":";
      assert line[i] == ':';
      forall j | 0 <= j < i
        ensures line[j] != ':'
      {
        assert !OccursAt(line, ":", j);
        assert line[j..j + 1] == [line[j]];
      }
      line[i + 1..]
  }

  /** The line loop of `extract_field`. */
  function FieldFrom(lines: seq<string>, keyword: string): string
  {
    if |lines| == 0 then ""
    else if Contains(Lower(lines[0]), Lower(keyword)) then Strip(AfterColon(lines[0]))
    else FieldFrom(lines[1..], keyword)
  }

  /** `extract_field(keyword)` over a job description. */
  function ExtractField(description: string, keyword: string): string
  {
    FieldFrom(Split(description, "\n"), keyword)
  }

  /** The first line mentioning the keyword (ignoring case) decides: its text after the first
      colon, stripped. */
  lemma {:induction false} FirstLineDecides(lines: seq<string>, keyword: string, k: nat)
    requires k < |lines| && Contains(Lower(lines[k]), Lower(keyword))
    requires forall m :: 0 <= m < k ==> !Contains(Lower(lines[m]), Lower(keyword))
    ensures FieldFrom(lines, keyword) == Strip(AfterColon(lines[k]))
    decreases k
  {
    if k > 0 {
      FirstLineDecides(lines[1..], keyword, k - 1);
    }
  }

  /** With no line mentioning the keyword the field is empty. */
  lemma {:induction false} NoLineEmpty(lines: seq<string>, keyword: string)
    requires forall m :: 0 <= m < |lines| ==> !Contains(Lower(lines[m]), Lower(keyword))
    ensures FieldFrom(lines, keyword) == ""
    decreases |lines|
  {
    if |lines| > 0 {
      NoLineEmpty(lines[1..], keyword);
    }
  }
}
