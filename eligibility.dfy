/** `CareerRecommender.check_eligibility`: decide whether a KCSE transcript meets the entry
    requirements of a programme, and say why. */
module Eligibility {
  import opened Wrappers
  import opened PyStrings
  import opened Dicts
  import opened Seqs
  import opened Grades

  /** A student's results: the mean grade (None when not given) and subject name to grade
      symbol, in the order the dictionary holds them. */
  datatype Transcript = Transcript(meanGrade: Option<string>, subjects: seq<(string, string)>)

  /** One entry of the requirements table. `requiredSubjects` maps a subject name (possibly
      `X_or_Y` or `Teaching_Subject1`/`2`) to its minimum grade symbol. */
  datatype Requirement = Requirement(
    minMeanGrade: string,
    requiredSubjects: seq<(string, string)>,
    level: Option<string>,
    note: Option<string>)

  datatype Status = Eligible | Aspirational | NotEligible | Unknown
  {
    function Label(): string
    {
      match this
      case Eligible => "ELIGIBLE"
      case Aspirational => "ASPIRATIONAL"
      case NotEligible => "NOT ELIGIBLE"
      case Unknown => "UNKNOWN"
    }

    /** How good a verdict the gates leave: ELIGIBLE over ASPIRATIONAL over the rest. */
    function Rank(): nat
    {
      match this
      case Eligible => 2
      case Aspirational => 1
      case NotEligible => 0
      case Unknown => 0
    }
  }

  datatype Verdict = Verdict(status: Status, reason: string)

  const NoRequirementReason := "No requirement data available for this program."

  // ---------------------------------------------------------------- requirement lookup

  /** A table key applies to a programme when either name, lowercased, contains the other. */
  predicate NameMatches(key: string, program: string)
  {
    Contains(Lower(program), Lower(key)) || Contains(Lower(key), Lower(program))
  }

  /** The first entry, from position `from` on, whose key applies to `program`. */
  function MatchFrom(table: seq<(string, Requirement)>, program: string, from: nat): (r: Option<nat>)
    ensures r.Some? ==> from <= r.value < |table| && NameMatches(table[r.value].0, program)
    ensures r.Some? ==> forall j :: from <= j < r.value ==> !NameMatches(table[j].0, program)
    ensures r.None? ==> forall j :: from <= j < |table| ==> !NameMatches(table[j].0, program)
    decreases |table| - from
  {
    if from >= |table| then None
    else if NameMatches(table[from].0, program) then Some(from)
    else MatchFrom(table, program, from + 1)
  }

  /** The entry the lookup loop stops at: the first key, in table order, that applies. */
  function MatchIndex(table: seq<(string, Requirement)>, program: string): (r: Option<nat>)
    ensures r.Some? ==> r.value < |table| && NameMatches(table[r.value].0, program)
    ensures r.Some? ==> forall j :: 0 <= j < r.value ==> !NameMatches(table[j].0, program)
    ensures r.None? ==> forall j :: 0 <= j < |table| ==> !NameMatches(table[j].0, program)
  {
    MatchFrom(table, program, 0)
  }

  // ---------------------------------------------------------------- grade of one requirement

  /** `student_results.get("mean_grade", "E")` */
  function MeanGrade(t: Transcript): string
  {
    t.meanGrade.GetOr("E")
  }

  /** `student_results.get("subjects", {}).get(name, "E")` */
  function GradeOf(t: Transcript, name: string): string
  {
    GetOr(t.subjects, name, "E")
  }

  /** The `X_or_Y` scan over the options, as (grade, points so far); it starts from ("E", 0)
      and only a strictly higher option replaces the current one. */
  function OrFold(options: seq<string>, t: Transcript): (r: (string, nat))
    ensures forall j :: 0 <= j < |options| ==> Points(GradeOf(t, options[j])) <= r.1
    ensures r.1 == 0 ==> r.0 == "E"
    ensures r.1 > 0 ==> exists j :: 0 <= j < |options| && r.0 == GradeOf(t, options[j]) && Points(r.0) == r.1
    decreases |options|
  {
    if |options| == 0 then ("E", 0)
    else
      var prev := OrFold(options[..|options| - 1], t);
      var g := GradeOf(t, options[|options| - 1]);
      assert forall j :: 0 <= j < |options| - 1 ==> options[..|options| - 1][j] == options[j];
      if Points(g) > prev.1 then (g, Points(g)) else prev
  }

  /** One more option extends the scan by one comparison. */
  lemma OrFoldSnoc(options: seq<string>, i: nat, t: Transcript)
    requires i < |options|
    ensures var prev := OrFold(options[..i], t); var g := GradeOf(t, options[i]);
      OrFold(options[..i + 1], t) == if Points(g) > prev.1 then (g, Points(g)) else prev
  {
    assert options[..i + 1][..i] == options[..i];
  }

  /** The inner loop over the options of an `X_or_Y` requirement. */
  method BestAlternative(options: seq<string>, t: Transcript) returns (grade: string)
    ensures grade == OrFold(options, t).0
  {
    grade := "E";
    var maxPts := 0;
    var i := 0;
    assert options[..0] == [];
    while i < |options|
      invariant 0 <= i <= |options|
      invariant (grade, maxPts) == OrFold(options[..i], t)
    {
      var g := GetOr(t.subjects, options[i], "E");
      var p := Points(g);
      OrFoldSnoc(options, i, t);
      if p > maxPts {
        maxPts := p;
        grade := g;
      }
      i := i + 1;
    }
    assert options[..|options|] == options;
  }

  /** The points of every subject the student sat, in dictionary order. */
  function SubjectPoints(t: Transcript): (ps: seq<nat>)
    ensures |ps| == |t.subjects|
    ensures forall i :: 0 <= i < |ps| ==> ps[i] == Points(t.subjects[i].1) <= 12
  {
    seq(|t.subjects|, i requires 0 <= i < |t.subjects| => Points(t.subjects[i].1))
  }

  function NatKey(n: nat): real
  {
    n as real
  }

  /** Position in the descending points list a teaching slot reads: the best subject for a
      slot named with "1", the second best otherwise. */
  function TeachingRank(name: string): nat
  {
    if Contains(name, "1") then 0 else 1
  }

  /** Grade used for a `Teaching_Subject` slot: the symbol worth the points at that rank of
      the sorted subject points, or "E" when the student has too few subjects. */
  function TeachingGrade(name: string, t: Transcript): string
  {
    var pts := SortDesc(SubjectPoints(t), NatKey);
    var idx := TeachingRank(name);
    if |pts| > idx then
      assert pts[idx] in multiset(SubjectPoints(t));
      SymbolFor(pts[idx])
    else "E"
  }

  /** Grade the student is judged on for one required subject name. */
  function SubjectGrade(name: string, t: Transcript): string
  {
    if Contains(name, "_or_") then OrFold(Split(name, "_or_"), t).0
    else if Contains(name, "Teaching_Subject") then TeachingGrade(name, t)
    else GradeOf(t, name)
  }

  function Have(name: string, t: Transcript): nat
  {
    Points(SubjectGrade(name, t))
  }

  // ---------------------------------------------------------------- the gates

  predicate MeanPasses(t: Transcript, req: Requirement)
  {
    Points(MeanGrade(t)) >= Points(req.minMeanGrade)
  }

  /** A required subject together with the grade the student is judged on for it. */
  datatype Judged = Judged(name: string, minGrade: string, grade: string)

  /** Each required subject, in table order, with the student's grade for it. */
  function JudgeAll(subs: seq<(string, string)>, t: Transcript): (js: seq<Judged>)
    ensures |js| == |subs|
    ensures forall i :: 0 <= i < |subs| ==> js[i] == Judged(subs[i].0, subs[i].1, SubjectGrade(subs[i].0, t))
  {
    seq(|subs|, i requires 0 <= i < |subs| => Judged(subs[i].0, subs[i].1, SubjectGrade(subs[i].0, t)))
  }

  /** A required subject is missed when the student's points are below the minimum's. */
  predicate Missed(j: Judged)
  {
    Points(j.grade) < Points(j.minGrade)
  }

  /** A miss by exactly one point. */
  predicate NearMissed(j: Judged)
  {
    Points(j.grade) + 1 == Points(j.minGrade)
  }

  function SubjectLabel(name: string): string
  {
    ReplaceChar(name, '_', ' ')
  }

  function SlightlyBelow(j: Judged): string
  {
    "Subject " + SubjectLabel(j.name) + " grade " + j.grade + " is slightly below " + j.minGrade
  }

  function DoesNotMeet(j: Judged): string
  {
    "Subject " + SubjectLabel(j.name) + " grade " + j.grade + " does not meet " + j.minGrade
  }

  function MeanBelow(t: Transcript, req: Requirement): string
  {
    "Mean Grade " + MeanGrade(t) + " is below required " + req.minMeanGrade
  }

  /** One pass of the subject loop: a miss by one point while still ELIGIBLE makes the
      verdict ASPIRATIONAL, any other miss makes it NOT ELIGIBLE; each miss adds a reason. */
  function GateStep(prev: (Status, seq<string>), j: Judged): (Status, seq<string>)
  {
    if Points(j.grade) < Points(j.minGrade) then
      if prev.0 == Eligible && Points(j.grade) == Points(j.minGrade) - 1 then (Aspirational, prev.1 + [SlightlyBelow(j)])
      else (NotEligible, prev.1 + [DoesNotMeet(j)])
    else prev
  }

  /** The subject loop over `js`, from the verdict and reasons left by the mean-grade gate. */
  function Gate(js: seq<Judged>, start: (Status, seq<string>)): (Status, seq<string>)
  {
    if |js| == 0 then start
    else GateStep(Gate(js[..|js| - 1], start), js[|js| - 1])
  }

  /** The verdict never improves as the subject loop runs, it never becomes UNKNOWN, and
      reasons are only ever appended. */
  lemma {:induction false} GateNeverImproves(js: seq<Judged>, start: (Status, seq<string>))
    ensures Gate(js, start).0.Rank() <= start.0.Rank()
    ensures start.0 != Unknown ==> Gate(js, start).0 != Unknown
    ensures start.1 <= Gate(js, start).1
  {
    if |js| > 0 {
      GateNeverImproves(js[..|js| - 1], start);
    }
  }

  /** Verdict and reasons after the mean-grade gate. */
  function AfterMean(t: Transcript, req: Requirement): (Status, seq<string>)
  {
    if MeanPasses(t, req) then (Eligible, []) else (NotEligible, [MeanBelow(t, req)])
  }

  /** The closing reasons: the level when nothing failed, then the entry's note if it has one. */
  function Closing(st: Status, req: Requirement): seq<string>
  {
    (if st == Eligible then ["Meets all criteria for " + req.level.GetOr("Degree")] else [])
    + (if req.note.Some? && req.note.value != "" then ["Note: " + req.note.value] else [])
  }

  /** What `check_eligibility(program, transcript)` returns. */
  function Evaluate(table: seq<(string, Requirement)>, program: string, t: Transcript): Verdict
  {
    match MatchIndex(table, program)
    case None => Verdict(Unknown, NoRequirementReason)
    case Some(i) =>
      var req := table[i].1;
      var r := Gate(JudgeAll(req.requiredSubjects, t), AfterMean(t, req));
      Verdict(r.0, Join(r.1 + Closing(r.0, req), " | "))
  }

  /** The lookup loop: scan the keys in table order and stop at the first that applies. */
  method LookupRequirement(table: seq<(string, Requirement)>, program: string) returns (found: Option<nat>)
    ensures found == MatchIndex(table, program)
  {
    var i := 0;
    while i < |table| && !NameMatches(table[i].0, program)
      invariant 0 <= i <= |table|
      invariant forall j :: 0 <= j < i ==> !NameMatches(table[j].0, program)
    {
      i := i + 1;
    }
    if i == |table| {
      found := None;
    } else {
      found := Some(i);
    }
  }

  /** The grade one required subject is judged on: the best option of an `X_or_Y` group,
      the ranked subject for a teaching slot, or the subject's own grade ("E" if absent). */
  method RequirementGrade(sub: string, t: Transcript) returns (sGrade: string)
    ensures sGrade == SubjectGrade(sub, t)
  {
    sGrade := "E";
    if Contains(sub, "_or_") {
      sGrade := BestAlternative(Split(sub, "_or_"), t);
    } else if Contains(sub, "Teaching_Subject") {
      var allPts := SortDesc(SubjectPoints(t), NatKey);
      var idx := if Contains(sub, "1") then 0 else 1;
      if |allPts| > idx {
        assert allPts[idx] in multiset(SubjectPoints(t));
        sGrade := SymbolFor(allPts[idx]);
      }
    } else {
      sGrade := GetOr(t.subjects, sub, "E");
    }
  }

  /** One more subject extends the gate by one step. */
  lemma GateSnoc(js: seq<Judged>, k: nat, start: (Status, seq<string>))
    requires k < |js|
    ensures Gate(js[..k + 1], start) == GateStep(Gate(js[..k], start), js[k])
  {
    assert js[..k + 1][..k] == js[..k];
  }

  /** The loop over the required subjects, from the verdict the mean-grade gate left. */
  method SubjectLoop(subs: seq<(string, string)>, t: Transcript, status0: Status, reasons0: seq<string>)
    returns (status: Status, reasons: seq<string>)
    ensures (status, reasons) == Gate(JudgeAll(subs, t), (status0, reasons0))
  {
    ghost var js := JudgeAll(subs, t);
    status, reasons := status0, reasons0;
    var k := 0;
    assert js[..0] == [];
    while k < |subs|
      invariant 0 <= k <= |subs|
      invariant (status, reasons) == Gate(js[..k], (status0, reasons0))
    {
      var sub := subs[k].0;
      var minG := subs[k].1;
      var sGrade := RequirementGrade(sub, t);
      assert js[k] == Judged(sub, minG, sGrade);
      GateSnoc(js, k, (status0, reasons0));
      if Points(sGrade) < Points(minG) {
        if status == Eligible && Points(sGrade) == Points(minG) - 1 {
          status := Aspirational;
          reasons := reasons + [SlightlyBelow(Judged(sub, minG, sGrade))];
        } else {
          status := NotEligible;
          reasons := reasons + [DoesNotMeet(Judged(sub, minG, sGrade))];
        }
      }
      k := k + 1;
    }
    assert js[..|subs|] == js;
  }

  /** The lookup, the mean-grade gate and the subject loop, as the source runs them. */
  method CheckEligibility(table: seq<(string, Requirement)>, program: string, t: Transcript)
    returns (status: Status, reason: string)
    ensures Verdict(status, reason) == Evaluate(table, program, t)
    ensures status == Unknown <==> MatchIndex(table, program).None?
  {
    var found := LookupRequirement(table, program);
    if found.None? {
      return Unknown, NoRequirementReason;
    }
    var req := table[found.value].1;

    status := Eligible;
    var reasons: seq<string> := [];
    var mean := MeanGrade(t);
    if Points(mean) < Points(req.minMeanGrade) {
      status := NotEligible;
      reasons := reasons + ["Mean Grade " + mean + " is below required " + req.minMeanGrade];
      assert reasons == [MeanBelow(t, req)];
    }
    ghost var start := (status, reasons);
    assert start == AfterMean(t, req);

    ghost var js := JudgeAll(req.requiredSubjects, t);
    status, reasons := SubjectLoop(req.requiredSubjects, t, status, reasons);
    ghost var gated := reasons;
    GateNeverImproves(js, start);
    if status == Eligible {
      reasons := reasons + ["Meets all criteria for " + req.level.GetOr("Degree")];
    }
    if req.note.Some? && req.note.value != "" {
      reasons := reasons + ["Note: " + req.note.value];
    }
    assert reasons == gated + Closing(status, req);
    reason := Join(reasons, " | ");
  }
}
