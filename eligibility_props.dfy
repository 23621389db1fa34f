/** What `check_eligibility` guarantees: the verdict in closed form, its independence from
    the order of the required subjects, its monotonicity in the student's grades, the
    meaning of `X_or_Y` groups and teaching slots, and the scenarios of the test suite. */
module EligibilityProps {
  import opened Wrappers
  import opened PyStrings
  import opened Dicts
  import opened Seqs
  import opened Grades
  import opened Eligibility

  /** Missed by two points or more. */
  predicate FarMissed(j: Judged)
  {
    Missed(j) && !NearMissed(j)
  }

  /** The verdict stated without the loop: ELIGIBLE when the mean passes and nothing is
      missed, ASPIRATIONAL when the mean passes and the only miss is a one-point miss,
      NOT ELIGIBLE otherwise. */
  function ClosedStatus(meanOk: bool, misses: nat, farMisses: nat): Status
  {
    if !meanOk then NotEligible
    else if misses == 0 then Eligible
    else if misses == 1 && farMisses == 0 then Aspirational
    else NotEligible
  }

  function StartStatus(meanOk: bool): Status
  {
    if meanOk then Eligible else NotEligible
  }

  /** The subject loop's status depends only on how many subjects are missed and how many
      of those by more than a point. */
  lemma {:induction false} GateClosed(js: seq<Judged>, meanOk: bool, rs: seq<string>)
    ensures Gate(js, (StartStatus(meanOk), rs)).0 == ClosedStatus(meanOk, Count(js, Missed), Count(js, FarMissed))
  {
    if |js| > 0 {
      var init := js[..|js| - 1];
      var j := js[|js| - 1];
      GateClosed(init, meanOk, rs);
      assert Count(js, Missed) == Count(init, Missed) + (if Missed(j) then 1 else 0);
      assert Count(js, FarMissed) == Count(init, FarMissed) + (if FarMissed(j) then 1 else 0);
      var prev := Gate(init, (StartStatus(meanOk), rs));
      assert Gate(js, (StartStatus(meanOk), rs)) == GateStep(prev, j);
      if !Missed(j) {
        assert GateStep(prev, j) == prev;
      } else if NearMissed(j) && prev.0 == Eligible {
        assert GateStep(prev, j).0 == Aspirational;
        CountMono(init, FarMissed, init, Missed);
      } else {
        assert GateStep(prev, j).0 == NotEligible;
      }
    }
  }

  /** The final status of `check_eligibility`, for every table, programme and transcript. */
  lemma StatusClosedForm(table: seq<(string, Requirement)>, program: string, t: Transcript)
    ensures MatchIndex(table, program).None? ==> Evaluate(table, program, t) == Verdict(Unknown, NoRequirementReason)
    ensures MatchIndex(table, program).Some? ==>
      var req := table[MatchIndex(table, program).value].1;
      var js := JudgeAll(req.requiredSubjects, t);
      Evaluate(table, program, t).status == ClosedStatus(MeanPasses(t, req), Count(js, Missed), Count(js, FarMissed))
  {
    if MatchIndex(table, program).Some? {
      var req := table[MatchIndex(table, program).value].1;
      GateClosed(JudgeAll(req.requiredSubjects, t), MeanPasses(t, req), AfterMean(t, req).1);
    }
  }

  /** ELIGIBLE exactly when the mean grade and every required subject meet their minimum
      (equal counts as meeting). */
  lemma EligibleIff(table: seq<(string, Requirement)>, program: string, t: Transcript)
    requires MatchIndex(table, program).Some?
    ensures var req := table[MatchIndex(table, program).value].1;
      var js := JudgeAll(req.requiredSubjects, t);
      (Evaluate(table, program, t).status == Eligible)
        <==> (MeanPasses(t, req) && forall i :: 0 <= i < |js| ==> Points(js[i].grade) >= Points(js[i].minGrade))
  {
    var req := table[MatchIndex(table, program).value].1;
    var js := JudgeAll(req.requiredSubjects, t);
    StatusClosedForm(table, program, t);
    CountZero(js, Missed);
  }

  /** ASPIRATIONAL exactly when the mean grade passes and a single required subject is
      missed, by one point. */
  lemma AspirationalIff(table: seq<(string, Requirement)>, program: string, t: Transcript)
    requires MatchIndex(table, program).Some?
    ensures var req := table[MatchIndex(table, program).value].1;
      var js := JudgeAll(req.requiredSubjects, t);
      (Evaluate(table, program, t).status == Aspirational)
        <==> (MeanPasses(t, req) && Count(js, Missed) == 1 && Count(js, FarMissed) == 0)
  {
    StatusClosedForm(table, program, t);
  }

  /** Checking the required subjects in another order gives the same status. */
  lemma OrderFree(js: seq<Judged>, other: seq<Judged>, meanOk: bool, rs: seq<string>)
    requires multiset(js) == multiset(other)
    ensures Gate(js, (StartStatus(meanOk), rs)).0 == Gate(other, (StartStatus(meanOk), rs)).0
  {
    GateClosed(js, meanOk, rs);
    GateClosed(other, meanOk, rs);
    CountPerm(js, other, Missed);
    CountPerm(js, other, FarMissed);
  }

  /** A missing mean grade reads as "E", worth one point, and so does a missing plain subject. */
  lemma MissingReadsAsE(t: Transcript, name: string)
    ensures t.meanGrade.None? ==> Points(MeanGrade(t)) == 1
    ensures !Contains(name, "_or_") && !Contains(name, "Teaching_Subject") && !HasKey(t.subjects, name)
            ==> SubjectGrade(name, t) == "E" && Have(name, t) == 1
  {
  }

  /** An `X_or_Y` requirement is judged on the best option; if no option scores a point,
      on "E". */
  lemma OrGroupUsesBest(name: string, t: Transcript)
    requires Contains(name, "_or_")
    ensures var options := Split(name, "_or_");
      (forall j :: 0 <= j < |options| ==> Points(GradeOf(t, options[j])) <= Have(name, t))
      && (Have(name, t) == 1 || exists j :: 0 <= j < |options| && SubjectGrade(name, t) == GradeOf(t, options[j]))
  {
    var options := Split(name, "_or_");
    assert SubjectGrade(name, t) == OrFold(options, t).0;
    OrFoldPoints(options, t);
  }

  /** The `X_or_Y` scan is worth its maximum, or one point (an "E") when that is zero. */
  lemma OrFoldPoints(options: seq<string>, t: Transcript)
    ensures Points(OrFold(options, t).0) == if OrFold(options, t).1 == 0 then 1 else OrFold(options, t).1
  {
    var r := OrFold(options, t);
    if r.1 > 0 {
      var j :| 0 <= j < |options| && r.0 == GradeOf(t, options[j]) && Points(r.0) == r.1;
    }
  }

  /** A teaching slot is judged on the subject at its rank: at least `rank + 1` subjects
      score as much as it and at most `rank` score more; "E" when there are too few. */
  lemma TeachingUsesRank(name: string, t: Transcript)
    requires !Contains(name, "_or_") && Contains(name, "Teaching_Subject")
    ensures var idx := TeachingRank(name);
      var ps := SubjectPoints(t);
      if |t.subjects| > idx then
        Count(ps, KeyAtLeast(NatKey, Have(name, t) as real)) > idx
        && Count(ps, KeyAtLeast(NatKey, (Have(name, t) + 1) as real)) <= idx
      else SubjectGrade(name, t) == "E"
  {
    var idx := TeachingRank(name);
    var ps := SubjectPoints(t);
    var sorted := SortDesc(ps, NatKey);
    if |t.subjects| > idx {
      var v := sorted[idx];
      assert v in multiset(ps);
      assert Have(name, t) == v;
      SortedCount(sorted, NatKey, v as real, idx);
      SortedCount(sorted, NatKey, (v + 1) as real, idx);
      CountPerm(sorted, ps, KeyAtLeast(NatKey, v as real));
      CountPerm(sorted, ps, KeyAtLeast(NatKey, (v + 1) as real));
    }
  }

  // ---------------------------------------------------------------- monotonicity

  /** `better` has the same subjects, in the same order, each graded at least as well, and a
      mean grade worth at least as much. */
  predicate Raised(t: Transcript, better: Transcript)
  {
    |better.subjects| == |t.subjects|
    && Keys(better.subjects) == Keys(t.subjects)
    && (forall i :: 0 <= i < |t.subjects| ==> Points(better.subjects[i].1) >= Points(t.subjects[i].1))
    && Points(MeanGrade(better)) >= Points(MeanGrade(t))
  }

  lemma GradeOfMono(t: Transcript, better: Transcript, name: string)
    requires Raised(t, better)
    ensures Points(GradeOf(better, name)) >= Points(GradeOf(t, name))
  {
    SameKeysSameIndex(t.subjects, better.subjects, name);
  }

  lemma OrFoldMono(options: seq<string>, t: Transcript, better: Transcript)
    requires Raised(t, better)
    ensures Points(OrFold(options, better).0) >= Points(OrFold(options, t).0)
  {
    var r := OrFold(options, t);
    var r' := OrFold(options, better);
    OrFoldPoints(options, t);
    OrFoldPoints(options, better);
    if r.1 > 0 {
      var j :| 0 <= j < |options| && r.0 == GradeOf(t, options[j]) && Points(r.0) == r.1;
      GradeOfMono(t, better, options[j]);
      assert r'.1 >= Points(GradeOf(better, options[j]));
    }
  }

  lemma TeachingMono(name: string, t: Transcript, better: Transcript)
    requires Raised(t, better)
    ensures Points(TeachingGrade(name, better)) >= Points(TeachingGrade(name, t))
  {
    var idx := TeachingRank(name);
    var ps := SubjectPoints(t);
    var ps' := SubjectPoints(better);
    var sorted := SortDesc(ps, NatKey);
    var sorted' := SortDesc(ps', NatKey);
    if |ps| > idx {
      var v := sorted[idx];
      var p := KeyAtLeast(NatKey, v as real);
      assert v in multiset(ps);
      assert sorted'[idx] in multiset(ps');
      SortedCount(sorted, NatKey, v as real, idx);
      CountPerm(sorted, ps, p);
      CountMono(ps, p, ps', p);
      CountPerm(sorted', ps', p);
      SortedCount(sorted', NatKey, v as real, idx);
    }
  }

  lemma HaveMono(name: string, t: Transcript, better: Transcript)
    requires Raised(t, better)
    ensures Have(name, better) >= Have(name, t)
  {
    if Contains(name, "_or_") {
      OrFoldMono(Split(name, "_or_"), t, better);
    } else if Contains(name, "Teaching_Subject") {
      TeachingMono(name, t, better);
    } else {
      GradeOfMono(t, better, name);
    }
  }

  /** Better grades never give a worse verdict. */
  lemma EvaluateMonotone(table: seq<(string, Requirement)>, program: string, t: Transcript, better: Transcript)
    requires Raised(t, better)
    ensures Evaluate(table, program, better).status.Rank() >= Evaluate(table, program, t).status.Rank()
  {
    StatusClosedForm(table, program, t);
    StatusClosedForm(table, program, better);
    if MatchIndex(table, program).Some? {
      var subs := table[MatchIndex(table, program).value].1.requiredSubjects;
      var js := JudgeAll(subs, t);
      var js' := JudgeAll(subs, better);
      forall i | 0 <= i < |subs|
        ensures Points(js'[i].grade) >= Points(js[i].grade)
      {
        HaveMono(subs[i].0, t, better);
      }
      CountMono(js', Missed, js, Missed);
      CountMono(js', FarMissed, js, FarMissed);
    }
  }

  // ---------------------------------------------------------------- the test scenarios

  const TestTable: seq<(string, Requirement)> := [
    ("Computer Science", Requirement("C+", [("Mathematics", "C+"), ("Physics", "C")], Some("Degree"), None)),
    ("Medicine", Requirement("B+", [("Biology", "B"), ("Chemistry", "B")], Some("Degree"), None))
  ]

  /** "Computer Science" resolves to its own entry, and the plain subject names of that
      entry are neither `_or_` groups nor teaching slots. */
  lemma ComputerScienceEntry(t: Transcript)
    ensures MatchIndex(TestTable, "Computer Science") == Some(0)
    ensures SubjectGrade("Mathematics", t) == GradeOf(t, "Mathematics")
    ensures SubjectGrade("Physics", t) == GradeOf(t, "Physics")
  {
    var l := Lower("Computer Science");
    assert OccursAt(l, l, 0);
    assert NameMatches(TestTable[0].0, "Computer Science");
    AbsentByChar("Mathematics", "_or_", 0);
    AbsentByChar("Mathematics", "Teaching_Subject", 0);
    AbsentByChar("Physics", "_or_", 0);
    AbsentByChar("Physics", "Teaching_Subject", 0);
  }

  /** `check_eligibility("Computer Science", t)` against the test table, as a two-step gate. */
  lemma ComputerScienceVerdict(t: Transcript)
    ensures var req := TestTable[0].1;
      var js := [Judged("Mathematics", "C+", GradeOf(t, "Mathematics")), Judged("Physics", "C", GradeOf(t, "Physics"))];
      var r := Gate(js, AfterMean(t, req));
      Evaluate(TestTable, "Computer Science", t) == Verdict(r.0, Join(r.1 + Closing(r.0, req), " | "))
  {
    ComputerScienceEntry(t);
    var req := TestTable[0].1;
    var js := [Judged("Mathematics", "C+", GradeOf(t, "Mathematics")), Judged("Physics", "C", GradeOf(t, "Physics"))];
    assert JudgeAll(req.requiredSubjects, t) == js;
  }

  lemma ClosingDegree(req: Requirement)
    requires req.level == Some("Degree") && req.note.None?
    ensures Closing(Eligible, req) == ["Meets all criteria for Degree"]
    ensures Closing(NotEligible, req) == [] && Closing(Aspirational, req) == []
  {
    assert "Meets all criteria for " + "Degree" == "Meets all criteria for Degree";
  }

  lemma ScenarioEligible(t: Transcript)
    requires t == Transcript(Some("A"), [("Mathematics", "A"), ("Physics", "A"), ("English", "A")])
    ensures Evaluate(TestTable, "Computer Science", t)
         == Verdict(Eligible, "Meets all criteria for Degree")
  {
    ComputerScienceVerdict(t);
    IndexOfKeyIs(t.subjects, "Mathematics", 0);
    IndexOfKeyIs(t.subjects, "Physics", 1);
    var js := [Judged("Mathematics", "C+", "A"), Judged("Physics", "C", "A")];
    assert GradeOf(t, "Mathematics") == "A";
    assert GradeOf(t, "Physics") == "A";
    assert js[..1] == [js[0]] && [js[0]][..0] == [];
    assert AfterMean(t, TestTable[0].1) == (Eligible, []);
    assert Gate(js, (Eligible, [])) == (Eligible, []);
    ClosingDegree(TestTable[0].1);
  }

  lemma MeanBelowText(t: Transcript, req: Requirement)
    requires MeanGrade(t) == "D+" && req.minMeanGrade == "C+"
    ensures !MeanPasses(t, req)
    ensures MeanBelow(t, req) == "Mean Grade " + "D+" + " is below required " + "C+"
  {
  }

  lemma MeanAboveCPlus(t: Transcript, req: Requirement)
    requires (MeanGrade(t) == "A" || MeanGrade(t) == "B") && req.minMeanGrade == "C+"
    ensures MeanPasses(t, req)
  {
  }

  lemma PassesPhysics(j: Judged)
    requires j.name == "Physics" && j.minGrade == "C" && (j.grade == "A" || j.grade == "C")
    ensures !Missed(j)
  {
  }

  lemma DoesNotMeetText(j: Judged)
    requires j == Judged("Mathematics", "C+", "D")
    ensures FarMissed(j)
    ensures DoesNotMeet(j) == "Subject " + "Mathematics" + " grade " + "D" + " does not meet " + "C+"
  {
    ReplaceAbsent(j.name, '_', ' ');
  }

  lemma SlightlyBelowText(j: Judged)
    requires j == Judged("Mathematics", "C+", "C")
    ensures NearMissed(j)
    ensures SlightlyBelow(j) == "Subject " + "Mathematics" + " grade " + "C" + " is slightly below " + "C+"
  {
    ReplaceAbsent(j.name, '_', ' ');
  }

  /** A single miss by more than one point fails the gate with that one reason. */
  lemma OneFarMiss(js: seq<Judged>)
    requires |js| == 2 && FarMissed(js[0]) && !Missed(js[1])
    ensures Gate(js, (Eligible, [])) == (NotEligible, [DoesNotMeet(js[0])])
  {
    assert js[..1][..0] == [] && js[..1][0] == js[0];
    assert Gate(js[..1], (Eligible, [])) == GateStep((Eligible, []), js[0]);
    assert [] + [DoesNotMeet(js[0])] == [DoesNotMeet(js[0])];
  }

  /** A single miss by one point leaves the program aspirational, with that one reason. */
  lemma OneNearMiss(js: seq<Judged>)
    requires |js| == 2 && NearMissed(js[0]) && !Missed(js[1])
    ensures Gate(js, (Eligible, [])) == (Aspirational, [SlightlyBelow(js[0])])
  {
    assert js[..1][..0] == [] && js[..1][0] == js[0];
    assert Gate(js[..1], (Eligible, [])) == GateStep((Eligible, []), js[0]);
    assert [] + [SlightlyBelow(js[0])] == [SlightlyBelow(js[0])];
  }

  /** With no miss, the gate keeps what the mean-grade check left. */
  lemma NoMiss(js: seq<Judged>, start: (Status, seq<string>))
    requires |js| == 2 && !Missed(js[0]) && !Missed(js[1])
    ensures Gate(js, start) == start
  {
    assert js[..1][..0] == [] && js[..1][0] == js[0];
    assert Gate(js[..1], start) == GateStep(start, js[0]);
  }

  lemma ScenarioMeanFails(t: Transcript)
    requires t == Transcript(Some("D+"), [("Mathematics", "A"), ("Physics", "A")])
    ensures Evaluate(TestTable, "Computer Science", t)
         == Verdict(NotEligible, "Mean Grade " + "D+" + " is below required " + "C+")
  {
    ComputerScienceVerdict(t);
    IndexOfKeyIs(t.subjects, "Mathematics", 0);
    IndexOfKeyIs(t.subjects, "Physics", 1);
    var req := TestTable[0].1;
    var js := [Judged("Mathematics", "C+", "A"), Judged("Physics", "C", "A")];
    MeanBelowText(t, req);
    NoMiss(js, AfterMean(t, req));
    ClosingDegree(req);
  }

  lemma ScenarioSubjectFails(t: Transcript)
    requires t == Transcript(Some("A"), [("Mathematics", "D"), ("Physics", "A")])
    ensures Evaluate(TestTable, "Computer Science", t)
         == Verdict(NotEligible, "Subject " + "Mathematics" + " grade " + "D" + " does not meet " + "C+")
  {
    ComputerScienceVerdict(t);
    IndexOfKeyIs(t.subjects, "Mathematics", 0);
    IndexOfKeyIs(t.subjects, "Physics", 1);
    var req := TestTable[0].1;
    var js := [Judged("Mathematics", "C+", "D"), Judged("Physics", "C", "A")];
    MeanAboveCPlus(t, req);
    DoesNotMeetText(js[0]);
    PassesPhysics(js[1]);
    OneFarMiss(js);
    ClosingDegree(req);
  }

  lemma ScenarioAspirational(t: Transcript)
    requires t == Transcript(Some("B"), [("Mathematics", "C"), ("Physics", "C")])
    ensures Evaluate(TestTable, "Computer Science", t)
         == Verdict(Aspirational, "Subject " + "Mathematics" + " grade " + "C" + " is slightly below " + "C+")
  {
    ComputerScienceVerdict(t);
    IndexOfKeyIs(t.subjects, "Mathematics", 0);
    IndexOfKeyIs(t.subjects, "Physics", 1);
    var req := TestTable[0].1;
    var js := [Judged("Mathematics", "C+", "C"), Judged("Physics", "C", "C")];
    MeanAboveCPlus(t, req);
    SlightlyBelowText(js[0]);
    PassesPhysics(js[1]);
    OneNearMiss(js);
    ClosingDegree(req);
  }
}
