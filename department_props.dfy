/** What the department verdict and its eligibility map promise. */
module DepartmentProps {
  import opened Wrappers
  import opened PyStrings
  import opened Dicts
  import opened Eligibility
  import opened EligibilityProps
  import opened Department

  // ---------------------------------------------------------------- the status

  /** The if/elif chain read as conditions: ELIGIBLE exactly when a programme is ELIGIBLE;
      ELIGIBLE (DIPLOMA) exactly when none is and some Diploma row sharing a word with the
      department checks out ELIGIBLE; ASPIRATIONAL exactly when neither and some programme is
      ASPIRATIONAL. */
  lemma DeptStatusCases(table: seq<(string, Requirement)>, programs: seq<string>, dept: string, t: Transcript)
    ensures var s := DeptStatusOf(table, programs, dept, Some(t));
      && (s == DeptEligible <==> exists i :: 0 <= i < |programs| && StatusOf(table, programs[i], t) == Eligible)
      && (s == DeptDiploma <==>
            (forall i :: 0 <= i < |programs| ==> StatusOf(table, programs[i], t) != Eligible)
            && exists k :: 0 <= k < |table| && RescueHit(table, table[k], dept, t))
      && (s == DeptAspirational <==>
            (forall i :: 0 <= i < |programs| ==> StatusOf(table, programs[i], t) != Eligible)
            && (forall k :: 0 <= k < |table| ==> !RescueHit(table, table[k], dept, t))
            && exists i :: 0 <= i < |programs| && StatusOf(table, programs[i], t) == Aspirational)
      && s != DeptUnknown
  {
    AnyWithStatusIff(table, programs, t, Eligible);
    AnyWithStatusIff(table, programs, t, Aspirational);
    var r := Rescued(table, table, dept, t);
    if |r| > 0 {
      RescuedMembers(table, table, dept, t, r[0]);
    } else {
      forall k | 0 <= k < |table|
        ensures !RescueHit(table, table[k], dept, t)
      {
        RescuedMembers(table, table, dept, t, table[k].0);
      }
    }
  }

  /** Without a transcript nothing is checked. */
  lemma NoTranscriptUnknown(table: seq<(string, Requirement)>, programs: seq<string>, dept: string)
    ensures DeptStatusOf(table, programs, dept, None) == DeptUnknown
    ensures EligibilityMapOf(table, programs, dept, None) == []
  {
  }

  /** With a transcript, a field with no programmes and no rescued diploma is NOT ELIGIBLE,
      never UNKNOWN. */
  lemma NoProgramsNotEligible(table: seq<(string, Requirement)>, dept: string, t: Transcript)
    requires forall k :: 0 <= k < |table| ==> !RescueHit(table, table[k], dept, t)
    ensures DeptStatusOf(table, [], dept, Some(t)) == DeptNotEligible
  {
    DeptStatusCases(table, [], dept, t);
  }

  /** A programme that qualifies keeps qualifying with better grades. */
  lemma ProgramStaysEligible(table: seq<(string, Requirement)>, programs: seq<string>, dept: string, t: Transcript, better: Transcript, i: nat)
    requires Raised(t, better) && i < |programs| && StatusOf(table, programs[i], t) == Eligible
    ensures DeptStatusOf(table, programs, dept, Some(better)) == DeptEligible
  {
    EvaluateMonotone(table, programs[i], t, better);
    assert StatusOf(table, programs[i], better) == Eligible;
    AnyWithStatusIff(table, programs, better, Eligible);
  }

  /** A rescued diploma stays rescued with better grades, unless a programme now qualifies. */
  lemma DiplomaStaysRescued(table: seq<(string, Requirement)>, programs: seq<string>, dept: string, t: Transcript, better: Transcript, k: nat)
    requires Raised(t, better) && k < |table| && RescueHit(table, table[k], dept, t)
    ensures DeptStatusOf(table, programs, dept, Some(better)).Rank() >= 2
  {
    EvaluateMonotone(table, table[k].0, t, better);
    assert RescueHit(table, table[k], dept, better);
    RescuedMembers(table, table, dept, better, table[k].0);
  }

  /** A programme one point short is ASPIRATIONAL or better with better grades. */
  lemma ProgramStaysAspirational(table: seq<(string, Requirement)>, programs: seq<string>, dept: string, t: Transcript, better: Transcript, i: nat)
    requires Raised(t, better) && i < |programs| && StatusOf(table, programs[i], t) == Aspirational
    ensures DeptStatusOf(table, programs, dept, Some(better)).Rank() >= 1
  {
    EvaluateMonotone(table, programs[i], t, better);
    var st := StatusOf(table, programs[i], better);
    assert st == Eligible || st == Aspirational;
    AnyWithStatusIff(table, programs, better, st);
  }

  /** Better grades never lower the department status. */
  lemma DeptStatusMonotone(table: seq<(string, Requirement)>, programs: seq<string>, dept: string, t: Transcript, better: Transcript)
    requires Raised(t, better)
    ensures DeptStatusOf(table, programs, dept, Some(better)).Rank() >= DeptStatusOf(table, programs, dept, Some(t)).Rank()
  {
    DeptStatusCases(table, programs, dept, t);
    var s := DeptStatusOf(table, programs, dept, Some(t));
    if s == DeptEligible {
      var i :| 0 <= i < |programs| && StatusOf(table, programs[i], t) == Eligible;
      ProgramStaysEligible(table, programs, dept, t, better, i);
    } else if s == DeptDiploma {
      var k :| 0 <= k < |table| && RescueHit(table, table[k], dept, t);
      DiplomaStaysRescued(table, programs, dept, t, better, k);
    } else if s == DeptAspirational {
      var i :| 0 <= i < |programs| && StatusOf(table, programs[i], t) == Aspirational;
      ProgramStaysAspirational(table, programs, dept, t, better, i);
    }
  }

  // ---------------------------------------------------------------- the eligibility map

  /** After the programme loop the map holds each programme's own verdict and nothing else. */
  lemma {:induction false} ProgramEntriesGet(table: seq<(string, Requirement)>, programs: seq<string>, t: Transcript, q: string)
    ensures Get(ProgramEntries(table, programs, t), q) == if q in programs then Some(Evaluate(table, q, t)) else None
    decreases |programs|
  {
    if |programs| > 0 {
      var init := programs[..|programs| - 1];
      var p := programs[|programs| - 1];
      ProgramEntriesGet(table, init, t, q);
      GetPut(ProgramEntries(table, init, t), p, Evaluate(table, p, t), q);
      assert programs == init + [p];
    }
  }

  /** The rescue overwrites exactly the rescued names, each with an ELIGIBLE verdict whose
      reason is the diploma's own reason behind the pathway prefix. */
  lemma {:induction false} RescueEntriesGet(table: seq<(string, Requirement)>, rows: seq<(string, Requirement)>, dept: string,
                                             t: Transcript, m: seq<(string, Verdict)>, q: string)
    ensures Get(RescueEntries(table, rows, dept, t, m), q)
         == if q in Rescued(table, rows, dept, t) then Some(Verdict(Eligible, DiplomaPrefix + Evaluate(table, q, t).reason))
            else Get(m, q)
    decreases |rows|
  {
    if |rows| > 0 {
      var init := rows[..|rows| - 1];
      var row := rows[|rows| - 1];
      RescueEntriesGet(table, init, dept, t, m, q);
      RescuedLast(table, rows, dept, t);
      var prev := RescueEntries(table, init, dept, t, m);
      if RescueHit(table, row, dept, t) {
        GetPut(prev, row.0, Verdict(Eligible, DiplomaPrefix + Evaluate(table, row.0, t).reason), q);
      }
    }
  }

  /** The `eligibility` field: a rescued diploma reads ELIGIBLE with the pathway prefix;
      any other programme of the field keeps its own verdict; nothing else is present. */
  lemma EligibilityMapGet(table: seq<(string, Requirement)>, programs: seq<string>, dept: string, t: Transcript, q: string)
    ensures var m := EligibilityMapOf(table, programs, dept, Some(t));
      var rescued := DeptStatusOf(table, programs, dept, Some(t)) != DeptEligible && q in Rescued(table, table, dept, t);
      Get(m, q) == if rescued then Some(Verdict(Eligible, DiplomaPrefix + Evaluate(table, q, t).reason))
                   else if q in programs then Some(Evaluate(table, q, t))
                   else None
  {
    ProgramEntriesGet(table, programs, t, q);
    if !AnyWithStatus(table, programs, t, Eligible) {
      RescueEntriesGet(table, table, dept, t, ProgramEntries(table, programs, t), q);
    }
  }

  // ---------------------------------------------------------------- the keyword match

  /** The department label is split on whitespace, so the "&" of a label such as
      "Arts & Media" is a keyword of its own: every Diploma whose name holds an "&" is looked
      at, whatever else the name says. */
  lemma AmpersandIsKeyword(dept: string, reqName: string)
    requires dept == "Arts & Media" && Contains(Lower(reqName), "&")
    ensures KeywordHit(dept, reqName)
  {
    ArtsWords(dept, reqName, "arts", "&", "media");
  }

  lemma ArtsWords(dept: string, reqName: string, a: string, b: string, c: string)
    requires dept == "Arts & Media" && a == "arts" && b == "&" && c == "media"
    requires Contains(Lower(reqName), b)
    ensures Words(Lower(dept)) == [a, b, c] && KeywordHit(dept, reqName)
  {
    assert Lower(dept) == a + " " + (b + " " + c);
    WordsOf3(a, b, c);
    assert Words(Lower(dept))[1] == b;
  }

  /** The rescue re-resolves the diploma's name through the substring lookup, so a Degree entry
      whose name is part of the diploma's name answers for it: with "Engineering" (mean B-)
      listed before "Diploma in Engineering" (mean C-), a student with mean C, who meets the
      diploma's own minimum, is not rescued and a field with no qualifying programme stays
      NOT ELIGIBLE. */
  lemma EarlierKeyShadowsDiploma(table: seq<(string, Requirement)>, key: string, degree: Requirement,
                                  name: string, diploma: Requirement, dept: string, t: Transcript)
    requires key == "Engineering" && degree == Requirement("B-", [], Some("Degree"), None)
    requires name == "Diploma in Engineering" && diploma == Requirement("C-", [], Some("Diploma"), None)
    requires table == [(key, degree), (name, diploma)] && dept == key && t == Transcript(Some("C"), [])
    ensures DiplomaCandidate(table[1], dept) && MeanPasses(t, diploma) && diploma.requiredSubjects == []
    ensures MatchIndex(table, name) == Some(0)
    ensures DeptStatusOf(table, [], dept, Some(t)) == DeptNotEligible
  {
    MeanCBetween(t, diploma, degree);
    KeyInsideName(key, name, dept);
    assert StatusOf(table, name, t) == NotEligible;
    forall k | 0 <= k < |table|
      ensures !RescueHit(table, table[k], dept, t)
    {
    }
    NoProgramsNotEligible(table, dept, t);
  }

  lemma MeanCBetween(t: Transcript, low: Requirement, high: Requirement)
    requires MeanGrade(t) == "C" && low.minMeanGrade == "C-" && high.minMeanGrade == "B-"
    ensures MeanPasses(t, low) && !MeanPasses(t, high)
  {
  }

  lemma KeyInsideName(key: string, name: string, dept: string)
    requires key == "Engineering" && name == "Diploma in Engineering" && dept == key
    ensures NameMatches(key, name) && KeywordHit(dept, name)
  {
    LowerEngineering(key, name, Lower(key), Lower(name));
    WordsOf1(Lower(key));
  }

  lemma LowerEngineering(key: string, name: string, lowKey: string, lowName: string)
    requires key == "Engineering" && name == "Diploma in Engineering"
    requires lowKey == Lower(key) && lowName == Lower(name)
    ensures OccursAt(lowName, lowKey, 11) && IsWord(lowKey)
  {
    assert lowName == "diploma in engineering";
    assert lowKey == "engineering";
    assert lowName[11..22] == lowKey;
  }
}
