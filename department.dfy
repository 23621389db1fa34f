/** The department verdict `recommend` attaches to each field: every programme of the field is
    checked, and when none is ELIGIBLE the requirements table is searched for a Diploma whose
    name shares a word with the department label (the diploma rescue). */
module Department {
  import opened Wrappers
  import opened PyStrings
  import opened Dicts
  import opened Eligibility

  datatype DeptStatus = DeptEligible | DeptDiploma | DeptAspirational | DeptNotEligible | DeptUnknown
  {
    function Label(): string
    {
      match this
      case DeptEligible => "ELIGIBLE"
      case DeptDiploma => "ELIGIBLE (DIPLOMA)"
      case DeptAspirational => "ASPIRATIONAL"
      case DeptNotEligible => "NOT ELIGIBLE"
      case DeptUnknown => "UNKNOWN"
    }

    /** The precedence of the final if/elif chain. */
    function Rank(): nat
    {
      match this
      case DeptEligible => 3
      case DeptDiploma => 2
      case DeptAspirational => 1
      case DeptNotEligible => 0
      case DeptUnknown => 0
    }
  }

  const DiplomaPrefix := "Qualify for Diploma Pathway: "

  /** `any(kw in req_name.lower() for kw in dept.lower().split())` */
  predicate KeywordHit(dept: string, reqName: string)
  {
    exists w :: w in Words(Lower(dept)) && Contains(Lower(reqName), w)
  }

  /** A table row the rescue looks at: a Diploma sharing a word with the department. */
  predicate DiplomaCandidate(row: (string, Requirement), dept: string)
  {
    row.1.level == Some("Diploma") && KeywordHit(dept, row.0)
  }

  /** The status `check_eligibility(program, t)` returns. */
  function StatusOf(table: seq<(string, Requirement)>, program: string, t: Transcript): Status
  {
    Evaluate(table, program, t).status
  }

  /** The status of each programme of the field, in order. */
  function Statuses(table: seq<(string, Requirement)>, programs: seq<string>, t: Transcript): (sts: seq<Status>)
    ensures |sts| == |programs|
  {
    if |programs| == 0 then []
    else Statuses(table, programs[..|programs| - 1], t) + [StatusOf(table, programs[|programs| - 1], t)]
  }

  lemma {:induction false} StatusesAt(table: seq<(string, Requirement)>, programs: seq<string>, t: Transcript, i: nat)
    requires i < |programs|
    ensures Statuses(table, programs, t)[i] == StatusOf(table, programs[i], t)
    decreases |programs|
  {
    var init := programs[..|programs| - 1];
    if i < |init| {
      StatusesAt(table, init, t, i);
      assert init[i] == programs[i];
    }
  }

  /** Some programme of the field gets status `st`. */
  predicate AnyWithStatus(table: seq<(string, Requirement)>, programs: seq<string>, t: Transcript, st: Status)
  {
    st in Statuses(table, programs, t)
  }

  /** `AnyWithStatus` spelled out over the field's programmes. */
  lemma AnyWithStatusIff(table: seq<(string, Requirement)>, programs: seq<string>, t: Transcript, st: Status)
    ensures AnyWithStatus(table, programs, t, st) <==>
      exists i {:trigger StatusOf(table, programs[i], t)} :: 0 <= i < |programs| && StatusOf(table, programs[i], t) == st
  {
    var sts := Statuses(table, programs, t);
    if st in sts {
      var i :| 0 <= i < |sts| && sts[i] == st;
      StatusesAt(table, programs, t, i);
    }
    forall i | 0 <= i < |programs| && StatusOf(table, programs[i], t) == st
      ensures st in sts
    {
      StatusesAt(table, programs, t, i);
    }
  }

  /** A row the rescue keeps. */
  predicate RescueHit(table: seq<(string, Requirement)>, row: (string, Requirement), dept: string, t: Transcript)
  {
    DiplomaCandidate(row, dept) && StatusOf(table, row.0, t) == Eligible
  }

  /** Whether the rescue keeps each row, in order. */
  function Hits(table: seq<(string, Requirement)>, rows: seq<(string, Requirement)>, dept: string, t: Transcript): (hs: seq<bool>)
    ensures |hs| == |rows|
  {
    if |rows| == 0 then []
    else Hits(table, rows[..|rows| - 1], dept, t) + [RescueHit(table, rows[|rows| - 1], dept, t)]
  }

  lemma {:induction false} HitsAt(table: seq<(string, Requirement)>, rows: seq<(string, Requirement)>, dept: string, t: Transcript, i: nat)
    requires i < |rows|
    ensures Hits(table, rows, dept, t)[i] == RescueHit(table, rows[i], dept, t)
    decreases |rows|
  {
    var init := rows[..|rows| - 1];
    if i < |init| {
      HitsAt(table, init, dept, t, i);
      assert init[i] == rows[i];
    }
  }

  /** The names of the rows whose flag is set, in order. */
  function Kept(rows: seq<(string, Requirement)>, hs: seq<bool>): (names: seq<string>)
    requires |hs| == |rows|
    ensures |names| <= |rows|
  {
    if |rows| == 0 then []
    else Kept(rows[..|rows| - 1], hs[..|rows| - 1]) + (if hs[|rows| - 1] then [rows[|rows| - 1].0] else [])
  }

  lemma {:induction false} KeptMembers(rows: seq<(string, Requirement)>, hs: seq<bool>, n: string)
    requires |hs| == |rows|
    ensures n in Kept(rows, hs) <==> exists i :: 0 <= i < |rows| && rows[i].0 == n && hs[i]
    decreases |rows|
  {
    if |rows| > 0 {
      var k := |rows| - 1;
      KeptMembers(rows[..k], hs[..k], n);
      if n in Kept(rows[..k], hs[..k]) {
        var i :| 0 <= i < k && rows[..k][i].0 == n && hs[..k][i];
        assert rows[i].0 == n && hs[i];
      }
      forall i | 0 <= i < |rows| && rows[i].0 == n && hs[i]
        ensures n in Kept(rows, hs)
      {
        if i < k {
          assert rows[..k][i].0 == n && hs[..k][i];
        }
      }
    }
  }

  /** The diploma names the rescue keeps, in the order of `rows`: candidates whose own
      `check_eligibility` (resolved through the whole table) is ELIGIBLE. */
  function Rescued(table: seq<(string, Requirement)>, rows: seq<(string, Requirement)>, dept: string, t: Transcript): (names: seq<string>)
    ensures |names| <= |rows|
  {
    Kept(rows, Hits(table, rows, dept, t))
  }

  /** One more row: its name is appended when the rescue keeps it. */
  lemma RescuedLast(table: seq<(string, Requirement)>, rows: seq<(string, Requirement)>, dept: string, t: Transcript)
    requires |rows| > 0
    ensures Rescued(table, rows, dept, t)
         == Rescued(table, rows[..|rows| - 1], dept, t)
            + (if RescueHit(table, rows[|rows| - 1], dept, t) then [rows[|rows| - 1].0] else [])
  {
    var k := |rows| - 1;
    var hs := Hits(table, rows, dept, t);
    assert hs[..k] == Hits(table, rows[..k], dept, t);
    assert hs[k] == RescueHit(table, rows[k], dept, t);
  }

  /** A name is rescued exactly when some row of that name is a Diploma candidate whose own
      verdict is ELIGIBLE. */
  lemma RescuedMembers(table: seq<(string, Requirement)>, rows: seq<(string, Requirement)>, dept: string, t: Transcript, n: string)
    ensures n in Rescued(table, rows, dept, t) <==>
      exists i :: 0 <= i < |rows| && rows[i].0 == n && RescueHit(table, rows[i], dept, t)
  {
    var hs := Hits(table, rows, dept, t);
    KeptMembers(rows, hs, n);
    if n in Rescued(table, rows, dept, t) {
      var i :| 0 <= i < |rows| && rows[i].0 == n && hs[i];
      HitsAt(table, rows, dept, t, i);
    }
    forall i | 0 <= i < |rows| && rows[i].0 == n && RescueHit(table, rows[i], dept, t)
      ensures n in Rescued(table, rows, dept, t)
    {
      HitsAt(table, rows, dept, t, i);
    }
  }

  /** The department status: UNKNOWN without a transcript; otherwise the first of ELIGIBLE
      (a programme qualifies), ELIGIBLE (DIPLOMA) (a diploma was rescued), ASPIRATIONAL
      (a programme is one point short), NOT ELIGIBLE. */
  function DeptStatusOf(table: seq<(string, Requirement)>, programs: seq<string>, dept: string, kcse: Option<Transcript>): DeptStatus
  {
    match kcse
    case None => DeptUnknown
    case Some(t) =>
      if AnyWithStatus(table, programs, t, Eligible) then DeptEligible
      else if |Rescued(table, table, dept, t)| > 0 then DeptDiploma
      else if AnyWithStatus(table, programs, t, Aspirational) then DeptAspirational
      else DeptNotEligible
  }

  /** `eligibility_map` after the programme loop: each programme's verdict, keyed by name. */
  function ProgramEntries(table: seq<(string, Requirement)>, programs: seq<string>, t: Transcript): seq<(string, Verdict)>
  {
    if |programs| == 0 then []
    else
      var p := programs[|programs| - 1];
      Put(ProgramEntries(table, programs[..|programs| - 1], t), p, Evaluate(table, p, t))
  }

  /** `eligibility_map` after the rescue loop over `rows`, starting from `m`. */
  function RescueEntries(table: seq<(string, Requirement)>, rows: seq<(string, Requirement)>, dept: string, t: Transcript,
                         m: seq<(string, Verdict)>): seq<(string, Verdict)>
  {
    if |rows| == 0 then m
    else
      var prev := RescueEntries(table, rows[..|rows| - 1], dept, t, m);
      var row := rows[|rows| - 1];
      var v := Evaluate(table, row.0, t);
      if DiplomaCandidate(row, dept) && v.status == Eligible then Put(prev, row.0, Verdict(Eligible, DiplomaPrefix + v.reason))
      else prev
  }

  /** The `eligibility` field of a record. */
  function EligibilityMapOf(table: seq<(string, Requirement)>, programs: seq<string>, dept: string, kcse: Option<Transcript>): seq<(string, Verdict)>
  {
    match kcse
    case None => []
    case Some(t) =>
      var m := ProgramEntries(table, programs, t);
      if AnyWithStatus(table, programs, t, Eligible) then m else RescueEntries(table, table, dept, t, m)
  }

  lemma AnyWithStatusSnoc(table: seq<(string, Requirement)>, programs: seq<string>, t: Transcript, i: nat, st: Status)
    requires i < |programs|
    ensures AnyWithStatus(table, programs[..i + 1], t, st) <==>
      AnyWithStatus(table, programs[..i], t, st) || StatusOf(table, programs[i], t) == st
  {
    assert programs[..i + 1][..i] == programs[..i] && programs[..i + 1][i] == programs[i];
  }

  lemma ProgramEntriesSnoc(table: seq<(string, Requirement)>, programs: seq<string>, t: Transcript, i: nat)
    requires i < |programs|
    ensures ProgramEntries(table, programs[..i + 1], t)
         == Put(ProgramEntries(table, programs[..i], t), programs[i], Evaluate(table, programs[i], t))
  {
    assert programs[..i + 1][..i] == programs[..i] && programs[..i + 1][i] == programs[i];
  }

  lemma RescueSnoc(table: seq<(string, Requirement)>, dept: string, t: Transcript, k: nat, m: seq<(string, Verdict)>)
    requires k < |table|
    ensures var hit := DiplomaCandidate(table[k], dept) && StatusOf(table, table[k].0, t) == Eligible;
      && Rescued(table, table[..k + 1], dept, t) == Rescued(table, table[..k], dept, t) + (if hit then [table[k].0] else [])
      && RescueEntries(table, table[..k + 1], dept, t, m)
         == if hit then Put(RescueEntries(table, table[..k], dept, t, m), table[k].0,
                            Verdict(Eligible, DiplomaPrefix + Evaluate(table, table[k].0, t).reason))
            else RescueEntries(table, table[..k], dept, t, m)
  {
    assert table[..k + 1][..k] == table[..k] && table[..k + 1][k] == table[k];
    RescuedLast(table, table[..k + 1], dept, t);
  }

  /** The loop over the field's programmes: every verdict goes into the map, and the two
      flags record whether any programme was ELIGIBLE or ASPIRATIONAL. */
  method CheckPrograms(table: seq<(string, Requirement)>, programs: seq<string>, t: Transcript)
    returns (entries: seq<(string, Verdict)>, hasDegreeEligible: bool, hasAspirational: bool)
    ensures entries == ProgramEntries(table, programs, t)
    ensures hasDegreeEligible <==> AnyWithStatus(table, programs, t, Eligible)
    ensures hasAspirational <==> AnyWithStatus(table, programs, t, Aspirational)
  {
    entries, hasDegreeEligible, hasAspirational := [], false, false;
    var i := 0;
    assert programs[..0] == [];
    while i < |programs|
      invariant 0 <= i <= |programs|
      invariant entries == ProgramEntries(table, programs[..i], t)
      invariant hasDegreeEligible <==> AnyWithStatus(table, programs[..i], t, Eligible)
      invariant hasAspirational <==> AnyWithStatus(table, programs[..i], t, Aspirational)
    {
      var st, reason := CheckEligibility(table, programs[i], t);
      ProgramEntriesSnoc(table, programs, t, i);
      AnyWithStatusSnoc(table, programs, t, i, Eligible);
      AnyWithStatusSnoc(table, programs, t, i, Aspirational);
      entries := Put(entries, programs[i], Verdict(st, reason));
      hasDegreeEligible := hasDegreeEligible || st == Eligible;
      hasAspirational := hasAspirational || st == Aspirational;
      i := i + 1;
    }
    assert programs[..|programs|] == programs;
  }

  /** The diploma search over the whole requirements table, starting from the map `m` the
      programme loop left. */
  method RescueDiplomas(table: seq<(string, Requirement)>, dept: string, t: Transcript, m: seq<(string, Verdict)>)
    returns (entries: seq<(string, Verdict)>, diplomaOptions: seq<string>)
    ensures entries == RescueEntries(table, table, dept, t, m)
    ensures diplomaOptions == Rescued(table, table, dept, t)
  {
    entries, diplomaOptions := m, [];
    var k := 0;
    assert table[..0] == [];
    while k < |table|
      invariant 0 <= k <= |table|
      invariant entries == RescueEntries(table, table[..k], dept, t, m)
      invariant diplomaOptions == Rescued(table, table[..k], dept, t)
    {
      var reqName := table[k].0;
      RescueSnoc(table, dept, t, k, m);
      if table[k].1.level == Some("Diploma") && KeywordHit(dept, reqName) {
        var dStatus, dReason := CheckEligibility(table, reqName, t);
        if dStatus == Eligible {
          entries := Put(entries, reqName, Verdict(Eligible, DiplomaPrefix + dReason));
          diplomaOptions := diplomaOptions + [reqName];
        }
      }
      k := k + 1;
    }
    assert table[..|table|] == table;
  }

  /** The programme loop, the diploma rescue and the closing if/elif chain, as `recommend`
      runs them for one field. */
  method AssessDepartment(table: seq<(string, Requirement)>, programs: seq<string>, dept: string, kcse: Option<Transcript>)
    returns (status: DeptStatus, eligibility: seq<(string, Verdict)>)
    ensures status == DeptStatusOf(table, programs, dept, kcse)
    ensures eligibility == EligibilityMapOf(table, programs, dept, kcse)
  {
    if kcse.None? {
      return DeptUnknown, [];
    }
    var t := kcse.value;
    var hasDegreeEligible, hasAspirational;
    eligibility, hasDegreeEligible, hasAspirational := CheckPrograms(table, programs, t);
    var diplomaOptions: seq<string> := [];
    if !hasDegreeEligible {
      eligibility, diplomaOptions := RescueDiplomas(table, dept, t, eligibility);
    }
    if hasDegreeEligible {
      status := DeptEligible;
    } else if |diplomaOptions| > 0 {
      status := DeptDiploma;
    } else if hasAspirational {
      status := DeptAspirational;
    } else {
      status := DeptNotEligible;
    }
  }
}
