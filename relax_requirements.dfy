/** The relaxation pass over the requirements table: every programme whose name carries none of
    the strict keywords and whose minimum mean grade is B- is lowered to C+, in place, and the
    number of programmes changed is counted. */
module RelaxRequirements {
  import opened PyStrings
  import opened Seqs
  import opened Cascade
  import opened Eligibility

  /** Programmes kept at their published minimum, matched against the uppercased name. */
  const StrictKeywords: seq<string> := [
    "MEDICINE", "SURGERY", "PHARMACY", "DENTAL", "ENGINEERING",
    "LAW", "ARCHITECT", "VETERINARY", "NURSING", "QUANTITY SURVEYING", "GEOSPATIAL"]

  predicate IsStrict(course: string)
  {
    AnyIn(Upper(course), StrictKeywords)
  }

  /** The entries the pass lowers. */
  predicate Relaxable(entry: (string, Requirement))
  {
    !IsStrict(entry.0) && entry.1.minMeanGrade == "B-"
  }

  /** One entry after the pass. */
  function Relaxed(entry: (string, Requirement)): (e: (string, Requirement))
    ensures e.0 == entry.0 && e.1.requiredSubjects == entry.1.requiredSubjects
    ensures e.1.level == entry.1.level && e.1.note == entry.1.note
    ensures e != entry <==> Relaxable(entry)
    ensures Relaxable(entry) ==> e.1.minMeanGrade == "C+"
    ensures !Relaxable(entry) ==> e == entry
  {
    if Relaxable(entry) then (entry.0, entry.1.(minMeanGrade := "C+")) else entry
  }

  /** The whole table after the pass. */
  function RelaxAll(table: seq<(string, Requirement)>): (r: seq<(string, Requirement)>)
    ensures |r| == |table|
    ensures forall i :: 0 <= i < |table| ==> r[i] == Relaxed(table[i])
  {
    seq(|table|, i requires 0 <= i < |table| => Relaxed(table[i]))
  }

  /** The loop over the table: each entry's minimum is rewritten in place, and `count` is
      incremented once per rewrite. */
  method Relax(data: array<(string, Requirement)>) returns (count: nat)
    modifies data
    ensures data[..] == RelaxAll(old(data[..]))
    ensures count == Count(old(data[..]), Relaxable)
  {
    ghost var before := data[..];
    count := 0;
    var i := 0;
    while i < data.Length
      invariant 0 <= i <= data.Length
      invariant forall j :: 0 <= j < i ==> data[j] == Relaxed(before[j])
      invariant forall j :: i <= j < data.Length ==> data[j] == before[j]
      invariant count == Count(before[..i], Relaxable)
    {
      var (course, req) := data[i];
      var isStrict := AnyIn(Upper(course), StrictKeywords);
      if !isStrict {
        if req.minMeanGrade == "B-" {
          data[i] := (course, req.(minMeanGrade := "C+"));
          count := count + 1;
        }
      }
      assert before[..i + 1] == before[..i] + [before[i]];
      CountAppend(before[..i], [before[i]], Relaxable);
      i := i + 1;
    }
    assert before[..data.Length] == before;
  }

  // ---------------------------------------------------------------- what the pass promises

  /** A second pass changes nothing. */
  lemma RelaxIdempotent(table: seq<(string, Requirement)>)
    ensures RelaxAll(RelaxAll(table)) == RelaxAll(table)
  {
    var once := RelaxAll(table);
    forall i | 0 <= i < |table|
      ensures RelaxAll(once)[i] == once[i]
    {
      assert !Relaxable(once[i]);
    }
  }

  /** Strict programmes keep their entry as it was. */
  lemma StrictUntouched(table: seq<(string, Requirement)>, i: nat)
    requires i < |table| && IsStrict(table[i].0)
    ensures RelaxAll(table)[i] == table[i]
  {
  }

  /** Number of positions at which two tables of the same length differ. */
  function Changed(a: seq<(string, Requirement)>, b: seq<(string, Requirement)>): (n: nat)
    requires |a| == |b|
    ensures n <= |a|
  {
    if |a| == 0 then 0
    else Changed(a[..|a| - 1], b[..|b| - 1]) + (if a[|a| - 1] != b[|b| - 1] then 1 else 0)
  }

  /** The count the pass reports is the number of entries it changed. */
  lemma {:induction false} CountIsChanged(table: seq<(string, Requirement)>)
    ensures Count(table, Relaxable) == Changed(table, RelaxAll(table))
    decreases |table|
  {
    if |table| > 0 {
      var init := table[..|table| - 1];
      CountIsChanged(init);
      assert RelaxAll(table)[..|table| - 1] == RelaxAll(init);
    }
  }
}
