/** `compute_demand_metrics`: the number of scraped jobs per department and that number divided
    by the largest one, the department's demand score. */
module DemandMetrics {
  import opened Wrappers
  import opened Seqs

  /** A row of the metrics table. */
  datatype Metric = Metric(department: string, jobCount: nat, demandScore: real)

  /** The departments of the `Department` column that are present, in row order (`groupby`
      leaves out rows whose key is missing). */
  function Present(column: seq<Option<string>>): (ds: seq<string>)
    ensures |ds| <= |column|
  {
    if |column| == 0 then []
    else
      var last := column[|column| - 1];
      Present(column[..|column| - 1]) + (if last.Some? then [last.value] else [])
  }

  /** The groups of `groupby('Department')`, each once. */
  function Groups(column: seq<Option<string>>): seq<string>
  {
    Unique(Present(column))
  }

  /** Whether a cell holds department `d`. */
  function IsDepartment(d: string): Option<string> -> bool
  {
    c => c == Some(d)
  }

  /** `.size()` of the group of `d`: the rows whose Department is `d`. */
  function JobCount(column: seq<Option<string>>, d: string): nat
  {
    Count(column, IsDepartment(d))
  }

  /** The largest of some counts; 0 for none. */
  function MaxOf(ns: seq<nat>): (m: nat)
    ensures forall i :: 0 <= i < |ns| ==> ns[i] <= m
    ensures |ns| > 0 ==> exists i :: 0 <= i < |ns| && ns[i] == m
    ensures |ns| == 0 ==> m == 0
  {
    if |ns| == 0 then 0
    else
      var m := MaxOf(ns[..|ns| - 1]);
      assert forall i :: 0 <= i < |ns| - 1 ==> ns[..|ns| - 1][i] == ns[i];
      if ns[|ns| - 1] > m then ns[|ns| - 1] else m
  }

  /** The `job_count` column. */
  function Counts(column: seq<Option<string>>): (cs: seq<nat>)
    ensures |cs| == |Groups(column)|
    ensures forall i :: 0 <= i < |cs| ==> cs[i] == JobCount(column, Groups(column)[i])
  {
    var groups := Groups(column);
    seq(|groups|, i requires 0 <= i < |groups| => JobCount(column, groups[i]))
  }

  /** `job_count / job_count.max()` for one department: in (0, 1], and 1 exactly at the
      largest count. */
  function Score(c: nat, top: nat): (score: real)
    requires 0 < c <= top
    ensures 0.0 < score <= 1.0
    ensures score == 1.0 <==> c == top
  {
    RatioBounds(c, top);
    c as real / top as real
  }

  /** The metrics rows for some groups and their positive counts: each count over the largest. */
  function Rows(groups: seq<string>, counts: seq<nat>, top: nat): (rows: seq<Metric>)
    requires |counts| == |groups|
    requires forall i :: 0 <= i < |counts| ==> 0 < counts[i] <= top
    ensures |rows| == |groups|
    ensures forall i :: 0 <= i < |rows| ==> rows[i] == Metric(groups[i], counts[i], Score(counts[i], top))
  {
    seq(|groups|, i requires 0 <= i < |groups| => Metric(groups[i], counts[i], Score(counts[i], top)))
  }

  /** `compute_demand_metrics(jobs_csv_path)` over the `Department` column of the file: a
      missing file is an error; otherwise one row per department, its count, and its count over
      the largest count. */
  function ComputeDemandMetrics(pathExists: bool, path: string, column: seq<Option<string>>)
    : (r: Result<seq<Metric>, string>)
    ensures r.Err? <==> !pathExists
    ensures r.Ok? ==> |r.value| == |Groups(column)|
    ensures r.Ok? ==> forall i :: 0 <= i < |r.value| ==> r.value[i].jobCount > 0
    ensures r.Ok? ==> forall i :: 0 <= i < |r.value| ==> 0.0 < r.value[i].demandScore <= 1.0
    ensures r.Ok? ==> forall i, j :: 0 <= i < j < |r.value| ==> r.value[i].department != r.value[j].department
  {
    if !pathExists then Err("Jobs CSV not found: " + path)
    else
      var counts := Counts(column);
      GroupsCounted(column);
      Ok(Rows(Groups(column), counts, MaxOf(counts)))
  }

  /** Every group has at least one row. */
  lemma GroupsCounted(column: seq<Option<string>>)
    ensures forall i :: 0 <= i < |Groups(column)| ==> JobCount(column, Groups(column)[i]) > 0
  {
    forall i | 0 <= i < |Groups(column)|
      ensures JobCount(column, Groups(column)[i]) > 0
    {
      var d := Groups(column)[i];
      PresentMembers(column, d);
      var k :| 0 <= k < |column| && column[k] == Some(d);
      CountPositive(column, IsDepartment(d), k);
    }
  }

  lemma {:induction false} CountPositive<T>(s: seq<T>, p: T -> bool, k: nat)
    requires k < |s| && p(s[k])
    ensures Count(s, p) > 0
    decreases |s|
  {
    if k < |s| - 1 {
      CountPositive(s[..|s| - 1], p, k);
    }
  }

  /** A count over a positive maximum it does not exceed lies in (0, 1], and is 1 exactly at
      the maximum. */
  lemma RatioBounds(c: nat, top: nat)
    requires 0 < c <= top
    ensures 0.0 < c as real / top as real <= 1.0
    ensures c as real / top as real == 1.0 <==> c == top
  {
    var q := c as real / top as real;
    assert q * top as real == c as real;
  }

  /** Dividing by the same positive number keeps the order. */
  lemma RatioOrder(a: nat, b: nat, top: nat)
    requires top > 0
    ensures a as real / top as real <= b as real / top as real <==> a <= b
  {
    var p, q := a as real / top as real, b as real / top as real;
    assert p * top as real == a as real;
    assert q * top as real == b as real;
  }

  // ---------------------------------------------------------------- what the metrics promise

  /** A department is present in the Department column exactly when some row holds it. */
  lemma {:induction false} PresentMembers(column: seq<Option<string>>, d: string)
    ensures d in Present(column) <==> exists k :: 0 <= k < |column| && column[k] == Some(d)
    decreases |column|
  {
    if |column| > 0 {
      var init := column[..|column| - 1];
      PresentMembers(init, d);
      if exists k :: 0 <= k < |init| && init[k] == Some(d) {
        var k :| 0 <= k < |init| && init[k] == Some(d);
        assert column[k] == Some(d);
      }
      if k :| 0 <= k < |column| && column[k] == Some(d) {
        if k < |init| {
          assert init[k] == Some(d);
        }
      }
    }
  }

  /** The table has a row for a department exactly when some job is filed under it, and that
      row counts the jobs filed under it. */
  lemma RowPerDepartment(pathExists: bool, path: string, column: seq<Option<string>>, d: string)
    requires pathExists
    ensures var rows := ComputeDemandMetrics(pathExists, path, column).value;
      && ((exists i :: 0 <= i < |rows| && rows[i].department == d) <==> Some(d) in column)
      && forall i :: 0 <= i < |rows| && rows[i].department == d ==> rows[i].jobCount == Count(column, IsDepartment(d))
  {
    var rows := ComputeDemandMetrics(pathExists, path, column).value;
    var groups := Groups(column);
    PresentMembers(column, d);
    if i :| 0 <= i < |rows| && rows[i].department == d {
      assert groups[i] == d;
      assert d in Present(column);
    }
    if Some(d) in column {
      var k :| 0 <= k < |column| && column[k] == Some(d);
      assert d in groups;
      var i :| 0 <= i < |groups| && groups[i] == d;
      assert rows[i].department == d;
    }
  }

  /** The score is 1 exactly for the departments with the largest count, and there is one as
      soon as any job is filed. */
  lemma TopScoresOne(pathExists: bool, path: string, column: seq<Option<string>>)
    requires pathExists
    ensures var rows := ComputeDemandMetrics(pathExists, path, column).value;
      && (forall i :: 0 <= i < |rows| ==>
           (rows[i].demandScore == 1.0 <==> forall j :: 0 <= j < |rows| ==> rows[j].jobCount <= rows[i].jobCount))
      && (|rows| > 0 ==> exists i :: 0 <= i < |rows| && rows[i].demandScore == 1.0)
  {
    GroupsCounted(column);
    TopRows(Groups(column), Counts(column));
  }

  /** In the rows built over the largest count, a row scores 1 exactly when no count exceeds
      its own, and some row does as soon as there is one. */
  lemma TopRows(groups: seq<string>, counts: seq<nat>)
    requires |counts| == |groups|
    requires forall k :: 0 <= k < |counts| ==> 0 < counts[k]
    ensures var rows := Rows(groups, counts, MaxOf(counts));
      && (forall i :: 0 <= i < |rows| ==>
           (rows[i].demandScore == 1.0 <==> forall j :: 0 <= j < |rows| ==> rows[j].jobCount <= rows[i].jobCount))
      && (|rows| > 0 ==> exists i :: 0 <= i < |rows| && rows[i].demandScore == 1.0)
  {
    var top := MaxOf(counts);
    var rows := Rows(groups, counts, top);
    forall i | 0 <= i < |rows|
      ensures rows[i].demandScore == 1.0 <==> forall j :: 0 <= j < |rows| ==> rows[j].jobCount <= rows[i].jobCount
    {
      assert rows[i].demandScore == 1.0 <==> counts[i] == top;
      var k :| 0 <= k < |counts| && counts[k] == top;
      assert rows[k].jobCount == top;
    }
    if |rows| > 0 {
      var k :| 0 <= k < |counts| && counts[k] == top;
      assert rows[k].demandScore == 1.0;
    }
  }

  /** Scores rank departments as their counts do. */
  lemma ScoresFollowCounts(pathExists: bool, path: string, column: seq<Option<string>>, i: nat, j: nat)
    requires pathExists
    requires i < |Groups(column)| && j < |Groups(column)|
    ensures var rows := ComputeDemandMetrics(pathExists, path, column).value;
      rows[i].demandScore <= rows[j].demandScore <==> rows[i].jobCount <= rows[j].jobCount
  {
    var counts := Counts(column);
    GroupsCounted(column);
    RatioOrder(counts[i], counts[j], MaxOf(counts));
  }
}
