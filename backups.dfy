/** The backup rules of the update script: the name a backup copy gets, and the retention pass
    that groups the backup directory's files by the first two '_'-separated parts of their
    names and deletes all but the newest `keep_last_n` of each group. */
module Backups {
  import opened Wrappers
  import opened PyStrings
  import opened Dicts
  import opened Seqs

  // ---------------------------------------------------------------- names

  /** `f"{filename}_{timestamp}{extension}"` */
  function BackupName(stem: string, timestamp: string, suffix: string): (name: string)
    ensures |name| == |stem| + 1 + |timestamp| + |suffix|
    ensures name[..|stem|] == stem && name[|stem|] == '_' && name[|name| - |suffix|..] == suffix
  {
    stem + "_" + timestamp + suffix
  }

  /** `f.name.split('_')[0] + '_' + f.name.split('_')[1]`; None where the second index raises
      IndexError (a name without '_'). */
  function GroupKey(name: string): (r: Option<string>)
    ensures r.None? <==> '_' !in name
  {
    var parts := Split(name, "_");
    SplitHasUnderscore(name);
    if |parts| < 2 then None else Some(parts[0] + "_" + parts[1])
  }

  /** A name splits into more than one part exactly when it holds an underscore. */
  lemma SplitHasUnderscore(name: string)
    ensures |Split(name, "_")| >= 2 <==> '_' in name
  {
    if '_' in name {
      var k :| 0 <= k < |name| && name[k] == '_';
      assert name[k..k + 1] == "_";
      assert OccursAt(name, "_", k);
    } else {
      AbsentByChar(name, "_", 0);
    }
  }

  /** Splitting on a character finds the part before its first occurrence first. */
  lemma SplitAfterFree(a: string, c: char, rest: string)
    requires c !in a
    ensures Split(a + [c] + rest, [c]) == [a] + Split(rest, [c])
  {
    var s := a + [c] + rest;
    IndexOfAfterFree(a, c, rest);
    assert s[..|a|] == a;
    assert s[|a| + 1..] == rest;
  }

  /** A name that starts with two underscore-free parts is grouped under those two parts,
      whatever follows. */
  lemma GroupKeyOfParts(a: string, b: string, rest: string)
    requires '_' !in a && '_' !in b
    ensures GroupKey(a + "_" + b + "_" + rest) == Some(a + "_" + b)
  {
    SplitAfterFree(b, '_', rest);
    assert a + "_" + b + "_" + rest == a + "_" + (b + "_" + rest);
    SplitAfterFree(a, '_', b + "_" + rest);
  }

  /** A backup of a file whose stem starts with two underscore-free parts (followed by nothing
      or by another '_'-led part) is grouped under those two parts. */
  lemma BackupKey(a: string, b: string, more: string, timestamp: string, suffix: string)
    requires '_' !in a && '_' !in b && (more == "" || more[0] == '_')
    ensures GroupKey(BackupName(a + "_" + b + more, timestamp, suffix)) == Some(a + "_" + b)
  {
    var name := BackupName(a + "_" + b + more, timestamp, suffix);
    if more == "" {
      assert name == a + "_" + b + "_" + (timestamp + suffix);
      GroupKeyOfParts(a, b, timestamp + suffix);
    } else {
      assert more == "_" + more[1..];
      assert name == a + "_" + b + "_" + (more[1..] + "_" + timestamp + suffix);
      GroupKeyOfParts(a, b, more[1..] + "_" + timestamp + suffix);
    }
  }

  /** The CSV and JSON backups of the job listing fall into one group, so the retention keeps
      ten of the two together rather than ten of each. */
  lemma JobListingsShareGroup(stem: string, ts: string, ts2: string)
    requires stem == "myjobmag_jobs"
    ensures GroupKey(BackupName(stem, ts, ".csv")) == Some(stem)
    ensures GroupKey(BackupName(stem, ts2, ".json")) == Some(stem)
  {
    assert stem == "myjobmag" + "_" + "jobs" + "";
    assert "myjobmag" + "_" + "jobs" == stem;
    BackupKey("myjobmag", "jobs", "", ts, ".csv");
    BackupKey("myjobmag", "jobs", "", ts2, ".json");
  }

  /** The metrics backups are grouped under "job_demand". */
  lemma MetricsGroup(stem: string, timestamp: string)
    requires stem == "job_demand_metrics"
    ensures GroupKey(BackupName(stem, timestamp, ".csv")) == Some("job_demand")
  {
    assert stem == "job" + "_" + "demand" + "_metrics";
    assert "job" + "_" + "demand" == "job_demand";
    BackupKey("job", "demand", "_metrics", timestamp, ".csv");
  }

  // ---------------------------------------------------------------- retention

  /** A file of the backup directory with its modification time. */
  datatype BackupFile = BackupFile(name: string, mtime: real)

  function MTime(f: BackupFile): real
  {
    f.mtime
  }

  /** Every name has a group key (otherwise the grouping raises). */
  predicate Keyed(files: seq<BackupFile>)
  {
    forall i :: 0 <= i < |files| ==> '_' in files[i].name
  }

  /** The `grouped` dictionary after the grouping loop: each key maps to its files in the
      order met. */
  function GroupFiles(files: seq<BackupFile>): (g: seq<(string, seq<BackupFile>)>)
    requires Keyed(files)
  {
    if |files| == 0 then []
    else
      var f := files[|files| - 1];
      var g := GroupFiles(files[..|files| - 1]);
      var k := GroupKey(f.name).value;
      Put(g, k, GetOr(g, k, []) + [f])
  }

  /** The files whose key is `k`, in order. */
  function WithKey(files: seq<BackupFile>, k: string): (r: seq<BackupFile>)
    ensures |r| <= |files|
  {
    if |files| == 0 then []
    else WithKey(files[..|files| - 1], k) + (if GroupKey(files[|files| - 1].name) == Some(k) then [files[|files| - 1]] else [])
  }

  /** `files[n:]` */
  function Tail(files: seq<BackupFile>, n: nat): (r: seq<BackupFile>)
    ensures |r| == if |files| > n then |files| - n else 0
  {
    if n <= |files| then files[n..] else []
  }

  function Names(files: seq<BackupFile>): (ns: seq<string>)
    ensures |ns| == |files|
    ensures forall i :: 0 <= i < |files| ==> ns[i] == files[i].name
  {
    seq(|files|, i requires 0 <= i < |files| => files[i].name)
  }

  /** The files the deletion loop removes, group by group. */
  function Excess(groups: seq<(string, seq<BackupFile>)>, n: nat): seq<string>
  {
    if |groups| == 0 then []
    else Excess(groups[..|groups| - 1], n) + Names(Tail(groups[|groups| - 1].1, n))
  }

  /** Sum over groups of max(0, |group| - n). */
  function Surplus(groups: seq<(string, seq<BackupFile>)>, n: nat): nat
  {
    if |groups| == 0 then 0
    else
      var fs := groups[|groups| - 1].1;
      Surplus(groups[..|groups| - 1], n) + (if |fs| > n then |fs| - n else 0)
  }

  /** `cleanup_old_backups`: nothing when the directory is missing; otherwise the files sorted
      newest first, grouped, and all but the first `keepLastN` of each group deleted. Returns
      the deleted names and the `deleted` counter, or the IndexError of a name without '_'
      (raised before anything is deleted). */
  method CleanupOldBackups(dirExists: bool, found: seq<BackupFile>, keepLastN: nat)
    returns (r: Result<(seq<string>, nat), string>)
    ensures !dirExists ==> r == Ok(([], 0))
    ensures dirExists ==> (r.Err? <==> !Keyed(found))
    ensures dirExists && r.Ok? ==>
      && Keyed(SortDesc(found, MTime))
      && r.value == (Excess(GroupFiles(SortDesc(found, MTime)), keepLastN),
                     Surplus(GroupFiles(SortDesc(found, MTime)), keepLastN))
  {
    if !dirExists {
      return Ok(([], 0));
    }
    var backupFiles := SortDesc(found, MTime);
    KeyedPerm(found, backupFiles);
    var grouped := GroupByKey(backupFiles);
    if grouped.None? {
      return Err("IndexError: list index out of range");
    }
    var deletedNames, deleted := DeleteStale(grouped.value, keepLastN);
    return Ok((deletedNames, deleted));
  }

  /** The grouping loop: each file appended to the list of its key, a missing list started
      empty; None at the first name without '_'. */
  method GroupByKey(files: seq<BackupFile>) returns (r: Option<seq<(string, seq<BackupFile>)>>)
    ensures r.None? <==> !Keyed(files)
    ensures r.Some? ==> Keyed(files) && r.value == GroupFiles(files)
  {
    var grouped: seq<(string, seq<BackupFile>)> := [];
    var i := 0;
    while i < |files|
      invariant 0 <= i <= |files|
      invariant Keyed(files[..i])
      invariant grouped == GroupFiles(files[..i])
    {
      var f := files[i];
      var base := GroupKey(f.name);
      if base.None? {
        return None;
      }
      assert files[..i + 1][..i] == files[..i];
      grouped := Put(grouped, base.value, GetOr(grouped, base.value, []) + [f]);
      i := i + 1;
    }
    assert files[..i] == files;
    return Some(grouped);
  }

  /** The deletion loop: every file of a group past the first `keepLastN` is unlinked and
      counted. */
  method DeleteStale(grouped: seq<(string, seq<BackupFile>)>, keepLastN: nat)
    returns (deletedNames: seq<string>, deleted: nat)
    ensures deletedNames == Excess(grouped, keepLastN)
    ensures deleted == Surplus(grouped, keepLastN)
  {
    deletedNames := [];
    deleted := 0;
    var j := 0;
    while j < |grouped|
      invariant 0 <= j <= |grouped|
      invariant deletedNames == Excess(grouped[..j], keepLastN)
      invariant deleted == Surplus(grouped[..j], keepLastN)
    {
      var files := grouped[j].1;
      var stale := Tail(files, keepLastN);
      var m := 0;
      while m < |stale|
        invariant 0 <= m <= |stale|
        invariant deletedNames == Excess(grouped[..j], keepLastN) + Names(stale[..m])
        invariant deleted == Surplus(grouped[..j], keepLastN) + m
      {
        assert Names(stale[..m + 1]) == Names(stale[..m]) + [stale[m].name];
        deletedNames := deletedNames + [stale[m].name];
        deleted := deleted + 1;
        m := m + 1;
      }
      assert stale[..m] == stale;
      assert grouped[..j + 1][..j] == grouped[..j];
      j := j + 1;
    }
    assert grouped[..j] == grouped;
  }

  /** Sorting does not change whether every name has a key. */
  lemma KeyedPerm(a: seq<BackupFile>, b: seq<BackupFile>)
    requires multiset(a) == multiset(b)
    ensures Keyed(a) <==> Keyed(b)
  {
    if !Keyed(a) {
      var i :| 0 <= i < |a| && '_' !in a[i].name;
      assert a[i] in multiset(b);
      var j :| 0 <= j < |b| && b[j] == a[i];
    }
    if !Keyed(b) {
      var j :| 0 <= j < |b| && '_' !in b[j].name;
      assert b[j] in multiset(a);
      var i :| 0 <= i < |a| && a[i] == b[j];
    }
  }

  // ---------------------------------------------------------------- what retention promises

  /** Each group of the dictionary lists exactly the files with its key, in sorted order; a key
      is present exactly when some file has it. */
  lemma {:induction false} GroupFilesGet(files: seq<BackupFile>, k: string)
    requires Keyed(files)
    ensures GetOr(GroupFiles(files), k, []) == WithKey(files, k)
    ensures HasKey(GroupFiles(files), k) <==> |WithKey(files, k)| > 0
    decreases |files|
  {
    if |files| > 0 {
      var init := files[..|files| - 1];
      var f := files[|files| - 1];
      var g := GroupFiles(init);
      var fk := GroupKey(f.name).value;
      GroupFilesGet(init, k);
      GetPut(g, fk, GetOr(g, fk, []) + [f], k);
      if fk != k {
        GroupFilesGet(init, fk);
      }
    }
  }

  /** The deleted count is the number of names deleted. */
  lemma {:induction false} SurplusCountsExcess(groups: seq<(string, seq<BackupFile>)>, n: nat)
    ensures |Excess(groups, n)| == Surplus(groups, n)
    decreases |groups|
  {
    if |groups| > 0 {
      SurplusCountsExcess(groups[..|groups| - 1], n);
    }
  }

  /** A name is deleted exactly when it belongs to a group at a position past the first `n`. */
  lemma {:induction false} ExcessMember(groups: seq<(string, seq<BackupFile>)>, n: nat, x: string)
    ensures x in Excess(groups, n) <==>
      exists i, j :: 0 <= i < |groups| && n <= j < |groups[i].1| && groups[i].1[j].name == x
    decreases |groups|
  {
    if |groups| > 0 {
      var init := groups[..|groups| - 1];
      var last := groups[|groups| - 1].1;
      ExcessMember(init, n, x);
      var tail := Names(Tail(last, n));
      if x in tail {
        var m :| 0 <= m < |tail| && tail[m] == x;
        assert last[n + m].name == x;
      }
      if exists i, j :: 0 <= i < |groups| && n <= j < |groups[i].1| && groups[i].1[j].name == x {
        var i, j :| 0 <= i < |groups| && n <= j < |groups[i].1| && groups[i].1[j].name == x;
        if i == |groups| - 1 {
          assert tail[j - n] == x;
        } else {
          assert init[i] == groups[i];
        }
      }
    }
  }

  /** The dictionary never holds a key twice. */
  lemma {:induction false} GroupFilesDistinct(files: seq<BackupFile>)
    requires Keyed(files)
    ensures DistinctKeys(GroupFiles(files))
    decreases |files|
  {
    if |files| > 0 {
      var init := files[..|files| - 1];
      GroupFilesDistinct(init);
      var g := GroupFiles(init);
      var k := GroupKey(files[|files| - 1].name).value;
      PutDistinct(g, k, GetOr(g, k, []) + [files[|files| - 1]]);
    }
  }

  /** The retention keeps the newest `n` of every group: a name is deleted exactly when it is
      held by a file at position `n` or later among the (sorted) files of its key. */
  lemma DeletedIffPastNewest(files: seq<BackupFile>, n: nat, x: string)
    requires Keyed(files)
    ensures x in Excess(GroupFiles(files), n) <==>
      exists k, j :: n <= j < |WithKey(files, k)| && WithKey(files, k)[j].name == x
  {
    var groups := GroupFiles(files);
    ExcessMember(groups, n, x);
    GroupFilesDistinct(files);
    if x in Excess(groups, n) {
      var i, j :| 0 <= i < |groups| && n <= j < |groups[i].1| && groups[i].1[j].name == x;
      var k := groups[i].0;
      IndexOfKeyIs(groups, k, i);
      GroupFilesGet(files, k);
      assert WithKey(files, k)[j].name == x;
    }
    if exists k, j :: n <= j < |WithKey(files, k)| && WithKey(files, k)[j].name == x {
      var k, j :| n <= j < |WithKey(files, k)| && WithKey(files, k)[j].name == x;
      GroupFilesGet(files, k);
      var i := IndexOfKey(groups, k).value;
      assert groups[i].1[j].name == x;
    }
  }

  /** Groups of at most `n` files lose nothing: with fewer backups than the limit, nothing is
      deleted. */
  lemma {:induction false} SmallGroupsKept(groups: seq<(string, seq<BackupFile>)>, n: nat)
    requires forall i :: 0 <= i < |groups| ==> |groups[i].1| <= n
    ensures Excess(groups, n) == [] && Surplus(groups, n) == 0
    decreases |groups|
  {
    if |groups| > 0 {
      SmallGroupsKept(groups[..|groups| - 1], n);
    }
  }
}
