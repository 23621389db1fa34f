/** `create_career_skill_map`: for every department of the programmes table, the skills its
    keyword list names and the distinct programmes filed under it. */
module CareerSkillMap {
  import opened Wrappers
  import opened Dicts
  import opened Seqs

  /** A row of the programmes table, as far as the map reads it: the `Depertments` and
      `Programme_Name` columns. */
  datatype Programme = Programme(department: string, name: string)

  /** One value of the map: `{"skills": ..., "programs": ...}`. */
  datatype Career = Career(skills: seq<string>, programs: seq<string>)

  /** The `Depertments` column. */
  function DepartmentColumn(rows: seq<Programme>): (ds: seq<string>)
    ensures |ds| == |rows|
    ensures forall i :: 0 <= i < |rows| ==> ds[i] == rows[i].department
  {
    seq(|rows|, i requires 0 <= i < |rows| => rows[i].department)
  }

  /** `df['Depertments'].unique()`: each department once, in order of first appearance. */
  function Departments(rows: seq<Programme>): seq<string>
  {
    Unique(DepartmentColumn(rows))
  }

  /** `df[df['Depertments'] == dept]['Programme_Name']`: the names of the department's rows, in
      row order. */
  function NamesIn(rows: seq<Programme>, dept: string): (ns: seq<string>)
    ensures |ns| <= |rows|
  {
    if |rows| == 0 then []
    else
      var last := rows[|rows| - 1];
      NamesIn(rows[..|rows| - 1], dept) + (if last.department == dept then [last.name] else [])
  }

  /** `.unique().tolist()` of those names. */
  function Programs(rows: seq<Programme>, dept: string): seq<string>
  {
    Unique(NamesIn(rows, dept))
  }

  /** `department_keywords.get(dept, [])` */
  function Skills(keywords: seq<(string, seq<string>)>, dept: string): seq<string>
  {
    GetOr(keywords, dept, [])
  }

  /** The value stored for a department. */
  function CareerOf(rows: seq<Programme>, keywords: seq<(string, seq<string>)>, dept: string): Career
  {
    Career(Skills(keywords, dept), Programs(rows, dept))
  }

  /** The entries for the first `n` departments, in the order the loop writes them. */
  function EntriesUpTo(rows: seq<Programme>, keywords: seq<(string, seq<string>)>, n: nat): seq<(string, Career)>
    requires n <= |Departments(rows)|
  {
    var depts := Departments(rows);
    seq(n, j requires 0 <= j < n => (depts[j], CareerOf(rows, keywords, depts[j])))
  }

  /** The whole map. */
  function CareerMap(rows: seq<Programme>, keywords: seq<(string, seq<string>)>): seq<(string, Career)>
  {
    EntriesUpTo(rows, keywords, |Departments(rows)|)
  }

  /** Writing a key that is not yet present appends it. */
  lemma PutFresh<V>(d: seq<(string, V)>, k: string, v: V)
    requires forall j :: 0 <= j < |d| ==> d[j].0 != k
    ensures Put(d, k, v) == d + [(k, v)]
  {
    assert IndexOfKey(d, k).None?;
  }

  /** The keys written so far are the first departments, so the next one is not among them. */
  lemma EntriesStep(rows: seq<Programme>, keywords: seq<(string, seq<string>)>, n: nat)
    requires n < |Departments(rows)|
    ensures var dept := Departments(rows)[n];
      && (forall j :: 0 <= j < n ==> EntriesUpTo(rows, keywords, n)[j].0 != dept)
      && EntriesUpTo(rows, keywords, n + 1) == EntriesUpTo(rows, keywords, n) + [(dept, CareerOf(rows, keywords, dept))]
  {
    var depts := Departments(rows);
    var dept := depts[n];
    var e, e1 := EntriesUpTo(rows, keywords, n), EntriesUpTo(rows, keywords, n + 1);
    var tail := [(dept, CareerOf(rows, keywords, dept))];
    forall j | 0 <= j < n
      ensures e[j].0 != dept
    {
      assert e[j].0 == depts[j];
    }
    assert e1 == e + tail by {
      forall j | 0 <= j <= n
        ensures e1[j] == (e + tail)[j]
      {
        if j < n {
          assert e1[j] == (depts[j], CareerOf(rows, keywords, depts[j])) == e[j];
        }
      }
    }
  }

  /** The loop of `create_career_skill_map`: one `career_map[dept] = {...}` per distinct
      department. The map it returns is the one it writes out. */
  method CreateCareerSkillMap(rows: seq<Programme>, keywords: seq<(string, seq<string>)>)
    returns (careerMap: seq<(string, Career)>)
    ensures careerMap == CareerMap(rows, keywords)
  {
    var depts := Departments(rows);
    careerMap := [];
    var i := 0;
    while i < |depts|
      invariant 0 <= i <= |depts|
      invariant careerMap == EntriesUpTo(rows, keywords, i)
    {
      var dept := depts[i];
      var programmes := Programs(rows, dept);
      var skills := Skills(keywords, dept);
      EntriesStep(rows, keywords, i);
      PutFresh(careerMap, dept, Career(skills, programmes));
      careerMap := Put(careerMap, dept, Career(skills, programmes));
      i := i + 1;
    }
  }

  // ---------------------------------------------------------------- what the map promises

  /** No department has two entries. */
  lemma MapKeysDistinct(rows: seq<Programme>, keywords: seq<(string, seq<string>)>)
    ensures DistinctKeys(CareerMap(rows, keywords))
  {
    var m := CareerMap(rows, keywords);
    var depts := Departments(rows);
    assert forall j :: 0 <= j < |m| ==> m[j].0 == depts[j];
  }

  /** The map's keys are, position by position, the distinct departments. */
  lemma MapKeysAt(rows: seq<Programme>, keywords: seq<(string, seq<string>)>, k: nat)
    requires k < |Departments(rows)|
    ensures k < |CareerMap(rows, keywords)| && CareerMap(rows, keywords)[k].0 == Departments(rows)[k]
  {
  }

  /** A department has an entry exactly when some row of the table carries it. */
  lemma MapKeysAreDepartments(rows: seq<Programme>, keywords: seq<(string, seq<string>)>, dept: string)
    ensures HasKey(CareerMap(rows, keywords), dept) <==> exists i :: 0 <= i < |rows| && rows[i].department == dept
  {
    var m := CareerMap(rows, keywords);
    var depts := Departments(rows);
    var column := DepartmentColumn(rows);
    if HasKey(m, dept) {
      var k := IndexOfKey(m, dept).value;
      MapKeysAt(rows, keywords, k);
      assert depts[k] in column;
      var i :| 0 <= i < |column| && column[i] == dept;
      assert rows[i].department == dept;
    }
    if i :| 0 <= i < |rows| && rows[i].department == dept {
      assert column[i] in depts;
      var k :| 0 <= k < |depts| && depts[k] == dept;
      MapKeysAt(rows, keywords, k);
      IndexOfKeyIs(m, dept, k);
    }
  }

  /** The entry of a department holds its keyword list (or the empty list) and its programmes. */
  lemma EntryOfDepartment(rows: seq<Programme>, keywords: seq<(string, seq<string>)>, i: nat)
    requires i < |rows|
    ensures var dept := rows[i].department;
      && Get(CareerMap(rows, keywords), dept) == Some(CareerOf(rows, keywords, dept))
      && Get(CareerMap(rows, keywords), dept).value.skills
         == (if HasKey(keywords, dept) then Get(keywords, dept).value else [])
  {
    var dept := rows[i].department;
    var m := CareerMap(rows, keywords);
    var depts := Departments(rows);
    assert DepartmentColumn(rows)[i] == dept;
    var k :| 0 <= k < |depts| && depts[k] == dept;
    IndexOfKeyIs(m, dept, k);
  }

  /** A name is among the department's rows exactly when a row of that department carries it. */
  lemma {:induction false} NamesInMembers(rows: seq<Programme>, dept: string, p: string)
    ensures p in NamesIn(rows, dept) <==> exists i :: 0 <= i < |rows| && rows[i] == Programme(dept, p)
    decreases |rows|
  {
    if |rows| > 0 {
      var init := rows[..|rows| - 1];
      NamesInMembers(init, dept, p);
      if exists i :: 0 <= i < |init| && init[i] == Programme(dept, p) {
        var i :| 0 <= i < |init| && init[i] == Programme(dept, p);
        assert rows[i] == Programme(dept, p);
      }
      if i :| 0 <= i < |rows| && rows[i] == Programme(dept, p) {
        if i < |init| {
          assert init[i] == Programme(dept, p);
        }
      }
    }
  }

  /** The programmes of a department are the names of its rows, each once, in the order in which
      each first appears among them. */
  lemma ProgramsOfDepartment(rows: seq<Programme>, dept: string, p: string)
    ensures p in Programs(rows, dept) <==> exists i :: 0 <= i < |rows| && rows[i] == Programme(dept, p)
    ensures forall i, j :: 0 <= i < j < |Programs(rows, dept)| ==> Programs(rows, dept)[i] != Programs(rows, dept)[j]
    ensures forall i, j :: 0 <= i < j < |Programs(rows, dept)| ==>
      FirstAt(NamesIn(rows, dept), Programs(rows, dept)[i]) < FirstAt(NamesIn(rows, dept), Programs(rows, dept)[j])
  {
    var names := NamesIn(rows, dept);
    var u := Unique(names);
    NamesInMembers(rows, dept, p);
    if p in u {
      var k :| 0 <= k < |u| && u[k] == p;
      assert p in names;
    }
    if p in names {
      var k :| 0 <= k < |names| && names[k] == p;
      assert p in u;
    }
    forall i, j | 0 <= i < j < |u|
      ensures FirstAt(names, u[i]) < FirstAt(names, u[j])
    {
      UniqueFirstAppearance(names, i, j);
    }
  }

  /** Departments enter the map in the order of their first row. */
  lemma DepartmentsInFirstRowOrder(rows: seq<Programme>, keywords: seq<(string, seq<string>)>, i: nat, j: nat)
    requires i < j < |CareerMap(rows, keywords)|
    ensures var m := CareerMap(rows, keywords);
      FirstAt(DepartmentColumn(rows), m[i].0) < FirstAt(DepartmentColumn(rows), m[j].0)
  {
    UniqueFirstAppearance(DepartmentColumn(rows), i, j);
  }
}
