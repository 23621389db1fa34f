/** `clean_kuccps_data`: the programmes table with the header lines repeated inside it removed,
    and the misspelt `Depertments` column folded into `Department`. */
module CleanKuccps {
  import opened Wrappers
  import opened PyStrings
  import opened Seqs

  /** A row of the raw table, read as text: the two columns the filter reads, the two
      department columns, and the others. */
  datatype Course = Course(programCode: Option<string>, institutionName: Option<string>,
                           department: Option<string>, depertments: Option<string>,
                           others: seq<Option<string>>)

  /** `astype(str)`: a missing cell reads "nan". */
  function AsText(cell: Option<string>): string
  {
    match cell
    case None => "nan"
    case Some(s) => s
  }

  /** `.str.contains(pattern, case=False)` for a pattern without regex metacharacters, given in
      upper case. */
  predicate ContainsNoCase(cell: Option<string>, pattern: string)
  {
    Contains(Upper(AsText(cell)), pattern)
  }

  /** The rows the mask removes: a program code with "PROG" or "CODE" in it, or an institution
      name with "INSTITUTION NAME" in it, in any case. */
  predicate HeaderLike(row: Course)
  {
    || ContainsNoCase(row.programCode, "PROG")
    || ContainsNoCase(row.programCode, "CODE")
    || ContainsNoCase(row.institutionName, "INSTITUTION NAME")
  }

  /** `df[~... & ~... & ~...]`: the rows the mask keeps, in their order. */
  function KeepRows(rows: seq<Course>): (kept: seq<Course>)
    ensures |kept| <= |rows|
    ensures forall i :: 0 <= i < |kept| ==> !HeaderLike(kept[i])
  {
    if |rows| == 0 then []
    else
      var last := rows[|rows| - 1];
      KeepRows(rows[..|rows| - 1]) + (if HeaderLike(last) then [] else [last])
  }

  /** `Department.fillna(Depertments)` followed by dropping `Depertments`: a missing department
      is taken from the misspelt column, which then no longer exists. A department already
      there is kept, and nothing but the two department cells changes. */
  function FillDepartment(row: Course): (filled: Course)
    ensures row.department.Some? ==> filled.department == row.department
    ensures row.department.None? ==> filled.department == row.depertments
    ensures filled.department.Some? <==> row.department.Some? || row.depertments.Some?
    ensures filled.depertments.None?
    ensures filled.programCode == row.programCode && filled.institutionName == row.institutionName
    ensures filled.others == row.others
  {
    row.(department := if row.department.Some? then row.department else row.depertments,
         depertments := None)
  }

  /** The fill over every row. */
  function FillAll(rows: seq<Course>): (filled: seq<Course>)
    ensures |filled| == |rows|
    ensures forall i :: 0 <= i < |rows| ==> filled[i] == FillDepartment(rows[i])
  {
    seq(|rows|, i requires 0 <= i < |rows| => FillDepartment(rows[i]))
  }

  /** The cleaned data frame: its rows, and which of the two department columns it has. */
  class Frame {
    var rows: seq<Course>
    var hasDepartment: bool
    var hasDepertments: bool

    constructor (rows: seq<Course>, hasDepartment: bool, hasDepertments: bool)
      ensures this.rows == rows && this.hasDepartment == hasDepartment && this.hasDepertments == hasDepertments
    {
      this.rows := rows;
      this.hasDepartment := hasDepartment;
      this.hasDepertments := hasDepertments;
    }

    /** The coalesce step: only when both columns exist, Department is filled from
        Depertments and Depertments is dropped, in place. */
    method FixDepertments()
      modifies this
      ensures old(hasDepartment && hasDepertments) ==> rows == FillAll(old(rows)) && hasDepartment && !hasDepertments
      ensures !old(hasDepartment && hasDepertments) ==> rows == old(rows) && hasDepartment == old(hasDepartment)
                                                        && hasDepertments == old(hasDepertments)
    {
      if hasDepertments && hasDepartment {
        rows := FillAll(rows);
        hasDepertments := false;
      }
    }
  }

  /** `clean_kuccps_data` over the table it reads: an unreadable file gives nothing; otherwise
      the filtered, coalesced frame and the number of rows removed. */
  method CleanKuccpsData(raw: Option<seq<Course>>, hasDepartment: bool, hasDepertments: bool)
    returns (clean: Frame?, removed: int)
    ensures raw.None? ==> clean == null && removed == 0
    ensures raw.Some? ==> clean != null && fresh(clean)
    ensures raw.Some? ==> clean.rows == (if hasDepartment && hasDepertments then FillAll(KeepRows(raw.value))
                                         else KeepRows(raw.value))
    ensures raw.Some? ==> removed == |raw.value| - |clean.rows| && removed == Count(raw.value, HeaderLike)
  {
    if raw.None? {
      return null, 0;
    }
    var df := raw.value;
    var originalCount := |df|;
    clean := new Frame(KeepRows(df), hasDepartment, hasDepertments);
    clean.FixDepertments();
    var finalCount := |clean.rows|;
    removed := originalCount - finalCount;
    RemovedAreHeaders(df);
  }

  // ---------------------------------------------------------------- what the cleaning promises

  /** A row survives exactly when it is not header-like. */
  lemma {:induction false} KeptIff(rows: seq<Course>, row: Course)
    ensures row in KeepRows(rows) <==> row in rows && !HeaderLike(row)
    decreases |rows|
  {
    if |rows| > 0 {
      var init := rows[..|rows| - 1];
      KeptIff(init, row);
      assert rows == init + [rows[|rows| - 1]];
    }
  }

  /** The filter works row by row, so the kept rows stay in their order: filtering two tables
      laid end to end is filtering each. */
  lemma {:induction false} KeepRowsAppend(a: seq<Course>, b: seq<Course>)
    ensures KeepRows(a + b) == KeepRows(a) + KeepRows(b)
    decreases |b|
  {
    if |b| > 0 {
      var initB := b[..|b| - 1];
      KeepRowsAppend(a, initB);
      assert (a + b)[..|a + b| - 1] == a + initB;
    } else {
      assert a + b == a;
    }
  }

  /** Filtering again removes nothing. */
  lemma {:induction false} KeepRowsIdempotent(rows: seq<Course>)
    ensures KeepRows(KeepRows(rows)) == KeepRows(rows)
    decreases |rows|
  {
    if |rows| > 0 {
      var init := rows[..|rows| - 1];
      var last := rows[|rows| - 1];
      KeepRowsIdempotent(init);
      var tail := if HeaderLike(last) then [] else [last];
      KeepRowsAppend(KeepRows(init), tail);
      if !HeaderLike(last) {
        assert KeepRows(tail) == KeepRows([]) + [last];
      }
    }
  }

  /** The number of rows removed is the number of header-like rows. */
  lemma {:induction false} RemovedAreHeaders(rows: seq<Course>)
    ensures |rows| - |KeepRows(rows)| == Count(rows, HeaderLike)
    decreases |rows|
  {
    if |rows| > 0 {
      RemovedAreHeaders(rows[..|rows| - 1]);
    }
  }

  /** Filling commutes with the filter: the mask does not read the department columns. */
  lemma {:induction false} FillThenKeep(rows: seq<Course>)
    ensures KeepRows(FillAll(rows)) == FillAll(KeepRows(rows))
    decreases |rows|
  {
    if |rows| > 0 {
      var init := rows[..|rows| - 1];
      FillThenKeep(init);
      assert FillAll(rows)[..|rows| - 1] == FillAll(init);
      assert HeaderLike(FillDepartment(rows[|rows| - 1])) == HeaderLike(rows[|rows| - 1]);
      var last := rows[|rows| - 1];
      if !HeaderLike(last) {
        assert FillAll(KeepRows(init) + [last]) == FillAll(KeepRows(init)) + [FillDepartment(last)];
      }
    }
  }

  /** A repeated header line, whose program code cell is "PROG", is removed. */
  lemma RepeatedHeaderDropped(row: Course)
    requires row.programCode == Some("PROG")
    ensures HeaderLike(row) && KeepRows([row]) == []
  {
    var u := Upper(AsText(row.programCode));
    assert u == "PROG";
    assert OccursAt(u, "PROG", 0);
    assert KeepRows([row]) == KeepRows([]) + [];
  }

  /** A row with both cells missing reads "nan" in both and is kept. */
  lemma MissingCellsKept(row: Course)
    requires row.programCode.None? && row.institutionName.None?
    ensures !HeaderLike(row) && KeepRows([row]) == [row]
  {
    var u := Upper("nan");
    assert u == "NAN";
    AbsentByChar(u, "PROG", 0);
    AbsentByChar(u, "CODE", 0);
    AbsentByChar(u, "INSTITUTION NAME", 0);
    assert KeepRows([row]) == KeepRows([]) + [row];
  }
}
