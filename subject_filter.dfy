/** The strict subject filter (app.py, `filter_by_subjects`): keep the rows
    whose flag is 1 in every requested subject column, and keep nothing at
    all as soon as one requested subject is not a column. */
module SubjectFilter {
  import opened Dataset

  /** The cell test `df[column] == 1` on one row. Location, Sector and
      University hold text, which never equals 1; a missing subject cell is
      empty, which never equals 1 either. */
  predicate IsOne(r: Row, column: string)
    ensures column in {UniversityColumn, LocationColumn, SectorColumn} ==> !IsOne(r, column)
    ensures column !in FixedColumns ==> (IsOne(r, column) <==> column in r.flags && r.flags[column] == 1)
  {
    if column == FeeColumn then r.fee == 1
    else if column == ScholarshipColumn then r.scholarship == 1
    else if column in FixedColumns then false
    else column in r.flags && r.flags[column] == 1
  }

  /** The row offers every subject in `subjects`. */
  predicate Passes(r: Row, subjects: seq<string>) {
    forall s :: s in subjects ==> IsOne(r, s)
  }

  /** Every subject in `subjects` names a column of `t`. */
  predicate AllColumns(t: Table, subjects: seq<string>) {
    forall s :: s in subjects ==> HasColumn(t, s)
  }

  /** The rows of `rows` that pass, in their original order. */
  function Select(rows: seq<Row>, subjects: seq<string>): (kept: seq<Row>)
    ensures |kept| <= |rows|
    ensures forall r :: r in kept <==> r in rows && Passes(r, subjects)
  {
    if rows == [] then []
    else (if Passes(rows[0], subjects) then [rows[0]] else []) + Select(rows[1..], subjects)
  }

  /** What `filter_by_subjects` returns: nothing when a subject is not a
      column, otherwise the rows that offer every subject. */
  function Filtered(t: Table, subjects: seq<string>): (kept: seq<Row>)
    ensures forall r :: r in kept <==> AllColumns(t, subjects) && r in t.rows && Passes(r, subjects)
  {
    if AllColumns(t, subjects) then Select(t.rows, subjects) else []
  }

  /** `filter_by_subjects`: narrows the rows one subject at a time and gives
      up with an empty table on the first subject that is not a column. */
  method FilterBySubjects(t: Table, subjects: seq<string>) returns (rows: seq<Row>)
    ensures rows == Filtered(t, subjects)
    ensures !AllColumns(t, subjects) ==> rows == []
    ensures subjects == [] ==> rows == t.rows
  {
    rows := t.rows;
    FilterStart(t, subjects);
    var i := 0;
    while i < |subjects|
      invariant 0 <= i <= |subjects|
      invariant AllColumns(t, subjects[..i])
      invariant rows == Select(t.rows, subjects[..i])
    {
      if !HasColumn(t, subjects[i]) {
        FilterGivesUp(t, subjects, i);
        return [];
      }
      FilterStep(t, subjects, i);
      rows := Select(rows, [subjects[i]]);
      i := i + 1;
    }
    assert subjects[..i] == subjects;
  }

  /** Before the loop: no subject checked, every row kept. */
  lemma FilterStart(t: Table, subjects: seq<string>)
    ensures AllColumns(t, subjects[..0])
    ensures t.rows == Select(t.rows, subjects[..0])
  {
    SelectNothing(t.rows);
    assert subjects[..0] == [];
  }

  /** One iteration of the loop: the subject is a column, and narrowing the
      rows by it extends the prefix of subjects already applied. */
  lemma FilterStep(t: Table, subjects: seq<string>, i: int)
    requires 0 <= i < |subjects| && AllColumns(t, subjects[..i]) && HasColumn(t, subjects[i])
    ensures AllColumns(t, subjects[..i + 1])
    ensures Select(Select(t.rows, subjects[..i]), [subjects[i]]) == Select(t.rows, subjects[..i + 1])
  {
    assert subjects[..i + 1] == subjects[..i] + [subjects[i]];
    SelectTwice(t.rows, subjects[..i], [subjects[i]]);
  }

  /** The early return: a subject that is not a column empties the result. */
  lemma FilterGivesUp(t: Table, subjects: seq<string>, i: int)
    requires 0 <= i < |subjects| && !HasColumn(t, subjects[i])
    ensures !AllColumns(t, subjects) && Filtered(t, subjects) == []
  {
    assert subjects[i] in subjects;
  }

  /** With no subjects every row passes. */
  lemma {:induction false} SelectNothing(rows: seq<Row>)
    ensures Select(rows, []) == rows
  {
    if rows != [] {
      SelectNothing(rows[1..]);
      assert [rows[0]] + rows[1..] == rows;
    }
  }

  /** Filtering by `a` and then by `b` is filtering by both at once: the
      step-by-step reassignment of the loop computes the conjunction. */
  lemma {:induction false} SelectTwice(rows: seq<Row>, a: seq<string>, b: seq<string>)
    ensures Select(Select(rows, a), b) == Select(rows, a + b)
  {
    if rows != [] {
      SelectTwice(rows[1..], a, b);
      var x := rows[0];
      assert Passes(x, a + b) <==> Passes(x, a) && Passes(x, b) by {
        assert forall s :: s in a + b <==> s in a || s in b;
      }
      if Passes(x, a) {
        assert Select(rows, a) == [x] + Select(rows[1..], a);
        assert Select(rows, a)[1..] == Select(rows[1..], a);
      } else {
        assert Select(rows, a) == Select(rows[1..], a);
      }
    }
  }

  /** Only the set of requested subjects matters, not their order or
      repetitions. */
  lemma {:induction false} SelectSameSubjects(rows: seq<Row>, a: seq<string>, b: seq<string>)
    requires forall s :: s in a <==> s in b
    ensures Select(rows, a) == Select(rows, b)
  {
    if rows != [] {
      SelectSameSubjects(rows[1..], a, b);
      assert Passes(rows[0], a) == Passes(rows[0], b);
    }
  }

  lemma FilteredSameSubjects(t: Table, a: seq<string>, b: seq<string>)
    requires forall s :: s in a <==> s in b
    ensures Filtered(t, a) == Filtered(t, b)
  {
    SelectSameSubjects(t.rows, a, b);
  }

  /** `a` is `b` with some elements left out, order kept. */
  predicate IsSubsequence(a: seq<Row>, b: seq<Row>)
    decreases |b|
  {
    a == [] ||
    (b != [] && ((a[0] == b[0] && IsSubsequence(a[1..], b[1..])) || IsSubsequence(a, b[1..])))
  }

  /** The kept rows keep their original relative order. */
  lemma {:induction false} SelectKeepsOrder(rows: seq<Row>, subjects: seq<string>)
    ensures IsSubsequence(Select(rows, subjects), rows)
  {
    if rows != [] {
      SelectKeepsOrder(rows[1..], subjects);
      if Passes(rows[0], subjects) {
        assert Select(rows, subjects) == [rows[0]] + Select(rows[1..], subjects);
        assert Select(rows, subjects)[1..] == Select(rows[1..], subjects);
      } else {
        assert Select(rows, subjects) == Select(rows[1..], subjects);
      }
    }
  }

  /** Every passing row is kept as often as it occurs, every failing row
      not at all. */
  lemma {:induction false} SelectCounts(rows: seq<Row>, subjects: seq<string>, r: Row)
    ensures multiset(Select(rows, subjects))[r] == if Passes(r, subjects) then multiset(rows)[r] else 0
  {
    if rows != [] {
      SelectCounts(rows[1..], subjects, r);
      assert rows == [rows[0]] + rows[1..];
    }
  }
}
