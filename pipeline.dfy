/** The recommendation pipeline (app.py, `recommend_universities`): filter
    by subjects, stop if nothing is left, rank, and answer with the
    University and Location of the first four ranked rows. */
module Pipeline {
  import opened Dataset
  import opened SubjectFilter
  import opened Ranker

  /** One entry of the answer: `df[["University", "Location"]]`. */
  datatype Pick = Pick(university: string, location: string)

  /** `pick` names a row of `rows`. */
  ghost predicate Named(pick: Pick, rows: seq<Row>) {
    exists r :: r in rows && pick == Pick(r.university, r.location)
  }

  /** `head(4)` */
  const MaxResults: nat := 4

  function Min(a: int, b: int): int {
    if a <= b then a else b
  }

  function Project(s: seq<Scored>): (picks: seq<Pick>)
    ensures |picks| == |s|
    ensures forall k :: 0 <= k < |s| ==>
              picks[k].university == s[k].row.university && picks[k].location == s[k].row.location
  {
    seq(|s|, k requires 0 <= k < |s| => Pick(s[k].row.university, s[k].row.location))
  }

  /** The ranked rows the answer is made of: none when the filter keeps
      nothing, otherwise the first (at most) four of the ranking. They are in
      non-increasing priority and hold each kept row at most as often as the
      filter kept it. */
  function TopRows(t: Table, subjects: seq<string>, q: Query): (top: seq<Scored>)
    ensures |top| == Min(MaxResults, |Filtered(t, subjects)|)
    ensures SortedDesc(top)
    ensures multiset(RowsOf(top)) <= multiset(Filtered(t, subjects))
  {
    var filtered := Filtered(t, subjects);
    if filtered == [] then []
    else
      var ranked := Ranked(filtered, q);
      assert |ranked| == |multiset(ranked)| == |filtered|;
      var n := Min(MaxResults, |ranked|);
      SortRows(Scores(filtered, q));
      RowsOfScores(filtered, q);
      SortedPrefix(ranked, filtered, n);
      ranked[..n]
  }

  /** A prefix of a sorted ranking is sorted and holds no row more often
      than the whole ranking does. */
  lemma SortedPrefix(ranked: seq<Scored>, rows: seq<Row>, n: int)
    requires 0 <= n <= |ranked|
    requires SortedDesc(ranked) && multiset(RowsOf(ranked)) == multiset(rows)
    ensures SortedDesc(ranked[..n])
    ensures multiset(RowsOf(ranked[..n])) <= multiset(rows)
  {
    RowsOfPrefix(ranked, n);
    var all := RowsOf(ranked);
    assert all == all[..n] + all[n..];
    assert multiset(all) == multiset(all[..n]) + multiset(all[n..]);
  }

  /** The rows of a prefix are the prefix of the rows. */
  lemma RowsOfPrefix(s: seq<Scored>, n: int)
    requires 0 <= n <= |s|
    ensures RowsOf(s[..n]) == RowsOf(s)[..n]
  {
    forall k | 0 <= k < n ensures RowsOf(s[..n])[k] == RowsOf(s)[k] {
      RowsOfAt(s[..n], k);
      RowsOfAt(s, k);
    }
  }

  /** What `recommend_universities` returns. */
  function Recommendation(t: Table, subjects: seq<string>, q: Query): (picks: seq<Pick>)
    ensures |picks| == Min(MaxResults, |Filtered(t, subjects)|)
    ensures forall k :: 0 <= k < |picks| ==> Named(picks[k], Filtered(t, subjects))
  {
    var top := TopRows(t, subjects, q);
    var picks := Project(top);
    forall k | 0 <= k < |top| ensures Named(picks[k], Filtered(t, subjects)) {
      RowsOfAt(top, k);
      var r := RowsOf(top)[k];
      assert r in multiset(RowsOf(top));
      assert r in Filtered(t, subjects);
      assert picks[k] == Pick(r.university, r.location);
    }
    picks
  }

  /** `recommend_universities`: ranking runs only when the filter kept a
      row, and the answer has one entry per row kept, up to four. */
  method RecommendUniversities(t: Table, subjects: seq<string>, q: Query) returns (picks: seq<Pick>)
    ensures picks == Recommendation(t, subjects, q)
    ensures |picks| == Min(MaxResults, |Filtered(t, subjects)|)
    ensures Filtered(t, subjects) == [] ==> picks == []
  {
    var rows := FilterBySubjects(t, subjects);
    if |rows| == 0 {
      return [];
    }
    var ranked := RankUniversities(rows, q);
    assert |ranked| == |multiset(ranked)| == |rows|;
    picks := Project(ranked[..Min(MaxResults, |ranked|)]);
  }

  /** Every row in the answer is a row of the table that offers every
      requested subject, and carries the priority the criteria give it. */
  lemma TopRowsPassFilter(t: Table, subjects: seq<string>, q: Query)
    ensures forall x :: x in TopRows(t, subjects, q) ==>
              AllColumns(t, subjects) && x.row in t.rows && Passes(x.row, subjects)
              && x.priority == Priority(x.row, q)
  {
    var filtered := Filtered(t, subjects);
    if filtered != [] {
      var ranked := Ranked(filtered, q);
      var scores := Scores(filtered, q);
      RankedPriorities(filtered, q);
      forall x | x in TopRows(t, subjects, q)
        ensures AllColumns(t, subjects) && x.row in t.rows && Passes(x.row, subjects)
      {
        assert x in ranked;
        assert x in multiset(scores);
        var k :| 0 <= k < |scores| && scores[k] == x;
        assert x.row == filtered[k];
      }
    }
  }

  /** The answer is the top of the ranking: no row that the filter kept and
      the answer left out has a higher priority than a row in the answer. */
  lemma NoExcludedRowOutranks(t: Table, subjects: seq<string>, q: Query, y: Scored, r: Row)
    requires y in TopRows(t, subjects, q)
    requires r in Filtered(t, subjects)
    requires Priority(r, q) > y.priority
    ensures r in RowsOf(TopRows(t, subjects, q))
  {
    var filtered := Filtered(t, subjects);
    var ranked := Ranked(filtered, q);
    var top := TopRows(t, subjects, q);
    RankedPriorities(filtered, q);
    SortRows(Scores(filtered, q));
    RowsOfScores(filtered, q);
    assert r in multiset(RowsOf(ranked));
    var j :| 0 <= j < |ranked| && RowsOf(ranked)[j] == r;
    RowsOfAt(ranked, j);
    assert ranked[j].priority == Priority(r, q) by {
      assert ranked[j] in ranked;
    }
    var i :| 0 <= i < |top| && top[i] == y;
    assert ranked[i] == y;
    if j >= |top| {
      assert false;
    }
    RowsOfAt(top, j);
  }

  /** With fewer than four kept rows the answer holds every one of them. */
  lemma FewRowsAllReturned(t: Table, subjects: seq<string>, q: Query)
    requires |Filtered(t, subjects)| <= MaxResults
    ensures multiset(RowsOf(TopRows(t, subjects, q))) == multiset(Filtered(t, subjects))
  {
    var filtered := Filtered(t, subjects);
    if filtered != [] {
      var ranked := Ranked(filtered, q);
      SortRows(Scores(filtered, q));
      RowsOfScores(filtered, q);
      assert |ranked| == |multiset(ranked)| == |filtered|;
      assert TopRows(t, subjects, q) == ranked;
    }
  }

  /** Of two kept rows, the one with the higher priority is answered first. */
  lemma HigherPriorityFirst(t: Table, subjects: seq<string>, q: Query, x: Row, y: Row)
    requires multiset(Filtered(t, subjects)) == multiset{x, y}
    requires Priority(x, q) > Priority(y, q)
    ensures Recommendation(t, subjects, q) == [Pick(x.university, x.location), Pick(y.university, y.location)]
  {
    var filtered := Filtered(t, subjects);
    assert |filtered| == |multiset{x, y}| == 2;
    var top := TopRows(t, subjects, q);
    var rows := RowsOf(top);
    TopRowsPassFilter(t, subjects, q);
    RowsOfAt(top, 0);
    RowsOfAt(top, 1);
    assert rows == [rows[0], rows[1]];
    assert multiset(rows) == multiset{rows[0], rows[1]};
    assert multiset{rows[0], rows[1]} == multiset{x, y} by {
      assert multiset(rows) <= multiset{x, y};
      assert |multiset(rows)| == 2;
    }
    assert top[0].priority >= top[1].priority;
    assert top[0] in top && top[1] in top;
    assert rows[0] == x && rows[1] == y;
  }

  /** A subject that is not a column empties the answer, whatever the other
      subjects are. */
  lemma UnknownSubjectRecommendsNothing(t: Table, subjects: seq<string>, q: Query, k: int)
    requires 0 <= k < |subjects| && !HasColumn(t, subjects[k])
    ensures Recommendation(t, subjects, q) == []
  {
    assert subjects[k] in subjects;
  }

  /** A one-row table whose only row meets every criterion. */
  function AlphaTable(): Table {
    Table({"Math"}, [Row("Alpha U", "lahore", "private", 50000, 1, map["Math" := 1])])
  }

  /** The one row offers the subject, earns all ten points and is the answer. */
  lemma SingleMatchingRow()
    ensures Recommendation(AlphaTable(), ["Math"], Query("lahore", 60000, true, "private"))
            == [Pick("Alpha U", "lahore")]
  {
    var t := AlphaTable();
    var q := Query("lahore", 60000, true, "private");
    var r := t.rows[0];
    assert "Math" !in FixedColumns;
    assert Passes(r, ["Math"]);
    assert Filtered(t, ["Math"]) == [r];
    assert Priority(r, q) == 10;
    assert Scores([r], q) == [Scored(r, 10)];
    assert TopRows(t, ["Math"], q) == [Scored(r, 10)];
  }

  /** Asking for a subject the table has no column for gives no answer. */
  lemma MissingSubjectColumn(q: Query)
    ensures Recommendation(AlphaTable(), ["Physics"], q) == []
  {
    assert "Physics" !in FixedColumns;
    UnknownSubjectRecommendsNothing(AlphaTable(), ["Physics"], q, 0);
  }
}
