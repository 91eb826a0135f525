/** The priority ranker (app.py, `rank_universities`): a copy of the rows
    gets a `priority` column, four masked additions fill it, and the copy
    is sorted by priority, highest first. */
module Ranker {
  import opened Dataset

  /** The ranking criteria of one request. */
  datatype Query = Query(city: string, maxFee: int, scholarshipRequired: bool, sector: string)

  /** A row of the copy, with its `priority` column. */
  datatype Scored = Scored(row: Row, priority: int)

  const CityPoints: int := 4
  const FeePoints: int := 3
  const ScholarshipPoints: int := 2
  const SectorPoints: int := 1

  predicate CityMatches(r: Row, q: Query) { r.location == q.city }
  predicate FeeMatches(r: Row, q: Query) { r.fee <= q.maxFee }
  /** Scholarship counts only when the request asks for one. */
  predicate ScholarshipMatches(r: Row, q: Query) { q.scholarshipRequired && r.scholarship == 1 }
  predicate SectorMatches(r: Row, q: Query) { r.sector == q.sector }

  /** The priority a row ends up with: the points of every criterion it meets. */
  function Priority(r: Row, q: Query): (p: int)
    ensures 0 <= p <= CityPoints + FeePoints + ScholarshipPoints + SectorPoints
    ensures p == 10 <==> CityMatches(r, q) && FeeMatches(r, q) && ScholarshipMatches(r, q) && SectorMatches(r, q)
    ensures p == 0 <==> !CityMatches(r, q) && !FeeMatches(r, q) && !ScholarshipMatches(r, q) && !SectorMatches(r, q)
    ensures CityMatches(r, q) ==> p >= CityPoints
    ensures !q.scholarshipRequired ==> p <= CityPoints + FeePoints + SectorPoints
  {
    (if CityMatches(r, q) then CityPoints else 0)
    + (if FeeMatches(r, q) then FeePoints else 0)
    + (if ScholarshipMatches(r, q) then ScholarshipPoints else 0)
    + (if SectorMatches(r, q) then SectorPoints else 0)
  }

  /** The copy with its priority column filled in. */
  function Scores(rows: seq<Row>, q: Query): (scored: seq<Scored>)
    ensures |scored| == |rows| && forall k :: 0 <= k < |rows| ==> scored[k].row == rows[k]
    ensures forall x :: x in scored ==> x.priority == Priority(x.row, q)
  {
    seq(|rows|, k requires 0 <= k < |rows| => Scored(rows[k], Priority(rows[k], q)))
  }

  /** The rows of a scored table, without their priority column. */
  function RowsOf(s: seq<Scored>): (rows: seq<Row>)
    ensures |rows| == |s|
  {
    if s == [] then [] else [s[0].row] + RowsOf(s[1..])
  }

  /** Highest priority first. */
  predicate SortedDesc(s: seq<Scored>) {
    forall i, j :: 0 <= i < j < |s| ==> s[i].priority >= s[j].priority
  }

  /** An entry whose priority is at least the head's can go in front of a
      sorted sequence. */
  lemma ConsSorted(h: Scored, s: seq<Scored>)
    requires SortedDesc(s)
    requires s != [] ==> h.priority >= s[0].priority
    ensures SortedDesc([h] + s)
  {
    var r := [h] + s;
    forall i, j | 0 <= i < j < |r| ensures r[i].priority >= r[j].priority {
      if i == 0 {
        assert r[j] == s[j - 1];
        assert s[0].priority >= s[j - 1].priority;
      } else {
        assert r[i] == s[i - 1] && r[j] == s[j - 1];
      }
    }
  }

  /** Puts `x` in front of the first entry whose priority is not higher. */
  function Insert(x: Scored, s: seq<Scored>): (r: seq<Scored>)
    requires SortedDesc(s)
    ensures SortedDesc(r)
    ensures multiset(r) == multiset(s) + multiset{x}
    ensures r[0] == x || (s != [] && r[0] == s[0])
  {
    if s == [] then [x]
    else if x.priority >= s[0].priority then
      ConsSorted(x, s);
      [x] + s
    else
      var tail := s[1..];
      assert SortedDesc(tail) by {
        forall i, j | 0 <= i < j < |tail| ensures tail[i].priority >= tail[j].priority {
          assert tail[i] == s[i + 1] && tail[j] == s[j + 1];
        }
      }
      var rest := Insert(x, tail);
      assert rest[0] == x || rest[0] == s[1];
      assert s[0].priority >= rest[0].priority by {
        if rest[0] != x { assert s[0].priority >= s[1].priority; }
      }
      ConsSorted(s[0], rest);
      assert s == [s[0]] + tail;
      assert multiset([s[0]] + rest) == multiset{s[0]} + multiset(rest);
      [s[0]] + rest
  }

  /** `sort_values(by="priority", ascending=False)`: the same entries,
      highest priority first. Among equal priorities this model keeps the
      earlier entry first; pandas promises no particular order there. */
  function SortByPriority(s: seq<Scored>): (r: seq<Scored>)
    ensures SortedDesc(r)
    ensures multiset(r) == multiset(s)
  {
    if s == [] then []
    else
      assert s == [s[0]] + s[1..];
      Insert(s[0], SortByPriority(s[1..]))
  }

  /** What `rank_universities` returns. */
  function Ranked(rows: seq<Row>, q: Query): (ranked: seq<Scored>)
    ensures |ranked| == |rows|
    ensures SortedDesc(ranked)
    ensures multiset(ranked) == multiset(Scores(rows, q))
  {
    assert |multiset(Scores(rows, q))| == |rows|;
    SortByPriority(Scores(rows, q))
  }

  /** `df.loc[mask, "priority"] += points`. */
  method AddWhere(priority: array<int>, mask: seq<bool>, points: int)
    requires |mask| == priority.Length
    modifies priority
    ensures forall k :: 0 <= k < priority.Length ==>
              priority[k] == old(priority[k]) + (if mask[k] then points else 0)
  {
    for i := 0 to priority.Length
      invariant forall k :: 0 <= k < i ==> priority[k] == old(priority[k]) + (if mask[k] then points else 0)
      invariant forall k :: i <= k < priority.Length ==> priority[k] == old(priority[k])
    {
      if mask[i] {
        priority[i] := priority[i] + points;
      }
    }
  }

  /** `rank_universities`: every row of the result carries the priority the
      four criteria give it, the result is in descending priority, and it
      holds exactly the input rows. The input is a value and is not changed. */
  method RankUniversities(rows: seq<Row>, q: Query) returns (ranked: seq<Scored>)
    ensures ranked == Ranked(rows, q)
    ensures SortedDesc(ranked)
    ensures multiset(ranked) == multiset(Scores(rows, q))
    ensures forall x :: x in ranked ==> x.priority == Priority(x.row, q)
    ensures multiset(RowsOf(ranked)) == multiset(rows)
  {
    var n := |rows|;
    var priority := new int[n](k => 0);
    AddWhere(priority, seq(n, k requires 0 <= k < n => rows[k].location == q.city), CityPoints);
    AddWhere(priority, seq(n, k requires 0 <= k < n => rows[k].fee <= q.maxFee), FeePoints);
    if q.scholarshipRequired {
      AddWhere(priority, seq(n, k requires 0 <= k < n => rows[k].scholarship == 1), ScholarshipPoints);
    }
    AddWhere(priority, seq(n, k requires 0 <= k < n => rows[k].sector == q.sector), SectorPoints);
    var column := priority[..];
    var scored := seq(n, k requires 0 <= k < n => Scored(rows[k], column[k]));
    assert forall k :: 0 <= k < n ==> column[k] == Priority(rows[k], q);
    assert scored == Scores(rows, q);
    ranked := SortByPriority(scored);
    RankedPriorities(rows, q);
    SortRows(scored);
    RowsOfScores(rows, q);
  }

  /** Every entry of the ranking carries its row's priority. */
  lemma RankedPriorities(rows: seq<Row>, q: Query)
    ensures forall x :: x in Ranked(rows, q) ==> x.priority == Priority(x.row, q)
  {
    var s := Scores(rows, q);
    forall x | x in Ranked(rows, q) ensures x.priority == Priority(x.row, q) {
      assert x in multiset(s);
    }
  }

  lemma RowsOfScores(rows: seq<Row>, q: Query)
    ensures RowsOf(Scores(rows, q)) == rows
  {
    forall k | 0 <= k < |rows| ensures RowsOf(Scores(rows, q))[k] == rows[k] {
      RowsOfAt(Scores(rows, q), k);
    }
  }

  lemma RowsOfAt(s: seq<Scored>, k: int)
    requires 0 <= k < |s|
    ensures RowsOf(s)[k] == s[k].row
  {
    if k > 0 {
      RowsOfAt(s[1..], k - 1);
    }
  }

  lemma RowsOfCons(x: Scored, s: seq<Scored>)
    ensures RowsOf([x] + s) == [x.row] + RowsOf(s)
  {
    assert ([x] + s)[1..] == s;
  }

  /** Inserting an entry adds its row to the rows. */
  lemma {:induction false} InsertRows(x: Scored, s: seq<Scored>)
    requires SortedDesc(s)
    ensures multiset(RowsOf(Insert(x, s))) == multiset(RowsOf(s)) + multiset{x.row}
  {
    if s == [] {
      assert RowsOf([x]) == [x.row];
    } else if x.priority >= s[0].priority {
      RowsOfCons(x, s);
    } else {
      var tail := s[1..];
      var rest := Insert(x, tail);
      InsertRows(x, tail);
      assert Insert(x, s) == [s[0]] + rest;
      RowsOfCons(s[0], rest);
      RowsOfCons(s[0], tail);
      assert [s[0]] + tail == s;
      calc {
        multiset(RowsOf(Insert(x, s)));
        multiset([s[0].row] + RowsOf(rest));
        multiset{s[0].row} + multiset(RowsOf(rest));
        multiset{s[0].row} + multiset(RowsOf(tail)) + multiset{x.row};
        multiset([s[0].row] + RowsOf(tail)) + multiset{x.row};
      }
    }
  }

  /** Sorting reorders the rows and neither adds nor drops any. */
  lemma {:induction false} SortRows(s: seq<Scored>)
    ensures multiset(RowsOf(SortByPriority(s))) == multiset(RowsOf(s))
  {
    if s != [] {
      SortRows(s[1..]);
      InsertRows(s[0], SortByPriority(s[1..]));
      RowsOfCons(s[0], s[1..]);
      assert [s[0]] + s[1..] == s;
    }
  }

  /** Without a scholarship request, a row's scholarship never changes its
      priority. */
  lemma ScholarshipIgnoredUnlessRequired(r: Row, q: Query, flag: int)
    requires !q.scholarshipRequired
    ensures Priority(r.(scholarship := flag), q) == Priority(r, q)
  {
  }
}
