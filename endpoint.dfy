/** The request normalisation of the `/recommend` endpoint (app.py,
    `recommend`): city and sector are lower-cased, the comma-separated
    subject field is split and each piece stripped, then the pipeline runs. */
module Endpoint {
  import opened Text
  import opened Dataset
  import opened SubjectFilter
  import opened Ranker
  import opened Pipeline

  /** `piece` is `core` with nothing but whitespace around it. */
  ghost predicate IsPadded(piece: string, core: string) {
    exists pre, post :: AllSpace(pre) && AllSpace(post) && piece == pre + core + post
  }

  /** `[s.strip() for s in subjects.split(",")]`: entry k is the k-th
      comma-separated piece of the field with its surrounding whitespace cut
      off. */
  function SubjectList(text: string): (subjects: seq<string>)
    ensures |subjects| == |Split(text, ',')| == Count(text, ',') + 1
    ensures forall k :: 0 <= k < |subjects| ==> IsTrimmed(subjects[k]) && ',' !in subjects[k]
    ensures forall k :: 0 <= k < |subjects| ==> IsPadded(Split(text, ',')[k], subjects[k])
  {
    var parts := Split(text, ',');
    SplitCount(text, ',');
    var subjects := seq(|parts|, k requires 0 <= k < |parts| => Strip(parts[k]));
    forall k | 0 <= k < |parts|
      ensures ',' !in subjects[k]
      ensures IsPadded(parts[k], subjects[k])
    {
      NoSepInStrip(parts[k], ',');
      StripSplits(parts[k]);
      var p := parts[k];
      var pre, post := p[..StripStart(p)], p[StripEnd(p)..];
      assert AllSpace(pre) && AllSpace(post) && p == pre + subjects[k] + post;
    }
    subjects
  }

  /** Subject names that are already trimmed and free of commas, joined with
      commas, come back as the same list. */
  lemma {:induction false} SubjectListJoin(names: seq<string>)
    requires |names| >= 1
    requires forall k :: 0 <= k < |names| ==> IsTrimmed(names[k]) && ',' !in names[k]
    ensures SubjectList(Join(names, ',')) == names
  {
    SplitJoin(names, ',');
    var subjects := SubjectList(Join(names, ','));
    forall k | 0 <= k < |names| ensures subjects[k] == names[k] {
      StripTrimmed(names[k]);
    }
  }

  lemma NoSepInStrip(s: string, sep: char)
    requires sep !in s
    ensures sep !in Strip(s)
  {
    var r := Strip(s);
    var i := StripStart(s);
    forall m | 0 <= m < |r| ensures r[m] != sep {
      assert r[m] == s[i + m];
    }
  }

  /** The endpoint: normalise the form fields, then run the pipeline. */
  method Recommend(t: Table, city: string, maxFee: int, subjects: string,
                   scholarshipRequired: bool, sector: string) returns (picks: seq<Pick>)
    ensures picks == Recommendation(t, SubjectList(subjects),
                                    Query(Lower(city), maxFee, scholarshipRequired, Lower(sector)))
    ensures |picks| <= MaxResults
  {
    var q := Query(Lower(city), maxFee, scholarshipRequired, Lower(sector));
    picks := RecommendUniversities(t, SubjectList(subjects), q);
  }

  /** A blank piece of the subject field (an empty field, a trailing comma,
      two commas in a row) becomes the subject "", which is not a column,
      so the answer is empty. */
  lemma BlankSubjectRecommendsNothing(t: Table, text: string, q: Query, k: int)
    requires 0 <= k < |Split(text, ',')| && AllSpace(Split(text, ',')[k])
    requires !HasColumn(t, "")
    ensures Recommendation(t, SubjectList(text), q) == []
  {
    var piece := Split(text, ',')[k];
    StripUnique(piece, |piece|, |piece|);
    SplitCount(text, ',');
    UnknownSubjectRecommendsNothing(t, SubjectList(text), q, k);
  }

  /** The endpoint lower-cases the city but does not strip it, while the
      loader strips every Location: a city typed with a leading or trailing
      space never earns the city points. */
  lemma PaddedCityNeverMatches(r: Row, city: string, maxFee: int, scholarshipRequired: bool, sector: string)
    requires Normalised(r)
    requires city != [] && (IsSpace(city[0]) || IsSpace(city[|city| - 1]))
    ensures !CityMatches(r, Query(Lower(city), maxFee, scholarshipRequired, sector))
  {
    var l := Lower(city);
    assert IsSpace(l[0]) || IsSpace(l[|l| - 1]);
  }
}
