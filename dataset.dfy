/** The university table as the loader leaves it (app.py, `load_dataset`):
    one row per university, its text columns normalised, its scholarship
    text coerced to a 0/1 flag. */
module Dataset {
  import opened Text

  const UniversityColumn: string := "University"
  const LocationColumn: string := "Location"
  const SectorColumn: string := "Sector"
  const FeeColumn: string := "Fee Structure"
  const ScholarshipColumn: string := "Scholarship"

  /** The columns every row has; the remaining columns are subject flags. */
  const FixedColumns: set<string> :=
    {UniversityColumn, LocationColumn, SectorColumn, FeeColumn, ScholarshipColumn}

  /** A row as read from the spreadsheet, each text cell already rendered
      by `str(...)`. */
  datatype RawRow = RawRow(
    university: string,
    location: string,
    sector: string,
    fee: int,
    scholarship: string,
    flags: map<string, int>)

  /** A row after loading. `flags` holds the numeric subject columns; a
      column missing from `flags` is an empty cell. */
  datatype Row = Row(
    university: string,
    location: string,
    sector: string,
    fee: int,
    scholarship: int,
    flags: map<string, int>)

  /** A table: the names of its subject columns (every row shares them) and
      its rows, in sheet order. */
  datatype Table = Table(subjectColumns: set<string>, rows: seq<Row>)
  datatype RawTable = RawTable(subjectColumns: set<string>, rows: seq<RawRow>)

  /** `column in df.columns` */
  predicate HasColumn(t: Table, column: string)
    ensures column in FixedColumns ==> HasColumn(t, column)
    ensures column !in t.subjectColumns && column !in FixedColumns ==> !HasColumn(t, column)
  {
    column in FixedColumns || column in t.subjectColumns
  }

  /** What the loader guarantees of a text column. */
  predicate IsNormalText(s: string) {
    IsLowerCase(s) && IsTrimmed(s)
  }

  /** What the loader guarantees of every row. */
  predicate Normalised(r: Row) {
    IsNormalText(r.location) && IsNormalText(r.sector)
    && (r.scholarship == 0 || r.scholarship == 1)
  }

  /** `.str.lower().str.strip()` on Location and Sector: the input's own
      text, with surrounding whitespace cut off and capitals lower-cased. */
  function NormaliseText(s: string): (r: string)
    ensures IsNormalText(r)
    ensures r == Lower(Strip(s))
  {
    var r := Strip(Lower(s));
    LowerStripCommute(s);
    r
  }

  /** The Scholarship lambda: 1 when the stripped, lower-cased text is
      "yes", "true" or "1"; 0 for any other text. */
  function ScholarshipFlag(x: string): (f: int)
    ensures f == 0 || f == 1
    ensures f == 1 <==> Lower(Strip(x)) in ["yes", "true", "1"]
  {
    if Lower(Strip(x)) in ["yes", "true", "1"] then 1 else 0
  }

  /** The loader's normalisation of one row. */
  function LoadRow(raw: RawRow): (r: Row)
    ensures Normalised(r)
    ensures r.location == NormaliseText(raw.location) && r.sector == NormaliseText(raw.sector)
    ensures r.university == raw.university && r.fee == raw.fee && r.flags == raw.flags
    ensures r.scholarship == 1 <==> Lower(Strip(raw.scholarship)) in ["yes", "true", "1"]
  {
    Row(raw.university, NormaliseText(raw.location), NormaliseText(raw.sector),
        raw.fee, ScholarshipFlag(raw.scholarship), raw.flags)
  }

  /** The three column assignments of `load_dataset`, row by row. */
  function Load(raw: RawTable): (t: Table)
    ensures t.subjectColumns == raw.subjectColumns && |t.rows| == |raw.rows|
    ensures forall k :: 0 <= k < |t.rows| ==> t.rows[k] == LoadRow(raw.rows[k])
    ensures forall r :: r in t.rows ==> Normalised(r)
  {
    Table(raw.subjectColumns, seq(|raw.rows|, k requires 0 <= k < |raw.rows| => LoadRow(raw.rows[k])))
  }

  /** Text that is already lower-case and trimmed loads unchanged. */
  lemma NormaliseTextKeepsNormal(s: string)
    requires IsNormalText(s)
    ensures NormaliseText(s) == s
  {
    StripTrimmed(s);
    assert Lower(s) == s;
  }

  /** Normalising text twice is the same as once. */
  lemma NormaliseTextIdempotent(s: string)
    ensures NormaliseText(NormaliseText(s)) == NormaliseText(s)
  {
    NormaliseTextKeepsNormal(NormaliseText(s));
  }

  /** Location and Sector are compared without regard to letter case. */
  lemma NormaliseTextIgnoresCase(s: string)
    ensures NormaliseText(Lower(s)) == NormaliseText(s)
  {
    LowerIdempotent(s);
  }

  /** Location and Sector are compared without regard to surrounding
      whitespace. */
  lemma NormaliseTextIgnoresPadding(pre: string, s: string, post: string)
    requires AllSpace(pre) && AllSpace(post)
    ensures NormaliseText(pre + s + post) == NormaliseText(s)
  {
    LowerConcat(pre + s, post);
    LowerConcat(pre, s);
    LowerSpace(pre);
    LowerSpace(post);
    StripPadded(pre, Lower(s), post);
  }

  /** The Scholarship test ignores letter case. */
  lemma ScholarshipIgnoresCase(x: string)
    ensures ScholarshipFlag(Lower(x)) == ScholarshipFlag(x)
  {
    LowerStripCommute(x);
    LowerIdempotent(Strip(x));
  }

  /** The Scholarship test ignores surrounding whitespace. */
  lemma ScholarshipIgnoresPadding(pre: string, x: string, post: string)
    requires AllSpace(pre) && AllSpace(post)
    ensures ScholarshipFlag(pre + x + post) == ScholarshipFlag(x)
  {
    StripPadded(pre, x, post);
  }

  /** The accepted words themselves give 1. */
  lemma AcceptedWord(w: string)
    requires w in ["yes", "true", "1"]
    ensures ScholarshipFlag(w) == 1
  {
    StripTrimmed(w);
    assert Lower(w) == w;
  }

  /** An accepted word in capitals gives 1. */
  lemma ScholarshipAcceptsUpper()
    ensures ScholarshipFlag("TRUE") == 1
  {
    var up := "TRUE";
    ScholarshipIgnoresCase(up);
    LowerWord(up, "true");
    AcceptedWord(Lower(up));
  }

  /** An accepted word with mixed case and padding gives 1. */
  lemma ScholarshipAcceptsPadded()
    ensures ScholarshipFlag(" Yes ") == 1
  {
    var w := "Yes";
    assert " Yes " == [' '] + w + [' '];
    ScholarshipIgnoresPadding([' '], w, [' ']);
    ScholarshipIgnoresCase(w);
    LowerWord(w, "yes");
    AcceptedWord(Lower(w));
  }

  lemma LowerWord(w: string, l: string)
    requires |w| == |l| && forall i :: 0 <= i < |w| ==> LowerChar(w[i]) == l[i]
    ensures Lower(w) == l
  {
  }

  /** Other words give 0, including the text "1.0" that a numeric cell
      read as a float would render to. */
  lemma ScholarshipRejects()
    ensures ScholarshipFlag("no") == 0 && ScholarshipFlag("y") == 0 && ScholarshipFlag("1.0") == 0
  {
    StripTrimmed("no");
    StripTrimmed("y");
    StripTrimmed("1.0");
    assert Lower("no") == "no";
    assert Lower("y") == "y";
    assert Lower("1.0") == "1.0";
  }
}
