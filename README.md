# University recommendation pipeline, modelled in Dafny

The system answers one kind of request: given the subjects a student needs,
a preferred city, a fee ceiling, whether a scholarship is needed and a
preferred sector, it returns up to four universities from a table loaded
once at start-up. This project models the part that decides:

- **Loading** (`load_dataset`): Location and Sector are lower-cased and
  stripped, and the Scholarship text becomes 1 for "yes", "true" or "1"
  (in any case, with any surrounding whitespace) and 0 otherwise
  (`dataset.dfy`, module `Dataset`, over the string helpers of `text.dfy`).
- **Subject filter** (`filter_by_subjects`): a loop over the requested
  subjects that narrows the rows to those whose column holds 1, and that
  returns an empty table on the first subject that is not a column
  (`subject_filter.dfy`, the method `FilterBySubjects` proved against the
  function `Filtered`).
- **Priority ranker** (`rank_universities`): a copy of the rows gets a
  priority column, filled by four masked additions (+4 city, +3 fee at most
  the ceiling, +2 scholarship when one is required, +1 sector), then sorted
  highest first (`ranker.dfy`; the priority column is an array updated in
  place by `AddWhere`, the sort is the function `SortByPriority`).
- **Pipeline** (`recommend_universities`): filter, stop when nothing is
  left, rank, keep University and Location of the first four
  (`pipeline.dfy`).
- **Endpoint normalisation** (`recommend`): city and sector lower-cased,
  the subject field split on commas and each piece stripped
  (`endpoint.dfy`).

A table is a `Table` value: the names of its subject columns and a sequence
of `Row`s (name, location, sector, integer fee, 0/1 scholarship, and a map
from subject column to its numeric cell). The subject test `df[s] == 1`
is modelled for every column name the table has: "Fee Structure" and
"Scholarship" compare the fee and the flag with 1, the text columns never
equal 1, and a subject cell that is missing from a row is empty and never
equals 1.

Three choices follow the code closely. `rank_universities` sorts with
`sort_values` and its default algorithm, which promises no order among equal
priorities (app.py:48). So the contracts claim only "sorted by non-increasing
priority and a permutation", and nothing about ties. The Scholarship column
holds the integers 0 and 1 after loading (app.py:14-16), and so does the
model. `recommend` lower-cases the city without stripping it (app.py:99),
while the loader strips every Location. `PaddedCityNeverMatches` states the
consequence.

## Model

| member | source | states |
|---|---|---|
| `Text.LowerChar` | app.py:10 | a capital letter becomes the lower-case letter 32 code points later; any other character is unchanged |
| `Text.Lower` | app.py:10 | lower-casing keeps the length, maps each character by `LowerChar` in place, and leaves no upper-case letter |
| `Text.Strip` | app.py:10 | the result is trimmed at both ends and is the middle slice of the input with only whitespace cut off around it |
| `Text.StripUnique` | app.py:10 | any split of a string into whitespace, a trimmed middle and whitespace has `strip`'s result as its middle |
| `Text.StripSplits` | app.py:10 | the input is whitespace, then `strip`'s result, then whitespace |
| `Text.StripPadded` | app.py:15 | surrounding whitespace does not change what `strip` returns |
| `Text.StripTrimmed` | app.py:11 | a trimmed string is its own `strip` |
| `Text.StripIdempotent` | app.py:11 | stripping twice is stripping once |
| `Text.LowerIdempotent` | app.py:10 | lower-casing twice is lower-casing once |
| `Text.LowerStripCommute` | app.py:10-15 | lower-then-strip (Location, Sector) equals strip-then-lower (Scholarship) |
| `Text.Split` | app.py:101 | a comma split always yields at least one piece and no piece holds the separator |
| `Text.JoinSplit` | app.py:101 | joining the pieces of a split with the separator gives back the original text |
| `Text.SplitJoin` | app.py:101 | splitting a join of separator-free pieces gives back the pieces |
| `Text.SplitCount` | app.py:101 | a split yields one more piece than the text has separators |
| `Dataset.NormaliseText` | app.py:10-11 | a normalised Location or Sector is the input's own stripped text with capitals lower-cased, and so is lower-case and trimmed |
| `Dataset.NormaliseTextKeepsNormal` | app.py:10-11 | text that is already lower-case and trimmed loads unchanged |
| `Dataset.NormaliseTextIgnoresCase` | app.py:10-11 | Location and Sector load the same whatever the letter case of the cell |
| `Dataset.NormaliseTextIgnoresPadding` | app.py:10-11 | Location and Sector load the same whatever whitespace surrounds the cell |
| `Dataset.NormaliseTextIdempotent` | app.py:10-11 | normalising an already normalised value changes nothing |
| `Dataset.ScholarshipFlag` | app.py:14-16 | the flag is always 0 or 1, and 1 exactly when the stripped, lower-cased text is "yes", "true" or "1" |
| `Dataset.ScholarshipIgnoresCase` | app.py:15 | the Scholarship test gives the same flag for any letter case of the text |
| `Dataset.ScholarshipIgnoresPadding` | app.py:15 | the Scholarship test gives the same flag whatever whitespace surrounds the text |
| `Dataset.AcceptedWord` | app.py:15 | each of the three accepted words gives 1 |
| `Dataset.ScholarshipAcceptsUpper` | app.py:15 | "TRUE" gives 1 |
| `Dataset.ScholarshipAcceptsPadded` | app.py:15 | " Yes " gives 1 |
| `Dataset.ScholarshipRejects` | app.py:15 | "no", "y" and "1.0" give 0 |
| `Dataset.LoadRow` | app.py:10-16 | a loaded row's Location and Sector are the normalised raw cells, its Scholarship is 1 exactly for an accepted word, and name, fee and subject cells are unchanged |
| `Dataset.Load` | app.py:6-18 | loading keeps the columns and the number and order of rows, and every loaded row is normalised |
| `Dataset.HasColumn` | app.py:23 | the five fixed columns are always present; any other name is a column only if it is a subject column |
| `SubjectFilter.IsOne` | app.py:25 | the cell test `df[subject] == 1`: never true for the University, Location and Sector text columns; for a subject column, true exactly when the row's cell is present and holds 1 |
| `SubjectFilter.Select` | app.py:25 | the kept rows are exactly the input rows that hold 1 in every requested column, and never more rows than the input |
| `SubjectFilter.Filtered` | app.py:21-26 | a row is in the filter's result exactly when every requested subject is a column, the row is in the table and it holds 1 in every requested column |
| `SubjectFilter.FilterBySubjects` | app.py:21-26 | the loop returns the filter's result: empty when a subject is not a column, the whole table when no subject is requested |
| `SubjectFilter.FilterStep` | app.py:25 | one pass of the loop: narrowing the rows by the next subject equals narrowing by all subjects so far |
| `SubjectFilter.FilterGivesUp` | app.py:23-24 | a subject that is not a column makes the filter's result empty |
| `SubjectFilter.SelectNothing` | app.py:22-26 | with no subjects requested every row passes, in order |
| `SubjectFilter.SelectTwice` | app.py:22-25 | narrowing by one subject after another equals narrowing by all of them at once |
| `SubjectFilter.SelectSameSubjects` | app.py:22-25 | two subject lists with the same members keep the same rows |
| `SubjectFilter.FilteredSameSubjects` | app.py:21-26 | reordering or repeating requested subjects does not change the filter's result |
| `SubjectFilter.SelectKeepsOrder` | app.py:25 | the kept rows appear in their original relative order |
| `SubjectFilter.SelectCounts` | app.py:25 | a passing row is kept as many times as it occurs and a failing row not at all |
| `Ranker.Priority` | app.py:38-46 | a priority lies in 0..10, is 10 exactly when all four criteria hold, 0 exactly when none does, at least 4 on a city match, at most 8 without a scholarship request |
| `Ranker.Scores` | app.py:37-46 | the copy has one entry per row, in order, each carrying its row's formula priority |
| `Ranker.Insert` | app.py:48 | inserting into a sequence sorted by descending priority keeps it sorted and adds exactly the one entry |
| `Ranker.SortByPriority` | app.py:48 | the sort's result is in non-increasing priority and a permutation of its input |
| `Ranker.Ranked` | app.py:48 | the ranking has as many entries as the input, is sorted by non-increasing priority and is a permutation of the scored copy |
| `Ranker.AddWhere` | app.py:40-46 | a masked addition adds the points to exactly the masked entries and leaves the others unchanged |
| `Ranker.RankUniversities` | app.py:29-48 | the ranking is sorted by non-increasing priority, each entry carries the priority of the criterion formula, and it is a permutation of the input rows |
| `Ranker.RankedPriorities` | app.py:38-48 | every entry of the ranking carries its own row's formula priority |
| `Ranker.RowsOfScores` | app.py:37-38 | adding the priority column keeps the rows and their order |
| `Ranker.InsertRows` | app.py:48 | inserting an entry adds exactly its row to the rows |
| `Ranker.SortRows` | app.py:48 | sorting neither adds nor drops a row |
| `Ranker.ScholarshipIgnoredUnlessRequired` | app.py:43-44 | without a scholarship request, a row's Scholarship value never changes its priority |
| `Pipeline.TopRows` | app.py:63-76 | the answer holds min(4, number of filtered rows) entries, none when the filter kept nothing, in non-increasing priority, with no row more often than the filter kept it |
| `Pipeline.SortedPrefix` | app.py:76 | the first entries of a sorted ranking are sorted and hold no row more often than the ranking does |
| `Pipeline.Project` | app.py:76 | one pick per ranked entry, in order, with that entry's University and Location |
| `Pipeline.Recommendation` | app.py:51-76 | the answer holds min(4, number of filtered rows) picks, each naming a row the filter kept |
| `Pipeline.RecommendUniversities` | app.py:51-76 | the pipeline returns min(4, number of filtered rows) picks, none when the filter kept nothing, taken from the head of the ranking |
| `Pipeline.TopRowsPassFilter` | app.py:61-76 | every answered row is a table row that holds 1 in every requested subject, with its formula priority |
| `Pipeline.NoExcludedRowOutranks` | app.py:67-76 | no filtered row left out of the answer has a higher priority than a row in it |
| `Pipeline.HigherPriorityFirst` | app.py:48-76 | of two kept rows, the one with the higher priority is answered first |
| `Pipeline.FewRowsAllReturned` | app.py:76 | when at most four rows pass the filter, the answer holds all of them |
| `Pipeline.UnknownSubjectRecommendsNothing` | app.py:22-24 | a requested subject that is not a column empties the answer, whatever the other subjects |
| `Pipeline.SingleMatchingRow` | app.py:51-76 | a one-row table whose row offers the subject and meets all criteria answers with that row |
| `Pipeline.MissingSubjectColumn` | app.py:22-24 | asking that table for a subject it has no column for answers nothing |
| `Endpoint.SubjectList` | app.py:101 | the subject list has one entry per comma-separated piece of the field; entry k is piece k with only surrounding whitespace removed, trimmed and free of commas |
| `Endpoint.SubjectListJoin` | app.py:101 | trimmed, comma-free names joined with commas come back as the same list |
| `Endpoint.Recommend` | app.py:99-110 | the endpoint answers the pipeline's result for the lower-cased city and sector and the split, stripped subjects, at most four picks |
| `Endpoint.BlankSubjectRecommendsNothing` | app.py:101 | a blank piece of the subject field (empty field, trailing or doubled comma) makes the answer empty when no column is named "" |
| `Endpoint.PaddedCityNeverMatches` | app.py:99 | a city typed with surrounding whitespace is lower-cased but not stripped, so it never matches a loaded Location |

## Left out

- Reading the spreadsheet (`pd.read_excel`), the module-level load at start-up, the web framework, form parsing and validation, and JSON serialisation: these are I/O and library plumbing; the model starts from a `RawTable` value and ends with a sequence of `Pick`s.
- `str(x)` on non-text cells: the loader's input is modelled with each text cell already rendered as text, so how pandas renders a number or an empty cell (for instance a float 1.0 as "1.0", which `ScholarshipRejects` shows gives 0) is not modelled.
- Unicode: lower-casing and whitespace are modelled on ASCII only (Python's `str.isspace` on ASCII, including the separators 0x1C-0x1F).
- Fees are integers: floating-point fees and pandas' column type coercion are not modelled; extra columns other than numeric subject flags are not modelled.
- `Ranker.SortByPriority`: the model keeps equal-priority entries in their earlier order, but no contract claims this, because pandas' default sort promises no order among ties.
- `Ranker.RankUniversities`: the input is a Dafny value, so "the input table is not mutated" holds by construction; the DataFrame copy and its aliasing are not modelled.
- `Pipeline.RecommendUniversities`: the early return for an empty filter result (app.py:63-64) is needed in the source. When a subject is not a column, the filter returns a DataFrame with no columns (app.py:24), and ranking it would raise a KeyError at `df["Location"]` (app.py:40). The model's filter result is a sequence of rows, which always has the fields ranking reads, so the model cannot show this failure; the early return appears only as the method's control flow.
- The filter's early return builds a DataFrame with no columns at all; the model returns no rows, which is all the pipeline uses of it.
- Repeated requests giving the same answer holds because every member is a function of its inputs; concurrent request handling is not modelled.
