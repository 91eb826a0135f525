/** String helpers used by the loader and the endpoint: Python's `str.lower`,
    `str.strip` and `str.split(",")`, restricted to ASCII characters. */
module Text {

  /** Python's `str.isspace` on ASCII: TAB, LF, VT, FF, CR, the four
      information separators 0x1C-0x1F, and SPACE. */
  predicate IsSpace(c: char) {
    (9 <= c as int <= 13) || (28 <= c as int <= 32)
  }

  predicate IsUpper(c: char) {
    'A' <= c <= 'Z'
  }

  predicate AllSpace(s: string) {
    forall i :: 0 <= i < |s| ==> IsSpace(s[i])
  }

  /** No upper-case ASCII letter anywhere in `s`. */
  predicate IsLowerCase(s: string) {
    forall i :: 0 <= i < |s| ==> !IsUpper(s[i])
  }

  /** Neither end of `s` is whitespace. */
  predicate IsTrimmed(s: string) {
    s == [] || (!IsSpace(s[0]) && !IsSpace(s[|s| - 1]))
  }

  function LowerChar(c: char): (d: char)
    ensures !IsUpper(d)
    ensures IsSpace(d) == IsSpace(c)
    ensures !IsUpper(c) ==> d == c
    ensures IsUpper(c) ==> d as int == c as int + 32
  {
    if IsUpper(c) then (c as int + 32) as char else c
  }

  /** `s.lower()`: upper-case ASCII letters become lower-case, everything
      else is kept in place. */
  function Lower(s: string): (r: string)
    ensures |r| == |s|
    ensures IsLowerCase(r)
    ensures forall i :: 0 <= i < |s| ==> r[i] == LowerChar(s[i])
  {
    seq(|s|, i requires 0 <= i < |s| => LowerChar(s[i]))
  }

  /** Every character of `s` from `lo` up to (not including) `hi` is whitespace. */
  predicate SpaceBetween(s: string, lo: int, hi: int)
    requires 0 <= lo <= hi <= |s|
  {
    forall m :: lo <= m < hi ==> IsSpace(s[m])
  }

  /** The slice `s[lo..hi]` neither starts nor ends with whitespace. */
  predicate TrimmedBetween(s: string, lo: int, hi: int)
    requires 0 <= lo <= hi <= |s|
  {
    lo == hi || (!IsSpace(s[lo]) && !IsSpace(s[hi - 1]))
  }

  /** The first index at or after `from` that is not whitespace, or `|s|`. */
  function SkipSpace(s: string, from: nat): (i: nat)
    requires from <= |s|
    ensures from <= i <= |s| && SpaceBetween(s, from, i)
    ensures i < |s| ==> !IsSpace(s[i])
    decreases |s| - from
  {
    if from < |s| && IsSpace(s[from]) then SkipSpace(s, from + 1) else from
  }

  /** The last index at or before `hi`, not below `lo`, that follows a
      character that is not whitespace, or `lo`. */
  function SkipSpaceBack(s: string, lo: nat, hi: nat): (j: nat)
    requires lo <= hi <= |s|
    ensures lo <= j <= hi && SpaceBetween(s, j, hi)
    ensures lo < j ==> !IsSpace(s[j - 1])
    decreases hi
  {
    if lo < hi && IsSpace(s[hi - 1]) then SkipSpaceBack(s, lo, hi - 1) else hi
  }

  /** Where the stripped middle of `s` starts. */
  function StripStart(s: string): nat
    ensures StripStart(s) <= |s|
  {
    SkipSpace(s, 0)
  }

  /** Where the stripped middle of `s` ends. */
  function StripEnd(s: string): nat
    ensures StripStart(s) <= StripEnd(s) <= |s|
  {
    SkipSpaceBack(s, StripStart(s), |s|)
  }

  /** `s.strip()`: the middle of `s` left once whitespace is cut off both
      ends. */
  function Strip(s: string): (r: string)
    ensures IsTrimmed(r)
    ensures r == s[StripStart(s)..StripEnd(s)]
    ensures SpaceBetween(s, 0, StripStart(s)) && SpaceBetween(s, StripEnd(s), |s|)
  {
    var i, j := StripStart(s), StripEnd(s);
    assert i < j ==> s[i..j][0] == s[i] && s[i..j][j - i - 1] == s[j - 1];
    s[i..j]
  }

  /** Strip's result is the only way to write `s` as whitespace, a trimmed
      middle, and whitespace. */
  lemma StripUnique(s: string, i: int, j: int)
    requires 0 <= i <= j <= |s|
    requires SpaceBetween(s, 0, i) && SpaceBetween(s, j, |s|) && TrimmedBetween(s, i, j)
    ensures Strip(s) == s[i..j]
  {
    var k, e := StripStart(s), StripEnd(s);
    assert TrimmedBetween(s, k, e) by {
      assert k < e ==> s[k..e][0] == s[k] && s[k..e][e - k - 1] == s[e - 1];
    }
    if i < j && k < e {
      assert k == i;
      assert e == j;
    }
  }

  /** Whitespace around a string does not change what `strip` gives. */
  lemma StripPadded(pre: string, s: string, post: string)
    requires AllSpace(pre) && AllSpace(post)
    ensures Strip(pre + s + post) == Strip(s)
  {
    var k, e := StripStart(s), StripEnd(s);
    var w := pre + s + post;
    var i, j := |pre| + k, |pre| + e;
    assert w[i..j] == s[k..e];
    assert SpaceBetween(w, 0, i) by {
      forall m | 0 <= m < i ensures IsSpace(w[m]) {
        if m >= |pre| { assert w[m] == s[m - |pre|]; }
      }
    }
    assert SpaceBetween(w, j, |w|) by {
      forall m | j <= m < |w| ensures IsSpace(w[m]) {
        if m < |pre| + |s| { assert w[m] == s[m - |pre|]; } else { assert w[m] == post[m - |pre| - |s|]; }
      }
    }
    assert TrimmedBetween(w, i, j) by {
      assert i < j ==> w[i] == s[k] && w[j - 1] == s[e - 1];
      assert k < e ==> s[k..e][0] == s[k] && s[k..e][e - k - 1] == s[e - 1];
    }
    StripUnique(w, i, j);
  }

  /** A string that is already trimmed is its own `strip`. */
  lemma StripTrimmed(s: string)
    requires IsTrimmed(s)
    ensures Strip(s) == s
  {
    assert s[0..|s|] == s;
    StripUnique(s, 0, |s|);
  }

  lemma StripIdempotent(s: string)
    ensures Strip(Strip(s)) == Strip(s)
  {
    StripTrimmed(Strip(s));
  }

  /** Strip's result sits between whitespace on both sides of `s`. */
  lemma StripSplits(s: string)
    ensures AllSpace(s[..StripStart(s)]) && AllSpace(s[StripEnd(s)..])
    ensures s == s[..StripStart(s)] + Strip(s) + s[StripEnd(s)..]
  {
    var i, j := StripStart(s), StripEnd(s);
    assert forall m :: 0 <= m < i ==> s[..i][m] == s[m];
    assert forall m :: 0 <= m < |s| - j ==> s[j..][m] == s[j + m];
    assert s == s[..i] + s[i..j] + s[j..];
  }

  /** Lower-casing distributes over concatenation. */
  lemma LowerConcat(a: string, b: string)
    ensures Lower(a + b) == Lower(a) + Lower(b)
  {
  }

  /** Lower-casing keeps whitespace whitespace. */
  lemma LowerSpace(s: string)
    requires AllSpace(s)
    ensures Lower(s) == s
  {
  }

  lemma LowerIdempotent(s: string)
    ensures Lower(Lower(s)) == Lower(s)
  {
  }

  /** Lower-casing and stripping commute on ASCII, because lower-casing never
      turns whitespace into non-whitespace or back. */
  lemma LowerStripCommute(s: string)
    ensures Strip(Lower(s)) == Lower(Strip(s))
  {
    var k, e := StripStart(s), StripEnd(s);
    var l := Lower(s);
    var sub := Lower(s[k..e]);
    assert l[k..e] == sub by {
      forall m | 0 <= m < e - k ensures l[k..e][m] == sub[m] {
        assert s[k..e][m] == s[k + m];
      }
    }
    assert SpaceBetween(l, 0, k) && SpaceBetween(l, e, |l|) by {
      assert forall m :: 0 <= m < |s| ==> l[m] == LowerChar(s[m]);
    }
    assert TrimmedBetween(l, k, e) by {
      assert k < e ==> s[k..e][0] == s[k] && s[k..e][e - k - 1] == s[e - 1];
    }
    StripUnique(l, k, e);
  }

  // ---------------------------------------------------------------------
  // Splitting on a separator

  /** `s.split(sep)` for a one-character separator: the pieces between
      separators, in order, always at least one (Python gives `[""]` for ""). */
  function Split(s: string, sep: char): (parts: seq<string>)
    ensures |parts| >= 1
    ensures forall p :: p in parts ==> sep !in p
  {
    if s == [] then [[]]
    else
      var rest := Split(s[1..], sep);
      if s[0] == sep then [[]] + rest
      else [[s[0]] + rest[0]] + rest[1..]
  }

  /** `sep.join(parts)`. */
  function Join(parts: seq<string>, sep: char): (s: string)
    requires |parts| >= 1
  {
    if |parts| == 1 then parts[0] else parts[0] + [sep] + Join(parts[1..], sep)
  }

  /** Number of occurrences of `c` in `s`. */
  function Count(s: string, c: char): nat {
    if s == [] then 0 else (if s[0] == c then 1 else 0) + Count(s[1..], c)
  }

  lemma {:induction false} JoinSplit(s: string, sep: char)
    ensures Join(Split(s, sep), sep) == s
  {
    if s != [] {
      JoinSplit(s[1..], sep);
      var rest := Split(s[1..], sep);
      if s[0] != sep {
        if |rest| == 1 {
          assert Split(s, sep) == [[s[0]] + rest[0]];
        } else {
          assert Split(s, sep)[1..] == rest[1..];
        }
      } else {
        assert Split(s, sep)[1..] == rest;
      }
    }
  }

  lemma {:induction false} SplitJoin(parts: seq<string>, sep: char)
    requires |parts| >= 1
    requires forall p :: p in parts ==> sep !in p
    ensures Split(Join(parts, sep), sep) == parts
  {
    if |parts| == 1 {
      assert parts[0] in parts;
      SplitNoSep(parts[0], sep);
    } else {
      var head, rest := parts[0], parts[1..];
      assert head in parts;
      assert forall p :: p in rest ==> p in parts;
      SplitJoin(rest, sep);
      var tail := Join(rest, sep);
      SplitPrefix(head, tail, sep);
      assert Join(parts, sep) == head + ([sep] + tail);
      assert [head] + rest == parts;
    }
  }

  lemma {:induction false} SplitNoSep(s: string, sep: char)
    requires sep !in s
    ensures Split(s, sep) == [s]
  {
    if s != [] {
      SplitNoSep(s[1..], sep);
      assert [s[0]] + s[1..] == s;
    }
  }

  /** Splitting `p + [sep] + t`, where `p` holds no separator, gives `p`
      followed by the pieces of `t`. */
  lemma {:induction false} SplitPrefix(p: string, t: string, sep: char)
    requires sep !in p
    ensures Split(p + ([sep] + t), sep) == [p] + Split(t, sep)
  {
    if p != [] {
      SplitPrefix(p[1..], t, sep);
      assert (p + ([sep] + t))[1..] == p[1..] + ([sep] + t);
      assert [p[0]] + p[1..] == p;
    } else {
      assert p + ([sep] + t) == [sep] + t;
      assert ([sep] + t)[1..] == t;
    }
  }

  lemma {:induction false} SplitCount(s: string, sep: char)
    ensures |Split(s, sep)| == Count(s, sep) + 1
  {
    if s != [] {
      SplitCount(s[1..], sep);
    }
  }
}
