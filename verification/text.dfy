/** Character classes and the handful of Python `str` operations the pipeline stages are built from. */
module TextUtil {

  datatype Option<T> = None | Some(value: T)

  /** The CJK Unified Ideographs range the source's regex classes spell as U+4E00..U+9FA5. */
  predicate IsChinese(c: char) {
    '\U{4E00}' <= c <= '\U{9FA5}'
  }

  /** Python's `str.isspace()`; a `str` regex's `\s` and `str.strip()` test the same characters. */
  predicate IsSpace(c: char) {
    ('\t' <= c <= '\r') || ('\U{1C}' <= c <= '\U{1F}') || c == ' ' || c == '\U{85}' || c == '\U{A0}'
    || c == '\U{1680}' || ('\U{2000}' <= c <= '\U{200A}') || c == '\U{2028}' || c == '\U{2029}'
    || c == '\U{202F}' || c == '\U{205F}' || c == '\U{3000}'
  }

  /** `pat` occurs in `s` starting at index `i`. */
  predicate OccursAt(s: seq<char>, pat: seq<char>, i: int) {
    0 <= i && i + |pat| <= |s| && s[i..i + |pat|] == pat
  }

  /** The leftmost index at or after `from` where `pat` occurs. */
  function IndexFrom(s: seq<char>, pat: seq<char>, from: nat): (r: Option<nat>)
    decreases |s| - from
    ensures r.Some? ==> from <= r.value && OccursAt(s, pat, r.value)
    ensures r.Some? ==> forall i :: from <= i < r.value ==> !OccursAt(s, pat, i)
    ensures r.None? ==> forall i :: from <= i ==> !OccursAt(s, pat, i)
  {
    if from + |pat| > |s| then None
    else if s[from..from + |pat|] == pat then Some(from)
    else IndexFrom(s, pat, from + 1)
  }

  /** Python's `s.find(pat)`, as an option: the leftmost occurrence. */
  function IndexOf(s: seq<char>, pat: seq<char>): (r: Option<nat>)
    ensures r.Some? ==> OccursAt(s, pat, r.value) && forall i :: 0 <= i < r.value ==> !OccursAt(s, pat, i)
    ensures r.None? ==> forall i :: !OccursAt(s, pat, i)
  {
    IndexFrom(s, pat, 0)
  }

  /** Python's `s.replace(pat, rep)`: every occurrence, leftmost first, never overlapping. A
      replacement no longer than its pattern never lengthens the text. */
  function ReplaceAll(s: seq<char>, pat: seq<char>, rep: seq<char>): (r: seq<char>)
    requires |pat| > 0
    ensures |rep| <= |pat| ==> |r| <= |s|
    decreases |s|
  {
    if |s| < |pat| then s
    else if s[..|pat|] == pat then rep + ReplaceAll(s[|pat|..], pat, rep)
    else [s[0]] + ReplaceAll(s[1..], pat, rep)
  }

  /** Python's `s.replace(pat, rep, 1)`: with no occurrence the text is unchanged; otherwise `rep` is
      spliced in at the leftmost occurrence and nothing else changes. */
  function ReplaceFirst(s: seq<char>, pat: seq<char>, rep: seq<char>): (r: seq<char>)
    ensures (forall i :: !OccursAt(s, pat, i)) ==> r == s
    ensures forall i :: OccursAt(s, pat, i) && (forall q :: 0 <= q < i ==> !OccursAt(s, pat, q)) ==>
              r == s[..i] + rep + s[i + |pat|..]
    ensures |rep| <= |pat| ==> |r| <= |s|
  {
    var m := IndexOf(s, pat);
    if m.None? then s else s[..m.value] + rep + s[m.value + |pat|..]
  }

  /** The characters of `s` that satisfy `keep`, in order. */
  function Filter(keep: char -> bool, s: seq<char>): (r: seq<char>)
    ensures |r| <= |s|
    ensures forall i :: 0 <= i < |r| ==> keep(r[i])
  {
    if |s| == 0 then []
    else (if keep(s[0]) then [s[0]] else []) + Filter(keep, s[1..])
  }

  /** Number of `$` characters; the mode-sensitive stages are organised around them. */
  function Dollars(s: seq<char>): nat {
    multiset(s)['$']
  }

  /** Concatenation is associative. */
  lemma AppendAssoc(a: seq<char>, b: seq<char>, c: seq<char>)
    ensures (a + b) + c == a + (b + c)
  {
  }

  /** A text is its three pieces cut at `i` and `j`. */
  lemma CutTwice(s: seq<char>, i: nat, j: nat)
    requires i <= j <= |s|
    ensures s == (s[..i] + s[i..j]) + s[j..]
  {
    assert s[..j] == s[..i] + s[i..j];
    assert s == s[..j] + s[j..];
  }

  lemma DollarsAppend(a: seq<char>, b: seq<char>)
    ensures Dollars(a + b) == Dollars(a) + Dollars(b)
  {
    assert multiset(a + b) == multiset(a) + multiset(b);
  }

  lemma FilterAppend(keep: char -> bool, a: seq<char>, b: seq<char>)
    ensures Filter(keep, a + b) == Filter(keep, a) + Filter(keep, b)
  {
    if |a| == 0 {
      assert a + b == b;
    } else {
      assert (a + b)[1..] == a[1..] + b;
    }
  }

  /** Filtering keeps a text whose every character passes. */
  lemma {:induction false} FilterAllKept(keep: char -> bool, s: seq<char>)
    requires forall i :: 0 <= i < |s| ==> keep(s[i])
    ensures Filter(keep, s) == s
    decreases |s|
  {
    if |s| > 0 {
      FilterAllKept(keep, s[1..]);
      assert [s[0]] + s[1..] == s;
    }
  }

  /** Filtering drops a text whose every character fails. */
  lemma {:induction false} FilterAllDropped(keep: char -> bool, s: seq<char>)
    requires forall i :: 0 <= i < |s| ==> !keep(s[i])
    ensures Filter(keep, s) == []
    decreases |s|
  {
    if |s| > 0 {
      FilterAllDropped(keep, s[1..]);
    }
  }

  /** Filtering twice is filtering once by both tests. */
  lemma {:induction false} FilterFilter(f: char -> bool, g: char -> bool, h: char -> bool, s: seq<char>)
    requires forall c :: h(c) == (f(c) && g(c))
    ensures Filter(f, Filter(g, s)) == Filter(h, s)
    decreases |s|
  {
    if |s| > 0 {
      FilterFilter(f, g, h, s[1..]);
      FilterAppend(f, if g(s[0]) then [s[0]] else [], Filter(g, s[1..]));
    }
  }

  /** A pattern whose first character is nowhere in the text occurs nowhere in it. */
  lemma NoOccurrence(s: seq<char>, pat: seq<char>)
    requires |pat| > 0 && forall i :: 0 <= i < |s| ==> s[i] != pat[0]
    ensures forall i :: !OccursAt(s, pat, i)
  {
    forall i ensures !OccursAt(s, pat, i) {
      if 0 <= i && i + |pat| <= |s| {
        assert s[i..i + |pat|][0] == s[i];
      }
    }
  }

  /** With no occurrence of `pat`, `replace` leaves the text alone. */
  lemma {:induction false} ReplaceAllAbsent(s: seq<char>, pat: seq<char>, rep: seq<char>)
    requires |pat| > 0
    requires forall i :: !OccursAt(s, pat, i)
    ensures ReplaceAll(s, pat, rep) == s
    decreases |s|
  {
    if |s| < |pat| {
    } else {
      assert !OccursAt(s, pat, 0);
      assert s[..|pat|] == s[0..0 + |pat|];
      forall i ensures !OccursAt(s[1..], pat, i) {
        if OccursAt(s[1..], pat, i) {
          assert s[1..][i..i + |pat|] == s[i + 1..i + 1 + |pat|];
          assert OccursAt(s, pat, i + 1);
        }
      }
      ReplaceAllAbsent(s[1..], pat, rep);
      assert [s[0]] + s[1..] == s;
    }
  }

  /** Replacing one character by one character is a pointwise map. */
  lemma {:induction false} ReplaceCharPointwise(s: seq<char>, a: char, b: char)
    ensures |ReplaceAll(s, [a], [b])| == |s|
    ensures forall i :: 0 <= i < |s| ==> ReplaceAll(s, [a], [b])[i] == (if s[i] == a then b else s[i])
    decreases |s|
  {
    if |s| < 1 {
    } else {
      ReplaceCharPointwise(s[1..], a, b);
      var r := ReplaceAll(s, [a], [b]);
      var head := if s[0] == a then b else s[0];
      assert s[..1] == [s[0]];
      assert r == [head] + ReplaceAll(s[1..], [a], [b]);
    }
  }

  /** Deleting one character everywhere keeps exactly the other characters. */
  lemma {:induction false} DeleteCharIsFilter(s: seq<char>, a: char)
    ensures ReplaceAll(s, [a], []) == Filter(c => c != a, s)
    decreases |s|
  {
    if |s| < 1 {
    } else {
      DeleteCharIsFilter(s[1..], a);
      assert s[..1] == [s[0]];
    }
  }

  /** `replace` with a pattern and a replacement that hold no `$` keeps the number of `$`. */
  lemma {:induction false} ReplaceAllKeepsDollars(s: seq<char>, pat: seq<char>, rep: seq<char>)
    requires |pat| > 0 && '$' !in pat && '$' !in rep
    ensures Dollars(ReplaceAll(s, pat, rep)) == Dollars(s)
    decreases |s|
  {
    if |s| < |pat| {
    } else if s[..|pat|] == pat {
      ReplaceAllKeepsDollars(s[|pat|..], pat, rep);
      assert s == s[..|pat|] + s[|pat|..];
      assert multiset(pat)['$'] == 0;
      assert multiset(rep)['$'] == 0;
    } else {
      ReplaceAllKeepsDollars(s[1..], pat, rep);
      assert s == [s[0]] + s[1..];
    }
  }

  /** `replace` distributes over a concatenation when the pattern is a single character. */
  lemma {:induction false} ReplaceCharAppend(a: seq<char>, b: seq<char>, c: char, rep: seq<char>)
    ensures ReplaceAll(a + b, [c], rep) == ReplaceAll(a, [c], rep) + ReplaceAll(b, [c], rep)
    decreases |a|
  {
    if |a| == 0 {
      assert a + b == b;
    } else {
      assert (a + b)[..1] == a[..1];
      assert (a + b)[1..] == a[1..] + b;
      ReplaceCharAppend(a[1..], b, c, rep);
    }
  }
}
