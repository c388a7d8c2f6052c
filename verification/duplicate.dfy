/** remove_duplicate_non_chinese: finds runs of non-Chinese text whose tail repeats their head (a
    formula pasted once as rendered text and once as source) and collapses each into one `$...$` span. */
module Duplicate {
  import opened TextUtil

  // ---------------------------------------------------------------------------------------------
  // Fragments: `re.findall(r'[^一-龥]+', text)`

  /** Length of the leading run of non-Chinese characters. */
  function NonChineseRun(s: seq<char>): (k: nat)
    ensures k <= |s|
    ensures forall i :: 0 <= i < k ==> !IsChinese(s[i])
    ensures k < |s| ==> IsChinese(s[k])
  {
    if |s| > 0 && !IsChinese(s[0]) then 1 + NonChineseRun(s[1..]) else 0
  }

  /** The maximal runs of non-Chinese characters, left to right: each is non-empty and holds no
      Chinese character. */
  function NonChineseRuns(s: seq<char>): (rs: seq<seq<char>>)
    ensures forall k :: 0 <= k < |rs| ==> |rs[k]| > 0
    ensures forall k, i :: 0 <= k < |rs| && 0 <= i < |rs[k]| ==> !IsChinese(rs[k][i])
    decreases |s|
  {
    if |s| == 0 then []
    else if IsChinese(s[0]) then NonChineseRuns(s[1..])
    else
      var k := NonChineseRun(s);
      var rest := NonChineseRuns(s[k..]);
      assert ([s[..k]] + rest)[1..] == rest;
      [s[..k]] + rest
  }

  /** A non-empty text without Chinese characters is one run. */
  lemma RunsOfNonChinese(s: seq<char>)
    requires |s| > 0 && forall i :: 0 <= i < |s| ==> !IsChinese(s[i])
    ensures NonChineseRuns(s) == [s]
  {
    assert NonChineseRun(s) == |s|;
    assert s[..|s|] == s;
  }

  /** A Chinese character separates runs: the runs on each side of it are found independently.
      Together with RunsOfNonChinese this determines the runs of every text. */
  lemma {:induction false} RunsSplitAtChinese(a: seq<char>, c: char, b: seq<char>)
    requires IsChinese(c)
    ensures NonChineseRuns(a + [c] + b) == NonChineseRuns(a) + NonChineseRuns(b)
    decreases |a|
  {
    var s := a + [c] + b;
    if |a| == 0 {
      assert s == [c] + b;
      assert s[1..] == b;
    } else if IsChinese(a[0]) {
      assert s[1..] == a[1..] + [c] + b;
      RunsSplitAtChinese(a[1..], c, b);
    } else if NonChineseRun(a) < |a| {
      RunsSplitAtChinese(a[NonChineseRun(a)..], c, b);
      RunEndsInside(a, c, b);
    } else {
      RunEndsAtSeparator(a, c, b);
    }
  }

  /** The first run of `a` ends inside `a`: it is also the first run of the joined text. */
  lemma RunEndsInside(a: seq<char>, c: char, b: seq<char>)
    requires IsChinese(c) && |a| > 0 && !IsChinese(a[0]) && NonChineseRun(a) < |a|
    requires NonChineseRuns(a[NonChineseRun(a)..] + [c] + b) == NonChineseRuns(a[NonChineseRun(a)..]) + NonChineseRuns(b)
    ensures NonChineseRuns(a + [c] + b) == NonChineseRuns(a) + NonChineseRuns(b)
  {
    var s := a + [c] + b;
    var ka := NonChineseRun(a);
    var k := NonChineseRun(s);
    assert s[ka] == a[ka];
    assert k == ka;
    assert s[..k] == a[..ka];
    assert s[k..] == a[ka..] + [c] + b;
    assert NonChineseRuns(s) == [a[..ka]] + NonChineseRuns(s[k..]);
    assert NonChineseRuns(a) == [a[..ka]] + NonChineseRuns(a[ka..]);
  }

  /** The first run of `a` is all of `a`: the separator closes it. */
  lemma RunEndsAtSeparator(a: seq<char>, c: char, b: seq<char>)
    requires IsChinese(c) && |a| > 0 && !IsChinese(a[0]) && NonChineseRun(a) == |a|
    ensures NonChineseRuns(a + [c] + b) == NonChineseRuns(a) + NonChineseRuns(b)
  {
    var s := a + [c] + b;
    var ka := NonChineseRun(a);
    var k := NonChineseRun(s);
    assert s[ka] == c;
    assert k == ka;
    assert s[..k] == a;
    assert s[k..] == [c] + b;
    assert s[k..][1..] == b;
    assert NonChineseRuns(s[k..]) == NonChineseRuns(b);
    assert a[..ka] == a && a[ka..] == [];
    assert NonChineseRuns(a) == [a];
  }

  // ---------------------------------------------------------------------------------------------
  // Trimming each fragment: strip(), then the boundary regex, then strip() again

  /** Length of the leading run of characters satisfying `f`. */
  function LeadLen(f: char -> bool, s: seq<char>): (k: nat)
    ensures k <= |s|
    ensures forall i :: 0 <= i < k ==> f(s[i])
    ensures k < |s| ==> !f(s[k])
  {
    if |s| > 0 && f(s[0]) then 1 + LeadLen(f, s[1..]) else 0
  }

  /** Length of the trailing run of characters satisfying `f`. */
  function TrailLen(f: char -> bool, s: seq<char>): (k: nat)
    ensures k <= |s|
    ensures forall i :: |s| - k <= i < |s| ==> f(s[i])
    ensures k < |s| ==> !f(s[|s| - 1 - k])
  {
    if |s| > 0 && f(s[|s| - 1]) then 1 + TrailLen(f, s[..|s| - 1]) else 0
  }

  /** Drops the leading run and then the trailing run of `f` characters. This is `str.strip()` for
      `f` = IsSpace, and `re.sub(r'^[X]+|[X]+$', '', s)` for the class `f` = X. */
  function TrimBy(f: char -> bool, s: seq<char>): seq<char> {
    var t := s[LeadLen(f, s)..];
    t[..|t| - TrailLen(f, t)]
  }

  /** The boundary class `[\s:：,，.。;；（）()*]`. */
  predicate IsBoundary(c: char) {
    IsSpace(c) || c in {':', '：', ',', '，', '.', '。', ';', '；', '（', '）', '(', ')', '*'}
  }

  /** The three clean-ups each fragment goes through before it is examined. Because whitespace is
      part of the boundary class, together they cut the boundary characters off both ends: the result
      is the slice that is left once each end's run of boundary characters is gone. */
  function TrimFragment(p: seq<char>): (r: seq<char>)
    ensures exists lo, hi :: 0 <= lo <= hi <= |p| && r == p[lo..hi]
              && (forall i :: 0 <= i < lo ==> IsBoundary(p[i]))
              && (forall i :: hi <= i < |p| ==> IsBoundary(p[i]))
              && (lo < hi ==> !IsBoundary(p[lo]) && !IsBoundary(p[hi - 1]))
  {
    TrimsToSlice(p);
    TrimBy(IsSpace, TrimBy(IsBoundary, TrimBy(IsSpace, p)))
  }

  /** TrimBy keeps a slice whose two margins are `f` characters and whose ends are not. */
  lemma {:induction false} TrimBySlice(f: char -> bool, s: seq<char>) returns (lo: nat, hi: nat)
    ensures lo <= hi <= |s| && TrimBy(f, s) == s[lo..hi]
    ensures forall i :: 0 <= i < lo ==> f(s[i])
    ensures forall i :: hi <= i < |s| ==> f(s[i])
    ensures lo < hi ==> !f(s[lo]) && !f(s[hi - 1])
  {
    lo := LeadLen(f, s);
    var t := s[lo..];
    var k := TrailLen(f, t);
    hi := lo + |t| - k;
    assert TrimBy(f, s) == t[..|t| - k];
    forall i | hi <= i < |s| ensures f(s[i]) {
      assert s[i] == t[i - lo];
    }
    if lo < hi {
      assert s[hi - 1] == t[|t| - 1 - k];
    }
  }

  lemma TrimsToSlice(p: seq<char>)
    ensures exists lo, hi :: 0 <= lo <= hi <= |p| && TrimBy(IsSpace, TrimBy(IsBoundary, TrimBy(IsSpace, p))) == p[lo..hi]
              && (forall i :: 0 <= i < lo ==> IsBoundary(p[i]))
              && (forall i :: hi <= i < |p| ==> IsBoundary(p[i]))
              && (lo < hi ==> !IsBoundary(p[lo]) && !IsBoundary(p[hi - 1]))
  {
    SpacesAreBoundary();
    var lo, hi := TrimTwice(IsSpace, IsBoundary, p);
    var q := p[lo..hi];
    if lo < hi {
      assert !IsSpace(q[0]) && !IsSpace(q[|q| - 1]);
    }
    TrimUntouched(IsSpace, q);
    assert TrimBy(IsSpace, TrimBy(IsBoundary, TrimBy(IsSpace, p))) == p[lo..hi];
  }

  lemma SpacesAreBoundary()
    ensures forall c :: IsSpace(c) ==> IsBoundary(c)
  {
  }

  /** Trimming by a smaller class and then by a larger one is one slice with margins in the larger
      class. */
  lemma {:induction false} TrimTwice(inner: char -> bool, outer: char -> bool, p: seq<char>) returns (lo: nat, hi: nat)
    requires forall c :: inner(c) ==> outer(c)
    ensures lo <= hi <= |p| && TrimBy(outer, TrimBy(inner, p)) == p[lo..hi]
    ensures forall i :: 0 <= i < lo ==> outer(p[i])
    ensures forall i :: hi <= i < |p| ==> outer(p[i])
    ensures lo < hi ==> !outer(p[lo]) && !outer(p[hi - 1])
  {
    var lo1, hi1 := TrimBySlice(inner, p);
    var p1 := TrimBy(inner, p);
    var lo2, hi2 := TrimBySlice(outer, p1);
    lo, hi := lo1 + lo2, lo1 + hi2;
    SliceOfSlice(p, p1, lo1, hi1, lo2, hi2);
    MarginsCompose(inner, outer, p, p1, lo1, hi1, lo2, hi2, lo, hi);
  }

  lemma SliceOfSlice(p: seq<char>, p1: seq<char>, lo1: nat, hi1: nat, lo2: nat, hi2: nat)
    requires lo1 <= hi1 <= |p| && p1 == p[lo1..hi1] && lo2 <= hi2 <= |p1|
    ensures p1[lo2..hi2] == p[lo1 + lo2..lo1 + hi2]
  {
    forall i | 0 <= i < hi2 - lo2 ensures p1[lo2..hi2][i] == p[lo1 + lo2..lo1 + hi2][i] {
      assert p1[lo2 + i] == p[lo1 + lo2 + i];
    }
  }

  lemma {:induction false} MarginsCompose(inner: char -> bool, outer: char -> bool, p: seq<char>, p1: seq<char>,
                                          lo1: nat, hi1: nat, lo2: nat, hi2: nat, lo: nat, hi: nat)
    requires forall c :: inner(c) ==> outer(c)
    requires lo1 <= hi1 <= |p| && p1 == p[lo1..hi1] && lo2 <= hi2 <= |p1|
    requires lo == lo1 + lo2 && hi == lo1 + hi2
    requires forall i :: 0 <= i < lo1 ==> inner(p[i])
    requires forall i :: hi1 <= i < |p| ==> inner(p[i])
    requires forall i :: 0 <= i < lo2 ==> outer(p1[i])
    requires forall i :: hi2 <= i < |p1| ==> outer(p1[i])
    requires lo2 < hi2 ==> !outer(p1[lo2]) && !outer(p1[hi2 - 1])
    ensures forall i :: 0 <= i < lo ==> outer(p[i])
    ensures forall i :: hi <= i < |p| ==> outer(p[i])
    ensures lo < hi ==> !outer(p[lo]) && !outer(p[hi - 1])
  {
    forall i | 0 <= i < lo ensures outer(p[i]) {
      if i >= lo1 {
        assert p[i] == p1[i - lo1];
      } else {
        assert inner(p[i]);
      }
    }
    forall i | hi <= i < |p| ensures outer(p[i]) {
      if i < hi1 {
        assert p[i] == p1[i - lo1];
      } else {
        assert inner(p[i]);
      }
    }
    if lo < hi {
      assert p[lo] == p1[lo2] && p[hi - 1] == p1[hi2 - 1];
    }
  }

  /** A text whose ends are not in the class is left alone. */
  lemma TrimUntouched(f: char -> bool, s: seq<char>)
    requires |s| > 0 ==> !f(s[0]) && !f(s[|s| - 1])
    ensures TrimBy(f, s) == s
  {
    if |s| > 0 {
      assert LeadLen(f, s) == 0;
      assert TrailLen(f, s) == 0;
    }
  }

  function TrimAll(ps: seq<seq<char>>): (r: seq<seq<char>>)
    ensures |r| == |ps|
  {
    if |ps| == 0 then [] else [TrimFragment(ps[0])] + TrimAll(ps[1..])
  }

  // ---------------------------------------------------------------------------------------------
  // The mirror search over one fragment

  /** Step one's test at split `j`: `part.startswith(part[j:])`. */
  predicate ExactMirror(part: seq<char>, j: int)
    requires 1 <= j < |part|
  {
    part[j..] <= part
  }

  /** Step two's test at split `j`: `j` is a candidate (`part[j] == part[0]`), and the head and the
      tail of length `n - j` (`part[:n-j]` and `part[-(n-j):]`) hold the same characters. */
  predicate PermMirror(part: seq<char>, j: int)
    requires 1 <= j < |part|
  {
    part[j] == part[0] && multiset(part[..|part| - j]) == multiset(part[j..])
  }

  /** An exact mirror is also a permuted one. */
  lemma ExactIsPerm(part: seq<char>, j: int)
    requires 1 <= j < |part| && ExactMirror(part, j)
    ensures PermMirror(part, j)
  {
    assert part[..|part| - j] == part[j..];
    assert part[j..][0] == part[0];
  }

  /** `[j for j in range(hi, 0, -1) if part[j] == part[0]]`. */
  function Candidates(part: seq<char>, hi: nat): (cs: seq<nat>)
    requires 0 < |part| && hi < |part|
    ensures forall k :: 0 <= k < |cs| ==> 1 <= cs[k] <= hi && part[cs[k]] == part[0]
    ensures forall k, l :: 0 <= k < l < |cs| ==> cs[k] > cs[l]
    ensures forall j :: 1 <= j <= hi && part[j] == part[0] ==> j in cs
    decreases hi
  {
    if hi == 0 then [] else (if part[hi] == part[0] then [hi] else []) + Candidates(part, hi - 1)
  }

  datatype Check = Exact | SameChars

  predicate Passes(part: seq<char>, j: int, check: Check)
    requires 1 <= j < |part|
  {
    match check
    case Exact => ExactMirror(part, j)
    case SameChars => PermMirror(part, j)
  }

  /** `for j, seg in matches: if <check>: ... break`: the index of the first candidate that passes,
      or `|cs|` when none does. */
  function FirstPassing(part: seq<char>, cs: seq<nat>, check: Check): (i: nat)
    requires forall k :: 0 <= k < |cs| ==> 1 <= cs[k] < |part|
    ensures i <= |cs|
    ensures forall k :: 0 <= k < i ==> !Passes(part, cs[k], check)
    ensures i < |cs| ==> Passes(part, cs[i], check)
  {
    if |cs| == 0 then 0
    else if Passes(part, cs[0], check) then 0
    else 1 + FirstPassing(part, cs[1..], check)
  }

  /** The split the source settles on: the exact test over all candidates first, then the
      same-characters test over the same candidates. */
  function ChooseSplit(part: seq<char>): (r: Option<nat>)
    requires |part| >= 2
    ensures r.Some? ==> 1 <= r.value < |part|
  {
    var cs := Candidates(part, |part| - 1);
    var e := FirstPassing(part, cs, Exact);
    if e < |cs| then Some(cs[e])
    else
      var m := FirstPassing(part, cs, SameChars);
      if m < |cs| then Some(cs[m]) else None
  }

  /** The first passing candidate in a descending list is the largest split that passes. */
  lemma FirstPassingIsLargest(part: seq<char>, cs: seq<nat>, check: Check, j: nat)
    requires forall k :: 0 <= k < |cs| ==> 1 <= cs[k] < |part|
    requires forall k, l :: 0 <= k < l < |cs| ==> cs[k] > cs[l]
    requires j in cs && Passes(part, j, check)
    ensures FirstPassing(part, cs, check) < |cs|
    ensures cs[FirstPassing(part, cs, check)] >= j
  {
    var i := FirstPassing(part, cs, check);
    var k :| 0 <= k < |cs| && cs[k] == j;
    assert i <= k;
  }

  /** An exact mirror at `j0` means the exact test picks a split at or after `j0`. */
  lemma ChoiceWhenExact(part: seq<char>, j0: nat)
    requires 1 <= j0 < |part| && ExactMirror(part, j0)
    ensures ChooseSplit(part).Some?
    ensures j0 <= ChooseSplit(part).value < |part| && ExactMirror(part, ChooseSplit(part).value)
  {
    var cs := Candidates(part, |part| - 1);
    ExactIsPerm(part, j0);
    FirstPassingIsLargest(part, cs, Exact, j0);
  }

  /** A same-characters mirror at `j0`, with no exact mirror anywhere, means the second test picks a
      split at or after `j0`. */
  lemma ChoiceWhenSameChars(part: seq<char>, j0: nat)
    requires forall j :: 1 <= j < |part| ==> !ExactMirror(part, j)
    requires 1 <= j0 < |part| && PermMirror(part, j0)
    ensures ChooseSplit(part).Some?
    ensures j0 <= ChooseSplit(part).value < |part| && PermMirror(part, ChooseSplit(part).value)
  {
    var cs := Candidates(part, |part| - 1);
    NoExactPasses(part, cs);
    FirstPassingIsLargest(part, cs, SameChars, j0);
  }

  /** Without an exact mirror anywhere, the exact test finds nothing. */
  lemma NoExactPasses(part: seq<char>, cs: seq<nat>)
    requires forall j :: 1 <= j < |part| ==> !ExactMirror(part, j)
    requires forall k :: 0 <= k < |cs| ==> 1 <= cs[k] < |part|
    ensures FirstPassing(part, cs, Exact) == |cs|
  {
    forall k | 0 <= k < |cs| ensures !Passes(part, cs[k], Exact) {
      assert !ExactMirror(part, cs[k]);
    }
    NothingPasses(part, cs, Exact);
  }

  /** When no candidate passes, the search runs off the end. */
  lemma {:induction false} NothingPasses(part: seq<char>, cs: seq<nat>, check: Check)
    requires forall k :: 0 <= k < |cs| ==> 1 <= cs[k] < |part|
    requires forall k :: 0 <= k < |cs| ==> !Passes(part, cs[k], check)
    ensures FirstPassing(part, cs, check) == |cs|
    decreases |cs|
  {
    if |cs| > 0 {
      NothingPasses(part, cs[1..], check);
    }
  }

  /** Whatever is chosen passed one of the two tests. */
  lemma ChoicePasses(part: seq<char>)
    requires |part| >= 2 && ChooseSplit(part).Some?
    ensures 1 <= ChooseSplit(part).value < |part|
    ensures ExactMirror(part, ChooseSplit(part).value) || PermMirror(part, ChooseSplit(part).value)
  {
  }

  /** The search order: if some split is an exact mirror, the largest such split is chosen (the
      shortest mirrored segment); only otherwise is the largest same-characters split chosen; and
      nothing is chosen when no split passes either test. */
  lemma MirrorSearchOrder(part: seq<char>)
    requires |part| >= 2
    ensures ChooseSplit(part).Some? ==> 1 <= ChooseSplit(part).value < |part|
    ensures (exists j :: 1 <= j < |part| && ExactMirror(part, j)) ==>
              && ChooseSplit(part).Some?
              && ExactMirror(part, ChooseSplit(part).value)
              && forall j :: ChooseSplit(part).value < j < |part| ==> !ExactMirror(part, j)
    ensures (forall j :: 1 <= j < |part| ==> !ExactMirror(part, j)) ==>
              && (ChooseSplit(part).None? <==> forall j :: 1 <= j < |part| ==> !PermMirror(part, j))
              && (ChooseSplit(part).Some? ==>
                    && PermMirror(part, ChooseSplit(part).value)
                    && forall j :: ChooseSplit(part).value < j < |part| ==> !PermMirror(part, j))
  {
    var r := ChooseSplit(part);
    if r.Some? {
      ChoicePasses(part);
    }
    if exists j :: 1 <= j < |part| && ExactMirror(part, j) {
      var j0 :| 1 <= j0 < |part| && ExactMirror(part, j0);
      ChoiceWhenExact(part, j0);
      forall j | r.value < j < |part| ensures !ExactMirror(part, j) {
        if ExactMirror(part, j) {
          ChoiceWhenExact(part, j);
        }
      }
    } else {
      forall j | 1 <= j < |part| && PermMirror(part, j) ensures r.Some? && r.value >= j {
        ChoiceWhenSameChars(part, j);
      }
    }
  }

  /** `part[k:-k]` for `1 <= k < |part|`: empty once the two cuts cross. */
  function SliceMiddle(part: seq<char>, k: nat): (mid: seq<char>)
    requires 1 <= k < |part|
    ensures |mid| + 2 <= |part|
  {
    if k < |part| - k then part[k..|part| - k] else []
  }

  /** Some split is chosen exactly when some split passes the same-characters test (every exact
      mirror passes it too). */
  lemma ChoiceExistsWhenMirrored(part: seq<char>)
    requires |part| >= 2
    ensures ChooseSplit(part).Some? <==> exists j :: 1 <= j < |part| && PermMirror(part, j)
  {
    var n := |part|;
    if exists j :: 1 <= j < n && PermMirror(part, j) {
      var j0 :| 1 <= j0 < n && PermMirror(part, j0);
      if exists j :: 1 <= j < n && ExactMirror(part, j) {
        var j1 :| 1 <= j1 < n && ExactMirror(part, j1);
        ChoiceWhenExact(part, j1);
      } else {
        ChoiceWhenSameChars(part, j0);
      }
    }
    if ChooseSplit(part).Some? {
      ChoicePasses(part);
      var j := ChooseSplit(part).value;
      if ExactMirror(part, j) {
        ExactIsPerm(part, j);
      }
    }
  }

  /** What the fragment is rewritten to: a `$...$` span never longer than the fragment, produced
      exactly when some split passes the same-characters test (CollapseAt says which middle it holds). */
  function Collapse(part: seq<char>): (r: Option<seq<char>>)
    requires |part| >= 2
    ensures r.Some? <==> ChooseSplit(part).Some?
    ensures r.Some? ==> 2 <= |r.value| <= |part| && r.value[0] == '$' && r.value[|r.value| - 1] == '$'
  {
    var c := ChooseSplit(part);
    if c.None? then None else Some("$" + SliceMiddle(part, |part| - c.value) + "$")
  }

  /** A fragment is rewritten exactly when some split passes the same-characters test. */
  lemma CollapseWhenMirrored(part: seq<char>)
    requires |part| >= 2
    ensures Collapse(part).Some? <==> exists j :: 1 <= j < |part| && PermMirror(part, j)
  {
    ChoiceExistsWhenMirrored(part);
  }

  /** At the chosen split `j` the mirrored head and tail, `|part| - j` characters each, are cut off and
      the middle (`part[k:-k]`, empty once the cuts cross) is what the span holds. */
  lemma CollapseAt(part: seq<char>, j: nat)
    requires |part| >= 2 && ChooseSplit(part) == Some(j)
    ensures 1 <= j < |part| && PermMirror(part, j)
    ensures Collapse(part) == Some("$" + (if j > |part| - j then part[|part| - j..j] else []) + "$")
  {
    ChoicePasses(part);
    if ExactMirror(part, j) {
      ExactIsPerm(part, j);
    }
    assert SliceMiddle(part, |part| - j) == (if j > |part| - j then part[|part| - j..j] else []);
  }

  /** When the fragment's first and last characters agree, the exact test already succeeds at the
      last position, so exactly one character is cut from each end. */
  lemma FirstLastEqualCollapses(part: seq<char>)
    requires |part| >= 2 && part[0] == part[|part| - 1]
    ensures Collapse(part) == Some("$" + part[1..|part| - 1] + "$")
  {
    var n := |part|;
    assert part[n - 1..] == [part[0]];
    assert ExactMirror(part, n - 1);
    ChoiceWhenExact(part, n - 1);
    assert ChooseSplit(part) == Some(n - 1);
    CollapseAt(part, n - 1);
    assert SliceMiddle(part, 1) == part[1..n - 1];
  }

  /** The last exact mirror is the split chosen. */
  lemma ChoiceIsLastExact(part: seq<char>, j0: nat)
    requires 1 <= j0 < |part| && ExactMirror(part, j0)
    requires forall j :: j0 < j < |part| ==> !ExactMirror(part, j)
    ensures ChooseSplit(part) == Some(j0)
  {
    ChoiceWhenExact(part, j0);
  }

  /** In the double-rendered `c∗c^*c∗` the exact test succeeds at 5 and not after it. */
  lemma DoubleRenderedSplit()
    ensures ChooseSplit("c\U{2217}c^*c\U{2217}") == Some(5)
  {
    var part := "c\U{2217}c^*c\U{2217}";
    assert ExactMirror(part, 5) by { assert part[5..] == part[..2]; }
    forall j | 5 < j < |part| ensures !ExactMirror(part, j) {
      assert part[j..][0] == part[6] != part[0];
    }
    ChoiceIsLastExact(part, 5);
  }

  /** ... so the collapsed span keeps the source text in the middle. */
  lemma DoubleRenderedExample()
    ensures Collapse("c\U{2217}c^*c\U{2217}") == Some("$c^*$")
  {
    var part := "c\U{2217}c^*c\U{2217}";
    DoubleRenderedSplit();
    CollapseAt(part, 5);
    assert "$" + part[2..5] + "$" == "$c^*$";
  }

  /** `abcXacb` has no exact mirror at any split. */
  lemma NoExactMirrorExample()
    ensures var part := "abcXacb"; forall j :: 1 <= j < |part| ==> !ExactMirror(part, j)
  {
    var part := "abcXacb";
    forall j | 1 <= j < |part| ensures !ExactMirror(part, j) {
      assert part[j..][0] == part[j];
      if j == 4 {
        assert part[4..][1] != part[1];
      }
    }
  }

  /** With no exact mirror anywhere, the last same-characters mirror is the split chosen. */
  lemma ChoiceIsLastPerm(part: seq<char>, j0: nat)
    requires forall j :: 1 <= j < |part| ==> !ExactMirror(part, j)
    requires 1 <= j0 < |part| && PermMirror(part, j0)
    requires forall j :: j0 < j < |part| ==> !PermMirror(part, j)
    ensures ChooseSplit(part) == Some(j0)
  {
    ChoiceWhenSameChars(part, j0);
  }

  /** ... so the same-characters test picks the split at 4. */
  lemma SameCharsSplitExample()
    ensures ChooseSplit("abcXacb") == Some(4)
  {
    var part := "abcXacb";
    assert PermMirror(part, 4) by {
      assert part[..3] == "abc" && part[4..] == "acb";
      assert multiset("abc") == multiset("acb");
    }
    forall j | 4 < j < |part| ensures !PermMirror(part, j) {
      assert part[j] != part[0];
    }
    NoExactMirrorExample();
    ChoiceIsLastPerm(part, 4);
  }

  /** With no exact mirror, a head and a tail holding the same characters in another order still
      collapse. */
  lemma SameCharsExample()
    ensures Collapse("abcXacb") == Some("$X$")
  {
    var part := "abcXacb";
    SameCharsSplitExample();
    CollapseAt(part, 4);
    assert "$" + part[3..4] + "$" == "$X$";
  }

  // ---------------------------------------------------------------------------------------------
  // Rewriting the text

  /** One fragment's turn in the loop: fragments shorter than two are skipped; a collapsed fragment
      replaces the first place the fragment still occurs in the text. */
  function DedupeOne(text: seq<char>, part: seq<char>): (r: seq<char>)
    ensures |r| <= |text|
    ensures (forall i :: !OccursAt(text, part, i)) ==> r == text
  {
    if |part| < 2 then text
    else
      var c := Collapse(part);
      if c.None? then text else ReplaceFirst(text, part, c.value)
  }

  /** The loop over all fragments, each seeing the text as the earlier ones left it. */
  function DedupeAll(text: seq<char>, parts: seq<seq<char>>): (r: seq<char>)
    ensures |r| <= |text|
    decreases |parts|
  {
    if |parts| == 0 then text else DedupeAll(DedupeOne(text, parts[0]), parts[1..])
  }

  /** remove_duplicate_non_chinese: the fragments are taken from the text as it arrives, the
      rewrites are applied one after another, and the text never grows. */
  function RemoveDuplicateNonChinese(s: seq<char>): (r: seq<char>)
    ensures |r| <= |s|
  {
    DedupeAll(s, TrimAll(NonChineseRuns(s)))
  }

  /** Every run is made of characters of the text, so a text whose non-Chinese characters are all
      boundary characters has runs made only of them. */
  lemma {:induction false} BoundaryRuns(s: seq<char>)
    requires forall i :: 0 <= i < |s| ==> IsChinese(s[i]) || IsBoundary(s[i])
    ensures forall k, i :: 0 <= k < |NonChineseRuns(s)| && 0 <= i < |NonChineseRuns(s)[k]| ==>
              IsBoundary(NonChineseRuns(s)[k][i])
    decreases |s|
  {
    if |s| == 0 {
    } else if IsChinese(s[0]) {
      BoundaryRuns(s[1..]);
    } else {
      var k := NonChineseRun(s);
      BoundaryRuns(s[k..]);
      var runs := NonChineseRuns(s);
      assert runs[0] == s[..k] && runs[1..] == NonChineseRuns(s[k..]);
    }
  }

  /** A fragment of boundary characters only trims to nothing. */
  lemma BoundaryTrimsAway(p: seq<char>)
    requires forall i :: 0 <= i < |p| ==> IsBoundary(p[i])
    ensures TrimFragment(p) == []
  {
    var lo, hi :| 0 <= lo <= hi <= |p| && TrimFragment(p) == p[lo..hi] && (lo < hi ==> !IsBoundary(p[lo]));
  }

  lemma {:induction false} TrimAllBoundaries(ps: seq<seq<char>>)
    requires forall k, i :: 0 <= k < |ps| && 0 <= i < |ps[k]| ==> IsBoundary(ps[k][i])
    ensures forall k :: 0 <= k < |TrimAll(ps)| ==> TrimAll(ps)[k] == []
    decreases |ps|
  {
    if |ps| > 0 {
      BoundaryTrimsAway(ps[0]);
      TrimAllBoundaries(ps[1..]);
    }
  }

  /** Fragments shorter than two characters are skipped by the loop. */
  lemma {:induction false} ShortPartsSkipped(text: seq<char>, parts: seq<seq<char>>)
    requires forall k :: 0 <= k < |parts| ==> |parts[k]| < 2
    ensures DedupeAll(text, parts) == text
    decreases |parts|
  {
    if |parts| > 0 {
      ShortPartsSkipped(text, parts[1..]);
    }
  }

  /** Text whose only non-Chinese characters are spaces, `*` and the other boundary punctuation has
      nothing for the stage to collapse: it comes back unchanged. */
  lemma BoundaryOnlyUnchanged(s: seq<char>)
    requires forall i :: 0 <= i < |s| ==> IsChinese(s[i]) || IsBoundary(s[i])
    ensures RemoveDuplicateNonChinese(s) == s
  {
    BoundaryRuns(s);
    TrimAllBoundaries(NonChineseRuns(s));
    ShortPartsSkipped(s, TrimAll(NonChineseRuns(s)));
  }

  /** Only the first textual occurrence is rewritten, even when the fragment was found elsewhere. */
  lemma FirstOccurrenceOnly(text: seq<char>, part: seq<char>, np: seq<char>, i: nat)
    requires |part| >= 2 && Collapse(part) == Some(np)
    requires OccursAt(text, part, i) && forall q :: 0 <= q < i ==> !OccursAt(text, part, q)
    ensures DedupeOne(text, part) == text[..i] + np + text[i + |part|..]
  {
    assert DedupeOne(text, part) == ReplaceFirst(text, part, np);
  }
}
