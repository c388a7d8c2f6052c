/** remove_star_wrapped_chinese: six `re.sub` passes, each of which unwraps a run of Chinese characters
    from the `**` or single spaces around it. */
module Emphasis {
  import opened TextUtil

  /** Length of the run of Chinese characters at the head of `s`. */
  function ChineseRun(s: seq<char>): (k: nat)
    ensures k <= |s|
  {
    if |s| > 0 && IsChinese(s[0]) then 1 + ChineseRun(s[1..]) else 0
  }

  /** The run is all Chinese and ends at a character that is not. */
  lemma {:induction false} ChineseRunIsMaximal(s: seq<char>)
    ensures forall i :: 0 <= i < ChineseRun(s) ==> IsChinese(s[i])
    ensures ChineseRun(s) < |s| ==> !IsChinese(s[ChineseRun(s)])
    decreases |s|
  {
    if |s| > 0 && IsChinese(s[0]) {
      ChineseRunIsMaximal(s[1..]);
      forall i | 1 <= i < ChineseRun(s) ensures IsChinese(s[i]) {
        assert s[i] == s[1..][i - 1];
      }
    }
  }

  /** The pattern `pre([一-龥]+)post` matches at the head of `s` with a run of exactly `len`
      characters in the group. */
  predicate PatternMatches(s: seq<char>, pre: seq<char>, post: seq<char>, len: nat) {
    && 1 <= len
    && |pre| + len + |post| <= |s|
    && s[..|pre|] == pre
    && (forall i :: |pre| <= i < |pre| + len ==> IsChinese(s[i]))
    && s[|pre| + len..|pre| + len + |post|] == post
  }

  /** The regex engine's attempt at the head of `s`: after `pre`, the greedy class takes the whole run
      of Chinese characters, and the match succeeds when `post` follows it. */
  function MatchAt(s: seq<char>, pre: seq<char>, post: seq<char>): Option<nat> {
    if pre <= s then
      var len := ChineseRun(s[|pre|..]);
      if 1 <= len && post <= s[|pre| + len..] then Some(len) else None
    else None
  }

  /** A marker that starts with something other than a Chinese character: the greedy run can never give
      back a character that `post` would accept, so backtracking never finds another match. */
  predicate Delimiter(post: seq<char>) {
    |post| == 0 || !IsChinese(post[0])
  }

  /** A run of `len` Chinese characters at `from` is covered by the greedy run there. */
  lemma {:induction false} ChineseRunCovers(s: seq<char>, from: nat, len: nat)
    requires from + len <= |s|
    requires forall i :: from <= i < from + len ==> IsChinese(s[i])
    ensures len <= ChineseRun(s[from..])
    decreases len
  {
    if len > 0 {
      ChineseRunCovers(s, from + 1, len - 1);
      assert s[from..][1..] == s[from + 1..];
    }
  }

  /** The greedy run after `pre` is a match whenever `post` follows it. */
  lemma RunMatches(s: seq<char>, pre: seq<char>, post: seq<char>)
    requires pre <= s
    ensures var run := ChineseRun(s[|pre|..]);
      1 <= run && post <= s[|pre| + run..] ==> PatternMatches(s, pre, post, run)
  {
    var rest := s[|pre|..];
    var run := ChineseRun(rest);
    ChineseRunIsMaximal(rest);
    forall i | |pre| <= i < |pre| + run ensures IsChinese(s[i]) {
      assert s[i] == rest[i - |pre|];
    }
    if |pre| + run + |post| <= |s| {
      assert s[|pre| + run..][..|post|] == s[|pre| + run..|pre| + run + |post|];
    }
  }

  /** The greedy run after `pre` is a match whenever `post` follows it, and behind a delimiter no match
      is longer, nor shorter unless `post` is empty. */
  lemma GreedyRun(s: seq<char>, pre: seq<char>, post: seq<char>)
    requires pre <= s
    ensures var run := ChineseRun(s[|pre|..]);
      && (1 <= run && post <= s[|pre| + run..] ==> PatternMatches(s, pre, post, run))
      && (Delimiter(post) ==> forall len: nat :: PatternMatches(s, pre, post, len) ==>
            len <= run && (len < run ==> |post| == 0))
  {
    var rest := s[|pre|..];
    var run := ChineseRun(rest);
    ChineseRunIsMaximal(rest);
    if Delimiter(post) {
      forall len: nat | PatternMatches(s, pre, post, len)
        ensures len <= run && (len < run ==> |post| == 0)
      {
        ChineseRunCovers(s, |pre|, len);
        if |post| > 0 {
          assert rest[len] == s[|pre| + len] == post[0];
        }
      }
    }
    forall i | |pre| <= i < |pre| + run ensures IsChinese(s[i]) {
      assert s[i] == rest[i - |pre|];
    }
    if |pre| + run + |post| <= |s| {
      assert s[|pre| + run..][..|post|] == s[|pre| + run..|pre| + run + |post|];
    }
  }

  /** What the engine finds is what the regex means: a match is the longest run the pattern accepts,
      and there is none when the pattern accepts no run at all. */
  lemma MatchAtIsGreedyMatch(s: seq<char>, pre: seq<char>, post: seq<char>)
    requires Delimiter(post)
    ensures MatchAt(s, pre, post).Some? ==>
              && PatternMatches(s, pre, post, MatchAt(s, pre, post).value)
              && forall len: nat :: len > MatchAt(s, pre, post).value ==> !PatternMatches(s, pre, post, len)
    ensures MatchAt(s, pre, post).None? ==> forall len: nat :: !PatternMatches(s, pre, post, len)
  {
    if pre <= s {
      RunMatches(s, pre, post);
      GreedyRun(s, pre, post);
    } else {
      assert forall len: nat :: PatternMatches(s, pre, post, len) ==> pre <= s;
    }
  }

  /** One `re.sub(pre([一-龥]+)post, r'\1', text)`: scanning left to right, each match is
      replaced by its run and the scan resumes after the match; elsewhere characters are copied. */
  function SubPass(s: seq<char>, pre: seq<char>, post: seq<char>): (r: seq<char>)
    decreases |s|
  {
    if |s| == 0 then []
    else
      var m := MatchAt(s, pre, post);
      if m.Some? then s[|pre|..|pre| + m.value] + SubPass(s[|pre| + m.value + |post|..], pre, post)
      else [s[0]] + SubPass(s[1..], pre, post)
  }

  /** A marker made only of stars and spaces. */
  predicate Marks(m: seq<char>) {
    forall i :: 0 <= i < |m| ==> m[i] == '*' || m[i] == ' '
  }

  /** Neither a star nor a space. */
  predicate Unstarred(s: seq<char>) {
    forall i :: 0 <= i < |s| ==> s[i] != '*' && s[i] != ' '
  }

  /** Not a single Chinese character. */
  predicate NoChinese(s: seq<char>) {
    forall i :: 0 <= i < |s| ==> !IsChinese(s[i])
  }

  /** Everything but stars and spaces. */
  function Unmarked(s: seq<char>): seq<char> {
    Filter(c => c != '*' && c != ' ', s)
  }

  /** A match splits the text into the opening marker, the run, the closing marker and the rest. */
  lemma {:induction false} MatchDecomposes(s: seq<char>, pre: seq<char>, post: seq<char>, len: nat)
    requires MatchAt(s, pre, post) == Some(len)
    ensures |pre| + len + |post| <= |s|
    ensures forall i :: |pre| <= i < |pre| + len ==> IsChinese(s[i])
    ensures s == pre + (s[|pre|..|pre| + len] + (post + s[|pre| + len + |post|..]))
  {
    var rest := s[|pre|..];
    ChineseRunIsMaximal(rest);
    forall i | |pre| <= i < |pre| + len ensures IsChinese(s[i]) {
      assert s[i] == rest[i - |pre|];
    }
    assert s[|pre| + len..][..|post|] == post;
  }

  lemma UnmarkedSkipsMarks(m: seq<char>, x: seq<char>)
    requires Marks(m)
    ensures Unmarked(m + x) == Unmarked(x)
  {
    var keep := c => c != '*' && c != ' ';
    FilterAppend(keep, m, x);
    FilterAllDropped(keep, m);
  }

  lemma UnmarkedKeepsRun(run: seq<char>, x: seq<char>)
    requires forall i :: 0 <= i < |run| ==> IsChinese(run[i])
    ensures Unmarked(run + x) == run + Unmarked(x)
  {
    var keep := c => c != '*' && c != ' ';
    FilterAppend(keep, run, x);
    FilterAllKept(keep, run);
  }

  /** A match contributes its run to the unmarked text, and its markers nothing. */
  lemma UnmarkedMatch(s: seq<char>, pre: seq<char>, post: seq<char>, len: nat)
    requires Marks(pre) && Marks(post) && MatchAt(s, pre, post) == Some(len)
    ensures |pre| + len + |post| <= |s|
    ensures Unmarked(s) == s[|pre|..|pre| + len] + Unmarked(s[|pre| + len + |post|..])
  {
    MatchDecomposes(s, pre, post, len);
    var run := s[|pre|..|pre| + len];
    var rest := s[|pre| + len + |post|..];
    UnmarkedSkipsMarks(pre, run + (post + rest));
    UnmarkedKeepsRun(run, post + rest);
    UnmarkedSkipsMarks(post, rest);
  }

  /** Where the pass finds a match, what holds of the rest holds of the whole text. */
  lemma {:induction false} DropsMarksAtMatch(s: seq<char>, pre: seq<char>, post: seq<char>, len: nat)
    requires Marks(pre) && Marks(post) && MatchAt(s, pre, post) == Some(len)
    requires |pre| + len + |post| <= |s|
    requires var rest := s[|pre| + len + |post|..];
      |SubPass(rest, pre, post)| <= |rest| && Unmarked(SubPass(rest, pre, post)) == Unmarked(rest)
    ensures |SubPass(s, pre, post)| <= |s|
    ensures Unmarked(SubPass(s, pre, post)) == Unmarked(s)
  {
    var keep := c => c != '*' && c != ' ';
    var run := s[|pre|..|pre| + len];
    var rest := s[|pre| + len + |post|..];
    MatchDecomposes(s, pre, post, len);
    UnmarkedMatch(s, pre, post, len);
    SubPassAtMatch(s, pre, post, len);
    FilterAppend(keep, run, SubPass(rest, pre, post));
    forall i | 0 <= i < |run| ensures keep(run[i]) {
      assert run[i] == s[|pre| + i];
    }
    FilterAllKept(keep, run);
  }

  /** Where it finds none, likewise with the text after the first character. */
  lemma {:induction false} DropsMarksElsewhere(s: seq<char>, pre: seq<char>, post: seq<char>)
    requires |s| > 0 && MatchAt(s, pre, post).None?
    requires |SubPass(s[1..], pre, post)| <= |s| - 1
    requires Unmarked(SubPass(s[1..], pre, post)) == Unmarked(s[1..])
    ensures |SubPass(s, pre, post)| <= |s|
    ensures Unmarked(SubPass(s, pre, post)) == Unmarked(s)
  {
    var keep := c => c != '*' && c != ' ';
    assert s == [s[0]] + s[1..];
    FilterAppend(keep, [s[0]], s[1..]);
    FilterAppend(keep, [s[0]], SubPass(s[1..], pre, post));
  }

  /** A pass deletes the markers around each run and nothing else: apart from stars and spaces the
      text is unchanged, and it never grows. */
  lemma {:induction false} SubPassOnlyDropsMarks(s: seq<char>, pre: seq<char>, post: seq<char>)
    requires Marks(pre) && Marks(post)
    ensures |SubPass(s, pre, post)| <= |s|
    ensures Unmarked(SubPass(s, pre, post)) == Unmarked(s)
    decreases |s|
  {
    if |s| > 0 {
      var m := MatchAt(s, pre, post);
      if m.Some? {
        SubPassAtMatch(s, pre, post, m.value);
        SubPassOnlyDropsMarks(s[|pre| + m.value + |post|..], pre, post);
        DropsMarksAtMatch(s, pre, post, m.value);
      } else {
        SubPassOnlyDropsMarks(s[1..], pre, post);
        DropsMarksElsewhere(s, pre, post);
      }
    }
  }

  /** At a match the pass emits the run and resumes after the closing marker. */
  lemma {:induction false} SubPassAtMatch(s: seq<char>, pre: seq<char>, post: seq<char>, len: nat)
    requires MatchAt(s, pre, post) == Some(len)
    ensures |pre| + len + |post| <= |s|
    ensures SubPass(s, pre, post) == s[|pre|..|pre| + len] + SubPass(s[|pre| + len + |post|..], pre, post)
  {
  }

  /** A first character that cannot begin a match is copied: one that differs from the opening
      marker's first character, or, when there is no opening marker, one that is not Chinese. */
  lemma {:induction false} SubPassCopiesHead(s: seq<char>, pre: seq<char>, post: seq<char>)
    requires |s| > 0
    requires if |pre| > 0 then s[0] != pre[0] else !IsChinese(s[0])
    ensures SubPass(s, pre, post) == [s[0]] + SubPass(s[1..], pre, post)
  {
    if |pre| > 0 {
      assert !(pre <= s);
    } else {
      assert s[|pre|..] == s;
      assert ChineseRun(s) == 0;
    }
  }

  /** A pass leaves text without Chinese characters untouched, stars and spaces included: every
      pattern needs at least one Chinese character. */
  lemma {:induction false} SubPassNoChineseUnchanged(s: seq<char>, pre: seq<char>, post: seq<char>)
    requires NoChinese(s)
    ensures SubPass(s, pre, post) == s
    decreases |s|
  {
    if |s| > 0 {
      if pre <= s {
        var t := s[|pre|..];
        if |t| > 0 {
          assert t[0] == s[|pre|];
        }
        assert ChineseRun(t) == 0;
      }
      assert MatchAt(s, pre, post).None?;
      SubPassNoChineseUnchanged(s[1..], pre, post);
      assert [s[0]] + s[1..] == s;
    }
  }

  /** A pass leaves text that holds neither a star nor a space untouched. */
  lemma {:induction false} SubPassUnmarkedUnchanged(s: seq<char>, pre: seq<char>, post: seq<char>)
    requires |pre| + |post| > 0 && Marks(pre) && Marks(post)
    requires Unstarred(s)
    ensures SubPass(s, pre, post) == s
    decreases |s|
  {
    if |s| > 0 {
      if |pre| > 0 {
        assert s[0] != pre[0];
      } else {
        var len := ChineseRun(s);
        if len < |s| {
          assert s[len..][0] != post[0];
        }
      }
      assert MatchAt(s, pre, post).None?;
      SubPassUnmarkedUnchanged(s[1..], pre, post);
      assert [s[0]] + s[1..] == s;
    }
  }

  const Stars: seq<char> := "**"

  /** The six passes in the source's order: `**run**`, `**run`, `run**`, ` run `, `run `, ` run`. */
  const Passes: seq<(seq<char>, seq<char>)> :=
    [(Stars, Stars), (Stars, []), ([], Stars), (" ", " "), ([], " "), (" ", [])]

  function ApplyPasses(s: seq<char>, ps: seq<(seq<char>, seq<char>)>): seq<char>
    decreases |ps|
  {
    if |ps| == 0 then s else ApplyPasses(SubPass(s, ps[0].0, ps[0].1), ps[1..])
  }

  /** remove_star_wrapped_chinese removes only stars and spaces, never lengthens the text, and leaves
      alone text that has neither, and text that has no Chinese character to unwrap. */
  function RemoveStarWrappedChinese(s: seq<char>): (r: seq<char>)
    ensures |r| <= |s|
    ensures Unmarked(r) == Unmarked(s)
    ensures Unstarred(s) ==> r == s
    ensures NoChinese(s) ==> r == s
  {
    PassesAreMarked();
    ApplyPassesOnlyDropsMarks(s, Passes);
    if Unstarred(s) then
      ApplyPassesUnmarkedUnchanged(s, Passes);
      ApplyPasses(s, Passes)
    else if NoChinese(s) then
      ApplyPassesNoChineseUnchanged(s, Passes);
      ApplyPasses(s, Passes)
    else ApplyPasses(s, Passes)
  }

  /** Every pass has a star-or-space marker on at least one side of the run. */
  predicate MarkedPasses(ps: seq<(seq<char>, seq<char>)>) {
    forall k :: 0 <= k < |ps| ==> |ps[k].0| + |ps[k].1| > 0 && Marks(ps[k].0) && Marks(ps[k].1)
  }

  lemma {:induction false} ApplyPassesOnlyDropsMarks(s: seq<char>, ps: seq<(seq<char>, seq<char>)>)
    requires MarkedPasses(ps)
    ensures |ApplyPasses(s, ps)| <= |s|
    ensures Unmarked(ApplyPasses(s, ps)) == Unmarked(s)
    decreases |ps|
  {
    if |ps| > 0 {
      SubPassOnlyDropsMarks(s, ps[0].0, ps[0].1);
      ApplyPassesOnlyDropsMarks(SubPass(s, ps[0].0, ps[0].1), ps[1..]);
    }
  }

  lemma {:induction false} ApplyPassesUnmarkedUnchanged(s: seq<char>, ps: seq<(seq<char>, seq<char>)>)
    requires MarkedPasses(ps)
    requires Unstarred(s)
    ensures ApplyPasses(s, ps) == s
    decreases |ps|
  {
    if |ps| > 0 {
      SubPassUnmarkedUnchanged(s, ps[0].0, ps[0].1);
      ApplyPassesUnmarkedUnchanged(s, ps[1..]);
    }
  }

  lemma {:induction false} ApplyPassesNoChineseUnchanged(s: seq<char>, ps: seq<(seq<char>, seq<char>)>)
    requires NoChinese(s)
    ensures ApplyPasses(s, ps) == s
    decreases |ps|
  {
    if |ps| > 0 {
      SubPassNoChineseUnchanged(s, ps[0].0, ps[0].1);
      ApplyPassesNoChineseUnchanged(s, ps[1..]);
    }
  }

  lemma PassesAreMarked()
    ensures MarkedPasses(Passes)
  {
  }

  /** A run wrapped in the pass's markers is unwrapped, and the scan resumes after the closing marker. */
  lemma {:induction false} WrappedRunUnwrapped(pre: seq<char>, run: seq<char>, post: seq<char>, tail: seq<char>)
    requires |run| >= 1 && forall i :: 0 <= i < |run| ==> IsChinese(run[i])
    requires Delimiter(post + tail)
    ensures SubPass(pre + (run + (post + tail)), pre, post) == run + SubPass(tail, pre, post)
  {
    var s := pre + (run + (post + tail));
    WrappedRunMatches(pre, run, post, tail);
    SubPassAtMatch(s, pre, post, |run|);
    WrappedPieces(pre, run, post, tail);
  }

  /** The engine finds exactly the wrapped run. */
  lemma WrappedRunMatches(pre: seq<char>, run: seq<char>, post: seq<char>, tail: seq<char>)
    requires |run| >= 1 && forall i :: 0 <= i < |run| ==> IsChinese(run[i])
    requires Delimiter(post + tail)
    ensures MatchAt(pre + (run + (post + tail)), pre, post) == Some(|run|)
  {
    var u := post + tail;
    var m := run + u;
    WrappedPieces(pre, run, post, tail);
    ChineseRunCovers(m, 0, |run|);
    assert m[0..] == m;
    ChineseRunIsMaximal(m);
    if |u| > 0 {
      assert m[|run|] == u[0];
    }
  }

  /** The slices of a wrapped run that a pass looks at. */
  lemma WrappedPieces(pre: seq<char>, run: seq<char>, post: seq<char>, tail: seq<char>)
    ensures var s := pre + (run + (post + tail));
      && s[..|pre|] == pre
      && s[|pre|..] == run + (post + tail)
      && (run + (post + tail))[|run|..] == post + tail
      && (post + tail)[..|post|] == post
      && s[|pre|..|pre| + |run|] == run
      && s[|pre| + |run| + |post|..] == tail
  {
    var s := pre + (run + (post + tail));
    assert s[|pre|..|pre| + |run|] == run by {
      forall i | 0 <= i < |run| ensures s[|pre|..|pre| + |run|][i] == run[i] {
        assert s[|pre| + i] == run[i];
      }
    }
    assert s[|pre| + |run| + |post|..] == tail by {
      forall i | 0 <= i < |tail| ensures s[|pre| + |run| + |post|..][i] == tail[i] {
        assert s[|pre| + |run| + |post| + i] == tail[i];
      }
    }
  }

  /** Text that cannot begin the opening marker is copied through. */
  lemma {:induction false} SubPassCopiesPrefix(h: seq<char>, x: seq<char>, pre: seq<char>, post: seq<char>)
    requires |pre| > 0 && forall i :: 0 <= i < |h| ==> h[i] != pre[0]
    ensures SubPass(h + x, pre, post) == h + SubPass(x, pre, post)
    decreases |h|
  {
    if |h| > 0 {
      assert (h + x)[0] == h[0];
      SubPassCopiesHead(h + x, pre, post);
      assert (h + x)[1..] == h[1..] + x;
      SubPassCopiesPrefix(h[1..], x, pre, post);
      assert h == [h[0]] + h[1..];
    } else {
      assert h + x == x;
    }
  }

  /** A Chinese word in `**` between text with no stars or spaces loses its stars and nothing else
      changes: the first pass unwraps it, and the other five find nothing left to do. */
  lemma EmphasisUnwrapped(head: seq<char>, run: seq<char>, tail: seq<char>)
    requires Unstarred(head) && Unstarred(tail)
    requires |run| >= 1 && forall i :: 0 <= i < |run| ==> IsChinese(run[i])
    ensures RemoveStarWrappedChinese(head + (Stars + (run + (Stars + tail)))) == head + (run + tail)
  {
    var t := Stars + (run + (Stars + tail));
    assert (Stars + tail)[0] == '*';
    WrappedRunUnwrapped(Stars, run, Stars, tail);
    SubPassUnmarkedUnchanged(tail, Stars, Stars);
    SubPassCopiesPrefix(head, t, Stars, Stars);
    var r := head + (run + tail);
    assert Unstarred(r) by {
      forall i | 0 <= i < |r| ensures r[i] != '*' && r[i] != ' ' {
        if i < |head| {
          assert r[i] == head[i];
        } else if i < |head| + |run| {
          assert r[i] == run[i - |head|];
        } else {
          assert r[i] == tail[i - |head| - |run|];
        }
      }
    }
    PassesAreMarked();
    ApplyPassesUnmarkedUnchanged(r, Passes[1..]);
  }

  /** `这是**目标**需要` becomes `这是目标需要`. */
  lemma StarredWordExample()
    ensures RemoveStarWrappedChinese("这是**目标**需要") == "这是目标需要"
  {
    var head, run, tail := StarredWordPieces();
    EmphasisUnwrapped(head, run, tail);
  }

  /** The example's pieces: text, a Chinese word in bold, text. */
  lemma StarredWordPieces() returns (head: seq<char>, run: seq<char>, tail: seq<char>)
    ensures Unstarred(head) && Unstarred(tail)
    ensures |run| >= 1 && forall i :: 0 <= i < |run| ==> IsChinese(run[i])
    ensures "这是**目标**需要" == head + (Stars + (run + (Stars + tail)))
    ensures head + (run + tail) == "这是目标需要"
  {
    head, run, tail := "这是", "目标", "需要";
    assert IsChinese(run[0]) && IsChinese(run[1]);
  }

  /** Only stars next to a Chinese run go: `****中` keeps the first two stars. */
  lemma OuterStarsKept()
    ensures RemoveStarWrappedChinese("****中") == "**中"
  {
    var s, t := "****中", "**中";
    StarStageFirstTwo(s);
    OuterStarsFirstPass();
    OuterStarsSecondPass();
    LaterPassesLeaveStarredWord(t);
  }

  /** The star stage is the first two passes followed by the other four. */
  lemma StarStageFirstTwo(s: seq<char>)
    ensures RemoveStarWrappedChinese(s) == ApplyPasses(SubPass(SubPass(s, Stars, Stars), Stars, []), Passes[2..])
  {
    var s1 := SubPass(s, Stars, Stars);
    assert Passes[0] == (Stars, Stars);
    assert ApplyPasses(s, Passes) == ApplyPasses(s1, Passes[1..]);
    assert Passes[1..][0] == (Stars, []);
    assert Passes[1..][1..] == Passes[2..];
    assert ApplyPasses(s1, Passes[1..]) == ApplyPasses(SubPass(s1, Stars, []), Passes[2..]);
  }

  /** Passes that each leave the text alone leave it alone together. */
  lemma {:induction false} ApplyPassesFixed(t: seq<char>, ps: seq<(seq<char>, seq<char>)>)
    requires forall k :: 0 <= k < |ps| ==> SubPass(t, ps[k].0, ps[k].1) == t
    ensures ApplyPasses(t, ps) == t
    decreases |ps|
  {
    if |ps| > 0 {
      ApplyPassesFixed(t, ps[1..]);
    }
  }

  /** The last four passes leave `**中` alone. */
  lemma LaterPassesLeaveStarredWord(t: seq<char>)
    requires t == "**中"
    ensures ApplyPasses(t, Passes[2..]) == t
  {
    var ps := Passes[2..];
    forall k | 0 <= k < |ps| ensures SubPass(t, ps[k].0, ps[k].1) == t {
      PassesLeaveStarredWord(t, ps[k].0, ps[k].1);
    }
    ApplyPassesFixed(t, ps);
  }

  /** The first pass finds no `**run**` in `****中`. */
  lemma OuterStarsFirstPass()
    ensures SubPass("****中", Stars, Stars) == "****中"
  {
    var s := "****中";
    assert SubPass(s[4..], Stars, Stars) == s[4..];
    assert SubPass(s[3..], Stars, Stars) == s[3..];
    assert SubPass(s[2..], Stars, Stars) == s[2..];
    assert SubPass(s[1..], Stars, Stars) == s[1..];
  }

  /** The second pass unwraps the `**中` at its end. */
  lemma OuterStarsSecondPass()
    ensures SubPass("****中", Stars, []) == "**中"
  {
    var s := "****中";
    assert SubPass(s[2..], Stars, []) == "中";
    assert SubPass(s[1..], Stars, []) == "*中";
  }

  /** The passes after the second leave `**中` alone. */
  lemma PassesLeaveStarredWord(t: seq<char>, pre: seq<char>, post: seq<char>)
    requires t == "**中"
    requires (pre, post) in Passes[2..]
    ensures SubPass(t, pre, post) == t
  {
    assert SubPass(t[2..], pre, post) == t[2..];
    assert SubPass(t[1..], pre, post) == t[1..];
  }
}
