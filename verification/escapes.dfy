/** The three character-level repair stages: full stops, doubled backslashes and `\u20` control escapes. */
module Escapes {
  import opened TextUtil

  /** remove_chn_symbols: `text.replace("。", ".")`. Every full-width stop becomes an ASCII stop and
      nothing else moves or changes. */
  function RemoveChnSymbols(s: seq<char>): (r: seq<char>)
    ensures |r| == |s|
    ensures forall i :: 0 <= i < |s| ==> r[i] == (if s[i] == '。' then '.' else s[i])
    ensures '。' !in r
  {
    ReplaceCharPointwise(s, '。', '.');
    ReplaceAll(s, "。", ".")
  }

  /** remove_double_backslashes: `text.replace("\\\\", "\\")`. It never lengthens the text and keeps
      every non-backslash character, in order. */
  function RemoveDoubleBackslashes(s: seq<char>): (r: seq<char>)
    ensures |r| <= |s|
    ensures Filter(c => c != '\\', r) == Filter(c => c != '\\', s)
  {
    NonBackslashesKept(s);
    ReplaceAll(s, "\\\\", "\\")
  }

  /** `k` backslashes. */
  function Backslashes(k: nat): (r: seq<char>)
    ensures |r| == k && forall i :: 0 <= i < k ==> r[i] == '\\'
  {
    if k == 0 then [] else ['\\'] + Backslashes(k - 1)
  }

  /** A maximal run of `k` backslashes collapses to ceil(k/2) backslashes, and the scan then carries on
      with the rest of the text as if the run had not been there. */
  lemma {:induction false} BackslashRunCollapses(k: nat, rest: seq<char>)
    requires |rest| == 0 || rest[0] != '\\'
    ensures RemoveDoubleBackslashes(Backslashes(k) + rest) == Backslashes((k + 1) / 2) + RemoveDoubleBackslashes(rest)
    decreases k
  {
    if k == 0 {
      assert Backslashes(k) + rest == rest;
    } else if k == 1 {
      assert (k + 1) / 2 == 1 && Backslashes(1) == "\\";
      LoneBackslashKept(rest);
    } else {
      BackslashRunCollapses(k - 2, rest);
      BackslashPairStep(k, rest);
    }
  }

  /** Growing the run by two backslashes adds one to the output. */
  lemma BackslashPairStep(k: nat, rest: seq<char>)
    requires k >= 2
    requires RemoveDoubleBackslashes(Backslashes(k - 2) + rest) == Backslashes((k - 1) / 2) + RemoveDoubleBackslashes(rest)
    ensures RemoveDoubleBackslashes(Backslashes(k) + rest) == Backslashes((k + 1) / 2) + RemoveDoubleBackslashes(rest)
  {
    var t := Backslashes(k - 2) + rest;
    var h := (k - 1) / 2;
    assert (k + 1) / 2 == h + 1;
    PairCollapses(t);
    assert Backslashes(k) + rest == "\\\\" + t;
    assert Backslashes(h + 1) == "\\" + Backslashes(h);
    assert "\\" + (Backslashes(h) + RemoveDoubleBackslashes(rest))
        == ("\\" + Backslashes(h)) + RemoveDoubleBackslashes(rest);
  }

  /** A doubled backslash at the front becomes one, and the scan resumes after the pair. */
  lemma PairCollapses(t: seq<char>)
    ensures RemoveDoubleBackslashes("\\\\" + t) == "\\" + RemoveDoubleBackslashes(t)
  {
    var s := "\\\\" + t;
    assert s[..2] == "\\\\" && s[2..] == t;
  }

  /** A backslash not followed by another one stays, and the scan resumes after it. */
  lemma LoneBackslashKept(rest: seq<char>)
    requires |rest| == 0 || rest[0] != '\\'
    ensures RemoveDoubleBackslashes("\\" + rest) == "\\" + RemoveDoubleBackslashes(rest)
  {
    var s := "\\" + rest;
    if |rest| > 0 {
      assert s[..2] != "\\\\" by { assert s[1] == rest[0]; }
    }
    assert s[1..] == rest;
  }

  /** A character other than a backslash passes through and the scan carries on after it. */
  lemma OtherCharKept(c: char, rest: seq<char>)
    requires c != '\\'
    ensures RemoveDoubleBackslashes([c] + rest) == [c] + RemoveDoubleBackslashes(rest)
  {
    var s := [c] + rest;
    if |s| >= 2 {
      assert s[..2] != "\\\\" by { assert s[0] == c; }
    }
    assert s[1..] == rest;
  }

  /** Collapsing backslash pairs keeps the other characters. */
  lemma {:induction false} NonBackslashesKept(s: seq<char>)
    ensures Filter(c => c != '\\', ReplaceAll(s, "\\\\", "\\")) == Filter(c => c != '\\', s)
    decreases |s|
  {
    var f := c => c != '\\';
    if |s| < 2 {
    } else if s[..2] == "\\\\" {
      NonBackslashesKept(s[2..]);
      assert s == "\\\\" + s[2..];
      FilterAppend(f, "\\\\", s[2..]);
      FilterAppend(f, "\\", ReplaceAll(s[2..], "\\\\", "\\"));
    } else {
      NonBackslashesKept(s[1..]);
      assert s == [s[0]] + s[1..];
      FilterAppend(f, [s[0]], s[1..]);
      FilterAppend(f, [s[0]], ReplaceAll(s[1..], "\\\\", "\\"));
    }
  }

  /** The four characters `\u20` the control-character loop looks for. */
  const ControlPrefix: seq<char> := "\\u20"

  /** The regex `\\u20.{2}` matches at `p`: the prefix and two more characters, neither a newline
      (`.` does not match a newline without DOTALL). */
  predicate ControlMatchAt(s: seq<char>, p: int) {
    OccursAt(s, ControlPrefix, p) && p + 6 <= |s| && s[p + 4] != '\n' && s[p + 5] != '\n'
  }

  /** `re.search(r'\\u20.{2}', text)` starting at `from`: the leftmost match. */
  function FindControlFrom(s: seq<char>, from: nat): (r: Option<nat>)
    decreases |s| - from
    ensures r.Some? ==> from <= r.value && ControlMatchAt(s, r.value)
    ensures r.Some? ==> forall p :: from <= p < r.value ==> !ControlMatchAt(s, p)
    ensures r.None? ==> forall p :: from <= p ==> !ControlMatchAt(s, p)
  {
    if from + 6 > |s| then None
    else if ControlMatchAt(s, from) then Some(from)
    else FindControlFrom(s, from + 1)
  }

  /** remove_unicode_control_char. While `\u20` occurs, the leftmost `\u20` followed by two
      non-newline characters is cut out. When `\u20` occurs but no such match exists, the source's
      loop spins for ever; that outcome is `None`. */
  function RemoveUnicodeControlChar(s: seq<char>): (r: Option<seq<char>>)
    decreases |s|
    ensures r.Some? ==> IndexOf(r.value, ControlPrefix).None?
    ensures r.Some? ==> |r.value| <= |s|
    ensures IndexOf(s, ControlPrefix).None? ==> r == Some(s)
  {
    if IndexOf(s, ControlPrefix).None? then Some(s)
    else
      var m := FindControlFrom(s, 0);
      if m.None? then None else RemoveUnicodeControlChar(s[..m.value] + s[m.value + 6..])
  }

  /** Each pass of the loop cuts out exactly six characters. */
  lemma {:induction false} ControlCutsSixes(s: seq<char>)
    ensures RemoveUnicodeControlChar(s).Some? ==> (|s| - |RemoveUnicodeControlChar(s).value|) % 6 == 0
    decreases |s|
  {
    if IndexOf(s, ControlPrefix).Some? {
      var m := FindControlFrom(s, 0);
      if m.Some? {
        var t := s[..m.value] + s[m.value + 6..];
        ControlCutsSixes(t);
        var r := RemoveUnicodeControlChar(t);
        assert RemoveUnicodeControlChar(s) == r;
        if r.Some? {
          SixMore(|s| - |r.value|, |t| - |r.value|);
        }
      }
    }
  }

  lemma SixMore(a: int, b: int)
    requires a == b + 6 && b % 6 == 0
    ensures a % 6 == 0
  {
  }

  /** The loop's step: while `\u20` occurs, the leftmost match is cut out and the loop carries on with
      what is left. */
  lemma ControlCutsLeftmost(s: seq<char>, p: nat)
    requires ControlMatchAt(s, p) && forall q :: 0 <= q < p ==> !ControlMatchAt(s, q)
    ensures RemoveUnicodeControlChar(s) == RemoveUnicodeControlChar(s[..p] + s[p + 6..])
  {
    assert IndexOf(s, ControlPrefix).Some?;
    assert FindControlFrom(s, 0) == Some(p);
  }

  /** The loop's hang: `\u20` occurs but nowhere with two non-newline characters after it. */
  lemma ControlHangs(s: seq<char>)
    requires IndexOf(s, ControlPrefix).Some? && forall p :: !ControlMatchAt(s, p)
    ensures RemoveUnicodeControlChar(s) == None
  {
    assert FindControlFrom(s, 0) == None;
  }

  /** With one match and no `\u20` left once it is cut, the loop stops after that one pass. */
  lemma ControlCutOnce(s: seq<char>, p: nat)
    requires ControlMatchAt(s, p) && forall q :: 0 <= q < p ==> !ControlMatchAt(s, q)
    requires IndexOf(s[..p] + s[p + 6..], ControlPrefix).None?
    ensures RemoveUnicodeControlChar(s) == Some(s[..p] + s[p + 6..])
  {
    ControlCutsLeftmost(s, p);
  }

  /** `a\u20XYb` becomes `ab`. */
  lemma ControlCutExample()
    ensures RemoveUnicodeControlChar("a\\u20XYb") == Some("ab")
  {
    var s := "a\\u20XYb";
    assert ControlMatchAt(s, 1);
    assert !ControlMatchAt(s, 0) by { assert s[0] != '\\'; }
    var t := s[..1] + s[7..];
    assert t == "ab";
    NoOccurrence(t, ControlPrefix);
    ControlCutOnce(s, 1);
  }

  /** `x\u20y`: the only `\u20` has one character after it, so the loop hangs. */
  lemma TrailingControlDiverges()
    ensures RemoveUnicodeControlChar("x\\u20y") == None
  {
    var s := "x\\u20y";
    assert OccursAt(s, ControlPrefix, 1);
    assert !ControlMatchAt(s, 0) by { assert s[0] != '\\'; }
    ControlHangs(s);
  }

  /** `\u20\nab`: the only `\u20` is followed by a newline, which `.` does not match, so the loop
      hangs. */
  lemma NewlineAfterControlDiverges()
    ensures RemoveUnicodeControlChar("\\u20\nab") == None
  {
    var s := "\\u20\nab";
    assert OccursAt(s, ControlPrefix, 0);
    assert !ControlMatchAt(s, 0) by { assert s[4] == '\n'; }
    assert forall p :: !ControlMatchAt(s, p);
    ControlHangs(s);
  }
}
