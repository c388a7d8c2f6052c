/** The two stages that treat `$...$` spans as mathematics and everything else as prose:
    replace_eng_with_chn_char, which turns ASCII punctuation in prose into full-width punctuation, and
    final_cleanup, which deletes `**`, spaces and ideographic spaces from prose. Both walk the text once,
    flipping a mode flag at every `$` and buffering the current segment. Each scanner is paired with a
    reference definition that splits the text at its first `$` and treats the pieces one by one. */
module MathModes {
  import opened TextUtil

  /** Position of the first `$`, if there is one. */
  function FirstDollar(s: seq<char>): (r: Option<nat>)
    ensures r.Some? ==> r.value < |s| && s[r.value] == '$' && '$' !in s[..r.value]
    ensures r.None? <==> '$' !in s
  {
    if |s| == 0 then None
    else if s[0] == '$' then Some(0)
    else
      var r := FirstDollar(s[1..]);
      if r.None? then None else Some(r.value + 1)
  }

  /** With no `$` in `p`, the first `$` of `p + s` is the first `$` of `s`, shifted by `|p|`. */
  lemma {:induction false} FirstDollarAfter(p: seq<char>, s: seq<char>)
    requires '$' !in p
    ensures FirstDollar(p + s).None? <==> FirstDollar(s).None?
    ensures FirstDollar(s).Some? ==> FirstDollar(p + s) == Some(|p| + FirstDollar(s).value)
    decreases |p|
  {
    if |p| == 0 {
      assert p + s == s;
    } else {
      assert (p + s)[0] == p[0];
      assert (p + s)[1..] == p[1..] + s;
      FirstDollarAfter(p[1..], s);
    }
  }

  /** The first `$` after a `$`-free piece is the one right after it. */
  lemma DollarAt(p: seq<char>, t: seq<char>)
    requires '$' !in p
    ensures FirstDollar(p + ("$" + t)) == Some(|p|)
  {
    FirstDollarAfter(p, "$" + t);
    assert FirstDollar("$" + t) == Some(0);
  }

  lemma SlicesAround(p: seq<char>, t: seq<char>)
    ensures (p + ("$" + t))[..|p|] == p && (p + ("$" + t))[|p| + 1..] == t
  {
  }

  /** A text with a `$` is the piece before its first `$`, the `$`, and the rest. */
  lemma SplitAtDollar(t: seq<char>) returns (p: seq<char>, q: seq<char>)
    requires '$' in t
    ensures t == p + ("$" + q) && '$' !in p
  {
    var d := FirstDollar(t).value;
    p, q := t[..d], t[d + 1..];
    assert t == t[..d] + ([t[d]] + t[d + 1..]);
  }

  // ---------------------------------------------------------------------------------------------
  // replace_eng_with_chn_char

  /** The full-width counterpart of an ASCII comma, full stop or colon; other characters are kept. */
  function PunctChar(c: char): char {
    if c == ',' then '，' else if c == '.' then '；' else if c == ':' then '：' else c
  }

  /** Every character replaced by its full-width counterpart. */
  function MapPunct(s: seq<char>): (r: seq<char>)
    ensures |r| == |s|
  {
    seq(|s|, i requires 0 <= i < |s| => PunctChar(s[i]))
  }

  /** `.replace(',', '，').replace('.', '；').replace(':', '：')`: the three replacements act
      character by character, so together they are MapPunct. */
  lemma ReplaceChainIsMapPunct(s: seq<char>)
    ensures ReplaceAll(ReplaceAll(ReplaceAll(s, ",", "，"), ".", "；"), ":", "：") == MapPunct(s)
  {
    var r1 := ReplaceAll(s, ",", "，");
    var r2 := ReplaceAll(r1, ".", "；");
    ReplaceCharPointwise(s, ',', '，');
    ReplaceCharPointwise(r1, '.', '；');
    ReplaceCharPointwise(r2, ':', '：');
  }

  lemma MapPunctAppend(a: seq<char>, b: seq<char>)
    ensures MapPunct(a + b) == MapPunct(a) + MapPunct(b)
  {
  }

  /** The loop of replace_eng_with_chn_char from the current character on, given the mode flag and
      the buffer: it yields everything still to be appended to the result. A `$` in prose flushes the
      buffer with the punctuation mapped and starts a new buffer with the `$`; a `$` in mathematics
      flushes the buffer and the `$` verbatim. At the end a non-empty buffer is flushed mapped,
      whatever the mode. */
  function PunctScan(s: seq<char>, inMath: bool, buf: seq<char>): (r: seq<char>)
    ensures |r| == |s| + |buf|
    decreases |s|
  {
    if |s| == 0 then (if |buf| > 0 then MapPunct(buf) else [])
    else if s[0] == '$' then
      if inMath then buf + "$" + PunctScan(s[1..], false, [])
      else MapPunct(buf) + PunctScan(s[1..], true, "$")
    else PunctScan(s[1..], inMath, buf + [s[0]])
  }

  /** replace_eng_with_chn_char: the scanner agrees with the reference definition. */
  function ReplaceEngWithChnChar(s: seq<char>): (r: seq<char>)
    ensures r == PunctSegments(s, false)
  {
    PunctScanIsSegments(s, false, []);
    assert [] + s == s;
    PunctScan(s, false, [])
  }

  /** Reference definition: the text up to the first `$` is mapped in prose and kept in mathematics,
      the `$` is kept, and the rest is treated in the other mode. The last piece is mapped in either
      mode, since an unclosed `$` still leaves its buffer to the final, mapping flush. */
  function PunctSegments(s: seq<char>, inMath: bool): seq<char>
    decreases |s|
  {
    var d := FirstDollar(s);
    if d.None? then MapPunct(s)
    else (if inMath then s[..d.value] else MapPunct(s[..d.value])) + ("$" + PunctSegments(s[d.value + 1..], !inMath))
  }

  /** What PunctScanIsSegments states of one position. */
  predicate PunctScanAgrees(s: seq<char>, inMath: bool, buf: seq<char>) {
    && (!inMath ==> PunctScan(s, inMath, buf) == PunctSegments(buf + s, false))
    && (inMath ==> PunctScan(s, inMath, buf) == (if '$' in s then buf else MapPunct(buf)) + PunctSegments(s, true))
  }

  lemma PunctEndStep(inMath: bool, buf: seq<char>)
    requires !inMath ==> '$' !in buf
    ensures PunctScanAgrees([], inMath, buf)
  {
    assert buf + [] == buf;
    assert MapPunct([]) == [];
    assert PunctSegments([], false) == [] && PunctSegments([], true) == [];
  }

  /** A `$` in mathematics closes the span: buffer and `$` go out verbatim. */
  lemma PunctCloseStep(s: seq<char>, buf: seq<char>)
    requires |s| > 0 && s[0] == '$'
    requires PunctScanAgrees(s[1..], false, [])
    ensures PunctScanAgrees(s, true, buf)
  {
    assert FirstDollar(s) == Some(0);
    assert s[..0] == [];
    assert [] + s[1..] == s[1..];
  }

  /** A `$` in prose opens a span: the buffer goes out mapped and the new buffer is `$`. */
  lemma PunctOpenStep(s: seq<char>, buf: seq<char>)
    requires |s| > 0 && s[0] == '$' && '$' !in buf
    requires PunctScanAgrees(s[1..], true, "$")
    ensures PunctScanAgrees(s, false, buf)
  {
    assert FirstDollar(s) == Some(0);
    FirstDollarAfter(buf, s);
    assert (buf + s)[..|buf|] == buf;
    assert (buf + s)[|buf| + 1..] == s[1..];
    if '$' !in s[1..] {
      assert FirstDollar(s[1..]).None?;
      MapPunctAppend("$", s[1..]);
      assert MapPunct("$") == "$";
      assert "$" + s[1..] == s;
    }
  }

  /** Any other character joins the buffer; in prose the buffer and the text are one segment anyway. */
  lemma PunctProseCharStep(s: seq<char>, buf: seq<char>)
    requires |s| > 0 && s[0] != '$' && '$' !in buf
    requires PunctScanAgrees(s[1..], false, buf + [s[0]])
    ensures PunctScanAgrees(s, false, buf)
  {
    assert buf + [s[0]] + s[1..] == buf + s;
  }

  /** In mathematics it joins the buffer too; with no closing `$` ahead everything left is mapped ... */
  lemma PunctMathCharUnclosed(s: seq<char>, buf: seq<char>)
    requires |s| > 0 && s[0] != '$' && '$' !in s
    requires PunctScanAgrees(s[1..], true, buf + [s[0]])
    ensures PunctScanAgrees(s, true, buf)
  {
    assert '$' !in s[1..] by { assert forall c :: c in s[1..] ==> c in s; }
    assert PunctScan(s, true, buf) == PunctScan(s[1..], true, buf + [s[0]]);
    DollarFreeSegment(s[1..], true);
    DollarFreeSegment(s, true);
    MapPunctShift(buf, s);
  }

  /** Without a `$` the reference maps everything, in either mode. */
  lemma DollarFreeSegment(s: seq<char>, inMath: bool)
    requires '$' !in s
    ensures PunctSegments(s, inMath) == MapPunct(s)
  {
    assert FirstDollar(s).None?;
  }

  /** Moving one character from the text to the buffer does not change what both map to. */
  lemma MapPunctShift(buf: seq<char>, s: seq<char>)
    requires |s| > 0
    ensures MapPunct(buf + [s[0]]) + MapPunct(s[1..]) == MapPunct(buf) + MapPunct(s)
  {
    MapPunctAppend(buf + [s[0]], s[1..]);
    MapPunctAppend(buf, s);
    assert buf + [s[0]] + s[1..] == buf + s;
  }

  /** ... and with one ahead, the span up to it is the same span. */
  lemma PunctMathCharClosed(s: seq<char>, buf: seq<char>)
    requires |s| > 0 && s[0] != '$' && '$' in s
    requires PunctScanAgrees(s[1..], true, buf + [s[0]])
    ensures PunctScanAgrees(s, true, buf)
  {
    assert s == [s[0]] + s[1..];
    assert '$' in s[1..];
    assert PunctScan(s, true, buf) == PunctScan(s[1..], true, buf + [s[0]]);
    PunctSegmentsMathChar(s[0], s[1..]);
    AppendAssoc(buf, [s[0]], PunctSegments(s[1..], true));
  }

  /** In prose the buffer and the rest of the text form one segment; in mathematics the buffer is
      flushed verbatim at the closing `$`, or mapped when there is none. */
  lemma {:induction false} PunctScanIsSegments(s: seq<char>, inMath: bool, buf: seq<char>)
    requires !inMath ==> '$' !in buf
    ensures PunctScanAgrees(s, inMath, buf)
    decreases |s|
  {
    if |s| == 0 {
      PunctEndStep(inMath, buf);
    } else if s[0] == '$' {
      if inMath {
        PunctScanIsSegments(s[1..], false, []);
        PunctCloseStep(s, buf);
      } else {
        PunctScanIsSegments(s[1..], true, "$");
        PunctOpenStep(s, buf);
      }
    } else {
      PunctScanIsSegments(s[1..], inMath, buf + [s[0]]);
      if inMath && '$' in s {
        PunctMathCharClosed(s, buf);
      } else if inMath {
        PunctMathCharUnclosed(s, buf);
      } else {
        PunctProseCharStep(s, buf);
      }
    }
  }

  /** `r` is `s` with some commas, full stops and colons made full-width, and nothing else changed. */
  predicate PunctOnly(s: seq<char>, r: seq<char>) {
    |r| == |s| && forall i :: 0 <= i < |s| ==> r[i] == s[i] || r[i] == PunctChar(s[i])
  }

  lemma PunctOnlyAppend(a: seq<char>, ra: seq<char>, b: seq<char>, rb: seq<char>)
    requires PunctOnly(a, ra) && PunctOnly(b, rb)
    ensures PunctOnly(a + b, ra + rb)
  {
    forall i | 0 <= i < |a + b| ensures (ra + rb)[i] == (a + b)[i] || (ra + rb)[i] == PunctChar((a + b)[i]) {
      if i < |a| {
        assert (ra + rb)[i] == ra[i] && (a + b)[i] == a[i];
      } else {
        assert (ra + rb)[i] == rb[i - |a|] && (a + b)[i] == b[i - |a|];
      }
    }
  }

  lemma PunctOnlyMapped(s: seq<char>)
    ensures PunctOnly(s, MapPunct(s))
  {
  }

  /** The reference changes nothing but punctuation, character for character. */
  lemma {:induction false} PunctSegmentsPointwise(s: seq<char>, inMath: bool)
    ensures PunctOnly(s, PunctSegments(s, inMath))
    decreases |s|
  {
    var d := FirstDollar(s);
    if d.None? {
      PunctOnlyMapped(s);
    } else {
      var k := d.value;
      var head := if inMath then s[..k] else MapPunct(s[..k]);
      if !inMath {
        PunctOnlyMapped(s[..k]);
      }
      PunctSegmentsPointwise(s[k + 1..], !inMath);
      PunctOnlyAround(s[..k], head, s[k + 1..], PunctSegments(s[k + 1..], !inMath));
      assert s[..k] + ("$" + s[k + 1..]) == s;
    }
  }

  /** Two pieces that change only punctuation, joined by a `$`. */
  lemma PunctOnlyAround(a: seq<char>, ra: seq<char>, b: seq<char>, rb: seq<char>)
    requires PunctOnly(a, ra) && PunctOnly(b, rb)
    ensures PunctOnly(a + ("$" + b), ra + ("$" + rb))
  {
    PunctOnlyAppend("$", "$", b, rb);
    PunctOnlyAppend(a, ra, "$" + b, "$" + rb);
  }

  /** replace_eng_with_chn_char keeps the length, keeps every `$` where it is and puts none elsewhere,
      and changes only commas, full stops and colons, each into its full-width counterpart. */
  lemma ReplaceEngPointwise(s: seq<char>)
    ensures |ReplaceEngWithChnChar(s)| == |s|
    ensures forall i :: 0 <= i < |s| ==>
              ReplaceEngWithChnChar(s)[i] == s[i] || ReplaceEngWithChnChar(s)[i] == PunctChar(s[i])
    ensures forall i :: 0 <= i < |s| ==> (ReplaceEngWithChnChar(s)[i] == '$' <==> s[i] == '$')
  {
    PunctSegmentsPointwise(s, false);
  }

  /** Text with no `$` is all prose: every comma, full stop and colon becomes full-width. */
  lemma ReplaceEngProse(s: seq<char>)
    requires '$' !in s
    ensures ReplaceEngWithChnChar(s) == MapPunct(s)
    ensures |ReplaceEngWithChnChar(s)| == |s|
    ensures forall i :: 0 <= i < |s| ==> ReplaceEngWithChnChar(s)[i] == PunctChar(s[i])
  {
  }

  /** The reference at a `$` that follows a `$`-free piece. */
  lemma {:induction false} PunctSegmentsAt(p: seq<char>, t: seq<char>, inMath: bool)
    requires '$' !in p
    ensures PunctSegments(p + ("$" + t), inMath) == (if inMath then p else MapPunct(p)) + ("$" + PunctSegments(t, !inMath))
  {
    DollarAt(p, t);
    SlicesAround(p, t);
  }

  /** In mathematics with a closing `$` ahead, a character other than `$` is copied. */
  lemma PunctSegmentsMathChar(c: char, t: seq<char>)
    requires c != '$' && '$' in t
    ensures PunctSegments([c] + t, true) == [c] + PunctSegments(t, true)
  {
    var p, q := SplitAtDollar(t);
    PunctSegmentsAt(p, q, true);
    PunctSegmentsAt([c] + p, q, true);
    AppendAssoc([c], p, "$" + q);
    AppendAssoc([c], p, "$" + PunctSegments(q, false));
  }

  /** A closed `$...$` span after a prose segment is copied verbatim, and the scan carries on in prose
      after it. */
  lemma ReplaceEngKeepsSpan(p: seq<char>, m: seq<char>, q: seq<char>)
    requires '$' !in p && '$' !in m
    ensures ReplaceEngWithChnChar(p + ("$" + (m + ("$" + q))))
              == MapPunct(p) + ("$" + (m + ("$" + ReplaceEngWithChnChar(q))))
  {
    PunctSegmentsAt(p, m + ("$" + q), false);
    PunctSegmentsAt(m, q, true);
  }

  /** An unclosed `$` does not protect what follows it: that tail is flushed with the punctuation
      mapped, like prose. */
  lemma ReplaceEngUnclosedSpan(p: seq<char>, m: seq<char>)
    requires '$' !in p && '$' !in m
    ensures ReplaceEngWithChnChar(p + ("$" + m)) == MapPunct(p) + ("$" + MapPunct(m))
  {
    PunctSegmentsAt(p, m, false);
  }

  // ---------------------------------------------------------------------------------------------
  // final_cleanup

  /** The ideographic space U+3000. */
  const IdeographicSpace: char := '\U{3000}'

  /** What is removed from a prose segment: `**` pairs first, then spaces, then ideographic spaces.
      Together this deletes every `**` and then every character that is a space of either kind. */
  function Clean(s: seq<char>): (r: seq<char>)
    ensures r == Filter(NotSpace, ReplaceAll(s, "**", ""))
    ensures |r| <= |s|
  {
    SpacesDeleted(ReplaceAll(s, "**", ""));
    ReplaceAll(ReplaceAll(ReplaceAll(s, "**", ""), " ", ""), [IdeographicSpace], "")
  }

  /** Deleting the spaces and then the ideographic spaces keeps exactly the other characters. */
  lemma SpacesDeleted(t: seq<char>)
    ensures ReplaceAll(ReplaceAll(t, " ", ""), [IdeographicSpace], "") == Filter(NotSpace, t)
  {
    DeleteCharIsFilter(t, ' ');
    DeleteCharIsFilter(ReplaceAll(t, " ", ""), IdeographicSpace);
    FilterFilter(c => c != IdeographicSpace, c => c != ' ', NotSpace, t);
  }

  /** Neither kind of space survives. */
  predicate NotSpace(c: char) {
    c != ' ' && c != IdeographicSpace
  }

  /** A cleaned segment holds no space of either kind, no more `$` than before, and is no longer. */
  lemma CleanSpec(s: seq<char>)
    ensures forall i :: 0 <= i < |Clean(s)| ==> NotSpace(Clean(s)[i])
    ensures |Clean(s)| <= |s|
    ensures Dollars(Clean(s)) == Dollars(s)
  {
    var r1 := ReplaceAll(s, "**", "");
    var r2 := ReplaceAll(r1, " ", "");
    ReplaceAllKeepsDollars(s, "**", "");
    ReplaceAllKeepsDollars(r1, " ", "");
    ReplaceAllKeepsDollars(r2, [IdeographicSpace], "");
  }

  /** The loop of final_cleanup from the current character on. A `$` in prose emits the cleaned buffer
      and the `$`; a `$` in mathematics emits the buffer and the `$` verbatim. At the end a non-empty
      buffer is emitted verbatim in mathematics and cleaned in prose. */
  function CleanScan(s: seq<char>, inMath: bool, buf: seq<char>): (r: seq<char>)
    ensures |r| <= |s| + |buf|
    decreases |s|
  {
    if |s| == 0 then (if |buf| > 0 then (if inMath then buf else Clean(buf)) else [])
    else if s[0] == '$' then
      if inMath then buf + ("$" + CleanScan(s[1..], false, []))
      else Clean(buf) + ("$" + CleanScan(s[1..], true, []))
    else CleanScan(s[1..], inMath, buf + [s[0]])
  }

  /** final_cleanup: the scanner agrees with the reference definition. */
  function FinalCleanup(s: seq<char>): (r: seq<char>)
    ensures r == CleanSegments(s, false)
  {
    CleanScanIsSegments(s, false, []);
    assert [] + s == s;
    CleanScan(s, false, [])
  }

  /** Reference definition: prose pieces are cleaned, mathematics pieces kept, every `$` kept; an
      unclosed span at the end is kept verbatim. */
  function CleanSegments(s: seq<char>, inMath: bool): seq<char>
    decreases |s|
  {
    var d := FirstDollar(s);
    if d.None? then (if inMath then s else Clean(s))
    else (if inMath then s[..d.value] else Clean(s[..d.value])) + ("$" + CleanSegments(s[d.value + 1..], !inMath))
  }

  /** The reference at a `$` that follows a `$`-free piece. */
  lemma {:induction false} CleanSegmentsAt(p: seq<char>, t: seq<char>, inMath: bool)
    requires '$' !in p
    ensures CleanSegments(p + ("$" + t), inMath) == (if inMath then p else Clean(p)) + ("$" + CleanSegments(t, !inMath))
  {
    DollarAt(p, t);
    SlicesAround(p, t);
  }

  /** In mathematics a character other than `$` is copied. */
  lemma CleanSegmentsMathChar(c: char, t: seq<char>)
    requires c != '$'
    ensures CleanSegments([c] + t, true) == [c] + CleanSegments(t, true)
  {
    if '$' in t {
      var p, q := SplitAtDollar(t);
      CleanSegmentsAt(p, q, true);
      CleanSegmentsAt([c] + p, q, true);
      AppendAssoc([c], p, "$" + q);
      AppendAssoc([c], p, "$" + CleanSegments(q, false));
    } else {
      assert FirstDollar(t).None? && FirstDollar([c] + t).None?;
    }
  }

  /** What CleanScanIsSegments states of one position: in prose the buffer and the rest of the text are
      one segment; in mathematics the buffer is emitted verbatim ahead of the rest. */
  predicate CleanScanAgrees(s: seq<char>, inMath: bool, buf: seq<char>) {
    && (!inMath ==> CleanScan(s, inMath, buf) == CleanSegments(buf + s, false))
    && (inMath ==> CleanScan(s, inMath, buf) == buf + CleanSegments(s, true))
  }

  lemma CleanEndStep(inMath: bool, buf: seq<char>)
    requires !inMath ==> '$' !in buf
    ensures CleanScanAgrees([], inMath, buf)
  {
    assert buf + [] == buf;
    assert Clean([]) == [];
    assert CleanSegments([], true) == [];
  }

  lemma CleanCloseStep(s: seq<char>, buf: seq<char>)
    requires |s| > 0 && s[0] == '$'
    requires CleanScanAgrees(s[1..], false, [])
    ensures CleanScanAgrees(s, true, buf)
  {
    assert s == [] + ("$" + s[1..]);
    CleanSegmentsAt([], s[1..], true);
    assert [] + s[1..] == s[1..];
  }

  lemma CleanOpenStep(s: seq<char>, buf: seq<char>)
    requires |s| > 0 && s[0] == '$' && '$' !in buf
    requires CleanScanAgrees(s[1..], true, [])
    ensures CleanScanAgrees(s, false, buf)
  {
    assert s == "$" + s[1..];
    CleanSegmentsAt(buf, s[1..], false);
    assert [] + CleanSegments(s[1..], true) == CleanSegments(s[1..], true);
  }

  lemma CleanCharStep(s: seq<char>, inMath: bool, buf: seq<char>)
    requires |s| > 0 && s[0] != '$'
    requires CleanScanAgrees(s[1..], inMath, buf + [s[0]])
    ensures CleanScanAgrees(s, inMath, buf)
  {
    assert CleanScan(s, inMath, buf) == CleanScan(s[1..], inMath, buf + [s[0]]);
    assert [s[0]] + s[1..] == s;
    if inMath {
      CleanSegmentsMathChar(s[0], s[1..]);
      AppendAssoc(buf, [s[0]], CleanSegments(s[1..], true));
    } else {
      AppendAssoc(buf, [s[0]], s[1..]);
    }
  }

  lemma {:induction false} CleanScanIsSegments(s: seq<char>, inMath: bool, buf: seq<char>)
    requires !inMath ==> '$' !in buf
    ensures CleanScanAgrees(s, inMath, buf)
    decreases |s|
  {
    if |s| == 0 {
      CleanEndStep(inMath, buf);
    } else if s[0] == '$' {
      if inMath {
        CleanScanIsSegments(s[1..], false, []);
        CleanCloseStep(s, buf);
      } else {
        CleanScanIsSegments(s[1..], true, []);
        CleanOpenStep(s, buf);
      }
    } else {
      CleanScanIsSegments(s[1..], inMath, buf + [s[0]]);
      CleanCharStep(s, inMath, buf);
    }
  }

  /** The reference never lengthens the text and keeps every `$`. */
  lemma {:induction false} CleanSegmentsBounds(s: seq<char>, inMath: bool)
    ensures |CleanSegments(s, inMath)| <= |s|
    ensures Dollars(CleanSegments(s, inMath)) == Dollars(s)
    decreases |s|
  {
    if '$' !in s {
      assert FirstDollar(s).None?;
      CleanSpec(s);
    } else {
      var p, t := SplitAtDollar(s);
      var x := if inMath then p else Clean(p);
      CleanSegmentsAt(p, t, inMath);
      CleanSpec(p);
      CleanSegmentsBounds(t, !inMath);
      DollarsAround(p, t);
      DollarsAround(x, CleanSegments(t, !inMath));
      assert |x| <= |p| && Dollars(x) == Dollars(p);
    }
  }

  lemma DollarsAround(a: seq<char>, b: seq<char>)
    ensures Dollars(a + ("$" + b)) == Dollars(a) + 1 + Dollars(b)
  {
    DollarsAppend(a, "$" + b);
    DollarsAppend("$", b);
  }

  /** final_cleanup never lengthens the text and keeps the number of `$`. */
  lemma FinalCleanupBounds(s: seq<char>)
    ensures |FinalCleanup(s)| <= |s|
    ensures Dollars(FinalCleanup(s)) == Dollars(s)
  {
    CleanSegmentsBounds(s, false);
  }

  /** Text with no `$` is all prose and comes out with no space of either kind. */
  lemma FinalCleanupProse(s: seq<char>)
    requires '$' !in s
    ensures FinalCleanup(s) == Clean(s)
    ensures forall i :: 0 <= i < |FinalCleanup(s)| ==> NotSpace(FinalCleanup(s)[i])
  {
    CleanSpec(s);
  }

  /** A closed `$...$` span after a prose segment is copied verbatim, spaces included, and cleaning
      resumes after it. */
  lemma FinalCleanupKeepsSpan(p: seq<char>, m: seq<char>, q: seq<char>)
    requires '$' !in p && '$' !in m
    ensures FinalCleanup(p + ("$" + (m + ("$" + q)))) == Clean(p) + ("$" + (m + ("$" + FinalCleanup(q))))
  {
    CleanSegmentsAt(p, m + ("$" + q), false);
    CleanSegmentsAt(m, q, true);
  }

  /** An unclosed `$` at the end keeps what follows it verbatim. */
  lemma FinalCleanupUnclosedSpan(p: seq<char>, m: seq<char>)
    requires '$' !in p && '$' !in m
    ensures FinalCleanup(p + ("$" + m)) == Clean(p) + ("$" + m)
  {
    CleanSegmentsAt(p, m, false);
    assert FirstDollar(m).None?;
  }

  /** `**` is removed before the spaces, so a star pair split by a space survives as `**`: prose can
      leave final_cleanup still holding `**`. */
  lemma CleanupCanLeaveStars()
    ensures FinalCleanup("* *") == "**"
  {
    var s := "* *";
    FinalCleanupProse(s);
    SpacedStarsHoldNoPair();
    SpacedStarsJoin();
    var r := ReplaceAll(s, " ", "");
    NoOccurrence(r, [IdeographicSpace]);
    ReplaceAllAbsent(r, [IdeographicSpace], "");
  }

  lemma SpacedStarsHoldNoPair()
    ensures ReplaceAll("* *", "**", "") == "* *"
  {
    var s := "* *";
    forall i ensures !OccursAt(s, "**", i) {
      if 0 <= i && i + 2 <= |s| {
        assert s[i..i + 2][1 - i] == ' ';
      }
    }
    ReplaceAllAbsent(s, "**", "");
  }

  lemma SpacedStarsJoin()
    ensures ReplaceAll("* *", " ", "") == "**"
  {
    var s := "* *";
    var a, b := s[2..], s[1..];
    assert a[..1] != " " && a[1..] == [];
    assert ReplaceAll(a, " ", "") == "*";
    assert b[..1] == " " && b[1..] == a;
    assert ReplaceAll(b, " ", "") == "*";
    assert s[..1] != " " && s[1..] == b;
  }

  /** ... and a second cleanup then removes it: the stage is not idempotent. */
  lemma CleanupRemovesStars()
    ensures FinalCleanup("**") == ""
  {
    var s := "**";
    FinalCleanupProse(s);
    assert ReplaceAll(s, "**", "") == "";
  }
}
