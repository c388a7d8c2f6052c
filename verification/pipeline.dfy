/** process_text: the eight repair stages applied one after another to the text a user copied. The
    control-character loop is the only stage that can fail to finish, so the whole pipeline yields
    an option. */
module Pipeline {
  import opened TextUtil
  import opened Escapes
  import opened Newline
  import opened Duplicate
  import opened Emphasis
  import opened MathModes

  /** The five stages after the control-character loop; each of them always finishes. */
  function LaterStages(s: seq<char>): seq<char> {
    FinalCleanup(ReplaceEngWithChnChar(RemoveStarWrappedChinese(RemoveDuplicateNonChinese(RemoveDoubleBackslashes(s)))))
  }

  /** process_text, from the text the raw-string conversion hands over. No stage lengthens the text,
      so neither does the pipeline. */
  function ProcessText(raw: seq<char>): (r: Option<seq<char>>)
    ensures r.Some? ==> |r.value| <= |raw|
  {
    var s1 := RemoveChnSymbols(raw);
    RemoveNewlineLength(s1);
    var s := RemoveUnicodeControlChar(RemoveNewlineChar(s1));
    if s.None? then None
    else
      var s6 := RemoveStarWrappedChinese(RemoveDuplicateNonChinese(RemoveDoubleBackslashes(s.value)));
      ReplaceEngPointwise(s6);
      FinalCleanupBounds(ReplaceEngWithChnChar(s6));
      Some(LaterStages(s.value))
  }

  /** The control-character loop can only spin on a backslash, so a text without one always comes
      through the pipeline. */
  lemma ProcessTextTotal(raw: seq<char>)
    requires '\\' !in raw
    ensures ProcessText(raw).Some?
  {
    var s1 := RemoveChnSymbols(raw);
    forall i | 0 <= i < |s1| ensures s1[i] != '\\' {
      assert raw[i] in raw;
    }
    NoMarkerUnchanged(s1);
    NoOccurrence(s1, ControlPrefix);
  }

  /** Text made only of Chinese characters. */
  predicate ChineseOnly(s: seq<char>) {
    forall c :: c in s ==> IsChinese(c)
  }

  /** On text of Chinese characters and `*`, the first five stages change nothing. */
  lemma EarlyStagesKeep(s: seq<char>)
    requires forall c :: c in s ==> IsChinese(c) || c == '*'
    ensures RemoveChnSymbols(s) == s
    ensures RemoveNewlineChar(s) == s
    ensures RemoveUnicodeControlChar(s) == Some(s)
    ensures RemoveDoubleBackslashes(s) == s
    ensures RemoveDuplicateNonChinese(s) == s
  {
    forall i | 0 <= i < |s| ensures IsChinese(s[i]) || s[i] == '*' {
      assert s[i] in s;
    }
    NoOccurrence(s, "。");
    ReplaceAllAbsent(s, "。", ".");
    NoMarkerUnchanged(s);
    NoOccurrence(s, ControlPrefix);
    NoOccurrence(s, "\\\\");
    ReplaceAllAbsent(s, "\\\\", "\\");
    BoundaryOnlyUnchanged(s);
  }

  /** On text of Chinese characters only, the last two stages change nothing. */
  lemma LateStagesKeep(s: seq<char>)
    requires ChineseOnly(s)
    ensures ReplaceEngWithChnChar(s) == s
    ensures FinalCleanup(s) == s
  {
    forall i | 0 <= i < |s| ensures IsChinese(s[i]) {
      assert s[i] in s;
    }
    ReplaceEngProse(s);
    assert ReplaceEngWithChnChar(s) == s;
    FinalCleanupProse(s);
    NoOccurrence(s, "**");
    ReplaceAllAbsent(s, "**", "");
    NoOccurrence(s, " ");
    ReplaceAllAbsent(s, " ", "");
    NoOccurrence(s, [IdeographicSpace]);
    ReplaceAllAbsent(s, [IdeographicSpace], "");
  }

  /** On text of Chinese characters and `*`, only the star stage and the two after it act. */
  lemma StarStageOnwards(s: seq<char>)
    requires forall c :: c in s ==> IsChinese(c) || c == '*'
    ensures ProcessText(s) == Some(FinalCleanup(ReplaceEngWithChnChar(RemoveStarWrappedChinese(s))))
  {
    EarlyStagesKeep(s);
  }

  /** Plain Chinese text passes through the whole pipeline unchanged. */
  lemma ChineseOnlyUnchanged(s: seq<char>)
    requires ChineseOnly(s)
    ensures ProcessText(s) == Some(s)
  {
    StarStageOnwards(s);
    forall i | 0 <= i < |s| ensures s[i] != '*' && s[i] != ' ' {
      assert s[i] in s;
    }
    LateStagesKeep(s);
  }

  /** Markdown bold around a Chinese word inside Chinese text is removed and nothing else changes. */
  lemma StarredRunUnwrapped(head: seq<char>, run: seq<char>, tail: seq<char>)
    requires ChineseOnly(head) && ChineseOnly(run) && ChineseOnly(tail) && |run| >= 1
    ensures ProcessText(head + (Stars + (run + (Stars + tail)))) == Some(head + (run + tail))
  {
    var s := head + (Stars + (run + (Stars + tail)));
    assert forall c :: c in s ==> IsChinese(c) || c == '*';
    StarStageOnwards(s);
    forall i | 0 <= i < |head| ensures head[i] != '*' && head[i] != ' ' {
      assert head[i] in head;
    }
    forall i | 0 <= i < |tail| ensures tail[i] != '*' && tail[i] != ' ' {
      assert tail[i] in tail;
    }
    forall i | 0 <= i < |run| ensures IsChinese(run[i]) {
      assert run[i] in run;
    }
    EmphasisUnwrapped(head, run, tail);
    LateStagesKeep(head + (run + tail));
  }

  /** The bold-word example the source prints. */
  lemma StarredWordExample()
    ensures ProcessText("这是**目标**需要实现的功能") == Some("这是目标需要实现的功能")
  {
    var head, run, tail := StarredWordPieces();
    StarredRunUnwrapped(head, run, tail);
  }

  /** The example's pieces: Chinese text, a Chinese word in bold, Chinese text. */
  lemma StarredWordPieces() returns (head: seq<char>, run: seq<char>, tail: seq<char>)
    ensures ChineseOnly(head) && ChineseOnly(run) && ChineseOnly(tail) && |run| >= 1
    ensures "这是**目标**需要实现的功能" == head + (Stars + (run + (Stars + tail)))
    ensures head + (run + tail) == "这是目标需要实现的功能"
  {
    head, run, tail := "这是", "目标", "需要实现的功能";
  }
}
