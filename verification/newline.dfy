/** remove_newline_char: deletes the two-character escape `\n` except where it begins one of the
    allow-listed LaTeX commands. The text is viewed as the tiling `re.finditer(r'\\n[a-zA-Z]*')`
    produces: single characters between matches, and the matches themselves. */
module Newline {
  import opened TextUtil

  predicate IsAsciiLetter(c: char) {
    'a' <= c <= 'z' || 'A' <= c <= 'Z'
  }

  /** One tile of the text: a character outside every match, or a match `\n` + `letters`. */
  datatype Piece = Plain(c: char) | Marker(letters: seq<char>)

  /** The text a tile covers. */
  function Flatten(ps: seq<Piece>): seq<char> {
    if |ps| == 0 then []
    else (match ps[0] case Plain(c) => [c] case Marker(l) => "\\n" + l) + Flatten(ps[1..])
  }

  /** The escape `\n` starts at the head of `s`. */
  predicate MarkerAhead(s: seq<char>) {
    |s| >= 2 && s[0] == '\\' && s[1] == 'n'
  }

  /** Length of the run of ASCII letters the greedy `[a-zA-Z]*` takes. */
  function LetterRun(s: seq<char>): (k: nat)
    ensures k <= |s|
    ensures forall i :: 0 <= i < k ==> IsAsciiLetter(s[i])
    ensures k < |s| ==> !IsAsciiLetter(s[k])
  {
    if |s| > 0 && IsAsciiLetter(s[0]) then 1 + LetterRun(s[1..]) else 0
  }

  /** `re.finditer` over the whole text: a match wherever `\n` begins (taking every following letter),
      otherwise one plain character, scanning on after each. The tiles cover the text exactly. */
  function Tokenize(s: seq<char>): (ps: seq<Piece>)
    ensures Flatten(ps) == s
    decreases |s|
  {
    if |s| == 0 then []
    else if MarkerAhead(s) then
      var k := LetterRun(s[2..]);
      var rest := Tokenize(s[2 + k..]);
      var ps := [Marker(s[2..2 + k])] + rest;
      assert ps[1..] == rest;
      assert s[..2] == "\\n";
      CutTwice(s, 2, 2 + k);
      ps
    else
      var rest := Tokenize(s[1..]);
      var ps := [Plain(s[0])] + rest;
      assert ps[1..] == rest;
      assert s == [s[0]] + s[1..];
      ps
  }

  /** What finditer's tiling guarantees of two neighbouring tiles: a match took every letter after
      it, and no `\n` is split across two plain tiles. */
  predicate Neighbours(a: Piece, b: Piece) {
    && (a.Marker? && b.Plain? ==> !IsAsciiLetter(b.c))
    && (a == Plain('\\') ==> b != Plain('n'))
  }

  /** Every match's tail is letters, and every pair of neighbouring tiles is as the regex leaves them. */
  predicate WellTiled(ps: seq<Piece>) {
    |ps| == 0 ||
    (&& (ps[0].Marker? ==> forall j :: 0 <= j < |ps[0].letters| ==> IsAsciiLetter(ps[0].letters[j]))
     && (|ps| > 1 ==> Neighbours(ps[0], ps[1]))
     && WellTiled(ps[1..]))
  }

  /** The first tile of a non-empty text. */
  lemma TokenizeHead(s: seq<char>)
    requires |s| > 0
    ensures |Tokenize(s)| > 0
    ensures MarkerAhead(s) ==> Tokenize(s)[0].Marker?
    ensures !MarkerAhead(s) ==> Tokenize(s)[0] == Plain(s[0])
  {
  }

  /** Putting a tile in front of a well-tiled sequence. */
  lemma WellTiledCons(p: Piece, ps: seq<Piece>)
    requires p.Marker? ==> forall j :: 0 <= j < |p.letters| ==> IsAsciiLetter(p.letters[j])
    requires |ps| > 0 ==> Neighbours(p, ps[0])
    requires WellTiled(ps)
    ensures WellTiled([p] + ps)
  {
    assert ([p] + ps)[1..] == ps;
  }

  /** The tiles are the ones the regex finds. */
  lemma {:induction false} TokenizeWellTiled(s: seq<char>)
    ensures WellTiled(Tokenize(s))
    decreases |s|
  {
    if |s| == 0 {
    } else if MarkerAhead(s) {
      var k := LetterRun(s[2..]);
      var rest := s[2 + k..];
      var head := Marker(s[2..2 + k]);
      assert Tokenize(s) == [head] + Tokenize(rest);
      TokenizeWellTiled(rest);
      assert forall j :: 0 <= j < k ==> s[2..2 + k][j] == s[2..][j];
      if |rest| > 0 {
        TokenizeHead(rest);
        assert rest[0] == s[2..][k];
      }
      WellTiledCons(head, Tokenize(rest));
    } else {
      var head := Plain(s[0]);
      assert Tokenize(s) == [head] + Tokenize(s[1..]);
      TokenizeWellTiled(s[1..]);
      if |s| > 1 {
        TokenizeHead(s[1..]);
      }
      WellTiledCons(head, Tokenize(s[1..]));
    }
  }

  /** A run of letters ended by a non-letter (or by the end) is exactly what `[a-zA-Z]*` takes. */
  lemma {:induction false} LetterRunOf(l: seq<char>, rest: seq<char>)
    requires forall i :: 0 <= i < |l| ==> IsAsciiLetter(l[i])
    requires |rest| == 0 || !IsAsciiLetter(rest[0])
    ensures LetterRun(l + rest) == |l|
    decreases |l|
  {
    if |l| > 0 {
      assert (l + rest)[1..] == l[1..] + rest;
      LetterRunOf(l[1..], rest);
    } else {
      assert l + rest == rest;
    }
  }

  /** The LaTeX commands whose leading `\n` is not a line break. */
  const AllowedLatex: seq<seq<char>> := ["nabla", "neq", "nmid", "nparallel"]

  /** `any(m.startswith("\\" + name) for name in names)`. */
  predicate StartsWithAny(m: seq<char>, names: seq<seq<char>>) {
    |names| > 0 && (("\\" + names[0]) <= m || StartsWithAny(m, names[1..]))
  }

  /** The match text starts with a backslash and one of the allow-listed command names. */
  predicate IsAllowedCommand(m: seq<char>) {
    StartsWithAny(m, AllowedLatex)
  }

  /** What one tile becomes: allow-listed matches stay whole, other matches lose their `\n`. */
  function RenderPiece(p: Piece): seq<char> {
    match p
    case Plain(c) => [c]
    case Marker(l) => if IsAllowedCommand("\\n" + l) then "\\n" + l else l
  }

  function Render(ps: seq<Piece>): seq<char> {
    if |ps| == 0 then [] else RenderPiece(ps[0]) + Render(ps[1..])
  }

  /** remove_newline_char, in the shape of the source's loop: copy the gap before each match, then the
      whole match or only its letters. The loop treats each tile independently of the others, as
      RenderPiece says. */
  function RemoveNewlineChar(s: seq<char>): (r: seq<char>)
    ensures r == Render(Tokenize(s))
    decreases |s|
  {
    if |s| == 0 then []
    else if MarkerAhead(s) then
      var e := 2 + LetterRun(s[2..]);
      assert s[..e] == "\\n" + s[2..e];
      assert Tokenize(s)[1..] == Tokenize(s[e..]);
      (if IsAllowedCommand(s[..e]) then s[..e] else s[2..e]) + RemoveNewlineChar(s[e..])
    else
      assert Tokenize(s)[1..] == Tokenize(s[1..]);
      [s[0]] + RemoveNewlineChar(s[1..])
  }

  /** Number of matches that are not allow-listed. */
  function Dropped(ps: seq<Piece>): nat {
    if |ps| == 0 then 0
    else (if ps[0].Marker? && !IsAllowedCommand("\\n" + ps[0].letters) then 1 else 0) + Dropped(ps[1..])
  }

  lemma {:induction false} RenderLength(ps: seq<Piece>)
    ensures |Render(ps)| == |Flatten(ps)| - 2 * Dropped(ps)
    decreases |ps|
  {
    if |ps| > 0 {
      RenderLength(ps[1..]);
    }
  }

  /** The output is the input shortened by exactly two characters per match that is not allow-listed. */
  lemma RemoveNewlineLength(s: seq<char>)
    ensures |RemoveNewlineChar(s)| == |s| - 2 * Dropped(Tokenize(s))
  {
    RenderLength(Tokenize(s));
  }

  lemma {:induction false} RenderAllowedOnly(ps: seq<Piece>)
    requires Dropped(ps) == 0
    ensures Render(ps) == Flatten(ps)
    decreases |ps|
  {
    if |ps| > 0 {
      RenderAllowedOnly(ps[1..]);
    }
  }

  /** Text whose every match is an allow-listed command (in particular text with no `\n` at all)
      comes back unchanged, so on such text the stage is idempotent. */
  lemma AllowedOnlyUnchanged(s: seq<char>)
    requires Dropped(Tokenize(s)) == 0
    ensures RemoveNewlineChar(s) == s
    ensures RemoveNewlineChar(RemoveNewlineChar(s)) == RemoveNewlineChar(s)
  {
    RenderAllowedOnly(Tokenize(s));
  }

  /** Text that contains no `\n` escape at all is left unchanged. */
  lemma {:induction false} NoMarkerUnchanged(s: seq<char>)
    requires forall i :: 0 <= i < |s| - 1 ==> !(s[i] == '\\' && s[i + 1] == 'n')
    ensures Dropped(Tokenize(s)) == 0
    ensures RemoveNewlineChar(s) == s
    decreases |s|
  {
    if |s| > 0 {
      assert !MarkerAhead(s);
      NoMarkerUnchanged(s[1..]);
      assert Tokenize(s)[1..] == Tokenize(s[1..]);
      assert [s[0]] + s[1..] == s;
    }
  }

  /** One match with its letters `l`, ended by `rest`, is treated on its own. */
  lemma MarkerStep(l: seq<char>, rest: seq<char>)
    requires forall i :: 0 <= i < |l| ==> IsAsciiLetter(l[i])
    requires |rest| == 0 || !IsAsciiLetter(rest[0])
    ensures RemoveNewlineChar("\\n" + l + rest)
              == (if IsAllowedCommand("\\n" + l) then "\\n" + l else l) + RemoveNewlineChar(rest)
  {
    var s := "\\n" + l + rest;
    assert s[2..] == l + rest;
    LetterRunOf(l, rest);
    assert s[..2 + |l|] == "\\n" + l && s[2..2 + |l|] == l && s[2 + |l|..] == rest;
  }

  /** An allow-listed command survives whole, letters included. */
  lemma AllowedCommandKept()
    ensures RemoveNewlineChar("\\nabla+") == "\\nabla+"
  {
    var s := "\\nabla+";
    var l, rest := s[2..6], s[6..];
    assert s == "\\n" + l + rest;
    MarkerStep(l, rest);
    assert "\\n" + l == "\\" + AllowedLatex[0];
    assert RemoveNewlineChar(rest) == rest by { assert rest[1..] == []; }
  }

  /** Any other `\n` loses its two characters and keeps the letters after it. */
  lemma OtherEscapeLosesTwo()
    ensures RemoveNewlineChar("\\nfoo") == "foo"
  {
    var s := "\\nfoo";
    var l := s[2..];
    assert s == "\\n" + l + [];
    MarkerStep(l, []);
    assert "\\n" + l == s;
    assert s[2] == 'f';
    assert !StartsWithAny(s, AllowedLatex[4..]);
    assert !StartsWithAny(s, AllowedLatex[3..]);
    assert !StartsWithAny(s, AllowedLatex[2..]);
    assert !StartsWithAny(s, AllowedLatex[1..]);
    assert !IsAllowedCommand(s);
  }

  /** The stage is not idempotent in general: removing `\n` can join a backslash with a later `n`. */
  lemma NotIdempotent()
    ensures RemoveNewlineChar("\\\\nn") == "\\n"
    ensures RemoveNewlineChar(RemoveNewlineChar("\\\\nn")) == ""
  {
    var s := "\\\\nn";
    var l, m := s[3..], s[1..];
    assert m == "\\n" + l + [];
    MarkerStep(l, []);
    assert !StartsWithAny(m, AllowedLatex[4..]);
    assert !StartsWithAny(m, AllowedLatex[3..]);
    assert !StartsWithAny(m, AllowedLatex[2..]);
    assert !StartsWithAny(m, AllowedLatex[1..]);
    assert !IsAllowedCommand(m);
    assert "\\n" + l == m;
    assert RemoveNewlineChar(m) == l + [];
    assert s == [s[0]] + m;
    PlainStep(s[0], m);
    assert [s[0]] + l == "\\n";
    BareEscapeVanishes(RemoveNewlineChar(s));
  }

  /** A character that does not begin `\n` is copied through. */
  lemma PlainStep(c: char, rest: seq<char>)
    requires !MarkerAhead([c] + rest)
    ensures RemoveNewlineChar([c] + rest) == [c] + RemoveNewlineChar(rest)
  {
    assert ([c] + rest)[1..] == rest;
  }

  /** A `\n` followed by nothing is removed outright. */
  lemma BareEscapeVanishes(t: seq<char>)
    requires t == "\\n"
    ensures RemoveNewlineChar(t) == ""
  {
    assert t == "\\n" + [] + [];
    MarkerStep([], []);
    assert !IsAllowedCommand("\\n");
  }
}
