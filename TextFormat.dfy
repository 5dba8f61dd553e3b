/** The `textFormat` class (`src/formatText.py`, duplicated in
    `src/__init__.py`): the whitespace and control-character clean-up of
    `processar_texto`, `normalize_text`, `separate_chapter` and
    `standardize_chapters`. The regular expressions are matched by hand, in
    the order Python's backtracking engine tries the alternatives. */
module TextFormat {
  import opened Strings
  import Config

  // ---------------------------------------------------------------------------
  // Character classes and runs

  /** The regex class `[\x00-\x1F\x7F-\x9F]`: C0 and C1 control characters. */
  predicate IsControl(c: char)
  {
    c as int <= 0x1F || 0x7F <= c as int <= 0x9F
  }

  /** Where `str.splitlines` breaks a line. */
  predicate IsLineBreak(c: char)
  {
    var n := c as int;
    (10 <= n <= 13) || (28 <= n <= 30) || n == 0x85 || n == 0x2028 || n == 0x2029
  }

  predicate NoLineBreak(s: string)
  {
    forall i :: 0 <= i < |s| ==> !IsLineBreak(s[i])
  }

  /** The regex `.`: anything but a newline. */
  predicate NotNewline(c: char)
  {
    c != '\n'
  }

  /** The regex class `[A-Z0-9]` under `re.IGNORECASE`. */
  predicate IsChapterChar(c: char)
  {
    ('A' <= c <= 'Z') || ('a' <= c <= 'z') || IsDigit(c)
  }

  /** The end of the longest run of characters satisfying `p` from `i`: what
      a greedy `p*` consumes. */
  function RunEnd(s: string, i: nat, p: char -> bool): (r: nat)
    requires i <= |s|
    ensures i <= r <= |s|
    ensures forall k :: i <= k < r ==> p(s[k])
    ensures r < |s| ==> !p(s[r])
    decreases |s| - i
  {
    if i < |s| && p(s[i]) then RunEnd(s, i + 1, p) else i
  }

  /** A greedy run is where the characters stop satisfying `p`. */
  lemma {:induction false} RunEndAt(s: string, i: nat, j: nat, p: char -> bool)
    requires i <= j <= |s|
    requires forall k :: i <= k < j ==> p(s[k])
    requires j < |s| ==> !p(s[j])
    ensures RunEnd(s, i, p) == j
    decreases j - i
  {
    if i < j {
      RunEndAt(s, i + 1, j, p);
    }
  }

  /** A run read inside `t`, with text before and after it, ends at the same
      place, provided it ends inside `t`. */
  lemma {:induction false} RunEndIn(p: string, t: string, q: string, i: nat, f: char -> bool)
    requires i <= |t| && RunEnd(t, i, f) < |t|
    ensures RunEnd(p + t + q, |p| + i, f) == |p| + RunEnd(t, i, f)
  {
    var s := p + t + q;
    var e := RunEnd(t, i, f);
    assert forall k :: |p| + i <= k < |p| + e ==> s[k] == t[k - |p|];
    assert s[|p| + e] == t[e];
    RunEndAt(s, |p| + i, |p| + e, f);
  }

  /** A run read in `p + t` from inside `t` is the run in `t`, moved. */
  lemma {:induction false} RunEndShift(p: string, t: string, i: nat, f: char -> bool)
    requires i <= |t|
    ensures RunEnd(p + t, |p| + i, f) == |p| + RunEnd(t, i, f)
  {
    var s := p + t;
    var e := RunEnd(t, i, f);
    assert forall k :: |p| + i <= k < |p| + e ==> s[k] == t[k - |p|];
    if e < |t| {
      assert s[|p| + e] == t[e];
    }
    RunEndAt(s, |p| + i, |p| + e, f);
  }

  /** A run over all of `y` that stops at the first character of `z`. */
  lemma RunEndFirst(y: string, z: string, p: char -> bool)
    requires forall k :: 0 <= k < |y| ==> p(y[k])
    requires z != [] && !p(z[0])
    ensures RunEnd(y + z, 0, p) == |y|
  {
    var s := y + z;
    forall k | 0 <= k < |y| ensures p(s[k]) {
      assert s[k] == y[k];
    }
    assert s[|y|] == z[0];
    RunEndAt(s, 0, |y|, p);
  }

  /** The same run after a prefix `x`. */
  lemma RunEndAfter(x: string, y: string, z: string, p: char -> bool)
    requires forall k :: 0 <= k < |y| ==> p(y[k])
    requires z != [] && !p(z[0])
    ensures RunEnd(x + y + z, |x|, p) == |x| + |y|
  {
    var s := x + y + z;
    forall k | |x| <= k < |x| + |y| ensures p(s[k]) {
      assert s[k] == y[k - |x|];
    }
    assert s[|x| + |y|] == z[0];
    RunEndAt(s, |x|, |x| + |y|, p);
  }

  /** A run that ends inside `a`, or where `b` begins with a character
      outside the class, is not changed by appending `b`. */
  lemma RunEndPrefix(a: string, b: string, i: nat, f: char -> bool)
    requires i <= |a|
    requires RunEnd(a, i, f) < |a| || b == [] || !f(b[0])
    ensures RunEnd(a + b, i, f) == RunEnd(a, i, f)
  {
    var s := a + b;
    var e := RunEnd(a, i, f);
    assert forall k :: i <= k < e ==> s[k] == a[k];
    if e < |s| {
      assert s[e] == if e < |a| then a[e] else b[0];
    }
    RunEndAt(s, i, e, f);
  }

  /** `s` without any occurrence of `c`. */
  function Without(s: string, c: char): string
  {
    if s == [] then [] else (if s[0] == c then [] else [s[0]]) + Without(s[1..], c)
  }

  lemma {:induction false} WithoutAppend(a: string, b: string, c: char)
    ensures Without(a + b, c) == Without(a, c) + Without(b, c)
  {
    if a == [] {
      assert a + b == b;
    } else {
      assert (a + b)[1..] == a[1..] + b;
      WithoutAppend(a[1..], b, c);
    }
  }

  // ---------------------------------------------------------------------------
  // processar_texto: control characters out, whitespace runs to one space

  /** `re.sub(r"[\x00-\x1F\x7F-\x9F]", "", s)`. */
  function DropControl(s: string): (r: string)
    ensures |r| <= |s|
    ensures forall i :: 0 <= i < |r| ==> !IsControl(r[i]) && r[i] in s
  {
    if s == [] then []
    else
      var t := DropControl(s[1..]);
      assert forall i :: 0 <= i < |t| ==> t[i] in s by {
        forall i | 0 <= i < |t| ensures t[i] in s {
          assert t[i] in s[1..];
        }
      }
      (if IsControl(s[0]) then [] else [s[0]]) + t
  }

  /** Removing control characters changes a text exactly when it has one. */
  lemma {:induction false} DropControlFixedIff(s: string)
    ensures DropControl(s) == s <==> forall i :: 0 <= i < |s| ==> !IsControl(s[i])
  {
    if s != [] {
      DropControlFixedIff(s[1..]);
      if IsControl(s[0]) {
        assert |DropControl(s)| < |s|;
      } else {
        assert DropControl(s) == [s[0]] + DropControl(s[1..]);
        if DropControl(s) == s {
          assert DropControl(s[1..]) == s[1..];
        }
      }
    }
  }

  /** The clean-up at the start of `processar_texto`, before the abbreviation
      and number expansions. */
  function CleanText(s: string): string
  {
    CollapseWhitespace(DropControl(s))
  }

  /** A text with only plain, single spaces is left alone by collapsing. */
  lemma {:induction false} CollapseWhitespaceFixed(s: string)
    requires SingleSpaced(s)
    requires forall i :: 0 <= i < |s| ==> IsSpace(s[i]) ==> s[i] == ' '
    ensures CollapseWhitespace(s) == s
  {
    if s != [] {
      CollapseWhitespaceFixed(s[1..]);
    }
  }

  /** The cleaned text has no control character, no whitespace but the plain
      space, never two spaces side by side, and the same visible characters
      as the text without its control characters. */
  lemma {:induction false} CleanTextSpec(s: string)
    ensures var r := CleanText(s);
      && (forall i :: 0 <= i < |r| ==> !IsControl(r[i]))
      && (forall i :: 0 <= i < |r| ==> IsSpace(r[i]) ==> r[i] == ' ')
      && SingleSpaced(r)
      && NonSpace(r) == NonSpace(DropControl(s))
  {
    var d := DropControl(s);
    CollapseWhitespaceSpec(d);
    var r := CollapseWhitespace(d);
    forall i | 0 <= i < |r| ensures !IsControl(r[i]) {
      if r[i] != ' ' {
        var j :| 0 <= j < |d| && d[j] == r[i];
      }
    }
  }

  /** Cleaning twice is cleaning once. */
  lemma {:induction false} CleanTextIdempotent(s: string)
    ensures CleanText(CleanText(s)) == CleanText(s)
  {
    var r := CleanText(s);
    CleanTextSpec(s);
    DropControlFixedIff(r);
    CollapseWhitespaceFixed(r);
  }

  lemma {:induction false} DropControlAppend(a: string, b: string)
    ensures DropControl(a + b) == DropControl(a) + DropControl(b)
  {
    if a != [] {
      assert (a + b)[0] == a[0];
      assert (a + b)[1..] == a[1..] + b;
      DropControlAppend(a[1..], b);
    } else {
      assert a + b == b;
    }
  }

  /** A kept last character stays last. */
  lemma DropControlLast(x: string)
    requires x != [] && !IsControl(x[|x| - 1])
    ensures var d := DropControl(x); d != [] && d[|d| - 1] == x[|x| - 1]
  {
    var last := x[|x| - 1];
    assert x == x[..|x| - 1] + [last];
    DropControlAppend(x[..|x| - 1], [last]);
    assert [last][1..] == [];
  }

  /** A control character is deleted wherever it stands, so the text around
      it closes up. */
  lemma CleanTextDropsControl(x: string, c: char, y: string)
    requires IsControl(c)
    ensures CleanText(x + [c] + y) == CleanText(x + y)
  {
    assert [c][1..] == [];
    assert DropControl([c]) == [];
    DropControlAppend(x, [c]);
    assert DropControl(x + [c]) == DropControl(x);
    DropControlAppend(x + [c], y);
    DropControlAppend(x, y);
    assert DropControl(x + [c] + y) == DropControl(x + y);
  }

  /** A maximal run of (non-control) whitespace between two visible
      characters becomes one space, and the text on each side is cleaned on
      its own. */
  lemma CleanTextLayout(x: string, ws: string, y: string)
    requires x == [] || (!IsSpace(x[|x| - 1]) && !IsControl(x[|x| - 1]))
    requires ws != [] && AllSpace(ws) && forall i :: 0 <= i < |ws| ==> !IsControl(ws[i])
    requires y == [] || (!IsSpace(y[0]) && !IsControl(y[0]))
    ensures CleanText(x + ws + y) == CleanText(x) + " " + CleanText(y)
  {
    var dx, dy := DropControl(x), DropControl(y);
    assert DropControl(x + ws + y) == dx + ws + dy by {
      DropControlAppend(x + ws, y);
      DropControlAppend(x, ws);
      DropControlFixedIff(ws);
    }
    if x != [] {
      DropControlLast(x);
    }
    if y != [] {
      assert dy[0] == y[0];
    }
    Strings.CollapseLayout(dx, ws, dy);
  }

  // ---------------------------------------------------------------------------
  // normalize_text

  /** Python's `str.splitlines()`: lines without their terminators ("\r\n"
      counts as one), and no empty line after a final terminator. */
  function SplitLines(s: string): (r: seq<string>)
    ensures forall j :: 0 <= j < |r| ==> NoLineBreak(r[j])
    decreases |s|
  {
    if s == [] then []
    else
      var e := RunEnd(s, 0, c => !IsLineBreak(c));
      if e == |s| then [s]
      else
        var next := if s[e] == '\r' && e + 1 < |s| && s[e + 1] == '\n' then e + 2 else e + 1;
        [s[..e]] + SplitLines(s[next..])
  }

  /** Joining break-free lines with "\n" and splitting again gives the lines
      back, unless the last line is empty (Python drops it). */
  lemma {:induction false} SplitLinesOfJoin(lines: seq<string>)
    requires forall j :: 0 <= j < |lines| ==> NoLineBreak(lines[j])
    requires lines != [] ==> lines[|lines| - 1] != []
    ensures SplitLines(Join("\n", lines)) == lines
  {
    if |lines| == 1 {
      var s := lines[0];
      var e := RunEnd(s, 0, c => !IsLineBreak(c));
      assert e == |s|;
    } else if |lines| > 1 {
      var rest := Join("\n", lines[1..]);
      var s := lines[0] + "\n" + rest;
      assert Join("\n", lines) == s;
      var e := RunEnd(s, 0, c => !IsLineBreak(c));
      assert e == |lines[0]| by {
        assert forall k :: 0 <= k < |lines[0]| ==> s[k] == lines[0][k];
        assert s[|lines[0]|] == '\n';
      }
      assert s[..e] == lines[0];
      assert s[e + 1..] == rest;
      SplitLinesOfJoin(lines[1..]);
      assert SplitLines(s) == [lines[0]] + SplitLines(rest);
    }
  }

  /** One line of `normalize_text`: an all-upper-case line whose stripped
      length is over 3 is capitalised. */
  function NormalizeLine(line: string): string
  {
    if IsUpperString(line) && |Strip(line)| > 3 then Capitalize(line) else line
  }

  /** An ordinal heading is not all upper case: the ordinal indicator is a
      lower-case letter, so the line is kept. */
  lemma OrdinalHeadingKept()
    ensures NormalizeLine("2º CAPÍTULO") == "2º CAPÍTULO"
  {
    assert IsLowerChar("2º CAPÍTULO"[1]);
  }

  function NormalizeLines(lines: seq<string>): (r: seq<string>)
    ensures |r| == |lines|
  {
    seq(|lines|, i requires 0 <= i < |lines| => NormalizeLine(lines[i]))
  }

  /** `normalize_text`: the loop appending each line, normalised, to
      `final_text`, then the "\n" join. */
  method NormalizeText(text: string) returns (r: string)
    ensures r == Join("\n", NormalizeLines(SplitLines(text)))
  {
    var lines := SplitLines(text);
    var finalText: seq<string> := [];
    for i := 0 to |lines|
      invariant finalText == NormalizeLines(lines[..i])
    {
      finalText := finalText + [NormalizeLine(lines[i])];
    }
    assert lines[..|lines|] == lines;
    r := Join("\n", finalText);
  }

  /** Capitalising an all-upper-case line keeps its first character and
      lower-cases the others, so only letter case changes, and a second
      letter stops it from being all upper case. */
  lemma {:induction false} CapitalizeUpperLine(line: string)
    requires IsUpperString(line)
    ensures var r := Capitalize(line);
      && |r| == |line| && r[0] == line[0]
      && (forall i :: 1 <= i < |line| ==> r[i] == ToLowerChar(line[i]))
      && Lower(r) == Lower(line)
  {
    var r := Capitalize(line);
    assert !IsLowerChar(line[0]);
    assert r[0] == line[0];
    forall i | 1 <= i < |line| ensures r[i] == ToLowerChar(line[i]) {
      assert r[i] == Lower(line[1..])[i - 1];
    }
    forall i | 0 <= i < |line| ensures Lower(r)[i] == Lower(line)[i] {
      if i > 0 {
        ToLowerCharIdempotent(line[i]);
      }
    }
  }

  lemma {:induction false} ToLowerCharIdempotent(c: char)
    ensures ToLowerChar(ToLowerChar(c)) == ToLowerChar(c)
  {
  }

  /** A capitalised line that differs from the all-upper-case original has
      a lower-case letter. */
  lemma {:induction false} CapitalizedNotUpper(line: string)
    requires IsUpperString(line)
    requires Capitalize(line) != line
    ensures !IsUpperString(Capitalize(line))
  {
    CapitalizeUpperLine(line);
    var r := Capitalize(line);
    var i :| 0 <= i < |line| && r[i] != line[i];
    assert i > 0;
    assert IsCased(line[i]);
    assert IsLowerChar(r[i]);
  }

  /** Case mapping never produces a line break. */
  lemma {:induction false} NormalizeLineNoBreak(line: string)
    requires NoLineBreak(line)
    ensures NoLineBreak(NormalizeLine(line))
  {
    var r := NormalizeLine(line);
    if r != line {
      CapitalizeUpperLine(line);
      forall i | 0 <= i < |r| ensures !IsLineBreak(r[i]) {
        assert !IsLineBreak(line[i]);
        if i > 0 {
          LowerNoBreak(line[i]);
        }
      }
    }
  }

  /** Lower-casing a character that is not a line break gives none. */
  lemma LowerNoBreak(c: char)
    requires !IsLineBreak(c)
    ensures !IsLineBreak(ToLowerChar(c))
  {
  }

  /** A normalised line differs from the original only in letter case, is
      changed only when it is all upper case with more than 3 characters
      once stripped, and is then no longer all upper case if it has a
      second letter. */
  lemma {:induction false} NormalizeLineSpec(line: string)
    ensures var r := NormalizeLine(line);
      && |r| == |line| && Lower(r) == Lower(line)
      && (r != line ==> IsUpperString(line) && |Strip(line)| > 3)
      && (IsUpperString(line) && |Strip(line)| > 3 && (exists i :: 1 <= i < |line| && IsCased(line[i]))
          ==> r != line && !IsUpperString(r))
  {
    var r := NormalizeLine(line);
    if IsUpperString(line) && |Strip(line)| > 3 {
      CapitalizeUpperLine(line);
      if i :| 1 <= i < |line| && IsCased(line[i]) {
        assert IsUpperChar(line[i]);
        assert IsLowerChar(r[i]);
        CapitalizedNotUpper(line);
      }
    }
  }

  /** Normalising a line twice is normalising it once. */
  lemma {:induction false} NormalizeLineIdempotent(line: string)
    ensures NormalizeLine(NormalizeLine(line)) == NormalizeLine(line)
  {
    if NormalizeLine(line) != line {
      CapitalizedNotUpper(line);
    }
  }

  /** `normalize_text` keeps the lines of a text whose last line is not
      empty, and normalises each of them in place. */
  lemma {:induction false} NormalizeTextLines(text: string, r: string)
    requires r == Join("\n", NormalizeLines(SplitLines(text)))
    requires SplitLines(text) != [] ==> SplitLines(text)[|SplitLines(text)| - 1] != []
    ensures |SplitLines(r)| == |SplitLines(text)|
    ensures forall i :: 0 <= i < |SplitLines(text)| ==> SplitLines(r)[i] == NormalizeLine(SplitLines(text)[i])
  {
    NormalizedLinesRoundTrip(SplitLines(text));
  }

  /** The lines of a normalised text, split again, are the normalised lines. */
  lemma {:induction false} NormalizedLinesRoundTrip(lines: seq<string>)
    requires forall j :: 0 <= j < |lines| ==> NoLineBreak(lines[j])
    requires lines != [] ==> lines[|lines| - 1] != []
    ensures SplitLines(Join("\n", NormalizeLines(lines))) == NormalizeLines(lines)
  {
    var out := NormalizeLines(lines);
    forall j | 0 <= j < |out| ensures NoLineBreak(out[j]) {
      NormalizeLineNoBreak(lines[j]);
    }
    SplitLinesOfJoin(out);
  }

  // ---------------------------------------------------------------------------
  // separate_chapter

  /** The letters "CAP", 'I' or 'Í', "TULO" at `i`, case as written. */
  predicate CapituloExactAt(s: string, i: nat)
  {
    i + 8 <= |s| && s[i..i + 3] == "CAP" && (s[i + 3] == 'I' || s[i + 3] == 'Í')
    && s[i + 4..i + 8] == "TULO"
  }

  /** The length of a match of `CAP[IÍ]TULO\s+\d+:` at the start of `u`. */
  function MarkLength(u: string): (r: Option<nat>)
    ensures r.Some? ==> 11 <= r.value <= |u|
  {
    if !CapituloExactAt(u, 0) then None
    else
      var a := RunEnd(u, 8, IsSpace);
      if a == 8 then None
      else
        var b := RunEnd(u, a, IsDigit);
        if b == a || b == |u| || u[b] != ':' then None else Some(b + 1)
  }

  /** `re.sub(r"(CAP[IÍ]TULO\s+\d+:)", r"\n\n\1", u)`: the scan resumes
      after each match. */
  function Separate(u: string): string
    decreases |u|
  {
    if u == [] then []
    else match MarkLength(u)
      case Some(n) => "\n\n" + u[..n] + Separate(u[n..])
      case None => [u[0]] + Separate(u[1..])
  }

  /** `separate_chapter`. */
  function SeparateChapter(s: string): string
  {
    Separate(s)
  }

  /** How many chapter marks the scan finds. */
  function MarkCount(u: string): nat
    decreases |u|
  {
    if u == [] then 0
    else match MarkLength(u)
      case Some(n) => 1 + MarkCount(u[n..])
      case None => MarkCount(u[1..])
  }

  /** The scan adds exactly two characters per chapter mark. */
  lemma {:induction false} SeparateLength(u: string)
    ensures |Separate(u)| == |u| + 2 * MarkCount(u)
    decreases |u|
  {
    if u != [] {
      match MarkLength(u)
      case Some(n) => SeparateLength(u[n..]);
      case None => SeparateLength(u[1..]);
    }
  }

  /** Erasing the newlines of the separated text and of the original gives
      the same text: only newlines are inserted. */
  lemma {:induction false} SeparateNewlines(u: string)
    ensures Without(Separate(u), '\n') == Without(u, '\n')
    decreases |u|
  {
    if u != [] {
      match MarkLength(u)
      case Some(n) =>
        SeparateNewlines(u[n..]);
        MarkNewlines(u, n, Separate(u[n..]));
      case None =>
        SeparateNewlines(u[1..]);
        assert u == [u[0]] + u[1..];
        WithoutAppend([u[0]], u[1..], '\n');
        WithoutAppend([u[0]], Separate(u[1..]), '\n');
    }
  }

  lemma {:induction false} MarkNewlines(u: string, n: nat, rest: string)
    requires n <= |u|
    requires Without(rest, '\n') == Without(u[n..], '\n')
    ensures Without("\n\n" + u[..n] + rest, '\n') == Without(u, '\n')
  {
    assert "\n\n" + u[..n] + rest == "\n\n" + (u[..n] + rest);
    WithoutAppend("\n\n", u[..n] + rest, '\n');
    WithoutAppend(u[..n], rest, '\n');
    assert Without("\n\n", '\n') == [] by {
      assert "\n\n"[1..] == "\n";
      assert "\n"[1..] == [];
    }
    assert u == u[..n] + u[n..];
    WithoutAppend(u[..n], u[n..], '\n');
  }

  /** The whole-text form: two newlines per chapter mark and nothing else. */
  lemma SeparateChapterSpec(s: string)
    ensures |SeparateChapter(s)| == |s| + 2 * MarkCount(s)
    ensures Without(SeparateChapter(s), '\n') == Without(s, '\n')
  {
    SeparateLength(s);
    SeparateNewlines(s);
  }

  /** A text in which "CAPITULO"/"CAPÍTULO" (as written) never occurs is
      returned unchanged. */
  lemma {:induction false} SeparateNoMarks(u: string)
    requires forall k: nat :: !CapituloExactAt(u, k)
    ensures Separate(u) == u
    decreases |u|
  {
    if u != [] {
      forall k: nat ensures !CapituloExactAt(u[1..], k) {
        if k + 8 <= |u[1..]| {
          assert !CapituloExactAt(u, k + 1);
          assert u[1..][k..k + 3] == u[k + 1..k + 4];
          assert u[1..][k + 4..k + 8] == u[k + 5..k + 9];
        }
      }
      SeparateNoMarks(u[1..]);
      assert u == [u[0]] + u[1..];
    }
  }

  /** A whole mark stays a whole mark, whatever follows it. */
  lemma MarkLengthPrefix(m: string, b: string)
    requires MarkLength(m) == Some(|m|)
    ensures MarkLength(m + b) == Some(|m|)
  {
    var s := m + b;
    assert s[..3] == m[..3] && s[3] == m[3] && s[4..8] == m[4..8];
    var a := RunEnd(m, 8, IsSpace);
    RunEndPrefix(m, b, 8, IsSpace);
    var d := RunEnd(m, a, IsDigit);
    RunEndPrefix(m, b, a, IsDigit);
    assert s[d] == m[d];
  }

  /** A mark at the start is preceded by "\n\n" and kept as it was. */
  lemma SeparateAtMark(m: string, b: string)
    requires MarkLength(m) == Some(|m|)
    ensures Separate(m + b) == "\n\n" + m + Separate(b)
  {
    var u := m + b;
    MarkLengthPrefix(m, b);
    assert u[..|m|] == m && u[|m|..] == b;
  }

  /** A character where no mark starts is copied. */
  lemma SeparateAtPlain(c: char, v: string)
    requires MarkLength([c] + v).None?
    ensures Separate([c] + v) == [c] + Separate(v)
  {
    var u := [c] + v;
    assert u[0] == c && u[1..] == v;
  }

  /** Where no mark starts, the scan copies the text. */
  lemma {:induction false} SeparatePlainPrefix(a: string, v: string)
    requires forall k :: 0 <= k < |a| ==> MarkLength(a[k..] + v).None?
    ensures Separate(a + v) == a + Separate(v)
    decreases |a|
  {
    if a == [] {
      assert a + v == v;
    } else {
      var a' := a[1..];
      NoMarkAfterFirst(a, v);
      SeparatePlainPrefix(a', v);
      SeparateFirstPlain(a, v);
      PrependFirst(a, Separate(v));
    }
  }

  /** Putting back the first character of `a` in front of the rest. */
  lemma PrependFirst(a: string, t: string)
    requires a != []
    ensures [a[0]] + (a[1..] + t) == a + t
  {
    assert a == [a[0]] + a[1..];
  }

  /** No mark starts in `a`: none at its first character, and none in the
      rest of it. */
  lemma NoMarkAfterFirst(a: string, v: string)
    requires a != [] && forall k :: 0 <= k < |a| ==> MarkLength(a[k..] + v).None?
    ensures MarkLength(a + v).None?
    ensures forall k :: 0 <= k < |a[1..]| ==> MarkLength(a[1..][k..] + v).None?
  {
    assert a[0..] == a;
    forall k | 0 <= k < |a[1..]| ensures MarkLength(a[1..][k..] + v).None? {
      assert a[1..][k..] == a[k + 1..];
    }
  }

  /** The scan copies a first character where no mark starts. */
  lemma SeparateFirstPlain(a: string, v: string)
    requires a != [] && MarkLength(a + v).None?
    ensures Separate(a + v) == [a[0]] + Separate(a[1..] + v)
  {
    assert a + v == [a[0]] + (a[1..] + v);
    SeparateAtPlain(a[0], a[1..] + v);
  }

  /** The layout of the substitution: the text before the first mark is
      kept, the mark is preceded by "\n\n" and kept as it was, and the rest
      of the text is separated on its own. */
  lemma {:induction false} SeparateChapterLayout(a: string, m: string, b: string)
    requires forall k :: 0 <= k < |a| ==> MarkLength(a[k..] + m + b).None?
    requires MarkLength(m) == Some(|m|)
    ensures SeparateChapter(a + m + b) == a + "\n\n" + m + SeparateChapter(b)
  {
    forall k | 0 <= k < |a| ensures MarkLength(a[k..] + (m + b)).None? {
      assert a[k..] + (m + b) == a[k..] + m + b;
    }
    SeparatePlainPrefix(a, m + b);
    SeparateAtMark(m, b);
    MarkAfterPrefix(a, m, b, Separate(b));
  }

  /** The two ways of grouping the text and its separated form. */
  lemma MarkAfterPrefix(a: string, m: string, b: string, t: string)
    ensures a + m + b == a + (m + b)
    ensures a + ("\n\n" + m + t) == a + "\n\n" + m + t
  {
  }

  // ---------------------------------------------------------------------------
  // standardize_chapters: the pattern
  //   CAP[IÍ]TULO\s+([A-Z0-9]+)\s*[:\-]?\s*(.+)   with re.IGNORECASE

  /** An ASCII letter of the pattern, either case. */
  predicate LetterAt(s: string, i: nat, upper: char)
    requires i < |s|
  {
    s[i] == upper || s[i] as int == upper as int + 32
  }

  /** "CAP[IÍ]TULO" at `i`, ignoring case. */
  predicate CapituloAt(s: string, i: nat)
  {
    i + 8 <= |s|
    && LetterAt(s, i, 'C') && LetterAt(s, i + 1, 'A') && LetterAt(s, i + 2, 'P')
    && (s[i + 3] == 'I' || s[i + 3] == 'i' || s[i + 3] == 'Í' || s[i + 3] == 'í')
    && LetterAt(s, i + 4, 'T') && LetterAt(s, i + 5, 'U') && LetterAt(s, i + 6, 'L')
    && LetterAt(s, i + 7, 'O')
  }

  /** `(.+)` at `t`: the rest of the line, when it is not empty. */
  function TitleEnd(s: string, t: nat): (r: Option<nat>)
    requires t <= |s|
    ensures r.Some? ==> t < r.value <= |s|
  {
    if t < |s| && s[t] != '\n' then Some(RunEnd(s, t, NotNewline)) else None
  }

  /** The second `\s*` with `k` spaces, then fewer, then the title: the start
      and end of the title. */
  function TryTitle(s: string, r: nat, k: nat): (m: Option<(nat, nat)>)
    requires r + k <= |s|
    ensures m.Some? ==> r <= m.value.0 < m.value.1 <= |s|
    decreases k
  {
    var t := TitleEnd(s, r + k);
    if t.Some? then Some((r + k, t.value))
    else if k == 0 then None
    else TryTitle(s, r, k - 1)
  }

  /** `[:\-]?` at `q`, trying the separator before its absence, then the
      second `\s*` and the title. */
  function TrySeparator(s: string, q: nat): (m: Option<(nat, nat)>)
    requires q <= |s|
    ensures m.Some? ==> q <= m.value.0 < m.value.1 <= |s|
  {
    var withSeparator :=
      if q < |s| && (s[q] == ':' || s[q] == '-')
      then TryTitle(s, q + 1, RunEnd(s, q + 1, IsSpace) - (q + 1))
      else None;
    if withSeparator.Some? then withSeparator
    else TryTitle(s, q, RunEnd(s, q, IsSpace) - q)
  }

  /** The first `\s*` with `k` spaces, then fewer. */
  function TryGap(s: string, p: nat, k: nat): (m: Option<(nat, nat)>)
    requires p + k <= |s|
    ensures m.Some? ==> p <= m.value.0 < m.value.1 <= |s|
    decreases k
  {
    var m := TrySeparator(s, p + k);
    if m.Some? then m
    else if k == 0 then None
    else TryGap(s, p, k - 1)
  }

  /** The group `([A-Z0-9]+)` with `g` characters, then fewer: the end of the
      group, and the start and end of the title. */
  function TryChapter(s: string, a: nat, g: nat): (m: Option<(nat, nat, nat)>)
    requires a + g <= |s|
    ensures m.Some? ==> a < m.value.0 <= m.value.1 < m.value.2 <= |s|
    decreases g
  {
    if g == 0 then None
    else
      var p := a + g;
      var m := TryGap(s, p, RunEnd(s, p, IsSpace) - p);
      if m.Some? then Some((p, m.value.0, m.value.1))
      else TryChapter(s, a, g - 1)
  }

  /** A match of the heading pattern: its two groups and where it ends. */
  datatype Heading = Heading(chapter: string, title: string, end: nat)

  /** The heading that matches at `i`, if any. The `\s+` after the word need
      not give characters back: the group cannot start with a space. */
  function HeadingAt(s: string, i: nat): (r: Option<Heading>)
    ensures r.Some? ==> i < r.value.end <= |s|
  {
    if !CapituloAt(s, i) then None else HeadingAfterWord(s, i + 8)
  }

  /** The rest of the pattern, after the word "CAPÍTULO" that ends at `j`. */
  function HeadingAfterWord(s: string, j: nat): (r: Option<Heading>)
    requires j <= |s|
    ensures r.Some? ==> j < r.value.end <= |s|
  {
    var a := RunEnd(s, j, IsSpace);
    if a == j then None
    else
      var m := TryChapter(s, a, RunEnd(s, a, IsChapterChar) - a);
      if m.None? then None
      else Some(Heading(s[a..m.value.0], s[m.value.1..m.value.2], m.value.2))
  }

  /** The table of chapter words: `manual_converser` as written, or with
      the entry for the renamed fourth chapter corrected. */
  function ChapterTable(asWritten: bool): map<string, nat>
  {
    if asWritten then Config.ChapterNumbers else Config.CorrectedChapterNumbers
  }

  /** The number written into a heading: from the table of chapter words, or
      else the title (`manual_converser.get(chapter, title)`, as written) or
      the chapter itself (as intended). */
  function ChapterNumber(chapter: string, title: string, asWritten: bool): string
  {
    var table := ChapterTable(asWritten);
    if chapter in table then NatToString(table[chapter])
    else if asWritten then title
    else chapter
  }

  /** `substituidor`. */
  function Rewrite(h: Heading, asWritten: bool): string
  {
    var chapter := Upper(Strip(h.chapter));
    var title := Strip(h.title);
    "CAPÍTULO " + ChapterNumber(chapter, title, asWritten) + ": " + TitleCase(title)
  }

  /** `pattern.sub(substituidor, text)` from position `i`. */
  function StandardizeFrom(s: string, i: nat, asWritten: bool): string
    decreases |s| - i
  {
    if i >= |s| then []
    else match HeadingAt(s, i)
      case Some(h) => Rewrite(h, asWritten) + StandardizeFrom(s, h.end, asWritten)
      case None => [s[i]] + StandardizeFrom(s, i + 1, asWritten)
  }

  /** `standardize_chapters` as written: an unknown chapter word is replaced
      by the title, and "UMV" reads 6. */
  function StandardizeChaptersAsWritten(s: string): string
  {
    StandardizeFrom(s, 0, true)
  }

  /** `standardize_chapters` with the chapter kept when it is not a known
      chapter word, and the corrected table. */
  function StandardizeChapters(s: string): string
  {
    StandardizeFrom(s, 0, false)
  }

  /** Without the word "capítulo" in any case, the text is unchanged. */
  lemma {:induction false} StandardizeFromNoHeadings(s: string, i: nat, asWritten: bool)
    requires i <= |s|
    requires forall k: nat :: !CapituloAt(s, k)
    ensures StandardizeFrom(s, i, asWritten) == s[i..]
    decreases |s| - i
  {
    if i < |s| {
      StandardizeFromNoHeadings(s, i + 1, asWritten);
      assert s[i..] == [s[i]] + s[i + 1..];
    }
  }

  lemma {:induction false} StandardizeNoHeadings(s: string)
    requires forall k: nat :: !CapituloAt(s, k)
    ensures StandardizeChapters(s) == s
    ensures StandardizeChaptersAsWritten(s) == s
  {
    StandardizeFromNoHeadings(s, 0, false);
    StandardizeFromNoHeadings(s, 0, true);
  }

  /** A heading line "CAPÍTULO <chapter>: <title>". */
  function HeadingLine(chapter: string, title: string): string
  {
    "CAPÍTULO " + chapter + ": " + title
  }

  predicate GoodHeadingParts(chapter: string, title: string)
  {
    && chapter != [] && (forall k :: 0 <= k < |chapter| ==> IsChapterChar(chapter[k]))
    && title != [] && !IsSpace(title[0])
    && (forall k :: 0 <= k < |title| ==> title[k] != '\n')
  }

  /** After the group, ": " and a title running to the end of the text: the
      backtracking search takes the separator and the whole title at its
      first try. */
  lemma {:induction false} SeparatorThenTitle(s: string, p: nat)
    requires p + 2 < |s| && s[p] == ':' && s[p + 1] == ' ' && !IsSpace(s[p + 2])
    requires forall k :: p + 2 <= k < |s| ==> s[k] != '\n'
    ensures RunEnd(s, p, IsSpace) == p
    ensures TryGap(s, p, 0) == Some((p + 2, |s|))
  {
    assert RunEnd(s, p + 1, IsSpace) == p + 2;
    assert RunEnd(s, p + 2, NotNewline) == |s|;
    assert TitleEnd(s, p + 2) == Some(|s|);
    assert TryTitle(s, p + 1, 1) == Some((p + 2, |s|));
    assert TrySeparator(s, p) == Some((p + 2, |s|));
  }

  /** The word, one space and a group of `n` characters that ends at a
      non-group character. */
  lemma {:induction false} WordThenGroup(s: string, n: nat)
    requires CapituloAt(s, 0) && 9 + n < |s| && n > 0 && s[8] == ' '
    requires forall k :: 9 <= k < 9 + n ==> IsChapterChar(s[k])
    requires !IsChapterChar(s[9 + n])
    ensures RunEnd(s, 8, IsSpace) == 9
    ensures RunEnd(s, 9, IsChapterChar) == 9 + n
  {
    assert IsChapterChar(s[9]);
  }

  /** The heading pattern on a text laid out as the word, one space, a group,
      ": " and a title up to the end. */
  lemma {:induction false} HeadingAtLayout(s: string, n: nat)
    requires 11 + n < |s| && CapituloAt(s, 0) && s[8] == ' ' && n > 0
    requires forall k :: 9 <= k < 9 + n ==> IsChapterChar(s[k])
    requires s[9 + n] == ':' && s[10 + n] == ' ' && !IsSpace(s[11 + n])
    requires forall k :: 11 + n <= k < |s| ==> s[k] != '\n'
    ensures HeadingAt(s, 0) == Some(Heading(s[9..9 + n], s[11 + n..], |s|))
  {
    var p: nat := 9 + n;
    assert !IsChapterChar(s[p]);
    WordThenGroup(s, n);
    SeparatorThenTitle(s, p);
    TryChapterWith(s, 9, n, p + 2, |s|);
    HeadingAtWith(s, 9, n, (p, p + 2, |s|));
    assert s[p + 2..|s|] == s[11 + n..];
  }

  /** The group of `g` characters is taken when the separator and title
      match right after it. */
  lemma TryChapterWith(s: string, a: nat, g: nat, q: nat, e: nat)
    requires 0 < g && a + g <= |s| && RunEnd(s, a + g, IsSpace) == a + g
    requires TryGap(s, a + g, 0) == Some((q, e))
    ensures TryChapter(s, a, g) == Some((a + g, q, e))
  {
  }

  /** The heading read at 0 when the word, the space run up to `a` and a
      group of `g` characters that the rest matches after are found. */
  lemma {:induction false} HeadingAtWith(s: string, a: nat, g: nat, m: (nat, nat, nat))
    requires CapituloAt(s, 0) && a != 8 && RunEnd(s, 8, IsSpace) == a
    requires a + g <= |s| && RunEnd(s, a, IsChapterChar) == a + g
    requires TryChapter(s, a, g) == Some(m)
    ensures m.0 <= m.1 < m.2 <= |s|
    ensures HeadingAt(s, 0) == Some(Heading(s[a..m.0], s[m.1..m.2], m.2))
  {
    HeadingAfterWordWith(s, 8, a, g, m);
  }

  /** The same for the part of the pattern after the word. */
  lemma {:induction false} HeadingAfterWordWith(s: string, j: nat, a: nat, g: nat, m: (nat, nat, nat))
    requires j <= |s| && a != j && RunEnd(s, j, IsSpace) == a
    requires a + g <= |s| && RunEnd(s, a, IsChapterChar) == a + g
    requires TryChapter(s, a, g) == Some(m)
    ensures HeadingAfterWord(s, j) == Some(Heading(s[a..m.0], s[m.1..m.2], m.2))
  {
  }

  /** The pattern reads a heading line back into its chapter and its title,
      and the match runs to the end of the line. */
  lemma {:induction false} HeadingAtLine(chapter: string, title: string)
    requires GoodHeadingParts(chapter, title)
    ensures var s := HeadingLine(chapter, title);
      HeadingAt(s, 0) == Some(Heading(chapter, title, |s|))
  {
    var s := HeadingLine(chapter, title);
    var n := |chapter|;
    var p := 9 + n;
    HeadingLineParts(chapter, title);
    CapituloPrefix(s);
    forall k | 9 <= k < p ensures IsChapterChar(s[k]) {
      assert s[k] == s[9..p][k - 9];
    }
    forall k | p + 2 <= k < |s| ensures s[k] != '\n' {
      assert s[k] == s[p + 2..][k - (p + 2)];
    }
    HeadingAtLayout(s, n);
  }

  /** Where the word, the chapter, the separator and the title sit in a
      heading line. */
  lemma HeadingLineParts(chapter: string, title: string)
    ensures var s := HeadingLine(chapter, title);
      var p := 9 + |chapter|;
      && |s| == p + 2 + |title|
      && s[..9] == "CAPÍTULO " && s[9..p] == chapter
      && s[p] == ':' && s[p + 1] == ' ' && s[p + 2..] == title
  {
    var s := HeadingLine(chapter, title);
    var p := 9 + |chapter|;
    assert s == "CAPÍTULO " + (chapter + (": " + title));
    assert s[p..] == ": " + title;
  }

  /** A text that starts with "CAPÍTULO " has the word at 0, then a space. */
  lemma CapituloPrefix(s: string)
    requires |s| >= 9 && s[..9] == "CAPÍTULO "
    ensures CapituloAt(s, 0) && s[8] == ' '
  {
    forall k | 0 <= k < 9 ensures s[k] == "CAPÍTULO "[k] {
      assert s[..9][k] == s[k];
    }
  }

  /** A whole heading line is rewritten by `standardize_chapters`, in either
      version. */
  lemma {:induction false} StandardizeHeadingLine(chapter: string, title: string, asWritten: bool)
    requires GoodHeadingParts(chapter, title)
    ensures StandardizeFrom(HeadingLine(chapter, title), 0, asWritten)
         == Rewrite(Heading(chapter, title, |HeadingLine(chapter, title)|), asWritten)
  {
    HeadingAtLine(chapter, title);
  }

  /** A known chapter word becomes its number, and the title is title-cased:
      "CAPÍTULO umi: o começo" reads "CAPÍTULO 2: O Começo". */
  lemma {:induction false} KnownChapterWord(chapter: string, title: string, asWritten: bool)
    requires GoodHeadingParts(chapter, title)
    requires Upper(chapter) in ChapterTable(asWritten)
    ensures StandardizeFrom(HeadingLine(chapter, title), 0, asWritten)
         == HeadingLine(NatToString(ChapterTable(asWritten)[Upper(chapter)]), TitleCase(Strip(title)))
  {
    StandardizeHeadingLine(chapter, title, asWritten);
    StripNoSpace(chapter);
  }

  /** No chapter word of the table is made of digits. */
  lemma {:induction false} DigitsNotChapterWord(d: string)
    requires d != [] && forall k :: 0 <= k < |d| ==> IsDigit(d[k])
    ensures d !in Config.ChapterNumbers && d !in Config.CorrectedChapterNumbers
  {
    assert IsDigit(d[0]);
  }

  /** The replacement for a heading whose chapter is a number. */
  lemma {:induction false} RewriteNumbered(d: string, title: string, end: nat, asWritten: bool)
    requires d != [] && forall k :: 0 <= k < |d| ==> IsDigit(d[k])
    ensures Rewrite(Heading(d, title, end), asWritten)
         == HeadingLine(if asWritten then Strip(title) else d, TitleCase(Strip(title)))
  {
    StripNoSpace(d);
    assert Upper(d) == d;
    DigitsNotChapterWord(d);
  }

  /** As written, a heading already in the standard numbered form loses its
      number: "CAPÍTULO 1: Introdução" becomes "CAPÍTULO Introdução:
      Introdução". */
  lemma {:induction false} NumberedHeadingAsWritten(d: string, title: string)
    requires GoodHeadingParts(d, title)
    requires forall k :: 0 <= k < |d| ==> IsDigit(d[k])
    requires !IsDigit(title[0])
    ensures StandardizeChaptersAsWritten(HeadingLine(d, title))
         == HeadingLine(Strip(title), TitleCase(Strip(title)))
    ensures StandardizeChaptersAsWritten(HeadingLine(d, title)) != HeadingLine(d, title)
  {
    StandardizeHeadingLine(d, title, true);
    RewriteNumbered(d, title, |HeadingLine(d, title)|, true);
    TitleInPlaceOfNumber(d, title);
  }

  lemma {:induction false} TitleInPlaceOfNumber(d: string, title: string)
    requires d != [] && IsDigit(d[0])
    requires title != [] && !IsSpace(title[0]) && !IsDigit(title[0])
    ensures HeadingLine(Strip(title), TitleCase(Strip(title))) != HeadingLine(d, title)
  {
    var k := StripShape(title);
    var t := Strip(title);
    assert t != [] && t[0] == title[0] by {
      assert k == 0;
    }
    assert HeadingLine(t, TitleCase(t))[9] == title[0];
    assert HeadingLine(d, title)[9] == d[0];
  }

  /** As intended, the heading keeps its number and only the title is
      title-cased; an already standard heading is a fixed point. */
  lemma {:induction false} NumberedHeadingKept(d: string, title: string)
    requires GoodHeadingParts(d, title)
    requires forall k :: 0 <= k < |d| ==> IsDigit(d[k])
    ensures StandardizeChapters(HeadingLine(d, title)) == HeadingLine(d, TitleCase(Strip(title)))
    ensures Strip(title) == title && TitleCase(title) == title
            ==> StandardizeChapters(HeadingLine(d, title)) == HeadingLine(d, title)
  {
    StandardizeHeadingLine(d, title, false);
    RewriteNumbered(d, title, |HeadingLine(d, title)|, false);
  }
}
