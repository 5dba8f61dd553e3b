/** The `ParserTxt` passes of `src/textParser.py`: spacing, a paragraph
    break after each period, paragraph formatting, the title and author
    header, and the helpers of `melhorar_texto_corrigido` (hyphenation,
    chapter renaming, final punctuation, abbreviations). */
module TextParser {
  import opened Strings
  import TextFormat
  import Config
  import Roman

  // ---------------------------------------------------------------------------
  // corrigir_espacamento_corrigir

  /** `corrigir_espacamento_corrigir`: every whitespace run becomes one space,
      then `^\s+|\s+$` (multi-line) is removed. The first step leaves no line
      break, so the second removes the space at each end of the text. */
  function CorrectSpacing(s: string): string
  {
    Strip(CollapseWhitespace(s))
  }

  /** The corrected text has no two whitespace characters side by side, no
      whitespace at either end, no whitespace but the plain space, and the
      same visible characters. */
  lemma {:induction false} CorrectSpacingSpec(s: string)
    ensures var r := CorrectSpacing(s);
      && SingleSpaced(r)
      && (r == [] || (!IsSpace(r[0]) && !IsSpace(r[|r| - 1])))
      && (forall i :: 0 <= i < |r| ==> IsSpace(r[i]) ==> r[i] == ' ')
      && NonSpace(r) == NonSpace(s)
  {
    var c := CollapseWhitespace(s);
    CollapseWhitespaceSpec(s);
    var k := StripShape(c);
    var r := Strip(c);
    assert forall i :: 0 <= i < |r| ==> r[i] == c[k + i];
    NonSpaceStrip(c);
  }

  /** Correcting the spacing twice is correcting it once. */
  lemma {:induction false} CorrectSpacingIdempotent(s: string)
    ensures CorrectSpacing(CorrectSpacing(s)) == CorrectSpacing(s)
  {
    var r := CorrectSpacing(s);
    CorrectSpacingSpec(s);
    TextFormat.CollapseWhitespaceFixed(r);
    StripIdempotent(CollapseWhitespace(s));
  }

  // ---------------------------------------------------------------------------
  // inserir_quebra_apos_ponto_corrigir

  /** `re.sub(r"\.\s+", ".\n\n", u)`: the scan resumes after each match. */
  function Break(u: string): (r: string)
    ensures u != [] ==> r != [] && r[0] == u[0]
    ensures u == [] ==> r == []
    decreases |u|
  {
    if u == [] then []
    else if u[0] == '.' && 1 < |u| && IsSpace(u[1])
    then ".\n\n" + Break(u[TextFormat.RunEnd(u, 1, IsSpace)..])
    else [u[0]] + Break(u[1..])
  }

  /** `inserir_quebra_apos_ponto_corrigir`. */
  function InsertBreaks(s: string): string
  {
    Break(s)
  }

  /** A period at `j` followed by whitespace is followed by exactly "\n\n". */
  predicate BrokenAt(r: string, j: nat)
    requires j < |r| - 1
  {
    r[j] == '.' && IsSpace(r[j + 1]) ==>
      j + 2 < |r| && r[j + 1] == '\n' && r[j + 2] == '\n' && (j + 3 == |r| || !IsSpace(r[j + 3]))
  }

  /** Every period followed by whitespace is followed by exactly "\n\n". */
  predicate BrokenAfterPeriods(r: string)
  {
    forall j: nat :: j < |r| - 1 ==> BrokenAt(r, j)
  }

  /** After the pass, each period followed by whitespace is followed by
      exactly one blank line, and the visible characters are those of the
      text. */
  lemma {:induction false} BreakSpec(u: string)
    ensures BrokenAfterPeriods(Break(u))
    ensures NonSpace(Break(u)) == NonSpace(u)
    decreases |u|
  {
    if u != [] {
      var r := Break(u);
      if u[0] == '.' && 1 < |u| && IsSpace(u[1]) {
        var e := TextFormat.RunEnd(u, 1, IsSpace);
        BreakSpec(u[e..]);
        var rest := Break(u[e..]);
        BreakAtPeriod(u);
        BrokenAfterBreak(rest);
        BreakNonSpace(u, e, rest);
      } else {
        BreakSpec(u[1..]);
        var rest := Break(u[1..]);
        BreakAtOther(u);
        BrokenAfterChar(u[0], rest);
        assert u == [u[0]] + u[1..];
        NonSpaceAppend([u[0]], u[1..]);
        NonSpaceAppend([u[0]], rest);
      }
    }
  }

  /** A break before a broken text that does not start with whitespace
      keeps it broken. */
  lemma BrokenAfterBreak(rest: string)
    requires BrokenAfterPeriods(rest) && (rest == [] || !IsSpace(rest[0]))
    ensures BrokenAfterPeriods(".\n\n" + rest)
  {
    var r := ".\n\n" + rest;
    forall j: nat | j < |r| - 1 ensures BrokenAt(r, j) {
      if j >= 3 {
        assert BrokenAt(rest, j - 3);
      }
    }
  }

  /** A character that is not a period followed by whitespace, before a
      broken text, keeps it broken. */
  lemma BrokenAfterChar(c: char, rest: string)
    requires BrokenAfterPeriods(rest) && (c == '.' ==> rest == [] || !IsSpace(rest[0]))
    ensures BrokenAfterPeriods([c] + rest)
  {
    var r := [c] + rest;
    forall j: nat | j < |r| - 1 ensures BrokenAt(r, j) {
      if j >= 1 {
        assert BrokenAt(rest, j - 1);
      }
    }
  }

  lemma {:induction false} BreakNonSpace(u: string, e: nat, rest: string)
    requires 0 < e <= |u| && u[0] == '.'
    requires forall k :: 1 <= k < e ==> IsSpace(u[k])
    requires NonSpace(rest) == NonSpace(u[e..])
    ensures NonSpace(".\n\n" + rest) == NonSpace(u)
  {
    NonSpaceAppend(".\n\n", rest);
    assert NonSpace(".\n\n") == ".";
    assert u == ['.'] + u[1..e] + u[e..];
    NonSpaceAppend(['.'] + u[1..e], u[e..]);
    NonSpaceAppend(['.'], u[1..e]);
    NonSpaceOfAllSpace(u[1..e]);
  }

  /** Every suffix of a broken text is broken. */
  lemma BrokenSuffix(r: string, n: nat)
    requires n <= |r| && BrokenAfterPeriods(r)
    ensures BrokenAfterPeriods(r[n..])
  {
    forall j: nat | j < |r[n..]| - 1 ensures BrokenAt(r[n..], j) {
      assert BrokenAt(r, j + n);
    }
  }

  /** A text already broken after its periods is left alone. */
  lemma {:induction false} BreakFixed(r: string)
    requires BrokenAfterPeriods(r)
    ensures Break(r) == r
    decreases |r|
  {
    if r != [] {
      if r[0] == '.' && 1 < |r| && IsSpace(r[1]) {
        assert BrokenAt(r, 0);
        assert IsSpace(r[1]) && IsSpace(r[2]);
        TextFormat.RunEndAt(r, 1, 3, IsSpace);
        BreakAtPeriod(r);
        BrokenSuffix(r, 3);
        BreakFixed(r[3..]);
        assert r[..3] == ".\n\n";
        assert r == r[..3] + r[3..];
      } else {
        BreakAtOther(r);
        BrokenSuffix(r, 1);
        BreakFixed(r[1..]);
        assert r == [r[0]] + r[1..];
      }
    }
  }

  /** Inserting the breaks twice is inserting them once. */
  lemma InsertBreaksIdempotent(s: string)
    ensures InsertBreaks(InsertBreaks(s)) == InsertBreaks(s)
  {
    BreakSpec(s);
    BreakFixed(InsertBreaks(s));
  }

  /** The pass changes a text exactly when some period in it is followed by
      whitespace other than exactly one blank line; in particular a text with
      no period followed by whitespace is left alone. */
  lemma InsertBreaksFixedIff(s: string)
    ensures InsertBreaks(s) == s <==> BrokenAfterPeriods(s)
  {
    BreakSpec(s);
    if BrokenAfterPeriods(s) {
      BreakFixed(s);
    }
  }

  /** The pass at a period followed by whitespace, with text appended. */
  lemma BreakAppendPeriod(a: string, b: string)
    requires a != [] && a[0] == '.' && 1 < |a| && IsSpace(a[1])
    requires b == [] || !IsSpace(b[0])
    ensures var e := TextFormat.RunEnd(a, 1, IsSpace);
      Break(a + b) == ".\n\n" + Break(a[e..] + b) && Break(a) == ".\n\n" + Break(a[e..])
  {
    var s := a + b;
    assert s[0] == a[0] && s[1] == a[1];
    var e := TextFormat.RunEnd(a, 1, IsSpace);
    TextFormat.RunEndPrefix(a, b, 1, IsSpace);
    DropAppend(a, b, e);
    BreakAtPeriod(s);
    BreakAtPeriod(a);
  }

  lemma DropAppend(a: string, b: string, e: nat)
    requires e <= |a|
    ensures (a + b)[e..] == a[e..] + b
  {
  }

  /** The pass at any other character. */
  lemma BreakAtOther(u: string)
    requires u != [] && !(u[0] == '.' && 1 < |u| && IsSpace(u[1]))
    ensures Break(u) == [u[0]] + Break(u[1..])
  {
  }

  /** The pass at a period followed by whitespace. */
  lemma BreakAtPeriod(u: string)
    requires u != [] && u[0] == '.' && 1 < |u| && IsSpace(u[1])
    ensures Break(u) == ".\n\n" + Break(u[TextFormat.RunEnd(u, 1, IsSpace)..])
  {
  }

  /** The pass at any other character, with text appended. */
  lemma BreakAppendOther(a: string, b: string)
    requires a != [] && !(a[0] == '.' && 1 < |a| && IsSpace(a[1]))
    requires b == [] || !IsSpace(b[0])
    ensures Break(a + b) == [a[0]] + Break(a[1..] + b)
  {
    var s := a + b;
    assert s[0] == a[0];
    assert 1 < |s| ==> s[1] == if 1 < |a| then a[1] else b[0];
    assert s[1..] == a[1..] + b;
  }

  /** Text that does not begin with whitespace is broken independently of
      what comes before it. */
  lemma {:induction false} BreakAppend(a: string, b: string)
    requires b == [] || !IsSpace(b[0])
    ensures Break(a + b) == Break(a) + Break(b)
    decreases |a|
  {
    var y := Break(b);
    if a == [] {
      assert a + b == b;
      assert Break(a) == [];
      assert Break(a + b) == y;
    } else if a[0] == '.' && 1 < |a| && IsSpace(a[1]) {
      var e := TextFormat.RunEnd(a, 1, IsSpace);
      var x := Break(a[e..]);
      BreakAppendPeriod(a, b);
      BreakAppend(a[e..], b);
      assert Break(a + b) == ".\n\n" + (x + y);
      assert Break(a) == ".\n\n" + x;
      AppendAssoc(".\n\n", x, y);
    } else {
      var x := Break(a[1..]);
      BreakAppendOther(a, b);
      BreakAppend(a[1..], b);
      assert Break(a + b) == [a[0]] + (x + y);
      assert Break(a) == [a[0]] + x;
      AppendAssoc([a[0]], x, y);
    }
  }

  /** The layout of the substitution: a period and the run of whitespace
      after it become ".\n\n", and the text on each side is broken on its
      own. */
  lemma InsertBreaksLayout(x: string, ws: string, y: string)
    requires ws != [] && AllSpace(ws)
    requires y == [] || !IsSpace(y[0])
    ensures InsertBreaks(x + "." + ws + y) == InsertBreaks(x) + ".\n\n" + InsertBreaks(y)
  {
    var t := "." + ws + y;
    assert x + "." + ws + y == x + t;
    BreakAppend(x, t);
    assert t[1] == ws[0];
    forall k | 1 <= k < 1 + |ws| ensures IsSpace(t[k]) {
      assert t[k] == ws[k - 1];
    }
    TextFormat.RunEndAt(t, 1, 1 + |ws|, IsSpace);
    BreakAtPeriod(t);
    assert t[1 + |ws|..] == y;
    assert Break(x) + Break(t) == Break(x) + ".\n\n" + Break(y);
  }

  // ---------------------------------------------------------------------------
  // Paragraphs: pieces between "\n\n"

  const ParagraphBreak: string := "\n\n"

  /** A piece that survives a split on "\n\n" and a join back: no blank line
      inside, and no newline at its end. */
  ghost predicate IsPiece(p: string)
  {
    (forall i: nat :: !OccursAt(p, ParagraphBreak, i)) && (p == [] || p[|p| - 1] != '\n')
  }

  /** No piece of a split holds the separator. */
  lemma {:induction false} SplitPiecesClean(s: string)
    ensures forall j :: 0 <= j < |Split(s, ParagraphBreak)| ==>
      forall i: nat :: !OccursAt(Split(s, ParagraphBreak)[j], ParagraphBreak, i)
    decreases |s|
  {
    var f := Find(s, ParagraphBreak, 0);
    if f >= 0 {
      SplitPiecesClean(s[f + 2..]);
      forall i: nat ensures !OccursAt(s[..f], ParagraphBreak, i) {
        if i + 2 <= f {
          assert s[..f][i..i + 2] == s[i..i + 2];
          assert !OccursAt(s, ParagraphBreak, i);
        }
      }
    }
  }

  /** A slice of a string without the separator has none either. */
  lemma {:induction false} SliceClean(p: string, a: nat, b: nat)
    requires a <= b <= |p|
    requires forall i: nat :: !OccursAt(p, ParagraphBreak, i)
    ensures forall i: nat :: !OccursAt(p[a..b], ParagraphBreak, i)
  {
    forall i: nat ensures !OccursAt(p[a..b], ParagraphBreak, i) {
      if i + 2 <= b - a {
        assert p[a..b][i] == p[a + i] && p[a..b][i + 1] == p[a + i + 1];
        assert p[a..b][i..i + 2] == p[a + i..a + i + 2];
        assert !OccursAt(p, ParagraphBreak, a + i);
      }
    }
  }

  /** Splitting a join of pieces on "\n\n" gives the pieces back. */
  lemma {:induction false} SplitJoin(ps: seq<string>)
    requires ps != []
    requires forall j :: 0 <= j < |ps| ==> IsPiece(ps[j])
    ensures Split(Join(ParagraphBreak, ps), ParagraphBreak) == ps
  {
    var p := ps[0];
    if |ps| == 1 {
      assert Find(p, ParagraphBreak, 0) == -1;
    } else {
      var rest := Join(ParagraphBreak, ps[1..]);
      var s := p + ParagraphBreak + rest;
      assert Join(ParagraphBreak, ps) == s;
      assert Find(s, ParagraphBreak, 0) == |p| by {
        FirstBreakAt(p, rest);
      }
      assert s[..|p|] == p;
      assert s[|p| + 2..] == rest;
      SplitJoin(ps[1..]);
    }
  }

  lemma {:induction false} FirstBreakAt(p: string, rest: string)
    requires IsPiece(p)
    ensures Find(p + ParagraphBreak + rest, ParagraphBreak, 0) == |p|
  {
    var s := p + ParagraphBreak + rest;
    assert OccursAt(s, ParagraphBreak, |p|) by {
      assert s[|p|..|p| + 2] == ParagraphBreak;
    }
    forall i: nat | i < |p| ensures !OccursAt(s, ParagraphBreak, i) {
      if i + 2 <= |p| {
        assert s[i..i + 2] == p[i..i + 2];
        assert !OccursAt(p, ParagraphBreak, i);
      } else {
        assert s[i..i + 2][0] == s[i] == p[|p| - 1] != ParagraphBreak[0];
      }
    }
    var f := Find(s, ParagraphBreak, 0);
    assert f >= 0 && f <= |p|;
  }

  // ---------------------------------------------------------------------------
  // formatar_paragrafos_corrigir

  /** `[p.strip() for p in ps if p.strip()]`. */
  function KeepParagraphs(ps: seq<string>): (r: seq<string>)
    ensures |r| <= |ps|
  {
    if ps == [] then []
    else
      var q := Strip(ps[0]);
      (if q == [] then [] else [q]) + KeepParagraphs(ps[1..])
  }

  /** A paragraph as the pass leaves it: not empty, no whitespace at either
      end, no blank line inside. */
  ghost predicate IsParagraph(p: string)
  {
    p != [] && !IsSpace(p[0]) && !IsSpace(p[|p| - 1])
    && forall i: nat :: !OccursAt(p, ParagraphBreak, i)
  }

  lemma {:induction false} KeepParagraphsSpec(ps: seq<string>)
    requires forall j :: 0 <= j < |ps| ==> forall i: nat :: !OccursAt(ps[j], ParagraphBreak, i)
    ensures forall j :: 0 <= j < |KeepParagraphs(ps)| ==> IsParagraph(KeepParagraphs(ps)[j])
  {
    if ps != [] {
      KeepParagraphsSpec(ps[1..]);
      var q := Strip(ps[0]);
      var k := StripShape(ps[0]);
      SliceClean(ps[0], k, k + |q|);
    }
  }

  /** Paragraphs that are already kept are kept as they are. */
  lemma {:induction false} KeepParagraphsFixed(ps: seq<string>)
    requires forall j :: 0 <= j < |ps| ==> IsParagraph(ps[j])
    ensures KeepParagraphs(ps) == ps
  {
    if ps != [] {
      StripTrimmed(ps[0]);
      KeepParagraphsFixed(ps[1..]);
    }
  }

  /** `formatar_paragrafos_corrigir`. */
  function FormatParagraphs(s: string): string
  {
    Join(ParagraphBreak, KeepParagraphs(Split(s, ParagraphBreak)))
  }

  /** The formatted text splits into exactly the kept paragraphs: each one
      stripped and non-empty, and one blank line between two of them. */
  lemma {:induction false} FormattedParagraphs(s: string)
    ensures FormatParagraphs(s) == [] <==> KeepParagraphs(Split(s, ParagraphBreak)) == []
    ensures KeepParagraphs(Split(s, ParagraphBreak)) != [] ==>
      Split(FormatParagraphs(s), ParagraphBreak) == KeepParagraphs(Split(s, ParagraphBreak))
    ensures forall j :: 0 <= j < |KeepParagraphs(Split(s, ParagraphBreak))| ==>
      IsParagraph(KeepParagraphs(Split(s, ParagraphBreak))[j])
  {
    var ps := KeepParagraphs(Split(s, ParagraphBreak));
    SplitPiecesClean(s);
    KeepParagraphsSpec(Split(s, ParagraphBreak));
    if ps != [] {
      assert |Join(ParagraphBreak, ps)| >= |ps[0]|;
      SplitJoin(ps);
    }
  }

  /** Formatting the paragraphs twice is formatting them once. */
  lemma {:induction false} FormatParagraphsIdempotent(s: string)
    ensures FormatParagraphs(FormatParagraphs(s)) == FormatParagraphs(s)
  {
    var ps := KeepParagraphs(Split(s, ParagraphBreak));
    FormattedParagraphs(s);
    if ps == [] {
      assert FormatParagraphs(s) == [];
      assert Split([], ParagraphBreak) == [[]];
      assert KeepParagraphs([[]]) == [];
    } else {
      KeepParagraphsFixed(ps);
    }
  }

  // ---------------------------------------------------------------------------
  // pontuar_finais_de_paragrafo

  /** The class `[.!?…]`. */
  predicate IsFinalMark(c: char)
  {
    c == '.' || c == '!' || c == '?' || c == '…'
  }

  /** One paragraph: stripped, with a period added when it is not empty and
      does not end in a final mark. */
  function PunctuateParagraph(p: string): string
  {
    var q := Strip(p);
    if q != [] && !IsFinalMark(q[|q| - 1]) then q + "." else q
  }

  function PunctuateAll(ps: seq<string>): (r: seq<string>)
    ensures |r| == |ps|
  {
    seq(|ps|, i requires 0 <= i < |ps| => PunctuateParagraph(ps[i]))
  }

  /** `pontuar_finais_de_paragrafo`: the loop appending each corrected
      paragraph, then the "\n\n" join. */
  method PunctuateParagraphs(text: string) returns (r: string)
    ensures r == Join(ParagraphBreak, PunctuateAll(Split(text, ParagraphBreak)))
  {
    var paragraphs := Split(text, ParagraphBreak);
    var corrected: seq<string> := [];
    for i := 0 to |paragraphs|
      invariant corrected == PunctuateAll(paragraphs[..i])
    {
      var p := Strip(paragraphs[i]);
      if p != [] && !IsFinalMark(p[|p| - 1]) {
        p := p + ".";
      }
      corrected := corrected + [p];
    }
    assert paragraphs[..|paragraphs|] == paragraphs;
    r := Join(ParagraphBreak, corrected);
  }

  /** A punctuated paragraph is the stripped paragraph, with a period added
      exactly when it was not empty and lacked a final mark; it is empty or
      ends in a final mark, and it is still a piece. */
  lemma {:induction false} PunctuateParagraphSpec(p: string)
    requires forall i: nat :: !OccursAt(p, ParagraphBreak, i)
    ensures var r := PunctuateParagraph(p);
      && (r == [] <==> AllSpace(p))
      && (r != [] ==> IsFinalMark(r[|r| - 1]))
      && (r == Strip(p) || r == Strip(p) + ".")
      && (r == Strip(p) <==> (Strip(p) == [] || IsFinalMark(Strip(p)[|Strip(p)| - 1])))
      && IsPiece(r)
  {
    var q := Strip(p);
    var k := StripShape(p);
    StripEmptyIff(p);
    SliceClean(p, k, k + |q|);
    PeriodKeepsPiece(q);
    var r := PunctuateParagraph(p);
    assert r != q <==> q != [] && !IsFinalMark(q[|q| - 1]) by {
      if q != [] && !IsFinalMark(q[|q| - 1]) { assert |r| == |q| + 1; }
    }
  }

  /** A piece that does not end in whitespace stays a piece with a period
      after it. */
  lemma PeriodKeepsPiece(q: string)
    requires forall i: nat :: !OccursAt(q, ParagraphBreak, i)
    requires q == [] || !IsSpace(q[|q| - 1])
    ensures IsPiece(q) && IsPiece(q + ".")
  {
    var r := q + ".";
    forall i: nat ensures !OccursAt(r, ParagraphBreak, i) {
      if OccursAt(r, ParagraphBreak, i) {
        assert r[i..i + 2] == ParagraphBreak;
        if i + 2 <= |q| {
          assert q[i..i + 2] == r[i..i + 2];
          assert OccursAt(q, ParagraphBreak, i);
        }
      }
    }
  }

  /** The pass keeps the number of paragraphs: the text splits into the
      punctuated paragraphs, each empty or ending in `.`, `!`, `?` or `…`. */
  lemma {:induction false} PunctuateKeepsParagraphs(text: string)
    ensures var ps := Split(text, ParagraphBreak);
      var r := Join(ParagraphBreak, PunctuateAll(ps));
      && Split(r, ParagraphBreak) == PunctuateAll(ps)
      && |Split(r, ParagraphBreak)| == |ps|
      && (forall j :: 0 <= j < |ps| ==> (PunctuateAll(ps)[j] == [] <==> AllSpace(ps[j])))
      && (forall j :: 0 <= j < |ps| ==> PunctuateAll(ps)[j] != [] ==>
            IsFinalMark(PunctuateAll(ps)[j][|PunctuateAll(ps)[j]| - 1]))
  {
    SplitPiecesClean(text);
    PunctuatedJoin(Split(text, ParagraphBreak));
  }

  /** The same for any non-empty list of paragraphs none of which holds a
      blank line. */
  lemma PunctuatedJoin(ps: seq<string>)
    requires ps != []
    requires forall j :: 0 <= j < |ps| ==> forall i: nat :: !OccursAt(ps[j], ParagraphBreak, i)
    ensures var r := Join(ParagraphBreak, PunctuateAll(ps));
      && Split(r, ParagraphBreak) == PunctuateAll(ps)
      && |Split(r, ParagraphBreak)| == |ps|
      && (forall j :: 0 <= j < |ps| ==> (PunctuateAll(ps)[j] == [] <==> AllSpace(ps[j])))
      && (forall j :: 0 <= j < |ps| ==> PunctuateAll(ps)[j] != [] ==>
            IsFinalMark(PunctuateAll(ps)[j][|PunctuateAll(ps)[j]| - 1]))
  {
    var qs := PunctuateAll(ps);
    PunctuatedPieces(ps, qs);
    SplitJoin(qs);
  }

  /** Every punctuated paragraph is a piece, empty exactly when the
      paragraph is blank, and otherwise ends in a final mark. */
  lemma PunctuatedPieces(ps: seq<string>, qs: seq<string>)
    requires qs == PunctuateAll(ps)
    requires forall j :: 0 <= j < |ps| ==> forall i: nat :: !OccursAt(ps[j], ParagraphBreak, i)
    ensures forall j :: 0 <= j < |ps| ==> IsPiece(qs[j])
    ensures forall j :: 0 <= j < |ps| ==> (qs[j] == [] <==> AllSpace(ps[j]))
    ensures forall j :: 0 <= j < |ps| ==> qs[j] != [] ==> IsFinalMark(qs[j][|qs[j]| - 1])
  {
    forall j | 0 <= j < |ps|
      ensures IsPiece(qs[j])
      ensures qs[j] == [] <==> AllSpace(ps[j])
      ensures qs[j] != [] ==> IsFinalMark(qs[j][|qs[j]| - 1])
    {
      PunctuatedPiece(ps[j], qs[j]);
    }
  }

  lemma PunctuatedPiece(p: string, r: string)
    requires forall i: nat :: !OccursAt(p, ParagraphBreak, i)
    requires r == PunctuateParagraph(p)
    ensures IsPiece(r)
    ensures r == [] <==> AllSpace(p)
    ensures r != [] ==> IsFinalMark(r[|r| - 1])
  {
    PunctuateParagraphSpec(p);
  }

  // ---------------------------------------------------------------------------
  // converter_capitulos_para_extenso_simples

  const Capitulo: string := "CAPÍTULO "

  /** The numeral and word of each replacement "CAPÍTULO <numeral>" ->
      "CAPÍTULO <word>", in the order the dictionary lists them. */
  const ChapterWords: seq<(string, string)> := [
    ("I", "UM"), ("II", "DOIS"), ("III", "TRÊS"), ("IV", "QUATRO"), ("V", "CINCO"),
    ("VI", "SEIS"), ("VII", "SETE"), ("VIII", "OITO"), ("IX", "NOVE"), ("X", "DEZ")
  ]

  lemma ChapterWordsFacts()
    ensures |ChapterWords| == 10
    ensures forall k :: 0 <= k < 10 ==> |ChapterWords[k].0| > 0
  {
  }

  /** The text after the first `k` replacements, each `str.replace` over the
      whole text. */
  function RenameUpTo(s: string, k: nat): string
    requires k <= |ChapterWords|
  {
    if k == 0 then s
    else
      ChapterWordsFacts();
      Replace(RenameUpTo(s, k - 1), Capitulo + ChapterWords[k - 1].0, Capitulo + ChapterWords[k - 1].1)
  }

  function RenameChapters(s: string): string
  {
    RenameUpTo(s, |ChapterWords|)
  }

  /** `converter_capitulos_para_extenso_simples`: the loop rebinding the text
      after each replacement. */
  method ConvertChapterNumerals(text: string) returns (r: string)
    ensures r == RenameChapters(text)
  {
    ChapterWordsFacts();
    r := text;
    for k := 0 to |ChapterWords|
      invariant r == RenameUpTo(text, k)
    {
      var (original, novo) := ChapterWords[k];
      r := Replace(r, Capitulo + original, Capitulo + novo);
    }
  }

  /** No "CA" inside: the pattern cannot start there. */
  predicate NoCA(w: string)
  {
    forall j :: 0 <= j < |w| - 1 ==> !(w[j] == 'C' && w[j + 1] == 'A')
  }

  /** One replacement on a heading made of the word and `w`: it applies at
      the start or nowhere. */
  lemma {:induction false} ReplaceInHeading(w: string, pw: string, rw: string)
    requires pw != [] && NoCA(w)
    ensures Replace(Capitulo + w, Capitulo + pw, Capitulo + rw)
         == Capitulo + (if StartsWith(w, pw) then rw + w[|pw|..] else w)
  {
    var s := Capitulo + w;
    var pat := Capitulo + pw;
    StartsAfterPrefix(Capitulo, w, pw);
    if StartsWith(w, pw) {
      assert s[|pat|..] == w[|pw|..];
      NoPatternAfter(w[|pw|..], pat);
      ReplaceAbsent(w[|pw|..], pat, Capitulo + rw);
    } else if |s| >= |pat| {
      NoPatternInTail(w, pat);
      ReplaceAbsent(s[1..], pat, Capitulo + rw);
      assert s == [s[0]] + s[1..];
    }
  }

  /** A common prefix does not change whether one text starts with another. */
  lemma StartsAfterPrefix(c: string, w: string, p: string)
    ensures StartsWith(c + w, c + p) <==> StartsWith(w, p)
  {
    if |p| <= |w| {
      var x := w[..|p|];
      assert (c + w)[..|c| + |p|] == c + x;
      assert (c + x)[|c|..] == x && (c + p)[|c|..] == p;
    }
  }

  /** A text without "CA" holds no pattern that starts with "CA". */
  lemma {:induction false} NoPatternAfter(t: string, pat: string)
    requires NoCA(t) && |pat| >= 2 && pat[0] == 'C' && pat[1] == 'A'
    ensures forall i: nat :: !OccursAt(t, pat, i)
  {
    forall i: nat ensures !OccursAt(t, pat, i) {
      if i + |pat| <= |t| {
        assert t[i..i + |pat|][0] == t[i] && t[i..i + |pat|][1] == t[i + 1];
      }
    }
  }

  /** Past its first character, a heading holds no pattern that starts
      with "CA". */
  lemma {:induction false} NoPatternInTail(w: string, pat: string)
    requires NoCA(w) && |pat| >= 2 && pat[0] == 'C' && pat[1] == 'A'
    ensures forall i: nat :: !OccursAt((Capitulo + w)[1..], pat, i)
  {
    var t := (Capitulo + w)[1..];
    forall i: nat ensures !OccursAt(t, pat, i) {
      if i + |pat| <= |t| {
        assert t[i..i + |pat|][0] == t[i] && t[i..i + |pat|][1] == t[i + 1];
        if i >= 8 {
          assert t[i] == w[i - 8] && t[i + 1] == w[i - 7];
        }
      }
    }
  }

  /** The replacements seen on the word after "CAPÍTULO ". */
  function WordUpTo(w: string, k: nat): string
    requires k <= |ChapterWords|
  {
    if k == 0 then w
    else
      var v := WordUpTo(w, k - 1);
      var (pw, rw) := ChapterWords[k - 1];
      if StartsWith(v, pw) then rw + v[|pw|..] else v
  }

  lemma {:induction false} NoCAConcat(a: string, b: string)
    requires NoCA(a) && NoCA(b) && (a == [] || a[|a| - 1] != 'C')
    ensures NoCA(a + b)
  {
    var s := a + b;
    forall j | 0 <= j < |s| - 1 ensures !(s[j] == 'C' && s[j + 1] == 'A') {
      if j + 1 < |a| {
        assert s[j] == a[j] && s[j + 1] == a[j + 1];
      } else if j >= |a| {
        assert s[j] == b[j - |a|] && s[j + 1] == b[j + 1 - |a|];
      }
    }
  }

  /** The renaming of a heading is the renaming of its word. */
  lemma {:induction false} RenameHeading(w: string, k: nat)
    requires k <= |ChapterWords| && NoCA(w)
    ensures NoCA(WordUpTo(w, k))
    ensures RenameUpTo(Capitulo + w, k) == Capitulo + WordUpTo(w, k)
  {
    if k > 0 {
      RenameHeading(w, k - 1);
      ChapterWordNoCA(k - 1);
      RenameStep(w, k);
      ReplaceWordInHeading(WordUpTo(w, k - 1), ChapterWords[k - 1].0, ChapterWords[k - 1].1);
    }
  }

  /** One replacement of the word `pw` by `rw`: it acts on the word after
      "CAPÍTULO " alone, and leaves no "CA" in it. */
  lemma ReplaceWordInHeading(v: string, pw: string, rw: string)
    requires pw != [] && rw != [] && NoCA(v) && NoCA(rw) && rw[|rw| - 1] != 'C'
    ensures var v' := if StartsWith(v, pw) then rw + v[|pw|..] else v;
      NoCA(v') && Replace(Capitulo + v, Capitulo + pw, Capitulo + rw) == Capitulo + v'
  {
    ReplaceInHeading(v, pw, rw);
    if StartsWith(v, pw) {
      NoCADrop(v, |pw|);
      NoCAConcat(rw, v[|pw|..]);
    }
  }

  /** The `k`-th replacement, on the text and on the word alone. */
  lemma RenameStep(w: string, k: nat)
    requires 0 < k <= |ChapterWords|
    ensures var v := WordUpTo(w, k - 1);
      var (pw, rw) := ChapterWords[k - 1];
      && RenameUpTo(Capitulo + w, k) == Replace(RenameUpTo(Capitulo + w, k - 1), Capitulo + pw, Capitulo + rw)
      && WordUpTo(w, k) == if StartsWith(v, pw) then rw + v[|pw|..] else v
  {
  }

  /** No word of the table holds "CA" or ends in 'C'. */
  lemma ChapterWordNoCA(k: nat)
    requires k < |ChapterWords|
    ensures ChapterWords[k].0 != [] && ChapterWords[k].1 != []
    ensures NoCA(ChapterWords[k].1) && ChapterWords[k].1[|ChapterWords[k].1| - 1] != 'C'
  {
    ChapterWordsFacts();
  }

  /** A suffix of a text without "CA" has none. */
  lemma NoCADrop(v: string, n: nat)
    requires n <= |v| && NoCA(v)
    ensures NoCA(v[n..])
  {
    assert forall j :: 0 <= j < |v| - n ==> v[n..][j] == v[n + j];
  }

  /** What the renaming makes of the headings "CAPÍTULO I" to "CAPÍTULO X":
      an earlier, shorter numeral is replaced first, so "II" reads "UMI". */
  const RenamedNumerals: seq<string> :=
    ["UM", "UMI", "UMII", "UMV", "CINCO", "CINCOI", "CINCOII", "CINCOIII", "UMX", "DEZ"]

  /** The standard numerals of 1 to 10. */
  const SmallRomans: seq<string> := ["I", "II", "III", "IV", "V", "VI", "VII", "VIII", "IX", "X"]

  /** The standard numeral of each chapter from 1 to 10. */
  lemma {:induction false} SmallNumeral(n: nat)
    requires 1 <= n <= 10
    ensures Roman.ToRoman(n) == SmallRomans[n - 1]
  {
    if n <= 5 { LowNumeral(n); } else { HighNumeral(n); }
  }

  lemma {:induction false} LowNumeral(n: nat)
    requires 1 <= n <= 5
    ensures Roman.ToRoman(n) == SmallRomans[n - 1]
  {
    if n == 1 { NumeralOne(); }
    else if n == 2 { NumeralTwo(); }
    else if n == 3 { NumeralThree(); }
    else if n == 4 { NumeralFour(); }
    else { NumeralFive(); }
  }

  lemma {:induction false} HighNumeral(n: nat)
    requires 6 <= n <= 10
    ensures Roman.ToRoman(n) == SmallRomans[n - 1]
  {
    if n == 6 { NumeralSix(); }
    else if n == 7 { NumeralSeven(); }
    else if n == 8 { NumeralEight(); }
    else if n == 9 { NumeralNine(); }
    else { NumeralTen(); }
  }

  lemma NumeralOne() ensures Roman.ToRoman(1) == "I" { }
  lemma NumeralTwo() ensures Roman.ToRoman(2) == "II" { }
  lemma NumeralThree() ensures Roman.ToRoman(3) == "III" { }
  lemma NumeralFour() ensures Roman.ToRoman(4) == "IV" { }
  lemma NumeralFive() ensures Roman.ToRoman(5) == "V" { }
  lemma NumeralSix() ensures Roman.ToRoman(6) == "VI" { }
  lemma NumeralSeven() ensures Roman.ToRoman(7) == "VII" { }
  lemma NumeralEight() ensures Roman.ToRoman(8) == "VIII" { }
  lemma NumeralNine() ensures Roman.ToRoman(9) == "IX" { }
  lemma NumeralTen() ensures Roman.ToRoman(10) == "X" { }

  /** The replacements apply one after the other, in the listed order:
      "CAPÍTULO II" becomes "CAPÍTULO UMI", "CAPÍTULO IV" becomes
      "CAPÍTULO UMV", and so on. */
  lemma {:induction false} RenamedHeadings(n: nat)
    requires 1 <= n <= 10
    ensures RenameChapters(Capitulo + Roman.ToRoman(n)) == Capitulo + RenamedNumerals[n - 1]
  {
    var w := Roman.ToRoman(n);
    SmallNumeral(n);
    Roman.RomanLetters(n);
    RenameHeading(w, 10);
    WordUpToNumeral(n);
  }

  lemma {:induction false} WordUpToNumeral(n: nat)
    requires 1 <= n <= 10
    ensures WordUpTo(SmallRomans[n - 1], 10) == RenamedNumerals[n - 1]
  {
    if n <= 5 { LowWordUpToNumeral(n); } else { HighWordUpToNumeral(n); }
  }

  lemma {:induction false} LowWordUpToNumeral(n: nat)
    requires 1 <= n <= 5
    ensures WordUpTo(SmallRomans[n - 1], 10) == RenamedNumerals[n - 1]
  {
    if n == 1 { RenamedOne(n); }
    else if n == 2 { RenamedTwo(n); }
    else if n == 3 { RenamedThree(n); }
    else if n == 4 { RenamedFour(n); }
    else { RenamedFive(n); }
  }

  lemma {:induction false} HighWordUpToNumeral(n: nat)
    requires 6 <= n <= 10
    ensures WordUpTo(SmallRomans[n - 1], 10) == RenamedNumerals[n - 1]
  {
    if n == 6 { RenamedSix(n); }
    else if n == 7 { RenamedSeven(n); }
    else if n == 8 { RenamedEight(n); }
    else if n == 9 { RenamedNine(n); }
    else { RenamedTen(n); }
  }

  lemma {:induction false} RenamedOne(n: nat)
    requires n == 1
    ensures WordUpTo(SmallRomans[n - 1], 10) == RenamedNumerals[n - 1]
  {
    RenameInitialI(SmallRomans[n - 1]);
  }

  lemma {:induction false} RenamedTwo(n: nat)
    requires n == 2
    ensures WordUpTo(SmallRomans[n - 1], 10) == RenamedNumerals[n - 1]
  {
    RenameInitialI(SmallRomans[n - 1]);
  }

  lemma {:induction false} RenamedThree(n: nat)
    requires n == 3
    ensures WordUpTo(SmallRomans[n - 1], 10) == RenamedNumerals[n - 1]
  {
    RenameInitialI(SmallRomans[n - 1]);
  }

  lemma {:induction false} RenamedFour(n: nat)
    requires n == 4
    ensures WordUpTo(SmallRomans[n - 1], 10) == RenamedNumerals[n - 1]
  {
    RenameInitialI(SmallRomans[n - 1]);
  }

  lemma {:induction false} RenamedFive(n: nat)
    requires n == 5
    ensures WordUpTo(SmallRomans[n - 1], 10) == RenamedNumerals[n - 1]
  {
    RenameInitialV(SmallRomans[n - 1]);
  }

  lemma {:induction false} RenamedSix(n: nat)
    requires n == 6
    ensures WordUpTo(SmallRomans[n - 1], 10) == RenamedNumerals[n - 1]
  {
    RenameInitialV(SmallRomans[n - 1]);
  }

  lemma {:induction false} RenamedSeven(n: nat)
    requires n == 7
    ensures WordUpTo(SmallRomans[n - 1], 10) == RenamedNumerals[n - 1]
  {
    RenameInitialV(SmallRomans[n - 1]);
  }

  lemma {:induction false} RenamedEight(n: nat)
    requires n == 8
    ensures WordUpTo(SmallRomans[n - 1], 10) == RenamedNumerals[n - 1]
  {
    RenameInitialV(SmallRomans[n - 1]);
  }

  lemma {:induction false} RenamedNine(n: nat)
    requires n == 9
    ensures WordUpTo(SmallRomans[n - 1], 10) == RenamedNumerals[n - 1]
  {
    RenameInitialI(SmallRomans[n - 1]);
  }

  lemma {:induction false} RenamedTen(n: nat)
    requires n == 10
    ensures WordUpTo(SmallRomans[n - 1], 10) == RenamedNumerals[n - 1]
  {
    RenameInitialX(SmallRomans[n - 1]);
  }

  /** A string that differs from `pw` at `i` does not start with it. */
  lemma {:induction false} NotStartsWithAt(v: string, pw: string, i: nat)
    requires i < |pw| && (i >= |v| || v[i] != pw[i])
    ensures !StartsWith(v, pw)
  {
    if |pw| <= |v| {
      assert v[..|pw|][i] == v[i];
    }
  }

  /** The first letter of each numeral the renaming replaces, in order. */
  const PatternInitials: string := "IIIIVVVVIX"

  lemma PatternInitialsFacts()
    ensures forall i :: 0 <= i < 10 ==> ChapterWords[i].0 != [] && ChapterWords[i].0[0] == PatternInitials[i]
  {
  }

  /** Replacements `j` to `k - 1` leave a word alone when none of their
      numerals starts with the word's first letter. */
  lemma {:induction false} WordUnchanged(w: string, j: nat, k: nat)
    requires j <= k <= |ChapterWords| && WordUpTo(w, j) != []
    requires forall i :: j <= i < k ==> PatternInitials[i] != WordUpTo(w, j)[0]
    ensures WordUpTo(w, k) == WordUpTo(w, j)
    decreases k
  {
    if k > j {
      WordUnchanged(w, j, k - 1);
      PatternInitialsFacts();
      NotStartsWithAt(WordUpTo(w, j), ChapterWords[k - 1].0, 0);
    }
  }

  /** A word starting with 'I' has its 'I' turned into "UM" by the first
      replacement, and no later numeral starts with 'U'. */
  lemma {:induction false} RenameInitialI(w: string)
    requires w != [] && w[0] == 'I'
    ensures WordUpTo(w, 10) == "UM" + w[1..]
  {
    assert StartsWith(w, "I") by { assert w[..1] == "I"; }
    assert WordUpTo(w, 1) == "UM" + w[1..];
    WordUnchanged(w, 1, 10);
  }

  /** A word starting with 'V' passes the four 'I' numerals, has its 'V'
      turned into "CINCO", and no later numeral starts with 'C'. */
  lemma {:induction false} RenameInitialV(w: string)
    requires w != [] && w[0] == 'V'
    ensures WordUpTo(w, 10) == "CINCO" + w[1..]
  {
    WordUnchanged(w, 0, 4);
    assert StartsWith(w, "V") by { assert w[..1] == "V"; }
    assert WordUpTo(w, 5) == "CINCO" + w[1..];
    WordUnchanged(w, 5, 10);
  }

  /** A word starting with 'X' passes every other numeral and has its 'X'
      turned into "DEZ" by the last replacement. */
  lemma {:induction false} RenameInitialX(w: string)
    requires w != [] && w[0] == 'X'
    ensures WordUpTo(w, 10) == "DEZ" + w[1..]
  {
    WordUnchanged(w, 0, 9);
    assert StartsWith(w, "X") by { assert w[..1] == "X"; }
  }

  /** As written, the table reads the renamed fourth chapter as chapter 6:
      "CAPÍTULO IV: O fim" ends up as "CAPÍTULO 6: O Fim". */
  lemma {:induction false} FourthChapterReadsSix(title: string)
    requires TextFormat.GoodHeadingParts("UMV", title)
    ensures RenameChapters(Capitulo + Roman.ToRoman(4)) == Capitulo + "UMV"
    ensures TextFormat.StandardizeChaptersAsWritten(TextFormat.HeadingLine("UMV", title))
         == TextFormat.HeadingLine("6", TitleCase(Strip(title)))
  {
    RenamedHeadings(4);
    assert Upper("UMV") == "UMV";
    TextFormat.KnownChapterWord("UMV", title, true);
    assert NatToString(6) == "6";
  }

  /** With the corrected table, standardising a renamed heading gives back
      its number, for every chapter from 1 to 10. */
  lemma {:induction false} RenamedNumeralsReadBack(n: nat, title: string)
    requires 1 <= n <= 10
    requires TextFormat.GoodHeadingParts(RenamedNumerals[n - 1], title)
    ensures RenameChapters(Capitulo + Roman.ToRoman(n)) == Capitulo + RenamedNumerals[n - 1]
    ensures TextFormat.StandardizeChapters(TextFormat.HeadingLine(RenamedNumerals[n - 1], title))
         == TextFormat.HeadingLine(NatToString(n), TitleCase(Strip(title)))
  {
    RenamedHeadings(n);
    var w := RenamedNumerals[n - 1];
    CorrectedTableReadsRenamed(n);
    TextFormat.KnownChapterWord(w, title, false);
  }

  /** The corrected table maps each renamed numeral to its number. */
  lemma {:induction false} CorrectedTableReadsRenamed(n: nat)
    requires 1 <= n <= 10
    ensures Upper(RenamedNumerals[n - 1]) == RenamedNumerals[n - 1]
    ensures RenamedNumerals[n - 1] in Config.CorrectedChapterNumbers
    ensures Config.CorrectedChapterNumbers[RenamedNumerals[n - 1]] == n
  {
    var w := RenamedNumerals[n - 1];
    assert forall k :: 0 <= k < |w| ==> 'A' <= w[k] <= 'Z';
  }

  // ---------------------------------------------------------------------------
  // ajustar_titulo_e_capitulos_corrigir: the title and author header

  predicate IsAsciiUpper(c: char)
  {
    'A' <= c <= 'Z'
  }

  predicate IsAsciiLower(c: char)
  {
    'a' <= c <= 'z'
  }

  predicate NotSpace(c: char)
  {
    !IsSpace(c)
  }

  /** Where the parts of a match of
      `^(?P<titulo>.+?)\s+(?P<autor>[A-Z][a-z]+(?:\s+[A-Z][a-z]+))\s+(?P<body>.*)$`
      fall: the title is `s[..titleEnd]`, the author `s[authorStart..authorEnd]`
      and the body `s[bodyStart..]`. */
  datatype TitleAuthor = TitleAuthor(titleEnd: nat, authorStart: nat, authorEnd: nat, bodyStart: nat)

  /** The rest of the pattern after a title of `t` characters. Each greedy
      run is followed by a class its last character cannot satisfy, so giving
      characters back never helps. */
  function AuthorAfter(s: string, t: nat): (r: Option<TitleAuthor>)
    requires t <= |s|
    ensures r.Some? ==> (r.value.titleEnd == t
      && 0 < t < r.value.authorStart < r.value.authorEnd < r.value.bodyStart <= |s|)
  {
    if t == 0 || t == |s| || !IsSpace(s[t]) then None
    else AuthorFrom(s, t, TextFormat.RunEnd(s, t, IsSpace))
  }

  /** The author's first name starts at `a`, after the whitespace that ends
      the title. */
  function AuthorFrom(s: string, t: nat, a: nat): (r: Option<TitleAuthor>)
    requires t < a <= |s|
    ensures r.Some? ==> (r.value.titleEnd == t && r.value.authorStart == a
      && a < r.value.authorEnd < r.value.bodyStart <= |s|)
  {
    if a == |s| || !IsAsciiUpper(s[a]) then None
    else
      var b := TextFormat.RunEnd(s, a + 1, IsAsciiLower);
      var c := TextFormat.RunEnd(s, b, IsSpace);
      if b == a + 1 || c == b || c == |s| || !IsAsciiUpper(s[c]) then None
      else SurnameFrom(s, t, a, c)
  }

  /** The author's second name starts at `c`; the body after the whitespace
      that follows it. */
  function SurnameFrom(s: string, t: nat, a: nat, c: nat): (r: Option<TitleAuthor>)
    requires t < a < c < |s|
    ensures r.Some? ==> (r.value.titleEnd == t && r.value.authorStart == a
      && c < r.value.authorEnd < r.value.bodyStart <= |s|)
  {
    var d := TextFormat.RunEnd(s, c + 1, IsAsciiLower);
    var e := TextFormat.RunEnd(s, d, IsSpace);
    if d == c + 1 || e == d then None
    else Some(TitleAuthor(t, a, d, e))
  }

  /** The lazy title: the shortest title, from `t` characters up, after
      which the rest of the pattern matches. */
  function FindAuthor(s: string, t: nat): (r: Option<TitleAuthor>)
    requires t <= |s|
    ensures r.Some? ==> t < r.value.authorStart < r.value.authorEnd < r.value.bodyStart <= |s|
    ensures r.Some? ==> r.value.titleEnd < r.value.authorStart
    decreases |s| - t
  {
    if t == |s| then None
    else
      var m := AuthorAfter(s, t);
      if m.Some? then m else FindAuthor(s, t + 1)
  }

  /** The search finds the first title length, from `t` up, after which the
      rest of the pattern matches, and finds none only when there is none. */
  lemma {:induction false} FindAuthorSpec(s: string, t: nat)
    requires t <= |s|
    ensures var r := FindAuthor(s, t);
      && (r.Some? ==> t <= r.value.titleEnd < |s| && AuthorAfter(s, r.value.titleEnd) == r)
      && (r.Some? ==> forall u :: t <= u < r.value.titleEnd ==> AuthorAfter(s, u).None?)
      && (r.None? ==> forall u :: t <= u <= |s| ==> AuthorAfter(s, u).None?)
    decreases |s| - t
  {
    if t == |s| {
      assert FindAuthor(s, t).None?;
      assert AuthorAfter(s, t).None?;
    } else if AuthorAfter(s, t).Some? {
      assert FindAuthor(s, t) == AuthorAfter(s, t);
    } else {
      assert FindAuthor(s, t) == FindAuthor(s, t + 1);
      FindAuthorSpec(s, t + 1);
      var r := FindAuthor(s, t + 1);
      if r.Some? {
        NoAuthorBefore(s, t, r.value.titleEnd);
      } else {
        NoAuthorBefore(s, t, |s| + 1);
      }
    }
  }

  /** No match after `t` characters, nor after any length up to `b`. */
  lemma NoAuthorBefore(s: string, t: nat, b: nat)
    requires t < b <= |s| + 1 && AuthorAfter(s, t).None?
    requires forall u :: t + 1 <= u < b ==> AuthorAfter(s, u).None?
    ensures forall u :: t <= u < b ==> AuthorAfter(s, u).None?
  {
  }

  /** `re.match(pattern, texto, re.DOTALL)`. */
  function MatchTitleAuthor(s: string): Option<TitleAuthor>
  {
    FindAuthor(s, 0)
  }

  /** `endswith((".", "!", "?"))`. */
  predicate EndsWithStop(s: string)
  {
    s != [] && (s[|s| - 1] == '.' || s[|s| - 1] == '!' || s[|s| - 1] == '?')
  }

  /** A header line with a period added unless it ends with `.`, `!` or `?`. */
  function WithStop(s: string): (r: string)
    ensures EndsWithStop(r)
  {
    if EndsWithStop(s) then s else s + "."
  }

  /** The regex branch: title, author, a blank line and the body. */
  function TitleAuthorText(s: string, m: TitleAuthor): string
    requires m.titleEnd <= m.authorStart <= m.authorEnd <= m.bodyStart <= |s|
  {
    WithStop(Strip(s[..m.titleEnd])) + "\n" + WithStop(Strip(s[m.authorStart..m.authorEnd]))
    + "\n\n" + Strip(s[m.bodyStart..])
  }

  /** Letters or whitespace from `i` up to `j`. */
  ghost predicate NameChars(s: string, i: nat, j: nat)
    requires i <= j <= |s|
  {
    forall k :: i <= k < j ==> IsAsciiUpper(s[k]) || IsAsciiLower(s[k]) || IsSpace(s[k])
  }

  lemma {:induction false} SurnameShape(s: string, t: nat, a: nat, c: nat)
    requires t < a < c < |s| && IsAsciiUpper(s[c]) && SurnameFrom(s, t, a, c).Some?
    ensures var d := SurnameFrom(s, t, a, c).value.authorEnd;
      NameChars(s, c, d) && IsAsciiLower(s[d - 1]) && d < |s| && IsSpace(s[d])
  {
  }

  lemma {:induction false} AuthorFromShape(s: string, t: nat, a: nat)
    requires t < a <= |s| && AuthorFrom(s, t, a).Some?
    ensures var d := AuthorFrom(s, t, a).value.authorEnd;
      && IsAsciiUpper(s[a]) && NameChars(s, a, d) && IsAsciiLower(s[d - 1])
      && d < |s| && IsSpace(s[d])
      && exists k :: a < k < d && IsSpace(s[k])
  {
    var b := TextFormat.RunEnd(s, a + 1, IsAsciiLower);
    var c := TextFormat.RunEnd(s, b, IsSpace);
    SurnameShape(s, t, a, c);
    assert a < b < c;
  }

  /** After a title of `t` characters, the author the pattern finds is two
      capitalised ASCII words separated by whitespace, with whitespace on
      both sides. */
  lemma {:induction false} AuthorShape(s: string, t: nat)
    requires t <= |s| && AuthorAfter(s, t).Some?
    ensures var m := AuthorAfter(s, t).value;
      var author := s[m.authorStart..m.authorEnd];
      && IsAsciiUpper(author[0]) && IsAsciiLower(author[|author| - 1])
      && (forall k :: 0 <= k < |author| ==> IsAsciiUpper(author[k]) || IsAsciiLower(author[k]) || IsSpace(author[k]))
      && (exists k :: 0 < k < |author| && IsSpace(author[k]))
      && IsSpace(s[t]) && IsSpace(s[m.authorEnd])
  {
    var m := AuthorAfter(s, t).value;
    var a := TextFormat.RunEnd(s, t, IsSpace);
    AuthorFromShape(s, t, a);
    var author := s[a..m.authorEnd];
    var k :| a < k < m.authorEnd && IsSpace(s[k]);
    assert author[k - a] == s[k];
    forall j | 0 <= j < |author|
      ensures IsAsciiUpper(author[j]) || IsAsciiLower(author[j]) || IsSpace(author[j])
    {
      assert author[j] == s[a + j];
    }
  }

  /** The match, when there is one, has the author's shape, and no shorter
      title lets the pattern match. */
  lemma {:induction false} TitleAuthorShape(s: string)
    requires MatchTitleAuthor(s).Some?
    ensures var m := MatchTitleAuthor(s).value;
      && m.titleEnd < |s| && AuthorAfter(s, m.titleEnd) == Some(m)
      && (forall u: nat :: u < m.titleEnd ==> AuthorAfter(s, u).None?)
  {
    FindAuthorSpec(s, 0);
  }

  /** In the regex branch the title and author lines end with `.`, `!` or
      `?`, and the author line is the author as found. */
  lemma {:induction false} TitleAuthorLines(s: string)
    requires MatchTitleAuthor(s).Some?
    ensures var m := MatchTitleAuthor(s).value;
      var author := s[m.authorStart..m.authorEnd];
      TitleAuthorText(s, m)
        == WithStop(Strip(s[..m.titleEnd])) + "\n" + author + ".\n\n" + Strip(s[m.bodyStart..])
  {
    TitleAuthorShape(s);
    var m := MatchTitleAuthor(s).value;
    AuthorShape(s, m.titleEnd);
    var author := s[m.authorStart..m.authorEnd];
    StripTrimmed(author);
    assert WithStop(author) == author + ".";
    var p := WithStop(Strip(s[..m.titleEnd])) + "\n" + author;
    AppendAssoc(WithStop(Strip(s[..m.titleEnd])) + "\n", author, ".");
    AppendAssoc(p, ".", "\n\n");
    assert "." + "\n\n" == ".\n\n";
  }

  // The fallback branch, line by line

  /** `[linha.strip() for linha in linhas if linha.strip()]`. */
  function NonBlankStripped(lines: seq<string>): (r: seq<string>)
    ensures |r| <= |lines|
    ensures forall j :: 0 <= j < |r| ==> r[j] != [] && Strip(r[j]) == r[j]
  {
    if lines == [] then []
    else
      var init := NonBlankStripped(lines[..|lines| - 1]);
      var last := lines[|lines| - 1];
      StripIdempotent(last);
      if IsBlank(last) then init else init + [Strip(last)]
  }

  /** Where the body starts: after the second non-blank line, or at the end
      when there are fewer than two. */
  function BodyStart(lines: seq<string>): (r: nat)
    ensures r <= |lines|
  {
    if lines == [] then 0
    else if |NonBlankStripped(lines[..|lines| - 1])| >= 2 then BodyStart(lines[..|lines| - 1])
    else |lines|
  }

  function Take2(xs: seq<string>): seq<string>
  {
    if |xs| <= 2 then xs else xs[..2]
  }

  /** One more line either adds its stripped self to the non-blank lines or
      not, and moves the body start only while fewer than two came before. */
  lemma {:induction false} HeaderStep(lines: seq<string>, i: nat)
    requires i < |lines|
    ensures NonBlankStripped(lines[..i + 1])
      == NonBlankStripped(lines[..i]) + (if IsBlank(lines[i]) then [] else [Strip(lines[i])])
    ensures BodyStart(lines[..i + 1])
      == if |NonBlankStripped(lines[..i])| >= 2 then BodyStart(lines[..i]) else i + 1
  {
    assert lines[..i + 1][..i] == lines[..i];
  }

  lemma {:induction false} Take2Step(xs: seq<string>, x: string)
    ensures Take2(xs + [x]) == if |xs| < 2 then Take2(xs) + [x] else Take2(xs)
  {
    if |xs| >= 2 {
      assert (xs + [x])[..2] == xs[..2];
    }
  }

  lemma {:induction false} SliceStep(lines: seq<string>, b: nat, i: nat)
    requires b <= i < |lines|
    ensures lines[b..i + 1] == lines[b..i] + [lines[i]]
  {
  }

  /** What one more line does to the non-blank lines, to the first two of
      them and to the body. */
  lemma SplitHeaderStep(lines: seq<string>, i: nat)
    requires i < |lines|
    ensures var nb := NonBlankStripped(lines[..i]);
      var nb1 := NonBlankStripped(lines[..i + 1]);
      && nb1 == nb + (if IsBlank(lines[i]) then [] else [Strip(lines[i])])
      && Take2(nb1) == (if !IsBlank(lines[i]) && |nb| < 2 then Take2(nb) + [Strip(lines[i])] else Take2(nb))
      && lines[BodyStart(lines[..i + 1])..i + 1]
         == (if |nb| >= 2 then lines[BodyStart(lines[..i])..i] + [lines[i]] else [])
  {
    var nb := NonBlankStripped(lines[..i]);
    HeaderStep(lines, i);
    if IsBlank(lines[i]) {
      assert nb + [] == nb;
    } else {
      Take2Step(nb, Strip(lines[i]));
    }
    if |nb| >= 2 {
      SliceStep(lines, BodyStart(lines[..i]), i);
    }
  }

  /** The loop state of `SplitHeader` after one more line, branch by branch. */
  lemma SplitHeaderNext(lines: seq<string>, i: nat, count: int, header: seq<string>, body: seq<string>)
    requires i < |lines|
    requires count == |NonBlankStripped(lines[..i])|
    requires header == Take2(NonBlankStripped(lines[..i]))
    requires body == lines[BodyStart(lines[..i])..i]
    requires count < 2 ==> body == []
    ensures !IsBlank(lines[i]) ==> count + 1 == |NonBlankStripped(lines[..i + 1])|
    ensures !IsBlank(lines[i]) && count + 1 <= 2 ==>
      && header + [Strip(lines[i])] == Take2(NonBlankStripped(lines[..i + 1]))
      && body == lines[BodyStart(lines[..i + 1])..i + 1]
    ensures !IsBlank(lines[i]) && count + 1 > 2 ==>
      && header == Take2(NonBlankStripped(lines[..i + 1]))
      && body + [lines[i]] == lines[BodyStart(lines[..i + 1])..i + 1]
    ensures IsBlank(lines[i]) ==>
      && count == |NonBlankStripped(lines[..i + 1])|
      && header == Take2(NonBlankStripped(lines[..i + 1]))
      && (count >= 2 ==> body + [lines[i]] == lines[BodyStart(lines[..i + 1])..i + 1])
      && (count < 2 ==> body == lines[BodyStart(lines[..i + 1])..i + 1])
  {
    SplitHeaderStep(lines, i);
  }

  /** The loop of the fallback branch: non-blank lines are counted, the first
      two, stripped, go to `header`, and from then on every line goes to
      `corpo`. */
  method SplitHeader(lines: seq<string>) returns (header: seq<string>, body: seq<string>)
    ensures header == Take2(NonBlankStripped(lines))
    ensures body == lines[BodyStart(lines)..]
  {
    header := [];
    body := [];
    var count := 0;
    for i := 0 to |lines|
      invariant count == |NonBlankStripped(lines[..i])|
      invariant header == Take2(NonBlankStripped(lines[..i]))
      invariant body == lines[BodyStart(lines[..i])..i]
      invariant count < 2 ==> body == []
    {
      var line := lines[i];
      SplitHeaderNext(lines, i, count, header, body);
      if !IsBlank(line) {
        count := count + 1;
        if count <= 2 {
          header := header + [Strip(line)];
        } else {
          body := body + [line];
        }
      } else if count >= 2 {
        body := body + [line];
      }
    }
    assert lines[..|lines|] == lines;
  }

  /** `str.split()` with no argument: the maximal runs of non-whitespace. */
  function Words(s: string): (r: seq<string>)
    ensures forall j :: 0 <= j < |r| ==> r[j] != [] && forall k :: 0 <= k < |r[j]| ==> !IsSpace(r[j][k])
    decreases |s|
  {
    StripLeftShape(s);
    var t := StripLeft(s);
    if t == [] then []
    else
      var e := TextFormat.RunEnd(t, 0, NotSpace);
      [t[..e]] + Words(t[e..])
  }

  /** A single header line of at least four words whose last two start with
      an upper-case letter is split into title and author. */
  function SplitAuthor(header: seq<string>): seq<string>
  {
    if |header| != 1 then header
    else
      var words := Words(header[0]);
      if |words| >= 4 && IsUpperChar(words[|words| - 1][0]) && IsUpperChar(words[|words| - 2][0])
      then [Strip(Join(" ", words[..|words| - 2])), Strip(Join(" ", words[|words| - 2..]))]
      else header
  }

  /** The first two header lines get their final stop. */
  function StopHeader(header: seq<string>): seq<string>
  {
    if header == [] then []
    else if |header| == 1 then [WithStop(header[0])]
    else [WithStop(header[0]), WithStop(header[1])] + header[2..]
  }

  /** The fallback branch on the lines of the text. */
  function FallbackText(lines: seq<string>): string
  {
    Join("\n", StopHeader(SplitAuthor(Take2(NonBlankStripped(lines)))) + [""] + lines[BodyStart(lines)..])
  }

  /** `ajustar_titulo_e_capitulos_corrigir` up to its chapter substitution. */
  function AdjustTitle(text: string): string
  {
    var m := MatchTitleAuthor(text);
    if m.Some? then TitleAuthorText(text, m.value)
    else FallbackText(TextFormat.SplitLines(text))
  }

  /** `ajustar_titulo_e_capitulos_corrigir`, its chapter substitution left
      out. */
  method AdjustTitleAndAuthor(text: string) returns (r: string)
    ensures r == AdjustTitle(text)
  {
    var m := MatchTitleAuthor(text);
    if m.Some? {
      r := TitleAuthorText(text, m.value);
    } else {
      var lines := TextFormat.SplitLines(text);
      var header, body := SplitHeader(lines);
      header := SplitAuthor(header);
      ghost var split := header;
      if header != [] && !EndsWithStop(header[0]) {
        header := header[0 := header[0] + "."];
      }
      if |header| > 1 && !EndsWithStop(header[1]) {
        header := header[1 := header[1] + "."];
      }
      StopHeaderInPlace(split);
      assert header + [""] + body == StopHeader(SplitAuthor(Take2(NonBlankStripped(lines)))) + [""] + lines[BodyStart(lines)..];
      r := Join("\n", header + [""] + body);
    }
  }

  /** Adding the stop to the first line, then to the second, in place, is
      `StopHeader`. */
  lemma StopHeaderInPlace(h: seq<string>)
    ensures var h1 := if h != [] && !EndsWithStop(h[0]) then h[0 := h[0] + "."] else h;
      var h2 := if |h1| > 1 && !EndsWithStop(h1[1]) then h1[1 := h1[1] + "."] else h1;
      h2 == StopHeader(h)
  {
    var h1 := if h != [] && !EndsWithStop(h[0]) then h[0 := h[0] + "."] else h;
    if h != [] {
      assert h1[0] == WithStop(h[0]) && h1[1..] == h[1..];
      if |h| == 1 {
        assert h1 == [WithStop(h[0])];
      } else {
        var h2 := if !EndsWithStop(h1[1]) then h1[1 := h1[1] + "."] else h1;
        assert h2[0] == WithStop(h[0]) && h2[1] == WithStop(h[1]) && h2[2..] == h[2..];
        assert h2 == [h2[0], h2[1]] + h2[2..];
      }
    }
  }

  /** In the fallback branch, when the text has at least two non-blank
      lines, they are the header, stripped, each ending in `.`, `!` or `?`;
      the body is every line after the second of them. */
  lemma {:induction false} FallbackHeader(lines: seq<string>)
    requires |NonBlankStripped(lines)| >= 2
    ensures var nb := NonBlankStripped(lines);
      var h := StopHeader(SplitAuthor(Take2(nb)));
      && |h| == 2
      && (forall j :: 0 <= j < 2 ==> (h[j] == nb[j] || h[j] == nb[j] + ".") && EndsWithStop(h[j]))
  {
  }

  /** With a single non-blank line the header is that line, or its title
      and author when it ends in two capitalised words; either way every
      header line ends in `.`, `!` or `?`. */
  lemma {:induction false} FallbackSingleLine(lines: seq<string>)
    requires |NonBlankStripped(lines)| == 1
    ensures var h := StopHeader(SplitAuthor(Take2(NonBlankStripped(lines))));
      && 1 <= |h| <= 2
      && (forall j :: 0 <= j < |h| ==> EndsWithStop(h[j]))
      && (|h| == 1 ==> h[0] == WithStop(NonBlankStripped(lines)[0]))
  {
  }
}
