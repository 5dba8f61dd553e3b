/** The passes of `melhorar_texto_corrigido` (`src/textParser.py`) that the
    chapter renaming and paragraph punctuation of `TextParser` do not cover:
    form-feed replacement, the two footer removals, hyphenation repair and
    the abbreviation expansion of `expandir_abreviacoes`, and the whole
    pipeline in its order. The regular expressions are matched by hand, in
    the order Python's backtracking engine tries them. */
module TextCleanup {
  import opened Strings
  import TextFormat
  import TextParser

  /** Python's `\w` on Latin-1 characters: letters, digits, the numeric
      signs `¹²³¼½¾`, `ª`, `º`, `µ` and `_`. */
  predicate IsWordChar(c: char)
  {
    ('a' <= c <= 'z') || ('A' <= c <= 'Z') || ('0' <= c <= '9') || c == '_'
    || c == 'ª' || c == '²' || c == '³' || c == 'µ' || c == '¹' || c == 'º'
    || ('¼' <= c <= '¾') || ('À' <= c <= 'ÿ' && c != '×' && c != '÷')
  }

  predicate IsMeridiemLetter(c: char)
  {
    c == 'A' || c == 'P' || c == 'M'
  }

  // ---------------------------------------------------------------------------
  // remover_num_paginas_rodapes

  /** One step of a fixed pattern: a greedy run `p+`, or one character of
      class `p`. */
  datatype Step = Run(p: char -> bool) | One(p: char -> bool)

  /** Where the steps, matched one after the other from `i`, end. Every run
      is followed by a step its characters cannot satisfy, so the greedy
      runs never give characters back. */
  function MatchSteps(s: string, i: nat, steps: seq<Step>): (r: Option<nat>)
    requires i <= |s|
    ensures r.Some? ==> i + |steps| <= r.value <= |s|
    decreases steps
  {
    if steps == [] then Some(i)
    else
      match steps[0]
      case Run(p) =>
        var e := TextFormat.RunEnd(s, i, p);
        if e == i then None else MatchSteps(s, e, steps[1..])
      case One(p) =>
        if i < |s| && p(s[i]) then MatchSteps(s, i + 1, steps[1..]) else None
  }

  predicate IsSlash(c: char)
  {
    c == '/'
  }

  predicate IsColon(c: char)
  {
    c == ':'
  }

  /** `\s+\d+\s+\d+/\d+/\d+\s+\d+:\d+\s+[APM]{2}`: the page count, date and
      time a layout program prints after the file name. */
  const StampSteps: seq<Step> := [
    Run(IsSpace), Run(IsDigit), Run(IsSpace),
    Run(IsDigit), One(IsSlash), Run(IsDigit), One(IsSlash), Run(IsDigit), Run(IsSpace),
    Run(IsDigit), One(IsColon), Run(IsDigit), Run(IsSpace),
    One(IsMeridiemLetter), One(IsMeridiemLetter)
  ]

  /** `\d+\s+`: the page number and the whitespace after it. */
  const PageNumberSteps: seq<Step> := [Run(IsDigit), Run(IsSpace)]

  /** Where the stamp starting at `i` ends. */
  function StampEnd(s: string, i: nat): (r: Option<nat>)
    requires i <= |s|
    ensures r.Some? ==> i < r.value <= |s|
  {
    MatchSteps(s, i, StampSteps)
  }

  /** `.indd` at `j`, and the stamp after it. */
  predicate FileNameEndAt(s: string, j: nat)
  {
    OccursAt(s, ".indd", j) && StampEnd(s, j + 5).Some?
  }

  /** No line break from `k` up to `j`. */
  ghost predicate SameLine(s: string, k: nat, j: nat)
    requires k <= j <= |s|
  {
    forall m :: k <= m < j ==> s[m] != '\n'
  }

  /** `.*?\.indd` and the stamp from `k`: the lazy file name stops at the
      first `.indd` after which the stamp matches, and cannot cross a line
      break. */
  function NameThenStamp(s: string, k: nat): (r: Option<nat>)
    requires k <= |s|
    ensures r.Some? ==> k < r.value <= |s|
    decreases |s| - k
  {
    if FileNameEndAt(s, k) then StampEnd(s, k + 5)
    else if k < |s| && s[k] != '\n' then NameThenStamp(s, k + 1)
    else None
  }

  /** Where a page footer
      `\n?\s*\d+\s+cda_pr_.*?\.indd\s+\d+\s+\d+/\d+/\d+\s+\d+:\d+\s+[APM]{2}`
      matched at the start of `s` ends. The optional line break adds nothing
      to `\s*`, which takes a line break too. */
  function PageFooterAt(s: string): (r: Option<nat>)
    ensures r.Some? ==> 0 < r.value <= |s|
  {
    match FileNameStart(s)
    case Some(k) => NameThenStamp(s, k)
    case None => None
  }

  /** Where the file name starts: after `\s*\d+\s+cda_pr_`. */
  function FileNameStart(s: string): (r: Option<nat>)
    ensures r.Some? ==> 7 <= r.value <= |s|
  {
    var c := MatchSteps(s, TextFormat.RunEnd(s, 0, IsSpace), PageNumberSteps);
    if c.Some? && OccursAt(s, "cda_pr_", c.value) then Some(c.value + 7) else None
  }

  /** `remover_num_paginas_rodapes`: every page footer, left to right,
      replaced by nothing. */
  function RemovePageFooters(s: string): (r: string)
    ensures |r| <= |s|
    decreases |s|
  {
    if s == [] then []
    else
      match PageFooterAt(s)
      case Some(e) => RemovePageFooters(s[e..])
      case None => [s[0]] + RemovePageFooters(s[1..])
  }

  /** When the lazy name search succeeds, it stops at the first `.indd`,
      on the same line, after which the stamp follows. */
  lemma {:induction false} NameThenStampFound(s: string, k: nat) returns (j: nat)
    requires k <= |s| && NameThenStamp(s, k).Some?
    ensures k <= j <= |s| && FileNameEndAt(s, j) && SameLine(s, k, j)
    ensures NameThenStamp(s, k) == StampEnd(s, j + 5)
    ensures forall m :: k <= m < j ==> !FileNameEndAt(s, m)
    decreases |s| - k
  {
    if FileNameEndAt(s, k) {
      j := k;
    } else {
      assert k < |s| && s[k] != '\n' && NameThenStamp(s, k) == NameThenStamp(s, k + 1);
      j := NameThenStampFound(s, k + 1);
      SearchedFurther(s, k, j);
    }
  }

  /** One more character of the same line, not starting `.indd` and a
      stamp, before a stretch that has none. */
  lemma SearchedFurther(s: string, k: nat, j: nat)
    requires k < j <= |s| && s[k] != '\n' && !FileNameEndAt(s, k)
    requires SameLine(s, k + 1, j) && forall m :: k + 1 <= m < j ==> !FileNameEndAt(s, m)
    ensures SameLine(s, k, j) && forall m :: k <= m < j ==> !FileNameEndAt(s, m)
  {
  }

  /** When it fails, no `.indd` followed by the stamp is on the same line. */
  lemma {:induction false} NameThenStampMissing(s: string, k: nat, j: nat)
    requires k <= j <= |s| && NameThenStamp(s, k).None? && SameLine(s, k, j)
    ensures !FileNameEndAt(s, j)
    decreases j - k
  {
    if k < j {
      NameThenStampMissing(s, k + 1, j);
    }
  }

  /** Text without the layout file prefix `cda_pr_` keeps all its pages'
      text. */
  lemma {:induction false} RemovePageFootersNoMarker(s: string)
    requires forall i: nat :: !OccursAt(s, "cda_pr_", i)
    ensures RemovePageFooters(s) == s
    decreases |s|
  {
    if s != [] {
      assert PageFooterAt(s).None?;
      forall i: nat ensures !OccursAt(s[1..], "cda_pr_", i) {
        if i + 7 <= |s| - 1 {
          assert s[1..][i..i + 7] == s[i + 1..i + 8];
          assert !OccursAt(s, "cda_pr_", i + 1);
        }
      }
      RemovePageFootersNoMarker(s[1..]);
    }
  }

  /** Steps that end on a single character match inside a longer text
      exactly as they do alone: no greedy run reaches past their end. */
  lemma {:induction false} MatchStepsIn(p: string, t: string, q: string, i: nat, steps: seq<Step>)
    requires i <= |t| && steps != [] && steps[|steps| - 1].One?
    requires MatchSteps(t, i, steps).Some?
    ensures MatchSteps(p + t + q, |p| + i, steps) == Some(|p| + MatchSteps(t, i, steps).value)
    decreases steps
  {
    var s := p + t + q;
    match steps[0]
    case Run(f) =>
      var e := TextFormat.RunEnd(t, i, f);
      assert steps[1..] != [];
      TextFormat.RunEndIn(p, t, q, i, f);
      MatchStepsIn(p, t, q, e, steps[1..]);
    case One(f) =>
      assert s[|p| + i] == t[i];
      if steps[1..] != [] {
        MatchStepsIn(p, t, q, i + 1, steps[1..]);
      }
  }

  /** The lazy name search walks over characters that are neither a line
      break nor the start of `.indd` and a stamp. */
  lemma {:induction false} NameThenStampSkips(s: string, k: nat, j: nat)
    requires k <= j <= |s|
    requires forall m :: k <= m < j ==> s[m] != '\n' && !FileNameEndAt(s, m)
    ensures NameThenStamp(s, k) == NameThenStamp(s, j)
    decreases j - k
  {
    if k < j {
      NameThenStampSkips(s, k + 1, j);
    }
  }

  /** Two greedy runs, each taking at least one character. */
  lemma TwoRuns(s: string, i: nat, f: char -> bool, g: char -> bool)
    requires i <= |s|
    requires i < TextFormat.RunEnd(s, i, f) < TextFormat.RunEnd(s, TextFormat.RunEnd(s, i, f), g)
    ensures MatchSteps(s, i, [Run(f), Run(g)]) == Some(TextFormat.RunEnd(s, TextFormat.RunEnd(s, i, f), g))
  {
    var e := TextFormat.RunEnd(s, i, f);
    var e2 := TextFormat.RunEnd(s, e, g);
    assert MatchSteps(s, e, [Run(g)]) == Some(e2) by {
      assert [Run(g)][0] == Run(g) && [Run(g)][1..] == [];
      assert MatchSteps(s, e2, []) == Some(e2);
    }
    assert MatchSteps(s, i, [Run(f), Run(g)]) == MatchSteps(s, e, [Run(g)]) by {
      assert [Run(f), Run(g)][0] == Run(f) && [Run(f), Run(g)][1..] == [Run(g)];
    }
  }

  /** Steps that end before the end of `a` match in `a + b` as in `a`. */
  lemma {:induction false} MatchStepsPrefix(a: string, b: string, i: nat, steps: seq<Step>)
    requires i <= |a| && MatchSteps(a, i, steps).Some? && MatchSteps(a, i, steps).value < |a|
    ensures MatchSteps(a + b, i, steps) == MatchSteps(a, i, steps)
    decreases steps
  {
    if steps != [] {
      match steps[0]
      case Run(f) =>
        var e := TextFormat.RunEnd(a, i, f);
        TextFormat.RunEndPrefix(a, b, i, f);
        MatchStepsPrefix(a, b, e, steps[1..]);
      case One(f) =>
        assert (a + b)[i] == a[i];
        MatchStepsPrefix(a, b, i + 1, steps[1..]);
    }
  }

  /** Where the file name starts depends only on the text up to there. */
  lemma FileNameStartPrefix(a: string, b: string)
    requires FileNameStart(a).Some?
    ensures FileNameStart(a + b) == FileNameStart(a)
  {
    var e := TextFormat.RunEnd(a, 0, IsSpace);
    var c := MatchSteps(a, e, PageNumberSteps).value;
    TextFormat.RunEndPrefix(a, b, 0, IsSpace);
    MatchStepsPrefix(a, b, e, PageNumberSteps);
    OccursInPrefix(a, b, "cda_pr_", c);
    FileNameStartFrom(a + b, e, c);
  }

  /** An occurrence in `a` is one in `a + b`. */
  lemma OccursInPrefix(a: string, b: string, sub: string, i: nat)
    requires OccursAt(a, sub, i)
    ensures OccursAt(a + b, sub, i)
  {
    assert (a + b)[i..i + |sub|] == a[i..i + |sub|];
  }

  /** `sub` occurs where it is appended. */
  lemma OccursAtEnd(a: string, sub: string)
    ensures OccursAt(a + sub, sub, |a|)
  {
    assert (a + sub)[|a|..] == sub;
  }

  /** The file name starts after the page number and `cda_pr_`. */
  lemma FileNameStartFrom(s: string, e: nat, c: nat)
    requires e <= |s| && TextFormat.RunEnd(s, 0, IsSpace) == e
    requires MatchSteps(s, e, PageNumberSteps) == Some(c) && OccursAt(s, "cda_pr_", c)
    ensures FileNameStart(s) == Some(c + 7)
  {
  }

  /** Whitespace, the page number and whitespace before `cda_pr_`: the
      greedy runs of the footer pattern end where each piece ends. */
  lemma HeadRuns(ws: string, page: string, gap: string)
    requires AllSpace(ws) && page != [] && AllDigit(page) && gap != [] && AllSpace(gap)
    ensures var h := ws + page + gap + "cda_pr_";
      && TextFormat.RunEnd(h, 0, IsSpace) == |ws|
      && TextFormat.RunEnd(h, |ws|, IsDigit) == |ws| + |page|
      && TextFormat.RunEnd(h, |ws| + |page|, IsSpace) == |ws| + |page| + |gap|
  {
    var h := ws + page + gap + "cda_pr_";
    TextFormat.RunEndFirst(ws, page, IsSpace);
    TextFormat.RunEndPrefix(ws + page, gap, 0, IsSpace);
    TextFormat.RunEndPrefix(ws + page + gap, "cda_pr_", 0, IsSpace);
    assert IsSpace(gap[0]);
    TextFormat.RunEndAfter(ws, page, gap, IsDigit);
    TextFormat.RunEndPrefix(ws + page + gap, "cda_pr_", |ws|, IsDigit);
    assert "cda_pr_"[0] == 'c';
    TextFormat.RunEndAfter(ws + page, gap, "cda_pr_", IsSpace);
  }

  /** Whitespace, the page number, whitespace and `cda_pr_`: the file name
      starts after them. */
  lemma FileNameStartHead(ws: string, page: string, gap: string)
    requires AllSpace(ws) && page != [] && AllDigit(page) && gap != [] && AllSpace(gap)
    ensures FileNameStart(ws + page + gap + "cda_pr_") == Some(|ws + page + gap + "cda_pr_"|)
  {
    var h := ws + page + gap + "cda_pr_";
    HeadRuns(ws, page, gap);
    TwoRuns(h, |ws|, IsDigit, IsSpace);
    assert MatchSteps(h, |ws|, PageNumberSteps) == Some(|ws + page + gap|);
    OccursAtEnd(ws + page + gap, "cda_pr_");
    FileNameStartFrom(h, |ws|, |ws + page + gap|);
  }

  /** A stamp matched alone matches the same way inside a text. */
  lemma StampIn(file: string, stamp: string, rest: string)
    requires StampEnd(stamp, 0) == Some(|stamp|)
    ensures StampEnd(file + stamp + rest, |file|) == Some(|file| + |stamp|)
  {
    MatchStepsIn(file, stamp, rest, 0, StampSteps);
  }

  /** The lazy name `.*?\.indd` from `k` stops at the first `.indd` with a
      stamp after it: at `j`, when the line holds no `.indd` before. */
  lemma NameThenStampAt(s: string, k: nat, j: nat, e: nat)
    requires k <= j <= |s|
    requires forall m :: k <= m < j ==> s[m] != '\n' && !OccursAt(s, ".indd", m)
    requires OccursAt(s, ".indd", j) && StampEnd(s, j + 5) == Some(e)
    ensures NameThenStamp(s, k) == Some(e)
  {
    NameThenStampSkips(s, k, j);
    assert FileNameEndAt(s, j);
  }

  /** A name without `.indd` has none starting in it inside a footer,
      not even one running into the `.indd` after it. */
  lemma NoExtensionInName(head: string, name: string, stamp: string, rest: string, m: nat)
    requires forall i: nat :: !OccursAt(name, ".indd", i)
    requires |head| <= m < |head| + |name|
    ensures !OccursAt(head + name + ".indd" + stamp + rest, ".indd", m)
  {
    var s := head + name + ".indd" + stamp + rest;
    var i := m - |head|;
    var j := |head| + |name|;
    if i + 5 <= |name| {
      assert !OccursAt(name, ".indd", i);
      assert name[i..i + 5] == s[m..m + 5];
    } else if m + 5 <= |s| {
      assert s[m..m + 5][j - m] == s[j] == '.';
    }
  }

  /** The characters of `name` inside a footer. */
  lemma NameCharsIn(head: string, name: string, stamp: string, rest: string)
    requires '\n' !in name && forall i: nat :: !OccursAt(name, ".indd", i)
    ensures var s := head + name + ".indd" + stamp + rest;
      forall m :: |head| <= m < |head| + |name| ==> s[m] != '\n' && !OccursAt(s, ".indd", m)
  {
    var s := head + name + ".indd" + stamp + rest;
    forall m | |head| <= m < |head| + |name| ensures s[m] != '\n' && !OccursAt(s, ".indd", m) {
      assert s[m] == name[m - |head|];
      NoExtensionInName(head, name, stamp, rest, m);
    }
  }

  /** The `.indd` after the name inside a footer. */
  lemma ExtensionIn(head: string, name: string, stamp: string, rest: string)
    ensures OccursAt(head + name + ".indd" + stamp + rest, ".indd", |head| + |name|)
  {
    var file := head + name + ".indd";
    var s := file + stamp + rest;
    var j := |head| + |name|;
    assert s[..|file|] == file;
    assert s[j..j + 5] == file[j..] == ".indd";
  }

  /** The lazy name `.*?\.indd` from the end of `head` ends with the stamp
      after the first `.indd`; a name with no `.indd` and no line break
      holds none. */
  lemma NameThenStampIn(head: string, name: string, stamp: string, rest: string)
    requires '\n' !in name && forall i: nat :: !OccursAt(name, ".indd", i)
    requires StampEnd(stamp, 0) == Some(|stamp|)
    ensures NameThenStamp(head + name + ".indd" + stamp + rest, |head|)
      == Some(|head + name + ".indd" + stamp|)
  {
    NameCharsIn(head, name, stamp, rest);
    ExtensionIn(head, name, stamp, rest);
    StampIn(head + name + ".indd", stamp, rest);
    NameThenStampAt(head + name + ".indd" + stamp + rest, |head|, |head| + |name|,
      |head + name + ".indd" + stamp|);
  }

  /** The file name of a whole footer, followed by any text, starts after
      `cda_pr_`. */
  lemma FileNameStartIn(ws: string, page: string, gap: string, name: string, stamp: string, rest: string)
    requires AllSpace(ws) && page != [] && AllDigit(page) && gap != [] && AllSpace(gap)
    ensures FileNameStart(ws + page + gap + "cda_pr_" + name + ".indd" + stamp + rest)
      == Some(|ws + page + gap + "cda_pr_"|)
  {
    var head := ws + page + gap + "cda_pr_";
    FileNameStartHead(ws, page, gap);
    FileNameStartPrefix(head, name);
    FileNameStartPrefix(head + name, ".indd");
    FileNameStartPrefix(head + name + ".indd", stamp);
    FileNameStartPrefix(head + name + ".indd" + stamp, rest);
  }

  /** A page footer at the start of the text is matched up to the end of
      its stamp. */
  lemma PageFooterIn(ws: string, page: string, gap: string, name: string, stamp: string, rest: string)
    requires AllSpace(ws) && page != [] && AllDigit(page) && gap != [] && AllSpace(gap)
    requires '\n' !in name && forall i: nat :: !OccursAt(name, ".indd", i)
    requires StampEnd(stamp, 0) == Some(|stamp|)
    ensures PageFooterAt(ws + page + gap + "cda_pr_" + name + ".indd" + stamp + rest)
      == Some(|ws + page + gap + "cda_pr_" + name + ".indd" + stamp|)
  {
    var head := ws + page + gap + "cda_pr_";
    FileNameStartIn(ws, page, gap, name, stamp, rest);
    NameThenStampIn(head, name, stamp, rest);
    FooterMatched(head + name + ".indd" + stamp + rest, |head|, |head + name + ".indd" + stamp|);
  }

  /** A file name and stamp found after the start make a footer match. */
  lemma FooterMatched(s: string, k: nat, e: nat)
    requires FileNameStart(s) == Some(k) && NameThenStamp(s, k) == Some(e)
    ensures PageFooterAt(s) == Some(e)
  {
  }

  /** A footer matched at the start is dropped whole. */
  lemma FooterRemoved(s: string, e: nat)
    requires PageFooterAt(s) == Some(e)
    ensures RemovePageFooters(s) == RemovePageFooters(s[e..])
  {
  }

  /** A page footer at the start of the text: whitespace, the page number,
      whitespace, a layout file name `cda_pr_….indd` on one line, and a
      stamp, all removed, and nothing of what follows. */
  lemma RemovesPageFooter(ws: string, page: string, gap: string, name: string, stamp: string, rest: string)
    requires AllSpace(ws) && page != [] && AllDigit(page) && gap != [] && AllSpace(gap)
    requires '\n' !in name && forall i: nat :: !OccursAt(name, ".indd", i)
    requires StampEnd(stamp, 0) == Some(|stamp|)
    ensures RemovePageFooters(ws + page + gap + "cda_pr_" + name + ".indd" + stamp + rest) == RemovePageFooters(rest)
  {
    var footer := ws + page + gap + "cda_pr_" + name + ".indd" + stamp;
    PageFooterIn(ws, page, gap, name, stamp, rest);
    FooterRemoved(footer + rest, |footer|);
    assert (footer + rest)[|footer|..] == rest;
  }

  // ---------------------------------------------------------------------------
  // corrigir_hifenizacao

  /** `-\s*\n\s*(\w+)` after a word ending at `e`: where the second word
      starts and ends. The whitespace runs give characters back only to
      find the line break, so the match needs a line break somewhere in the
      whitespace after the hyphen and a word character after it. */
  function HyphenBreakAt(s: string, e: nat): (r: Option<(nat, nat)>)
    requires e <= |s|
    ensures r.Some? ==> e < r.value.0 < r.value.1 <= |s| && s[e] == '-'
    ensures r.Some? ==> forall k :: e + 1 <= k < r.value.0 ==> IsSpace(s[k])
  {
    if e == |s| || s[e] != '-' then None
    else
      var w := TextFormat.RunEnd(s, e + 1, IsSpace);
      if w == |s| || !IsWordChar(s[w]) || '\n' !in s[e + 1..w] then None
      else Some((w, TextFormat.RunEnd(s, w, IsWordChar)))
  }

  /** `corrigir_hifenizacao`: `(\w+)-\s*\n\s*(\w+)` replaced by the two
      words joined. A match can only start where a word starts, and a word
      that does not match is passed over whole, since every later start in
      it reaches the same hyphen. */
  function Dehyphenate(s: string): (r: string)
    ensures |r| <= |s|
    decreases |s|
  {
    if s == [] then []
    else if !IsWordChar(s[0]) then [s[0]] + Dehyphenate(s[1..])
    else
      var e := TextFormat.RunEnd(s, 0, IsWordChar);
      match HyphenBreakAt(s, e)
      case Some((w, f)) => s[..e] + s[w..f] + Dehyphenate(s[f..])
      case None => s[..e] + Dehyphenate(s[e..])
  }

  /** The text with hyphens and whitespace taken out: what hyphenation
      repair must not change. */
  function Letters(s: string): string
  {
    if s == [] then [] else (if s[0] == '-' || IsSpace(s[0]) then [] else [s[0]]) + Letters(s[1..])
  }

  lemma {:induction false} LettersAppend(a: string, b: string)
    ensures Letters(a + b) == Letters(a) + Letters(b)
    decreases |a|
  {
    if a != [] {
      assert (a + b)[1..] == a[1..] + b;
      LettersAppend(a[1..], b);
    } else {
      assert a + b == b;
    }
  }

  lemma {:induction false} LettersOfGap(s: string, e: nat, w: nat)
    requires e < w <= |s| && s[e] == '-'
    requires forall k :: e + 1 <= k < w ==> IsSpace(s[k])
    ensures Letters(s[e..w]) == []
    decreases w - e
  {
    if e + 1 < w {
      assert s[e..w][1..] == s[e + 1..w];
      LettersOfSpaces(s[e + 1..w]);
    } else {
      assert s[e..w] == ['-'];
    }
  }

  lemma {:induction false} LettersOfSpaces(s: string)
    requires forall k :: 0 <= k < |s| ==> IsSpace(s[k])
    ensures Letters(s) == []
    decreases |s|
  {
    if s != [] {
      LettersOfSpaces(s[1..]);
    }
  }

  /** Dropping the hyphen and the whitespace after it loses no letter. */
  lemma {:induction false} LettersOfJoin(s: string, e: nat, w: nat, f: nat)
    requires e < w <= f <= |s| && s[e] == '-'
    requires forall k :: e + 1 <= k < w ==> IsSpace(s[k])
    ensures Letters(s) == Letters(s[..e] + s[w..f]) + Letters(s[f..])
  {
    LettersOfGap(s, e, w);
    assert s[w..] == s[w..f] + s[f..];
    assert s[e..] == s[e..w] + s[w..];
    assert s == s[..e] + s[e..];
    LettersDropGap(s[..e], s[e..w], s[w..f], s[f..]);
  }

  lemma {:induction false} LettersDropGap(x: string, g: string, y: string, z: string)
    requires Letters(g) == []
    ensures Letters(x + (g + (y + z))) == Letters(x + y) + Letters(z)
  {
    LettersAppend(x, g + (y + z));
    LettersAppend(g, y + z);
    LettersAppend(y, z);
    LettersAppend(x, y);
  }

  /** Hyphenation repair only removes hyphens and whitespace: every other
      character stays, in order. */
  lemma {:induction false} DehyphenateKeepsLetters(s: string)
    ensures Letters(Dehyphenate(s)) == Letters(s)
    decreases |s|
  {
    if s != [] {
      if !IsWordChar(s[0]) {
        DehyphenateKeepsLetters(s[1..]);
        LettersAppend([s[0]], Dehyphenate(s[1..]));
        assert s == [s[0]] + s[1..];
        LettersAppend([s[0]], s[1..]);
      } else {
        var e := TextFormat.RunEnd(s, 0, IsWordChar);
        var h := HyphenBreakAt(s, e);
        if h.Some? {
          var (w, f) := h.value;
          DehyphenateKeepsLetters(s[f..]);
          LettersOfJoin(s, e, w, f);
          assert Dehyphenate(s) == (s[..e] + s[w..f]) + Dehyphenate(s[f..]);
          LettersAppend(s[..e] + s[w..f], Dehyphenate(s[f..]));
        } else {
          DehyphenateKeepsLetters(s[e..]);
          assert s == s[..e] + s[e..];
          LettersAppend(s[..e], s[e..]);
          LettersAppend(s[..e], Dehyphenate(s[e..]));
        }
      }
    }
  }

  /** Text without hyphens is left alone. */
  lemma {:induction false} DehyphenateNoHyphen(s: string)
    requires '-' !in s
    ensures Dehyphenate(s) == s
    decreases |s|
  {
    if s != [] {
      if !IsWordChar(s[0]) {
        DehyphenateNoHyphen(s[1..]);
      } else {
        var e := TextFormat.RunEnd(s, 0, IsWordChar);
        assert HyphenBreakAt(s, e).None? by {
          if e < |s| {
            assert s[e] in s;
          }
        }
        assert '-' !in s[e..] by {
          forall k | 0 <= k < |s| - e ensures s[e..][k] != '-' {
            assert s[e + k] in s;
          }
        }
        DehyphenateNoHyphen(s[e..]);
        assert s == s[..e] + s[e..];
      }
    }
  }

  predicate IsWord(s: string)
  {
    s != [] && forall k :: 0 <= k < |s| ==> IsWordChar(s[k])
  }

  /** The same, on positions: a word up to `e`, the hyphen, whitespace
      holding a line break up to `w`, and a word up to `f`. */
  lemma {:induction false} JoinAtLayout(s: string, e: nat, w: nat, f: nat)
    requires 0 < e < w < f <= |s| && s[e] == '-'
    requires forall k :: 0 <= k < e ==> IsWordChar(s[k])
    requires forall k :: e + 1 <= k < w ==> IsSpace(s[k])
    requires exists k :: e + 1 <= k < w && s[k] == '\n'
    requires forall k :: w <= k < f ==> IsWordChar(s[k])
    requires f < |s| ==> !IsWordChar(s[f])
    ensures Dehyphenate(s) == s[..e] + s[w..f] + Dehyphenate(s[f..])
  {
    TextFormat.RunEndAt(s, 0, e, IsWordChar);
    TextFormat.RunEndAt(s, e + 1, w, IsSpace);
    var k :| e + 1 <= k < w && s[k] == '\n';
    assert s[e + 1..w][k - e - 1] == '\n';
    TextFormat.RunEndAt(s, w, f, IsWordChar);
    assert HyphenBreakAt(s, e) == Some((w, f));
  }

  /** A word broken by a hyphen at a line end is joined again, and the text
      after the second word is repaired on its own. */
  lemma {:induction false} JoinsBrokenWord(a: string, gap: string, b: string, rest: string)
    requires IsWord(a) && IsWord(b)
    requires forall k :: 0 <= k < |gap| ==> IsSpace(gap[k])
    requires '\n' in gap
    requires rest != [] ==> !IsWordChar(rest[0])
    ensures Dehyphenate(a + "-" + gap + b + rest) == a + b + Dehyphenate(rest)
  {
    var s := a + "-" + gap + b + rest;
    var e := |a|;
    var w := e + 1 + |gap|;
    var f := w + |b|;
    assert s[..e] == a && s[e] == '-' && s[e + 1..w] == gap && s[w..f] == b && s[f..] == rest;
    forall k | 0 <= k < e ensures IsWordChar(s[k]) {
      assert s[k] == a[k];
    }
    forall k | e + 1 <= k < w ensures IsSpace(s[k]) {
      assert s[k] == gap[k - e - 1];
    }
    var n :| 0 <= n < |gap| && gap[n] == '\n';
    assert s[e + 1 + n] == '\n';
    forall k | w <= k < f ensures IsWordChar(s[k]) {
      assert s[k] == b[k - w];
    }
    JoinAtLayout(s, e, w, f);
  }

  // ---------------------------------------------------------------------------
  // remover_infos_bibliograficas_rodape

  /** `^\s*(cda_pr_.*?\.indd.*?)$` with `re.MULTILINE`, tried at a line
      start at `s[0]`: the layout file name line ends where its line ends,
      since `.` cannot cross a line break and `$` stops before one. */
  function BibliographyLineAt(s: string): (r: Option<nat>)
    ensures r.Some? ==> 0 < r.value <= |s|
  {
    var c := TextFormat.RunEnd(s, 0, IsSpace);
    if !OccursAt(s, "cda_pr_", c) then None
    else
      var e := TextFormat.RunEnd(s, c + 7, TextFormat.NotNewline);
      if exists k :: c + 7 <= k && k + 5 <= e && OccursAt(s, ".indd", k) then Some(e) else None
  }

  /** The substitution from `s[0]`; `lineStart` says whether `s[0]` starts
      a line. The line break after a removed line stays, so the next line
      starts after it. */
  function RemoveBibliographyFrom(s: string, lineStart: bool): (r: string)
    ensures |r| <= |s|
    decreases |s|
  {
    if s == [] then []
    else if lineStart && BibliographyLineAt(s).Some? then
      RemoveBibliographyFrom(s[BibliographyLineAt(s).value..], false)
    else [s[0]] + RemoveBibliographyFrom(s[1..], s[0] == '\n')
  }

  /** `remover_infos_bibliograficas_rodape`. */
  function RemoveBibliographyLines(s: string): string
  {
    RemoveBibliographyFrom(s, true)
  }

  /** Text without the layout file prefix `cda_pr_` is left alone. */
  lemma {:induction false} RemoveBibliographyNoMarker(s: string, lineStart: bool)
    requires forall i: nat :: !OccursAt(s, "cda_pr_", i)
    ensures RemoveBibliographyFrom(s, lineStart) == s
    decreases |s|
  {
    if s != [] {
      NoMarkerNoLine(s);
      NoMarkerTail(s);
      RemoveBibliographyNoMarker(s[1..], s[0] == '\n');
      RemoveBibliographyKeeps(s, lineStart);
    }
  }

  /** Without `cda_pr_` no bibliography line starts at `s[0]`. */
  lemma NoMarkerNoLine(s: string)
    requires forall i: nat :: !OccursAt(s, "cda_pr_", i)
    ensures BibliographyLineAt(s).None?
  {
    var c := TextFormat.RunEnd(s, 0, IsSpace);
    assert !OccursAt(s, "cda_pr_", c);
  }

  /** Without `cda_pr_` in `s`, there is none in `s[1..]` either. */
  lemma NoMarkerTail(s: string)
    requires s != [] && forall i: nat :: !OccursAt(s, "cda_pr_", i)
    ensures forall i: nat :: !OccursAt(s[1..], "cda_pr_", i)
  {
    forall i: nat ensures !OccursAt(s[1..], "cda_pr_", i) {
      if i + 7 <= |s| - 1 {
        assert s[1..][i..i + 7] == s[i + 1..i + 8];
        assert !OccursAt(s, "cda_pr_", i + 1);
      }
    }
  }

  /** One step of the substitution where no bibliography line starts. */
  lemma RemoveBibliographyKeeps(s: string, lineStart: bool)
    requires s != [] && BibliographyLineAt(s).None?
    ensures RemoveBibliographyFrom(s, lineStart) == [s[0]] + RemoveBibliographyFrom(s[1..], s[0] == '\n')
  {
  }

  /** The same on positions: whitespace up to `c`, `cda_pr_`, `.indd` at
      `k` and the line break at `e`. */
  lemma {:induction false} BibliographyAtLayout(s: string, c: nat, k: nat, e: nat)
    requires c + 7 <= k && k + 5 <= e < |s| && s[e] == '\n'
    requires forall j :: 0 <= j < c ==> IsSpace(s[j])
    requires OccursAt(s, "cda_pr_", c) && OccursAt(s, ".indd", k)
    requires forall j :: c + 7 <= j < e ==> s[j] != '\n'
    ensures RemoveBibliographyLines(s) == "\n" + RemoveBibliographyFrom(s[e + 1..], true)
  {
    assert s[c] == "cda_pr_"[0];
    TextFormat.RunEndAt(s, 0, c, IsSpace);
    TextFormat.RunEndAt(s, c + 7, e, TextFormat.NotNewline);
    assert c + 7 <= k && k + 5 <= e && OccursAt(s, ".indd", k);
    assert BibliographyLineAt(s) == Some(e);
    assert RemoveBibliographyFrom(s, true) == RemoveBibliographyFrom(s[e..], false);
    assert s[e..][1..] == s[e + 1..];
    assert RemoveBibliographyFrom(s[e..], false) == [s[e]] + RemoveBibliographyFrom(s[e + 1..], true);
  }

  /** A line naming a layout file, after any blank lines and indentation,
      is removed up to its line break; the line break stays. */
  lemma {:induction false} RemovesBibliographyLine(gap: string, name: string, tail: string, rest: string)
    requires forall k :: 0 <= k < |gap| ==> IsSpace(gap[k])
    requires '\n' !in name && '\n' !in tail
    ensures var s := gap + "cda_pr_" + name + ".indd" + tail + "\n" + rest;
      RemoveBibliographyLines(s) == "\n" + RemoveBibliographyFrom(rest, true)
  {
    var line := "cda_pr_" + name + ".indd" + tail;
    LayoutLine(name, tail);
    assert gap + "cda_pr_" + name + ".indd" + tail + "\n" + rest == gap + line + "\n" + rest;
    LineAfterGap(gap, line, rest, 7 + |name|);
  }

  /** The line names a layout file: it starts with `cda_pr_`, has `.indd`
      after the name, and no line break after the prefix. */
  lemma LayoutLine(name: string, tail: string)
    requires '\n' !in name && '\n' !in tail
    ensures var line := "cda_pr_" + name + ".indd" + tail;
      && OccursAt(line, "cda_pr_", 0) && OccursAt(line, ".indd", 7 + |name|)
      && forall j :: 7 <= j < |line| ==> line[j] != '\n'
  {
    var line := "cda_pr_" + name + ".indd" + tail;
    assert line[..7] == "cda_pr_";
    assert line[7 + |name|..12 + |name|] == ".indd";
    forall j | 7 <= j < |line| ensures line[j] != '\n' {
      NotNewlineInLine(name, tail, j);
    }
  }

  /** A line naming a layout file after whitespace goes, up to its line
      break. */
  lemma LineAfterGap(gap: string, line: string, rest: string, m: nat)
    requires forall k :: 0 <= k < |gap| ==> IsSpace(gap[k])
    requires OccursAt(line, "cda_pr_", 0) && 7 <= m && OccursAt(line, ".indd", m)
    requires forall j :: 7 <= j < |line| ==> line[j] != '\n'
    ensures RemoveBibliographyLines(gap + line + "\n" + rest) == "\n" + RemoveBibliographyFrom(rest, true)
  {
    var s := gap + line + "\n" + rest;
    var c := |gap|;
    var e := c + |line|;
    forall j | 0 <= j < c ensures IsSpace(s[j]) {
      assert s[j] == gap[j];
    }
    assert s[c..c + 7] == line[..7];
    assert s[c + m..c + m + 5] == line[m..m + 5];
    forall j | c + 7 <= j < e ensures s[j] != '\n' {
      assert s[j] == line[j - c];
    }
    assert s[e] == '\n' && s[e + 1..] == rest;
    BibliographyAtLayout(s, c, c + m, e);
  }

  lemma {:induction false} NotNewlineInLine(name: string, tail: string, i: nat)
    requires '\n' !in name && '\n' !in tail
    requires 7 <= i < |"cda_pr_" + name + ".indd" + tail|
    ensures ("cda_pr_" + name + ".indd" + tail)[i] != '\n'
  {
    var line := "cda_pr_" + name + ".indd" + tail;
    if i < 7 + |name| {
      assert line[i] == name[i - 7];
    } else if i >= 12 + |name| {
      assert line[i] == tail[i - 12 - |name|];
    }
  }

  // ---------------------------------------------------------------------------
  // expandir_abreviacoes

  /** The table of `expandir_abreviacoes`, in its order: each abbreviation
      with its final period, and what replaces it. */
  const Abbreviations: seq<(string, string)> := [
    ("Dr.", "Doutor"), ("D.", "Dona"), ("Dra.", "Doutora"), ("Sr.", "Senhor"),
    ("Sra.", "Senhora"), ("Srta.", "Senhorita"), ("Prof.", "Professor"),
    ("Profa.", "Professora"), ("Eng.", "Engenheiro"), ("Engª.", "Engenheira"),
    ("Adm.", "Administrador"), ("Adv.", "Advogado"), ("Exmo.", "Excelentíssimo"),
    ("Exma.", "Excelentíssima"), ("V.Exa.", "Vossa Excelência"), ("V.Sa.", "Vossa Senhoria"),
    ("Av.", "Avenida"), ("R.", "Rua"), ("Km.", "Quilômetro"), ("etc.", "etcétera"),
    ("Ref.", "Referência"), ("Pag.", "Página"), ("Pág.", "Página"), ("Págs.", "Páginas"),
    ("Pags.", "Páginas"), ("Fl.", "Folha"), ("Pe.", "Padre"), ("Fls.", "Folhas"),
    ("Dept.", "Departamento"), ("Depto.", "Departamento"), ("Univ.", "Universidade"),
    ("Inst.", "Instituição"), ("Est.", "Estado"), ("Tel.", "Telefone"),
    ("CEP.", "Código de Endereçamento Postal"),
    ("CNPJ.", "Cadastro Nacional da Pessoa Jurídica"),
    ("CPF.", "Cadastro de Pessoas Físicas"), ("EUA.", "Estados Unidos da América"),
    ("Ed.", "Edição"), ("Ltda.", "Limitada")
  ]

  /** An abbreviation of the table: it starts with a word character, so
      `\b` before it means no word character precedes it, and it ends with
      its period. */
  predicate IsAbbreviation(abbr: string)
  {
    |abbr| > 1 && IsWordChar(abbr[0]) && abbr[|abbr| - 1] == '.'
  }

  predicate WellFormedTable(table: seq<(string, string)>)
  {
    forall j :: 0 <= j < |table| ==> IsAbbreviation(table[j].0)
  }

  lemma AbbreviationsWellFormed()
    ensures WellFormedTable(Abbreviations)
    ensures |Abbreviations| == 40
  {
  }

  /** `\bABBR\.(?=\s)` with the text before already passed: the
      abbreviation at the start of `s`, followed by whitespace. */
  predicate AbbreviationAt(s: string, abbr: string)
  {
    |abbr| < |s| && s[..|abbr|] == abbr && IsSpace(s[|abbr|])
  }

  /** `re.sub` of one abbreviation from `s[0]`; `afterWord` says whether a
      word character comes just before, which rules out `\b`. After a
      match the next character is whitespace, which is no word character,
      and the period ending the abbreviation is none either. */
  function ExpandFrom(s: string, abbr: string, expansion: string, afterWord: bool): string
    requires IsAbbreviation(abbr)
    decreases |s|
  {
    if s == [] then []
    else if !afterWord && AbbreviationAt(s, abbr) then
      expansion + ExpandFrom(s[|abbr|..], abbr, expansion, false)
    else [s[0]] + ExpandFrom(s[1..], abbr, expansion, IsWordChar(s[0]))
  }

  /** `re.sub(abrev, extensao, texto)`. */
  function ExpandAbbreviation(s: string, abbr: string, expansion: string): string
    requires IsAbbreviation(abbr)
  {
    ExpandFrom(s, abbr, expansion, false)
  }

  /** The substitutions of the table, applied one after the other in order. */
  function ExpandAll(table: seq<(string, string)>, s: string): string
    requires WellFormedTable(table)
  {
    if table == [] then s
    else
      var (abbr, expansion) := table[|table| - 1];
      ExpandAbbreviation(ExpandAll(table[..|table| - 1], s), abbr, expansion)
  }

  /** `expandir_abreviacoes`: the loop over the table rebinding `texto`. */
  method ExpandAbbreviations(text: string) returns (r: string)
    ensures r == ExpandAll(Abbreviations, text)
  {
    AbbreviationsWellFormed();
    r := ExpandTable(Abbreviations, text);
  }

  /** The loop of `expandir_abreviacoes` over a well-formed table. */
  method ExpandTable(table: seq<(string, string)>, text: string) returns (r: string)
    requires WellFormedTable(table)
    ensures r == ExpandAll(table, text)
  {
    r := text;
    for i := 0 to |table|
      invariant r == ExpandAll(table[..i], text)
    {
      var (abbr, expansion) := table[i];
      assert table[..i + 1][..i] == table[..i];
      r := ExpandAbbreviation(r, abbr, expansion);
    }
    assert table[..|table|] == table;
  }

  /** Where the abbreviation occurs nowhere followed by whitespace, nothing
      changes. */
  lemma {:induction false} ExpandFromNoMatch(s: string, abbr: string, expansion: string, afterWord: bool)
    requires IsAbbreviation(abbr)
    requires forall i :: 0 <= i < |s| ==> !AbbreviationAt(s[i..], abbr)
    ensures ExpandFrom(s, abbr, expansion, afterWord) == s
    decreases |s|
  {
    if s != [] {
      assert s[0..] == s;
      forall i | 0 <= i < |s| - 1 ensures !AbbreviationAt(s[1..][i..], abbr) {
        assert s[1..][i..] == s[i + 1..];
      }
      ExpandFromNoMatch(s[1..], abbr, expansion, IsWordChar(s[0]));
    }
  }

  /** An abbreviation is expanded when whitespace follows it, and only
      then: at the end of the text, or before any other character, it
      stays. */
  lemma {:induction false} ExpandedOnlyBeforeSpace(abbr: string, expansion: string, c: char)
    requires IsAbbreviation(abbr)
    ensures ExpandAbbreviation(abbr + [c], abbr, expansion)
      == if IsSpace(c) then expansion + [c] else abbr + [c]
    ensures ExpandAbbreviation(abbr, abbr, expansion) == abbr
  {
    var s := abbr + [c];
    assert s[..|abbr|] == abbr;
    ExpandFromNoMatch(s[|abbr|..], abbr, expansion, false);
    if !IsSpace(c) {
      ExpandFromNoMatch(s, abbr, expansion, false);
    }
    ExpandFromNoMatch(abbr, abbr, expansion, false);
  }

  /** `\b`: an abbreviation that ends a longer word is not expanded. */
  lemma {:induction false} NotExpandedInsideWord(d: char, abbr: string, expansion: string, c: char)
    requires IsAbbreviation(abbr) && IsWordChar(d)
    ensures ExpandAbbreviation([d] + abbr + [c], abbr, expansion) == [d] + abbr + [c]
  {
    var s := [d] + abbr + [c];
    assert s[|abbr|] == '.';
    assert !AbbreviationAt(s, abbr);
    var t := abbr + [c];
    assert s[1..] == t;
    ShortNoMatch(t[1..], abbr);
    ExpandFromNoMatch(t[1..], abbr, expansion, IsWordChar(abbr[0]));
    ExpandFromKeeps(t, abbr, expansion, true);
    ExpandFromKeeps(s, abbr, expansion, false);
    assert [t[0]] + t[1..] == t;
    assert [s[0]] + t == s;
  }

  /** A character where the abbreviation does not start, or that follows a
      word character, is kept. */
  lemma ExpandFromKeeps(s: string, abbr: string, expansion: string, afterWord: bool)
    requires IsAbbreviation(abbr) && s != [] && (afterWord || !AbbreviationAt(s, abbr))
    ensures ExpandFrom(s, abbr, expansion, afterWord) == [s[0]] + ExpandFrom(s[1..], abbr, expansion, IsWordChar(s[0]))
  {
  }

  /** The abbreviation and the whitespace after it do not fit in a text no
      longer than it. */
  lemma ShortNoMatch(s: string, abbr: string)
    requires |s| <= |abbr|
    ensures forall i :: 0 <= i < |s| ==> !AbbreviationAt(s[i..], abbr)
  {
  }

  /** A text without a period has no abbreviation to expand: every entry
      of the table ends with one, and no expansion has one. */
  lemma {:induction false} ExpandAllNoPeriod(table: seq<(string, string)>, s: string)
    requires WellFormedTable(table)
    requires '.' !in s
    ensures ExpandAll(table, s) == s
    decreases |table|
  {
    if table != [] {
      var (abbr, expansion) := table[|table| - 1];
      ExpandAllNoPeriod(table[..|table| - 1], s);
      forall i | 0 <= i < |s| ensures !AbbreviationAt(s[i..], abbr) {
      }
      ExpandFromNoMatch(s, abbr, expansion, false);
    }
  }

  // ---------------------------------------------------------------------------
  // melhorar_texto_corrigido

  /** The form feed `"\f"` that separates PDF pages. */
  const FormFeed: string := [12 as char]

  /** `pontuar_finais_de_paragrafo` as a function of the text. */
  function Punctuated(text: string): string
  {
    Join(TextParser.ParagraphBreak, TextParser.PunctuateAll(Split(text, TextParser.ParagraphBreak)))
  }

  /** `melhorar_texto_corrigido`: form feeds become paragraph breaks, then
      page footers are removed, broken words joined, layout file lines
      removed, chapter numerals renamed, paragraphs punctuated and
      abbreviations expanded, in that order. */
  function ImprovedText(text: string): string
  {
    AbbreviationsWellFormed();
    var pages := Replace(text, FormFeed, "\n\n");
    var joined := Dehyphenate(RemovePageFooters(pages));
    var renamed := TextParser.RenameChapters(RemoveBibliographyLines(joined));
    ExpandAll(Abbreviations, Punctuated(renamed))
  }

  /** `melhorar_texto_corrigido`, calling the loops of the passes that
      have them. */
  method ImproveText(text: string) returns (r: string)
    ensures r == ImprovedText(text)
  {
    var t := Replace(text, FormFeed, "\n\n");
    t := RemovePageFooters(t);
    t := Dehyphenate(t);
    t := RemoveBibliographyLines(t);
    t := TextParser.ConvertChapterNumerals(t);
    t := TextParser.PunctuateParagraphs(t);
    r := ExpandAbbreviations(t);
  }

  // ---------------------------------------------------------------------------
  // The pipeline on text without layout markup

  /** Text without "CAPÍTULO" is not touched by the chapter renaming. */
  lemma {:induction false} RenameWithoutHeadings(s: string, k: nat)
    requires 'Í' !in s && k <= |TextParser.ChapterWords|
    ensures TextParser.RenameUpTo(s, k) == s
  {
    if k > 0 {
      TextParser.ChapterWordsFacts();
      RenameWithoutHeadings(s, k - 1);
      var pat := TextParser.Capitulo + TextParser.ChapterWords[k - 1].0;
      forall i: nat ensures !OccursAt(s, pat, i) {
        if i + |pat| <= |s| {
          assert s[i..i + |pat|][3] == s[i + 3];
        }
      }
      ReplaceAbsent(s, pat, TextParser.Capitulo + TextParser.ChapterWords[k - 1].1);
    }
  }

  /** A text without form feeds, hyphens, underscores or "CAPÍTULO" only
      has its paragraphs punctuated and its abbreviations expanded. */
  lemma {:induction false} PipelineWithoutMarkup(text: string)
    requires FormFeed[0] !in text && '-' !in text && '_' !in text && 'Í' !in text
    ensures ImprovedText(text) == ExpandAll(Abbreviations, Punctuated(text))
  {
    forall i: nat ensures !OccursAt(text, FormFeed, i) {
      if i + 1 <= |text| {
        assert text[i..i + 1][0] == text[i];
      }
    }
    ReplaceAbsent(text, FormFeed, "\n\n");
    forall i: nat ensures !OccursAt(text, "cda_pr_", i) {
      if i + 7 <= |text| {
        assert text[i..i + 7][3] == text[i + 3];
      }
    }
    RemovePageFootersNoMarker(text);
    DehyphenateNoHyphen(text);
    RemoveBibliographyNoMarker(text, true);
    RenameWithoutHeadings(text, |TextParser.ChapterWords|);
  }

  /** No match of an abbreviation when the only periods are at the end. */
  lemma {:induction false} NoMatchBeforeLastPeriod(s: string, abbr: string)
    requires IsAbbreviation(abbr)
    requires forall j :: 0 <= j < |s| - 1 ==> s[j] != '.'
    ensures forall i :: 0 <= i < |s| ==> !AbbreviationAt(s[i..], abbr)
  {
    forall i | 0 <= i < |s| ensures !AbbreviationAt(s[i..], abbr) {
      if |abbr| < |s| - i {
        assert s[i..][|abbr| - 1] == s[i + |abbr| - 1];
      }
    }
  }

  /** Substitutions that find nothing leave the text as it is. */
  lemma {:induction false} ExpandAllUnmatched(table: seq<(string, string)>, s: string)
    requires WellFormedTable(table)
    requires forall j :: 0 <= j < |table| ==> forall i :: 0 <= i < |s| ==> !AbbreviationAt(s[i..], table[j].0)
    ensures ExpandAll(table, s) == s
    decreases |table|
  {
    if table != [] {
      ExpandAllUnmatched(table[..|table| - 1], s);
      ExpandFromNoMatch(s, table[|table| - 1].0, table[|table| - 1].1, false);
    }
  }

  /** The substitutions of a table are those of its first part, then those
      of the rest. */
  lemma {:induction false} ExpandAllSplit(a: seq<(string, string)>, b: seq<(string, string)>, s: string)
    requires WellFormedTable(a) && WellFormedTable(b)
    ensures WellFormedTable(a + b)
    ensures ExpandAll(a + b, s) == ExpandAll(b, ExpandAll(a, s))
    decreases |b|
  {
    if b != [] {
      assert (a + b)[..|a + b| - 1] == a + b[..|b| - 1];
      ExpandAllSplit(a, b[..|b| - 1], s);
    } else {
      assert a + b == a;
    }
  }

  /** The only abbreviations that could match in "etc.\n\nFim." end at its
      first period, and start with a lower-case letter. */
  lemma {:induction false} SampleUnmatched(abbr: string)
    requires IsAbbreviation(abbr) && 'A' <= abbr[0] <= 'Z'
    ensures forall i :: 0 <= i < |"etc.\n\nFim."| ==> !AbbreviationAt("etc.\n\nFim."[i..], abbr)
  {
    var s := "etc.\n\nFim.";
    forall i | 0 <= i < |s| ensures !AbbreviationAt(s[i..], abbr) {
    }
  }

  /** A line without line breaks is a paragraph piece. */
  lemma {:induction false} PieceWithoutNewline(p: string)
    requires p != [] && '\n' !in p
    ensures TextParser.IsPiece(p)
  {
    assert p[|p| - 1] in p;
    forall i: nat ensures !OccursAt(p, TextParser.ParagraphBreak, i) {
      if i < |p| {
        assert p[i] in p;
        NotAt(p, TextParser.ParagraphBreak, i);
      }
    }
  }

  lemma {:induction false} NotAt(s: string, sub: string, i: nat)
    requires i < |s| && sub != [] && s[i] != sub[0]
    ensures !OccursAt(s, sub, i)
  {
    if i + |sub| <= |s| {
      assert s[i..i + |sub|][0] == s[i];
    }
  }

  /** `pontuar_finais_de_paragrafo` on the sample: the last paragraph gets
      its period. */
  lemma PunctuatedSample()
    ensures Punctuated("etc.\n\nFim") == "etc.\n\nFim."
  {
    SplitSample();
    PunctuateSampleParagraphs();
    assert Join(TextParser.ParagraphBreak, ["etc.", "Fim."]) == "etc.\n\nFim.";
  }

  lemma SplitSample()
    ensures Split("etc.\n\nFim", TextParser.ParagraphBreak) == ["etc.", "Fim"]
  {
    var ps := ["etc.", "Fim"];
    PieceWithoutNewline("etc.");
    PieceWithoutNewline("Fim");
    TextParser.SplitJoin(ps);
    assert Join(TextParser.ParagraphBreak, ps) == "etc.\n\nFim";
  }

  lemma PunctuateSampleParagraphs()
    ensures TextParser.PunctuateAll(["etc.", "Fim"]) == ["etc.", "Fim."]
  {
    StripTrimmed("etc.");
    StripTrimmed("Fim");
    var q := TextParser.PunctuateAll(["etc.", "Fim"]);
    assert q[0] == TextParser.PunctuateParagraph("etc.") == "etc.";
    assert q[1] == TextParser.PunctuateParagraph("Fim") == "Fim.";
  }

  /** An abbreviation at the start, followed by whitespace, is expanded. */
  lemma {:induction false} ExpandAtStart(abbr: string, expansion: string, rest: string)
    requires IsAbbreviation(abbr) && rest != [] && IsSpace(rest[0])
    requires forall j :: 0 <= j < |rest| - 1 ==> rest[j] != '.'
    ensures ExpandAbbreviation(abbr + rest, abbr, expansion) == expansion + rest
  {
    var s := abbr + rest;
    assert s[..|abbr|] == abbr && s[|abbr|..] == rest;
    NoMatchBeforeLastPeriod(rest, abbr);
    ExpandFromNoMatch(rest, abbr, expansion, false);
  }

  lemma EarlyEntriesCapitalised()
    ensures forall j :: 0 <= j < 19 ==> 'A' <= Abbreviations[j].0[0] <= 'Z'
  {
  }

  /** Substituting with a table is substituting with the entries before
      `k`, then entry `k`, then the rest. */
  lemma {:induction false} ExpandAllAt(table: seq<(string, string)>, k: nat, s: string)
    requires WellFormedTable(table) && k < |table|
    ensures WellFormedTable(table[..k]) && WellFormedTable(table[k + 1..])
    ensures ExpandAll(table, s)
      == ExpandAll(table[k + 1..], ExpandAbbreviation(ExpandAll(table[..k], s), table[k].0, table[k].1))
  {
    assert table[..k + 1] + table[k + 1..] == table;
    assert table[..k] + [table[k]] == table[..k + 1];
    ExpandAllSplit(table[..k], [table[k]], s);
    ExpandAllSplit(table[..k + 1], table[k + 1..], s);
    assert [table[k]][..0] == [];
  }

  /** The entries before "etc." find nothing in the sample. */
  lemma BeforeEtcUnmatched()
    ensures WellFormedTable(Abbreviations[..19])
    ensures ExpandAll(Abbreviations[..19], "etc.\n\nFim.") == "etc.\n\nFim."
  {
    AbbreviationsWellFormed();
    EarlyEntriesCapitalised();
    var before := Abbreviations[..19];
    var s := "etc.\n\nFim.";
    forall j | 0 <= j < |before| ensures forall i :: 0 <= i < |s| ==> !AbbreviationAt(s[i..], before[j].0) {
      SampleUnmatched(before[j].0);
    }
    ExpandAllUnmatched(before, s);
  }

  /** "etc." followed by a paragraph break is expanded. */
  lemma EtcExpanded()
    ensures IsAbbreviation("etc.")
    ensures ExpandAbbreviation("etc.\n\nFim.", "etc.", "etcétera") == "etcétera\n\nFim."
  {
    ExpandAtStart("etc.", "etcétera", "\n\nFim.");
    assert "etc." + "\n\nFim." == "etc.\n\nFim.";
    assert "etcétera" + "\n\nFim." == "etcétera\n\nFim.";
  }

  /** The entries after "etc." find nothing once it is expanded. */
  lemma AfterEtcUnmatched()
    ensures WellFormedTable(Abbreviations[20..])
    ensures ExpandAll(Abbreviations[20..], "etcétera\n\nFim.") == "etcétera\n\nFim."
  {
    AbbreviationsWellFormed();
    var after := Abbreviations[20..];
    var t := "etcétera\n\nFim.";
    forall j | 0 <= j < |after| ensures forall i :: 0 <= i < |t| ==> !AbbreviationAt(t[i..], after[j].0) {
      NoMatchBeforeLastPeriod(t, after[j].0);
    }
    ExpandAllUnmatched(after, t);
  }

  /** Expansion runs after punctuation, so a paragraph that ends in an
      abbreviation loses the period that punctuation left it: "etc." closing
      a paragraph becomes "etcétera" with no final mark. */
  lemma ExpansionUndoesFinalStop()
    ensures ImprovedText("etc.\n\nFim") == "etcétera\n\nFim."
  {
    PipelineWithoutMarkup("etc.\n\nFim");
    PunctuatedSample();
    ExpandSample();
  }

  /** The table expands only the "etc." of the punctuated sample. */
  lemma ExpandSample()
    ensures ExpandAll(Abbreviations, "etc.\n\nFim.") == "etcétera\n\nFim."
  {
    AbbreviationsWellFormed();
    BeforeEtcUnmatched();
    EtcExpanded();
    AfterEtcUnmatched();
    EtcEntry();
    ExpandAllThrough(Abbreviations, 19, "etc.\n\nFim.", "etcétera\n\nFim.", "etcétera\n\nFim.");
  }

  /** "etc." is entry 19 of the table. */
  lemma EtcEntry()
    ensures Abbreviations[19] == ("etc.", "etcétera")
  {
  }

  /** A table that finds nothing before entry `k` and nothing after it once
      entry `k` has been applied. */
  lemma ExpandAllThrough(table: seq<(string, string)>, k: nat, s: string, t: string, u: string)
    requires WellFormedTable(table) && k < |table|
    requires WellFormedTable(table[..k]) && ExpandAll(table[..k], s) == s
    requires ExpandAbbreviation(s, table[k].0, table[k].1) == t
    requires WellFormedTable(table[k + 1..]) && ExpandAll(table[k + 1..], t) == u
    ensures ExpandAll(table, s) == u
  {
    ExpandAllAt(table, k, s);
  }
}
