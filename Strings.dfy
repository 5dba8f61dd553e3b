/** String primitives of the Python runtime that the converter relies on:
    whitespace (`str.isspace` and the regex class `\s`), `strip`, `split`,
    `join`, `replace`, case mapping, `str(int)` and `int(str)`.
    Strings are sequences of Unicode scalar values. */
module Strings {

  datatype Option<T> = None | Some(value: T)

  /** Python's `str.isspace()` for one character, which is also what the
      regex class `\s` matches in a `str` pattern. */
  predicate IsSpace(c: char)
  {
    var n := c as int;
    (9 <= n <= 13) || (28 <= n <= 32) || n == 0x85 || n == 0xA0 || n == 0x1680
    || (0x2000 <= n <= 0x200A) || n == 0x2028 || n == 0x2029 || n == 0x202F
    || n == 0x205F || n == 0x3000
  }

  predicate IsDigit(c: char)
  {
    '0' <= c <= '9'
  }

  function DigitValue(c: char): (d: nat)
    requires IsDigit(c)
    ensures d < 10
  {
    c as int - '0' as int
  }

  function DigitChar(d: nat): (c: char)
    requires d < 10
    ensures IsDigit(c) && DigitValue(c) == d
  {
    ('0' as int + d) as char
  }

  predicate AllSpace(s: string)
  {
    forall i :: 0 <= i < |s| ==> IsSpace(s[i])
  }

  predicate AllDigit(s: string)
  {
    forall i :: 0 <= i < |s| ==> IsDigit(s[i])
  }

  // ---------------------------------------------------------------------------
  // Case mapping, for ASCII, the Latin-1 letters that Portuguese text uses,
  // and the Greek mu that the micro sign upper-cases to. The ordinal
  // indicators ª and º are lower-case letters without an upper-case form.

  predicate IsUpperChar(c: char)
  {
    var n := c as int;
    ('A' <= c <= 'Z') || (0xC0 <= n <= 0xDE && n != 0xD7) || n == 0x178 || n == 0x39C
  }

  predicate IsLowerChar(c: char)
  {
    var n := c as int;
    ('a' <= c <= 'z') || (0xDF <= n <= 0xFF && n != 0xF7) || n == 0x131
    || n == 0xAA || n == 0xB5 || n == 0xBA || n == 0x3BC
  }

  predicate IsCased(c: char)
  {
    IsUpperChar(c) || IsLowerChar(c)
  }

  /** `str.upper()` of one character; 'ß', whose upper case is the two
      letters "SS", is kept as it is. */
  function ToUpperChar(c: char): (u: char)
    ensures IsCased(c) == IsCased(u)
    ensures !IsCased(c) ==> u == c
    ensures !IsLowerChar(c) ==> u == c
    ensures IsLowerChar(c) && c !in {0xDF as char, 0xAA as char, 0xBA as char} ==> IsUpperChar(u)
  {
    var n := c as int;
    if 'a' <= c <= 'z' then (n - 32) as char
    else if 0xE0 <= n <= 0xFE && n != 0xF7 then (n - 32) as char
    else if n == 0xFF then 0x178 as char
    else if n == 0x131 then 'I'
    else if n == 0xB5 || n == 0x3BC then 0x39C as char
    else c
  }

  function ToLowerChar(c: char): (l: char)
    ensures IsCased(c) == IsCased(l)
    ensures !IsCased(c) ==> l == c
    ensures IsUpperChar(c) ==> IsLowerChar(l)
  {
    var n := c as int;
    if 'A' <= c <= 'Z' then (n + 32) as char
    else if 0xC0 <= n <= 0xDE && n != 0xD7 then (n + 32) as char
    else if n == 0x178 then 0xFF as char
    else if n == 0x39C then 0x3BC as char
    else c
  }

  function Upper(s: string): (r: string)
    ensures |r| == |s|
    ensures forall i :: 0 <= i < |s| ==> r[i] == ToUpperChar(s[i])
  {
    seq(|s|, i requires 0 <= i < |s| => ToUpperChar(s[i]))
  }

  function Lower(s: string): (r: string)
    ensures |r| == |s|
    ensures forall i :: 0 <= i < |s| ==> r[i] == ToLowerChar(s[i])
  {
    seq(|s|, i requires 0 <= i < |s| => ToLowerChar(s[i]))
  }

  /** Python's `str.isupper()`: at least one cased character, and no cased
      character is lower-case. */
  predicate IsUpperString(s: string)
  {
    (exists i :: 0 <= i < |s| && IsCased(s[i]))
    && forall i :: 0 <= i < |s| ==> !IsLowerChar(s[i])
  }

  /** Python's `str.capitalize()`: the first character upper-cased, the rest
      lower-cased. */
  function Capitalize(s: string): (r: string)
    ensures |r| == |s|
  {
    if s == [] then [] else [ToUpperChar(s[0])] + Lower(s[1..])
  }

  /** Python's `str.title()`: a character that follows a cased character is
      lower-cased, any other is upper-cased. */
  function TitleCase(s: string): (r: string)
    ensures |r| == |s|
  {
    seq(|s|, i requires 0 <= i < |s| =>
      if i > 0 && IsCased(s[i - 1]) then ToLowerChar(s[i]) else ToUpperChar(s[i]))
  }

  // ---------------------------------------------------------------------------
  // strip

  function StripLeft(s: string): (r: string)
    ensures |r| <= |s|
  {
    if |s| > 0 && IsSpace(s[0]) then StripLeft(s[1..]) else s
  }

  function StripRight(s: string): string
  {
    if |s| > 0 && IsSpace(s[|s| - 1]) then StripRight(s[..|s| - 1]) else s
  }

  /** `lstrip` removes a whitespace prefix and stops at a non-whitespace character. */
  lemma {:induction false} StripLeftShape(s: string)
    ensures var r := StripLeft(s);
      && |r| <= |s| && r == s[|s| - |r|..]
      && (r == [] || !IsSpace(r[0]))
      && AllSpace(s[..|s| - |r|])
  {
    if |s| > 0 && IsSpace(s[0]) {
      StripLeftShape(s[1..]);
      var r := StripLeft(s[1..]);
      assert s[..|s| - |r|] == [s[0]] + s[1..][..|s| - 1 - |r|];
    }
  }

  /** Two strings with whitespace at the same places lose the same number of
      leading characters to `lstrip`. */
  lemma {:induction false} StripLeftSameSpaces(a: string, b: string)
    requires |a| == |b| && forall i :: 0 <= i < |a| ==> (IsSpace(a[i]) <==> IsSpace(b[i]))
    ensures |StripLeft(a)| == |StripLeft(b)|
  {
    if |a| > 0 && IsSpace(a[0]) {
      StripLeftSameSpaces(a[1..], b[1..]);
    }
  }

  /** `rstrip` removes a whitespace suffix and stops at a non-whitespace character. */
  lemma {:induction false} StripRightShape(s: string)
    ensures var r := StripRight(s);
      && |r| <= |s| && r == s[..|r|]
      && (r == [] || !IsSpace(r[|r| - 1]))
      && AllSpace(s[|r|..])
  {
    if |s| > 0 && IsSpace(s[|s| - 1]) {
      StripRightShape(s[..|s| - 1]);
      var r := StripRight(s[..|s| - 1]);
      assert s[|r|..] == s[..|s| - 1][|r|..] + [s[|s| - 1]];
    }
  }

  /** Python's `str.strip()` with no argument. */
  function Strip(s: string): (r: string)
  {
    StripRight(StripLeft(s))
  }

  /** `strip` cuts a whitespace prefix and a whitespace suffix, and what is
      left starts and ends with a non-whitespace character. */
  lemma {:induction false} StripShape(s: string) returns (k: nat)
    ensures k == |s| - |StripLeft(s)|
    ensures var r := Strip(s);
      && k + |r| <= |s| && r == s[k..k + |r|]
      && AllSpace(s[..k]) && AllSpace(s[k + |r|..])
      && (r == [] || (!IsSpace(r[0]) && !IsSpace(r[|r| - 1])))
  {
    StripLeftShape(s);
    var l := StripLeft(s);
    StripRightShape(l);
    var r := StripRight(l);
    k := |s| - |l|;
    assert r == s[k..k + |r|];
    assert s[k + |r|..] == l[|r|..];
  }

  /** `strip` on a string cuts at the same places as on any string with
      whitespace at the same places. */
  lemma StripSameSpaces(a: string, b: string) returns (k: nat)
    requires |a| == |b| && forall i :: 0 <= i < |a| ==> (IsSpace(a[i]) <==> IsSpace(b[i]))
    ensures k == |a| - |StripLeft(a)| == |b| - |StripLeft(b)|
    ensures k + |Strip(a)| <= |a| && Strip(a) == a[k..k + |Strip(a)|]
    ensures AllSpace(b[..k]) && AllSpace(b[k + |Strip(a)|..])
  {
    StripLeftSameSpaces(a, b);
    k := StripShape(a);
    var e := k + |Strip(a)|;
    forall i | 0 <= i < k ensures IsSpace(b[..k][i]) {
      assert b[..k][i] == b[i] && a[..k][i] == a[i];
    }
    forall i | 0 <= i < |b| - e ensures IsSpace(b[e..][i]) {
      assert b[e..][i] == b[e + i] && a[e..][i] == a[e + i];
    }
  }

  /** A string whose ends are not whitespace is its own strip. */
  lemma StripTrimmed(s: string)
    requires s == [] || (!IsSpace(s[0]) && !IsSpace(s[|s| - 1]))
    ensures Strip(s) == s
  {
  }

  lemma {:induction false} StripNoSpace(s: string)
    requires forall i :: 0 <= i < |s| ==> !IsSpace(s[i])
    ensures Strip(s) == s
  {
  }

  /** Strip is empty exactly when the string is all whitespace. */
  lemma {:induction false} StripEmptyIff(s: string)
    ensures Strip(s) == [] <==> AllSpace(s)
  {
    var k := StripShape(s);
    var r := Strip(s);
    if r == [] {
      forall i | 0 <= i < |s| ensures IsSpace(s[i]) {
        if i >= k { assert s[k..][i - k] == s[i]; } else { assert s[..k][i] == s[i]; }
      }
    } else {
      assert s[k] == r[0];
    }
  }

  /** `not s.strip()`: the string holds nothing but whitespace. */
  function IsBlank(s: string): (r: bool)
    ensures r <==> AllSpace(s)
  {
    StripEmptyIff(s);
    Strip(s) == []
  }

  lemma {:induction false} StripIdempotent(s: string)
    ensures Strip(Strip(s)) == Strip(s)
  {
    var k := StripShape(s);
  }

  // ---------------------------------------------------------------------------
  // Filtering whitespace out, to compare texts up to whitespace

  function NonSpace(s: string): string
  {
    if s == [] then [] else (if IsSpace(s[0]) then [] else [s[0]]) + NonSpace(s[1..])
  }

  lemma {:induction false} NonSpaceAppend(a: string, b: string)
    ensures NonSpace(a + b) == NonSpace(a) + NonSpace(b)
  {
    if a != [] {
      assert (a + b)[1..] == a[1..] + b;
      NonSpaceAppend(a[1..], b);
    } else {
      assert a + b == b;
    }
  }

  lemma {:induction false} NonSpaceOfAllSpace(s: string)
    requires AllSpace(s)
    ensures NonSpace(s) == []
  {
    if s != [] {
      NonSpaceOfAllSpace(s[1..]);
    }
  }

  lemma {:induction false} NonSpaceStrip(s: string)
    ensures NonSpace(Strip(s)) == NonSpace(s)
  {
    var k := StripShape(s);
    var r := Strip(s);
    var lead, trail := s[..k], s[k + |r|..];
    assert s == lead + (r + trail);
    NonSpaceAppend(lead, r + trail);
    NonSpaceAppend(r, trail);
    NonSpaceOfAllSpace(lead);
    NonSpaceOfAllSpace(trail);
  }

  /** `re.sub(r"\s+", " ", s)`: every run of whitespace becomes one space. */
  function CollapseWhitespace(s: string): (r: string)
  {
    if s == [] then []
    else if |s| >= 2 && IsSpace(s[0]) && IsSpace(s[1]) then CollapseWhitespace(s[1..])
    else (if IsSpace(s[0]) then " " else [s[0]]) + CollapseWhitespace(s[1..])
  }

  /** No two whitespace characters side by side. */
  predicate SingleSpaced(s: string)
  {
    forall i :: 0 <= i < |s| - 1 ==> !(IsSpace(s[i]) && IsSpace(s[i + 1]))
  }

  /** Collapsing keeps every other character in order, leaves only plain
      spaces, never two side by side, and starts with whitespace exactly
      when the text does. */
  lemma {:induction false} CollapseWhitespaceSpec(s: string)
    ensures var r := CollapseWhitespace(s);
      && NonSpace(r) == NonSpace(s)
      && (forall i :: 0 <= i < |r| ==> IsSpace(r[i]) ==> r[i] == ' ')
      && SingleSpaced(r)
      && (forall i :: 0 <= i < |r| ==> r[i] == ' ' || r[i] in s)
      && (s == [] <==> r == [])
      && (s != [] ==> (IsSpace(r[0]) <==> IsSpace(s[0])))
  {
    CollapseKeeps(s);
    CollapseShape(s);
  }

  /** The characters collapsing keeps. */
  lemma {:induction false} CollapseKeeps(s: string)
    ensures var r := CollapseWhitespace(s);
      && NonSpace(r) == NonSpace(s)
      && (forall i :: 0 <= i < |r| ==> r[i] == ' ' || r[i] in s)
  {
    if s != [] {
      CollapseKeeps(s[1..]);
      var t := CollapseWhitespace(s[1..]);
      assert forall i :: 0 <= i < |t| ==> t[i] == ' ' || t[i] in s by {
        forall i | 0 <= i < |t| && t[i] != ' ' ensures t[i] in s {
          assert t[i] in s[1..];
        }
      }
      if |s| >= 2 && IsSpace(s[0]) && IsSpace(s[1]) {
        assert NonSpace(s) == NonSpace(s[1..]);
      } else {
        var h: string := if IsSpace(s[0]) then " " else [s[0]];
        NonSpaceAppend(h, t);
        assert NonSpace(s) == NonSpace([s[0]]) + NonSpace(s[1..]) by {
          assert s == [s[0]] + s[1..];
          NonSpaceAppend([s[0]], s[1..]);
        }
      }
    }
  }

  /** The spacing collapsing leaves. */
  lemma {:induction false} CollapseShape(s: string)
    ensures var r := CollapseWhitespace(s);
      && (forall i :: 0 <= i < |r| ==> IsSpace(r[i]) ==> r[i] == ' ')
      && SingleSpaced(r)
      && (s == [] <==> r == [])
      && (s != [] ==> (IsSpace(r[0]) <==> IsSpace(s[0])))
  {
    if s != [] {
      CollapseShape(s[1..]);
      var t := CollapseWhitespace(s[1..]);
      if !(|s| >= 2 && IsSpace(s[0]) && IsSpace(s[1])) {
        var h: string := if IsSpace(s[0]) then " " else [s[0]];
        var r := h + t;
        assert CollapseWhitespace(s) == r;
        forall i | 0 <= i < |r| ensures IsSpace(r[i]) ==> r[i] == ' ' {
          if i > 0 { assert r[i] == t[i - 1]; }
        }
        forall i | 0 <= i < |r| - 1 ensures !(IsSpace(r[i]) && IsSpace(r[i + 1])) {
          if i > 0 { assert r[i] == t[i - 1] && r[i + 1] == t[i]; }
          else { assert r[1] == t[0]; }
        }
      }
    }
  }

  /** Text that does not end in whitespace collapses independently of what
      follows it. */
  lemma {:induction false} CollapseAppend(x: string, z: string)
    requires x == [] || !IsSpace(x[|x| - 1])
    ensures CollapseWhitespace(x + z) == CollapseWhitespace(x) + CollapseWhitespace(z)
  {
    if x != [] {
      assert (x + z)[0] == x[0];
      assert (x + z)[1..] == x[1..] + z;
      if |x| >= 2 {
        assert (x + z)[1] == x[1];
        CollapseAppend(x[1..], z);
      } else {
        assert x[1..] + z == z;
      }
    } else {
      assert x + z == z;
    }
  }

  /** A run of whitespace before a visible character becomes one space. */
  lemma {:induction false} CollapseRun(ws: string, y: string)
    requires ws != [] && AllSpace(ws)
    requires y == [] || !IsSpace(y[0])
    ensures CollapseWhitespace(ws + y) == " " + CollapseWhitespace(y)
  {
    assert (ws + y)[0] == ws[0];
    assert (ws + y)[1..] == ws[1..] + y;
    if |ws| >= 2 {
      assert (ws + y)[1] == ws[1];
      CollapseRun(ws[1..], y);
    } else {
      assert ws[1..] + y == y;
    }
  }

  /** The layout of `re.sub(r"\s+", " ", ...)`: a maximal run of whitespace
      between two pieces of text is replaced by one space, and each piece is
      collapsed on its own. */
  lemma CollapseLayout(x: string, ws: string, y: string)
    requires x == [] || !IsSpace(x[|x| - 1])
    requires ws != [] && AllSpace(ws)
    requires y == [] || !IsSpace(y[0])
    ensures CollapseWhitespace(x + ws + y) == CollapseWhitespace(x) + " " + CollapseWhitespace(y)
  {
    AppendAssoc(x, ws, y);
    CollapseAppend(x, ws + y);
    CollapseRun(ws, y);
    AppendAssoc(CollapseWhitespace(x), " ", CollapseWhitespace(y));
  }

  // ---------------------------------------------------------------------------
  // Sequences of strings

  function Concat(parts: seq<string>): string
  {
    if parts == [] then [] else parts[0] + Concat(parts[1..])
  }

  /** Concatenation is associative; stated once so that proofs with large
      contexts need not rediscover it. */
  lemma AppendAssoc(x: string, y: string, z: string)
    ensures x + (y + z) == (x + y) + z
  {
  }

  /** A suffix is its first piece followed by the rest. */
  lemma {:induction false} SliceSplit(s: string, i: nat, j: nat)
    requires i <= j <= |s|
    ensures s[i..] == s[i..j] + s[j..]
  {
  }

  /** One string in front of a list adds it in front of the text. */
  lemma {:induction false} ConcatCons(x: string, rest: seq<string>)
    ensures Concat([x] + rest) == x + Concat(rest)
  {
    assert ([x] + rest)[1..] == rest;
  }

  lemma {:induction false} ConcatAppend(a: seq<string>, b: seq<string>)
    ensures Concat(a + b) == Concat(a) + Concat(b)
  {
    if a == [] {
      assert a + b == b;
    } else {
      assert (a + b)[1..] == a[1..] + b;
      ConcatAppend(a[1..], b);
    }
  }

  /** Python's `sep.join(parts)`. */
  function Join(sep: string, parts: seq<string>): string
  {
    if parts == [] then []
    else if |parts| == 1 then parts[0]
    else parts[0] + sep + Join(sep, parts[1..])
  }

  /** `sub` occurs in `s` at index `i`. */
  predicate OccursAt(s: string, sub: string, i: nat)
  {
    i + |sub| <= |s| && s[i..i + |sub|] == sub
  }

  /** Python's `str.find(sub, start)`: the first index at or after `start`
      where `sub` occurs, or -1. */
  function Find(s: string, sub: string, start: nat): (r: int)
    requires |sub| > 0
    ensures r == -1 || (start <= r && OccursAt(s, sub, r))
    ensures forall i: nat :: start <= i < (if r < 0 then |s| else r) ==> !OccursAt(s, sub, i)
    decreases |s| - start
  {
    if start + |sub| > |s| then -1
    else if s[start..start + |sub|] == sub then start
    else Find(s, sub, start + 1)
  }

  /** Python's `str.find(c, start)` for a one-character string `c`. */
  function FindChar(s: string, c: char, start: nat): (r: int)
    ensures r == -1 || (start <= r < |s| && s[r] == c)
    ensures forall i :: start <= i < (if r < 0 then |s| else r) ==> s[i] != c
    decreases |s| - start
  {
    if start >= |s| then -1
    else if s[start] == c then start
    else FindChar(s, c, start + 1)
  }

  /** Python's `str.split(sep)` for a non-empty separator. */
  function Split(s: string, sep: string): (r: seq<string>)
    requires |sep| > 0
    ensures |r| > 0
    decreases |s|
  {
    var i := Find(s, sep, 0);
    if i < 0 then [s] else [s[..i]] + Split(s[i + |sep|..], sep)
  }

  /** Python's `str.replace(pat, rep)` for a non-empty `pat`: left to right,
      non-overlapping. */
  function Replace(s: string, pat: string, rep: string): string
    requires |pat| > 0
    decreases |s|
  {
    if |s| < |pat| then s
    else if s[..|pat|] == pat then rep + Replace(s[|pat|..], pat, rep)
    else [s[0]] + Replace(s[1..], pat, rep)
  }

  lemma {:induction false} ReplaceAbsent(s: string, pat: string, rep: string)
    requires |pat| > 0
    requires forall i: nat :: !OccursAt(s, pat, i)
    ensures Replace(s, pat, rep) == s
    decreases |s|
  {
    if |s| >= |pat| {
      assert !OccursAt(s, pat, 0);
      forall i: nat ensures !OccursAt(s[1..], pat, i)
      {
        if i + |pat| <= |s| - 1 {
          assert s[1..][i..i + |pat|] == s[i + 1..i + 1 + |pat|];
          assert !OccursAt(s, pat, i + 1);
        }
      }
      ReplaceAbsent(s[1..], pat, rep);
      assert s == [s[0]] + s[1..];
    }
  }

  /** Replacing one character by another maps the string character by
      character. */
  lemma {:induction false} ReplaceCharSpec(s: string, c: char, d: char)
    ensures |Replace(s, [c], [d])| == |s|
    ensures forall i :: 0 <= i < |s| ==> Replace(s, [c], [d])[i] == if s[i] == c then d else s[i]
    decreases |s|
  {
    if |s| >= 1 {
      ReplaceCharSpec(s[1..], c, d);
      var t := Replace(s[1..], [c], [d]);
      if s[..1] == [c] {
        assert Replace(s, [c], [d]) == [d] + t;
      } else {
        assert s[0] != c;
        assert Replace(s, [c], [d]) == [s[0]] + t;
      }
    }
  }

  predicate EndsWith(s: string, suffix: string)
  {
    |suffix| <= |s| && s[|s| - |suffix|..] == suffix
  }

  predicate StartsWith(s: string, prefix: string)
  {
    |prefix| <= |s| && s[..|prefix|] == prefix
  }

  // ---------------------------------------------------------------------------
  // str(int) and int(str)

  /** Python's `str(n)` for a natural number. */
  function NatToString(n: nat): (s: string)
    ensures |s| > 0 && forall i :: 0 <= i < |s| ==> IsDigit(s[i])
  {
    if n < 10 then [DigitChar(n)] else NatToString(n / 10) + [DigitChar(n % 10)]
  }

  /** Python's `str(i)` for an integer. */
  function IntToString(i: int): string
  {
    if i < 0 then "-" + NatToString(-i) else NatToString(i)
  }

  /** Python's `f"{i:03d}"`: zero-padded to width 3, the sign of a negative
      number counting towards the width. */
  function Format03(i: int): (s: string)
    ensures |s| >= 3
  {
    if i >= 0 then
      var d := NatToString(i);
      if |d| >= 3 then d else seq(3 - |d|, _ => '0') + d
    else
      var d := NatToString(-i);
      "-" + (if |d| >= 2 then d else "0" + d)
  }

  /** The value of a string of decimal digits, most significant first. */
  function DigitsValue(d: string): nat
    requires forall i :: 0 <= i < |d| ==> IsDigit(d[i])
  {
    if d == [] then 0 else DigitsValue(d[..|d| - 1]) * 10 + DigitValue(d[|d| - 1])
  }

  /** A digit group that Python's `int()` accepts: digits, where single
      underscores may separate two digits. */
  predicate IsDigitGroup(d: string)
  {
    && |d| > 0 && IsDigit(d[0]) && IsDigit(d[|d| - 1])
    && (forall i :: 0 <= i < |d| ==> IsDigit(d[i]) || d[i] == '_')
    && (forall i :: 0 <= i < |d| - 1 ==> d[i] == '_' ==> d[i + 1] != '_')
  }

  function DropUnderscores(d: string): (r: string)
    requires forall i :: 0 <= i < |d| ==> IsDigit(d[i]) || d[i] == '_'
    ensures forall i :: 0 <= i < |r| ==> IsDigit(r[i])
  {
    if d == [] then [] else (if d[0] == '_' then [] else [d[0]]) + DropUnderscores(d[1..])
  }

  function ParseNat(d: string): Option<nat>
  {
    if IsDigitGroup(d) then Some(DigitsValue(DropUnderscores(d))) else None
  }

  /** Python's `int(s)` on a string, in base 10: surrounding whitespace is
      ignored, an optional sign, then a digit group; anything else is a
      `ValueError`, here `None`. */
  function ParseInt(s: string): Option<int>
  {
    var t := Strip(s);
    if |t| > 0 && (t[0] == '-' || t[0] == '+') then
      match ParseNat(t[1..])
      case None => None
      case Some(n) => Some(if t[0] == '-' then -(n as int) else n as int)
    else
      match ParseNat(t)
      case None => None
      case Some(n) => Some(n as int)
  }

  lemma {:induction false} DigitsValueOfNatToString(n: nat)
    ensures DigitsValue(NatToString(n)) == n
  {
    var s := NatToString(n);
    if n >= 10 {
      DigitsValueOfNatToString(n / 10);
      assert s[..|s| - 1] == NatToString(n / 10);
    }
  }

  lemma {:induction false} DropUnderscoresOfDigits(d: string)
    requires forall i :: 0 <= i < |d| ==> IsDigit(d[i])
    ensures DropUnderscores(d) == d
  {
    if d != [] {
      DropUnderscoresOfDigits(d[1..]);
    }
  }

  lemma {:induction false} ParseNatOfNatToString(n: nat)
    ensures ParseNat(NatToString(n)) == Some(n)
  {
    var s := NatToString(n);
    DropUnderscoresOfDigits(s);
    DigitsValueOfNatToString(n);
  }

  /** `int(str(i)) == i` for every integer `i`. */
  lemma {:induction false} ParseIntOfIntToString(i: int)
    ensures ParseInt(IntToString(i)) == Some(i)
  {
    var s := IntToString(i);
    StripNoSpace(s);
    if i < 0 {
      assert s[1..] == NatToString(-i);
      ParseNatOfNatToString(-i);
    } else {
      ParseNatOfNatToString(i);
    }
  }

  /** Different numbers are written differently. */
  lemma {:induction false} NatToStringInjective(m: nat, n: nat)
    requires NatToString(m) == NatToString(n)
    ensures m == n
  {
    ParseNatOfNatToString(m);
    ParseNatOfNatToString(n);
  }
  lemma {:induction false} DigitsValueLeadingZero(d: string)
    requires forall i :: 0 <= i < |d| ==> IsDigit(d[i])
    ensures DigitsValue("0" + d) == DigitsValue(d)
    decreases |d|
  {
    if d != [] {
      var z := "0" + d;
      assert z[..|z| - 1] == "0" + d[..|d| - 1];
      DigitsValueLeadingZero(d[..|d| - 1]);
    }
  }

  lemma {:induction false} DigitsValueLeadingZeros(k: nat, d: string)
    requires forall i :: 0 <= i < |d| ==> IsDigit(d[i])
    ensures DigitsValue(seq(k, _ => '0') + d) == DigitsValue(d)
  {
    if k > 0 {
      var rest := seq(k - 1, _ => '0') + d;
      assert seq(k, _ => '0') + d == "0" + rest;
      DigitsValueLeadingZero(rest);
      DigitsValueLeadingZeros(k - 1, d);
    } else {
      assert seq(k, _ => '0') + d == d;
    }
  }

  /** The value written by `Format03` for a natural number. */
  lemma {:induction false} Format03Value(n: nat)
    ensures forall i :: 0 <= i < |Format03(n)| ==> IsDigit(Format03(n)[i])
    ensures DigitsValue(Format03(n)) == n
  {
    var d := NatToString(n);
    DigitsValueOfNatToString(n);
    if |d| < 3 {
      DigitsValueLeadingZeros(3 - |d|, d);
    }
  }

  /** The magnitude written after the sign by `Format03` for a negative number. */
  lemma {:induction false} Format03NegativeValue(i: int)
    requires i < 0
    ensures Format03(i)[0] == '-'
    ensures forall j :: 1 <= j < |Format03(i)| ==> IsDigit(Format03(i)[j])
    ensures DigitsValue(Format03(i)[1..]) == -i
  {
    var d := NatToString(-i);
    DigitsValueOfNatToString(-i);
    if |d| < 2 {
      DigitsValueLeadingZero(d);
    }
  }

  /** Different numbers give different zero-padded names. */
  lemma {:induction false} Format03Injective(a: int, b: int)
    requires Format03(a) == Format03(b)
    ensures a == b
  {
    if a >= 0 {
      Format03Value(a);
      if b < 0 { Format03NegativeValue(b); } else { Format03Value(b); }
    } else {
      Format03NegativeValue(a);
      if b >= 0 { Format03Value(b); } else { Format03NegativeValue(b); }
    }
  }
}
