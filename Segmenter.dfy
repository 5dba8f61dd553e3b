/** Cutting the text into the pieces that are synthesised one by one: at
    sentence ends (`dividir_texto`, main converter and `textFormat`), or at a
    fixed width (the lite converter). */
module Segmenter {
  import opened Strings
  import Config

  // ---------------------------------------------------------------------------
  // Sentence-level splitting

  /** The slices `dividir_texto` cuts from `start` on, before they are
      stripped: each runs up to and including the next '.', and the last
      runs to the end of the text. */
  function Segments(text: string, start: nat): (r: seq<string>)
    requires start <= |text|
    decreases |text| - start
  {
    if start == |text| then []
    else
      var end := SegmentEnd(text, start);
      [text[start..end]] + Segments(text, end)
  }

  /** Where the slice cut at `start` ends: just past the next '.', or at the
      end of the text when there is none. */
  function SegmentEnd(text: string, start: nat): (r: nat)
    requires start < |text|
    ensures start < r <= |text|
  {
    var p := FindChar(text, '.', start);
    if p == -1 then |text| else p + 1
  }

  function StripAll(parts: seq<string>): (r: seq<string>)
    ensures |r| == |parts|
  {
    if parts == [] then [] else [Strip(parts[0])] + StripAll(parts[1..])
  }

  lemma {:induction false} StripAllAppend(parts: seq<string>, s: string)
    ensures StripAll(parts + [s]) == StripAll(parts) + [Strip(s)]
  {
    if parts == [] {
      assert [s][1..] == [];
    } else {
      assert (parts + [s])[1..] == parts[1..] + [s];
      StripAllAppend(parts[1..], s);
    }
  }

  /** `[p for p in partes if p]`. */
  function DropEmpty(parts: seq<string>): (r: seq<string>)
    ensures forall i :: 0 <= i < |r| ==> r[i] != [] && r[i] in parts
    ensures |r| <= |parts|
  {
    if parts == [] then []
    else (if parts[0] == [] then [] else [parts[0]]) + DropEmpty(parts[1..])
  }

  /** The parts `dividir_texto` returns. */
  function Sentences(text: string): seq<string>
  {
    DropEmpty(StripAll(Segments(text, 0)))
  }

  /** `dividir_texto`: advance `start` past the next '.', appending the
      stripped slice, until the text is used up; then drop empty parts. */
  method DivideText(text: string) returns (parts: seq<string>)
    ensures parts == Sentences(text)
  {
    var raw: seq<string> := [];
    var start: nat := 0;
    ghost var cut: seq<string> := [];
    while start < |text|
      invariant start <= |text|
      invariant cut + Segments(text, start) == Segments(text, 0)
      invariant raw == StripAll(cut)
      decreases |text| - start
    {
      var next := FindChar(text, '.', start);
      if next == -1 {
        DivideStep(text, start, cut);
        StripAllAppend(cut, text[start..]);
        raw := raw + [Strip(text[start..])];
        cut := cut + [text[start..]];
        break;
      }
      var end := next + 1;
      DivideStep(text, start, cut);
      StripAllAppend(cut, text[start..end]);
      raw := raw + [Strip(text[start..end])];
      cut := cut + [text[start..end]];
      start := end;
    }
    assert cut == Segments(text, 0);
    parts := DropEmpty(raw);
  }

  /** One turn of `DivideText`'s loop: the slice up to the next '.' (or the
      rest of the text) moves from the slices still to cut to those cut. */
  lemma {:induction false} DivideStep(text: string, start: nat, cut: seq<string>)
    requires start < |text|
    requires cut + Segments(text, start) == Segments(text, 0)
    ensures var end := SegmentEnd(text, start);
      && (cut + [text[start..end]]) + Segments(text, end) == Segments(text, 0)
      && (end == |text| ==> text[start..end] == text[start..] && Segments(text, end) == [])
  {
    var end := SegmentEnd(text, start);
    var piece := text[start..end];
    assert (cut + [piece]) + Segments(text, end) == cut + ([piece] + Segments(text, end));
    if end == |text| {
      assert text[start..end] == text[start..];
    }
  }

  /** The slices, concatenated in order, give back the text from `start` on. */
  lemma {:induction false} SegmentsCover(text: string, start: nat)
    requires start <= |text|
    ensures Concat(Segments(text, start)) == text[start..]
    decreases |text| - start
  {
    if start < |text| {
      var end := SegmentEnd(text, start);
      var seg, rest := text[start..end], Segments(text, end);
      SegmentsCover(text, end);
      calc {
        Concat([seg] + rest);
      == { ConcatCons(seg, rest); }
        seg + text[end..];
      == { SliceSplit(text, start, end); }
        text[start..];
      }
    }
  }

  /** A '.' occurs in `s` only as its last character. */
  predicate PeriodOnlyAtEnd(s: string)
  {
    forall j :: 0 <= j < |s| - 1 ==> s[j] != '.'
  }

  predicate EndsInPeriod(s: string)
  {
    s != [] && s[|s| - 1] == '.'
  }

  /** The shape of the parts: each holds a '.' only at its end, and every
      part but the last ends with one. */
  predicate SentenceShaped(parts: seq<string>)
  {
    && (forall k :: 0 <= k < |parts| ==> PeriodOnlyAtEnd(parts[k]))
    && (forall k :: 0 <= k < |parts| - 1 ==> EndsInPeriod(parts[k]))
  }

  lemma {:induction false} ShapedCons(x: string, rest: seq<string>)
    requires PeriodOnlyAtEnd(x) && (rest != [] ==> EndsInPeriod(x)) && SentenceShaped(rest)
    ensures SentenceShaped([x] + rest)
  {
    var ps := [x] + rest;
    forall k | 0 <= k < |ps| ensures PeriodOnlyAtEnd(ps[k]) {
      if k > 0 { assert ps[k] == rest[k - 1]; }
    }
    forall k | 0 <= k < |ps| - 1 ensures EndsInPeriod(ps[k]) {
      if k > 0 { assert ps[k] == rest[k - 1]; }
    }
  }

  /** The first slice cut at `start`. */
  lemma {:induction false} FirstSegment(text: string, start: nat)
    requires start < |text|
    ensures var end := SegmentEnd(text, start);
      var seg := text[start..end];
      && PeriodOnlyAtEnd(seg)
      && (end < |text| ==> EndsInPeriod(seg))
  {
    var end := SegmentEnd(text, start);
    var seg := text[start..end];
    forall j | 0 <= j < |seg| - 1 ensures seg[j] != '.' {
      assert seg[j] == text[start + j];
    }
  }

  lemma {:induction false} StripKeepsPeriods(s: string)
    requires PeriodOnlyAtEnd(s)
    ensures PeriodOnlyAtEnd(Strip(s))
  {
    var r := Strip(s);
    var k := StripShape(s);
    forall j | 0 <= j < |r| - 1 ensures r[j] != '.' {
      assert r[j] == s[k + j];
    }
  }

  lemma {:induction false} StripKeepsFinalPeriod(s: string)
    requires EndsInPeriod(s)
    ensures EndsInPeriod(Strip(s))
  {
    var r := Strip(s);
    var k := StripShape(s);
    if k + |r| == |s| && r != [] {
      assert r[|r| - 1] == s[|s| - 1];
    }
  }

  lemma {:induction false} ShapedStep(seg: string, rest: seq<string>)
    requires PeriodOnlyAtEnd(seg) && (rest != [] ==> EndsInPeriod(seg))
    requires SentenceShaped(StripAll(rest))
    ensures SentenceShaped(StripAll([seg] + rest))
  {
    assert StripAll([seg] + rest) == [Strip(seg)] + StripAll(rest);
    StripKeepsPeriods(seg);
    if rest != [] {
      StripKeepsFinalPeriod(seg);
    }
    ShapedCons(Strip(seg), StripAll(rest));
  }

  lemma {:induction false} SegmentsShaped(text: string, start: nat)
    requires start <= |text|
    ensures SentenceShaped(StripAll(Segments(text, start)))
    decreases |text| - start
  {
    if start < |text| {
      FirstSegment(text, start);
      var end := SegmentEnd(text, start);
      SegmentsShaped(text, end);
      ShapedStep(text[start..end], Segments(text, end));
    }
  }

  lemma {:induction false} DropEmptyShaped(parts: seq<string>)
    requires SentenceShaped(parts)
    ensures SentenceShaped(DropEmpty(parts))
  {
    if parts != [] {
      var rest := parts[1..];
      assert SentenceShaped(rest) by {
        forall k | 0 <= k < |rest| ensures PeriodOnlyAtEnd(rest[k]) { assert rest[k] == parts[k + 1]; }
        forall k | 0 <= k < |rest| - 1 ensures EndsInPeriod(rest[k]) { assert rest[k] == parts[k + 1]; }
      }
      DropEmptyShaped(rest);
      if parts[0] != [] {
        assert PeriodOnlyAtEnd(parts[0]);
        if DropEmpty(rest) != [] {
          assert rest != [];
          assert EndsInPeriod(parts[0]);
        }
        ShapedCons(parts[0], DropEmpty(rest));
      }
    }
  }

  /** Every part `dividir_texto` returns holds a '.' only at its end, and
      every part but the last ends with '.'. */
  lemma {:induction false} SentencesShape(text: string)
    ensures SentenceShaped(Sentences(text))
  {
    SegmentsShaped(text, 0);
    DropEmptyShaped(StripAll(Segments(text, 0)));
  }

  lemma {:induction false} StripAllStripped(parts: seq<string>)
    ensures forall k :: 0 <= k < |parts| ==> Strip(StripAll(parts)[k]) == StripAll(parts)[k]
  {
    if parts != [] {
      StripAllStripped(parts[1..]);
      StripIdempotent(parts[0]);
      var r := StripAll(parts);
      forall k | 0 <= k < |parts| ensures Strip(r[k]) == r[k] {
        if k > 0 { assert r[k] == StripAll(parts[1..])[k - 1]; }
      }
    }
  }

  /** Every part is non-empty and carries no surrounding whitespace. */
  lemma {:induction false} SentencesStripped(text: string)
    ensures forall k :: 0 <= k < |Sentences(text)| ==>
      Sentences(text)[k] != [] && Strip(Sentences(text)[k]) == Sentences(text)[k]
  {
    var all := StripAll(Segments(text, 0));
    StripAllStripped(Segments(text, 0));
  }

  lemma {:induction false} DropEmptyConcat(parts: seq<string>)
    ensures Concat(DropEmpty(parts)) == Concat(parts)
  {
    if parts != [] {
      DropEmptyConcat(parts[1..]);
      if parts[0] == [] {
        assert DropEmpty(parts) == DropEmpty(parts[1..]);
      } else {
        assert DropEmpty(parts) == [parts[0]] + DropEmpty(parts[1..]);
      }
    }
  }

  lemma {:induction false} NonSpaceStripAll(parts: seq<string>)
    ensures NonSpace(Concat(StripAll(parts))) == NonSpace(Concat(parts))
  {
    if parts != [] {
      NonSpaceStripAll(parts[1..]);
      assert StripAll(parts)[1..] == StripAll(parts[1..]);
      NonSpaceAppend(Strip(parts[0]), Concat(StripAll(parts[1..])));
      NonSpaceAppend(parts[0], Concat(parts[1..]));
      NonSpaceStrip(parts[0]);
    }
  }

  /** No non-whitespace character of the text is lost, duplicated or
      reordered: the parts hold the text's characters up to whitespace. */
  lemma {:induction false} SentencesKeepText(text: string)
    ensures NonSpace(Concat(Sentences(text))) == NonSpace(text)
  {
    var segs := Segments(text, 0);
    SegmentsCover(text, 0);
    assert text[0..] == text;
    DropEmptyConcat(StripAll(segs));
    NonSpaceStripAll(segs);
  }

  lemma {:induction false} NonSpaceEmptyIff(s: string)
    ensures NonSpace(s) == [] <==> AllSpace(s)
  {
    if s != [] {
      NonSpaceEmptyIff(s[1..]);
      if AllSpace(s[1..]) && IsSpace(s[0]) {
        assert AllSpace(s);
      }
      if AllSpace(s) {
        assert AllSpace(s[1..]);
      }
    }
  }

  /** The text yields no part exactly when it is empty or all whitespace. */
  lemma {:induction false} SentencesEmptyIff(text: string)
    ensures Sentences(text) == [] <==> AllSpace(text)
  {
    SentencesKeepText(text);
    NonSpaceEmptyIff(text);
    var parts := Sentences(text);
    if parts != [] {
      SentencesStripped(text);
      var k := StripShape(parts[0]);
      assert Concat(parts) == parts[0] + Concat(parts[1..]);
      NonSpaceAppend(parts[0], Concat(parts[1..]));
      StripNoSpaceEdge(parts[0]);
    }
  }

  /** A stripped, non-empty string has a non-whitespace character. */
  lemma {:induction false} StripNoSpaceEdge(s: string)
    requires s != [] && !IsSpace(s[0])
    ensures NonSpace(s) != []
  {
  }
  // ---------------------------------------------------------------------------
  // Fixed-width chunks (lite converter)

  /** `max(2000, min(len(texto) // 10, 5000))`: a tenth of the text, clamped. */
  function ChunkSize(length: nat): (size: nat)
    ensures Config.MinChunk <= size <= Config.MaxChunk
    ensures Config.MinChunk <= length / 10 <= Config.MaxChunk ==> size == length / 10
  {
    var tenth := length / 10;
    var capped := if tenth < Config.MaxChunk then tenth else Config.MaxChunk;
    if Config.MinChunk > capped then Config.MinChunk else capped
  }

  /** `[texto[i:i + size] for i in range(start, len(texto), size)]`. */
  function Chunks(text: string, size: nat, start: nat): seq<string>
    requires size > 0
    decreases |text| - start
  {
    if start >= |text| then []
    else [text[start..if start + size < |text| then start + size else |text|]] + Chunks(text, size, start + size)
  }

  /** Concatenating the chunks reproduces the text exactly. */
  lemma {:induction false} ChunksCover(text: string, size: nat, start: nat)
    requires size > 0 && start <= |text|
    ensures Concat(Chunks(text, size, start)) == text[start..]
    decreases |text| - start
  {
    if start < |text| {
      var end := if start + size < |text| then start + size else |text|;
      var c, rest := text[start..end], Chunks(text, size, start + size);
      assert Chunks(text, size, start) == [c] + rest;
      ConcatCons(c, rest);
      if start + size < |text| {
        ChunksCover(text, size, start + size);
        SliceSplit(text, start, start + size);
      } else {
        assert rest == [] && c == text[start..];
      }
    }
  }

  /** Every chunk but the last is exactly `size` long; the last is non-empty
      and at most `size` long. */
  lemma {:induction false} ChunksLengths(text: string, size: nat, start: nat)
    requires size > 0
    ensures var cs := Chunks(text, size, start);
      && (forall k :: 0 <= k < |cs| - 1 ==> |cs[k]| == size)
      && (cs != [] ==> 0 < |cs[|cs| - 1]| <= size)
    decreases |text| - start
  {
    if start < |text| {
      ChunksLengths(text, size, start + size);
      var cs, rest := Chunks(text, size, start), Chunks(text, size, start + size);
      assert cs == [cs[0]] + rest;
      forall k | 0 <= k < |cs| - 1 ensures |cs[k]| == size {
        if k > 0 { assert cs[k] == rest[k - 1]; }
        else { assert rest != []; }
      }
    }
  }

  /** There are `ceil((len - start) / size)` chunks: the fewest whose total
      width covers the rest of the text. */
  lemma {:induction false} ChunksCount(text: string, size: nat, start: nat)
    requires size > 0 && start <= |text|
    ensures var n := |Chunks(text, size, start)|;
      n * size >= |text| - start && (n == 0 || (n - 1) * size < |text| - start)
    decreases |text| - start
  {
    if start < |text| && start + size < |text| {
      ChunksCount(text, size, start + size);
      var m := |Chunks(text, size, start + size)|;
      assert (m + 1) * size == m * size + size;
      assert m * size == (m - 1) * size + size;
    }
  }
}
