/** Repackaging a finished audio or video file at another playback speed
    (`processar_arquivo` in `Converter_MP3_para_MP4.py`, and its copies
    `processar_melhorar_audio` in the main converter and in `src/audio.py`):
    the settings are validated, ffmpeg speeds the audio up into a temporary
    file, and the result is either kept whole or cut into parts of at most
    twelve hours (`dividir_em_partes`). Durations are whole seconds. */
module Repackager {
  import opened Strings
  import opened FileSystem
  import Config

  // ---------------------------------------------------------------------------
  // Settings

  datatype Format = Mp3 | Mp4

  function FormatName(f: Format): string
  {
    match f
    case Mp3 => "mp3"
    case Mp4 => "mp4"
  }

  /** The answer to the format question, `answer.strip().lower()`, must be
      "mp3" or "mp4". */
  function ParseFormat(answer: string): (r: Option<Format>)
    ensures r.Some? <==> Lower(Strip(answer)) == "mp3" || Lower(Strip(answer)) == "mp4"
    ensures r.Some? ==> FormatName(r.value) == Lower(Strip(answer))
  {
    var a := Lower(Strip(answer));
    if a == "mp3" then Some(Mp3) else if a == "mp4" then Some(Mp4) else None
  }

  /** Each format's own name is accepted as that format. */
  lemma {:induction false} ParseFormatName(f: Format)
    ensures ParseFormat(FormatName(f)) == Some(f)
  {
    var n := FormatName(f);
    StripNoSpace(n);
    assert Lower(n) == n;
  }

  predicate SpeedAccepted(v: real)
  {
    0.5 <= v <= 2.0
  }

  /** An answer to the speed question, already through `float(...)`: None
      when it does not parse, which the source treats like a value out of
      range. */
  predicate GoodSpeed(a: Option<real>)
  {
    a.Some? && SpeedAccepted(a.value)
  }

  /** The speed question, asked again until an answer is a number in
      [0.5, 2.0]. `answers` are the successive answers; `used` is how many
      were read. */
  method AskSpeed(answers: seq<Option<real>>) returns (speed: Option<real>, used: nat)
    ensures used <= |answers|
    ensures speed.Some? ==> 0 < used && answers[used - 1] == speed && SpeedAccepted(speed.value)
    ensures speed.None? ==> used == |answers|
    ensures forall j :: 0 <= j < |answers| && j < used && (speed.None? || j < used - 1) ==> !GoodSpeed(answers[j])
  {
    speed := None;
    used := 0;
    while used < |answers|
      invariant used <= |answers|
      invariant forall j :: 0 <= j < used ==> !GoodSpeed(answers[j])
    {
      var a := answers[used];
      used := used + 1;
      if a.Some? && SpeedAccepted(a.value) {
        speed := a;
        return;
      }
    }
  }

  /** The format question, asked again until the answer is "mp3" or "mp4". */
  method AskFormat(answers: seq<string>) returns (format: Option<Format>, used: nat)
    ensures used <= |answers|
    ensures format.Some? ==> 0 < used && ParseFormat(answers[used - 1]) == format
    ensures format.None? ==> used == |answers|
    ensures forall j :: 0 <= j < |answers| && j < used && (format.None? || j < used - 1) ==> ParseFormat(answers[j]).None?
  {
    format := None;
    used := 0;
    while used < |answers|
      invariant used <= |answers|
      invariant forall j :: 0 <= j < used ==> ParseFormat(answers[j]).None?
    {
      var f := ParseFormat(answers[used]);
      used := used + 1;
      if f.Some? {
        format := f;
        return;
      }
    }
  }

  // ---------------------------------------------------------------------------
  // Output names

  /** `re.sub(r"_+", "_", s)`: every run of underscores becomes one. */
  function CollapseUnderscores(s: string): (r: string)
    decreases |s|
  {
    if |s| < 2 then s
    else if s[0] == '_' && s[1] == '_' then CollapseUnderscores(s[1..])
    else [s[0]] + CollapseUnderscores(s[1..])
  }

  predicate NoDoubleUnderscore(s: string)
  {
    forall i :: 0 <= i < |s| - 1 ==> !(s[i] == '_' && s[i + 1] == '_')
  }

  /** The characters other than '_', in order. */
  function WithoutUnderscores(s: string): string
  {
    if s == [] then [] else (if s[0] == '_' then [] else [s[0]]) + WithoutUnderscores(s[1..])
  }

  /** Collapsing keeps the first character, leaves no two underscores side
      by side, touches no other character, and introduces nothing new. */
  lemma {:induction false} CollapseUnderscoresSpec(s: string)
    ensures var r := CollapseUnderscores(s);
      && (s != [] ==> r != [] && r[0] == s[0])
      && NoDoubleUnderscore(r)
      && WithoutUnderscores(r) == WithoutUnderscores(s)
      && (forall i :: 0 <= i < |r| ==> r[i] in s)
    decreases |s|
  {
    if |s| >= 2 {
      var t := CollapseUnderscores(s[1..]);
      CollapseUnderscoresSpec(s[1..]);
      assert forall i :: 0 <= i < |t| ==> t[i] in s by {
        forall i | 0 <= i < |t| ensures t[i] in s {
          assert t[i] in s[1..];
        }
      }
      if !(s[0] == '_' && s[1] == '_') {
        var r := [s[0]] + t;
        assert WithoutUnderscores(r) == (if s[0] == '_' then [] else [s[0]]) + WithoutUnderscores(t) by {
          assert r[1..] == t;
        }
      } else {
        assert WithoutUnderscores(s) == WithoutUnderscores(s[1..]);
      }
    }
  }

  /** An already collapsed name is left as it is. */
  lemma {:induction false} CollapseUnderscoresFixed(s: string)
    requires NoDoubleUnderscore(s)
    ensures CollapseUnderscores(s) == s
    decreases |s|
  {
    if |s| >= 2 {
      assert !(s[0] == '_' && s[1] == '_');
      CollapseUnderscoresFixed(s[1..]);
      assert s == [s[0]] + s[1..];
    }
  }

  lemma {:induction false} CollapseUnderscoresIdempotent(s: string)
    ensures CollapseUnderscores(CollapseUnderscores(s)) == CollapseUnderscores(s)
  {
    CollapseUnderscoresSpec(s);
    CollapseUnderscoresFixed(CollapseUnderscores(s));
  }

  /** `f"{base}_x{speed}".replace(".", "_")`, followed in `src/audio.py`
      (`collapse`) by the collapse of underscore runs. `speedText` is
      Python's `str` of the speed. */
  function OutputBase(base: string, speedText: string, collapse: bool): string
  {
    var r := Replace(base + "_x" + speedText, ".", "_");
    if collapse then CollapseUnderscores(r) else r
  }

  /** The output base never holds a '.', so the extension added to it is
      the only one; once collapsed it has no double underscore. */
  lemma {:induction false} OutputBaseShape(base: string, speedText: string, collapse: bool)
    ensures forall i :: 0 <= i < |OutputBase(base, speedText, collapse)| ==> OutputBase(base, speedText, collapse)[i] != '.'
    ensures collapse ==> NoDoubleUnderscore(OutputBase(base, speedText, collapse))
    ensures !collapse ==> |OutputBase(base, speedText, collapse)| == |base| + 2 + |speedText|
  {
    var r := Replace(base + "_x" + speedText, ".", "_");
    ReplaceCharSpec(base + "_x" + speedText, '.', '_');
    if collapse {
      CollapseUnderscoresSpec(r);
    }
  }

  function TempAudio(outBase: string): string
  {
    outBase + "_temp_audio.mp3"
  }

  function FullVideo(outBase: string): string
  {
    outBase + "_video.mp4"
  }

  function FinalExtension(f: Format): string
  {
    if f == Mp4 then ".mp4" else ".mp3"
  }

  // ---------------------------------------------------------------------------
  // The cutting plan of `dividir_em_partes`

  /** One ffmpeg cut: offset and length in seconds, and the output path. */
  datatype Cut = Cut(start: int, length: int, output: string)

  function Min(a: int, b: int): int
  {
    if a <= b then a else b
  }

  /** `ceil(total / max)`. */
  function PartCount(total: nat, max: nat): nat
    requires max > 0
  {
    (total + max - 1) / max
  }

  /** `f"{base}_parte{i+1}{ext}"`. */
  function PartName(base: string, ext: string, i: nat): string
  {
    base + "_parte" + NatToString(i + 1) + ext
  }

  /** The parts `dividir_em_partes` issues, in order. */
  function Plan(total: nat, max: nat, base: string, ext: string): (cuts: seq<Cut>)
    requires max > 0
  {
    seq(PartCount(total, max), i requires 0 <= i =>
      Cut(i * max, Min(max, total - i * max), PartName(base, ext, i)))
  }

  lemma {:induction false} MulMono(i: int, j: int, m: nat)
    requires i <= j
    ensures i * m <= j * m
  {
    assert j * m - i * m == (j - i) * m;
  }

  /** The part count is the ceiling of total / max: enough parts of `max`
      seconds to hold the total, and one fewer would not. */
  lemma {:induction false} PartCountIsCeiling(total: nat, max: nat)
    requires max > 0
    ensures var n := PartCount(total, max);
      total <= n * max && (n > 0 ==> (n - 1) * max < total) && (n == 0 <==> total == 0)
  {
    var n := PartCount(total, max);
    var r := (total + max - 1) % max;
    assert total + max - 1 == n * max + r;
    assert (n - 1) * max == n * max - max;
  }

  /** Every part starts at `i * max`, lasts between one second and `max`
      seconds, and is named with its 1-based number. */
  lemma {:induction false} PlanBounds(total: nat, max: nat, base: string, ext: string, i: nat)
    requires max > 0 && i < |Plan(total, max, base, ext)|
    ensures var c := Plan(total, max, base, ext)[i];
      c.start == i * max && 0 < c.length <= max && c.start + c.length <= total
      && c.output == base + "_parte" + NatToString(i + 1) + ext
  {
    var n := PartCount(total, max);
    PartCountIsCeiling(total, max);
    MulMono(i, n - 1, max);
  }

  /** Each part ends where the next begins, the first starts at 0 and the
      last ends at the total: the parts cover [0, total) without overlap. */
  lemma {:induction false} PlanContiguous(total: nat, max: nat, base: string, ext: string)
    requires max > 0
    ensures var cuts := Plan(total, max, base, ext);
      && (|cuts| > 0 ==> cuts[0].start == 0 && cuts[|cuts| - 1].start + cuts[|cuts| - 1].length == total)
      && (forall i :: 0 <= i < |cuts| - 1 ==> cuts[i].start + cuts[i].length == cuts[i + 1].start)
  {
    var cuts := Plan(total, max, base, ext);
    var n := |cuts|;
    PartCountIsCeiling(total, max);
    forall i | 0 <= i < n - 1
      ensures cuts[i].start + cuts[i].length == cuts[i + 1].start
    {
      MulMono(i + 1, n - 1, max);
      assert (i + 1) * max == i * max + max;
    }
  }

  /** Sum of the part lengths. */
  function TotalLength(cuts: seq<Cut>): int
  {
    if cuts == [] then 0 else TotalLength(cuts[..|cuts| - 1]) + cuts[|cuts| - 1].length
  }

  lemma {:induction false} TotalLengthContiguous(cuts: seq<Cut>, k: nat)
    requires 0 < k <= |cuts|
    requires forall i :: 0 <= i < |cuts| - 1 ==> cuts[i].start + cuts[i].length == cuts[i + 1].start
    ensures TotalLength(cuts[..k]) == cuts[k - 1].start + cuts[k - 1].length - cuts[0].start
  {
    if k > 1 {
      TotalLengthContiguous(cuts, k - 1);
      assert cuts[..k][..k - 1] == cuts[..k - 1];
    } else {
      assert cuts[..1][..0] == [];
    }
  }

  /** The part lengths add up to the total duration. */
  lemma {:induction false} PlanSumsToTotal(total: nat, max: nat, base: string, ext: string)
    requires max > 0
    ensures TotalLength(Plan(total, max, base, ext)) == total
  {
    var cuts := Plan(total, max, base, ext);
    PlanContiguous(total, max, base, ext);
    PartCountIsCeiling(total, max);
    if |cuts| > 0 {
      TotalLengthContiguous(cuts, |cuts|);
      assert cuts[..|cuts|] == cuts;
    }
  }

  /** A file longer than `max` is cut into at least two parts. */
  lemma {:induction false} LongFileHasParts(total: nat, max: nat)
    requires 0 < max < total
    ensures PartCount(total, max) >= 2
  {
    PartCountIsCeiling(total, max);
  }

  /** Different parts get different names. */
  lemma {:induction false} PartNamesDistinct(base: string, ext: string, i: nat, j: nat)
    requires i != j
    ensures PartName(base, ext, i) != PartName(base, ext, j)
  {
    var p := base + "_parte";
    var a := NatToString(i + 1);
    var b := NatToString(j + 1);
    if PartName(base, ext, i) == PartName(base, ext, j) {
      assert p + a + ext == p + b + ext;
      assert |a| == |b|;
      assert (p + a + ext)[|p|..|p| + |a|] == a;
      assert (p + b + ext)[|p|..|p| + |b|] == b;
      NatToStringInjective(i + 1, j + 1);
    }
  }

  /** A part name differs from the temporary audio and from the full
      video made from the same base. */
  lemma {:induction false} PartNameNotTemp(outBase: string, ext: string, i: nat)
    ensures PartName(outBase, ext, i) != TempAudio(outBase)
    ensures PartName(outBase, ext, i) != FullVideo(outBase)
  {
    var k := |outBase| + 1;
    assert PartName(outBase, ext, i)[k] == 'p';
    assert TempAudio(outBase)[k] == 't';
    assert FullVideo(outBase)[k] == 'v';
  }

  // ---------------------------------------------------------------------------
  // Running the cuts

  /** The ffmpeg command for one part: `str(int(inicio))`, `str(int(duracao))`. */
  function CutCommand(input: string, c: Cut): seq<string>
  {
    ["ffmpeg", "-y", "-i", input, "-ss", IntToString(c.start), "-t", IntToString(c.length), "-c", "copy", c.output]
  }

  /** The cuts run one after the other; ffmpeg failing (`check=True`)
      raises and stops the rest. */
  function RunCuts(input: string, cuts: seq<Cut>, ffmpeg: (seq<string>, Disk) -> ToolRun, disk: Disk): (bool, Disk)
  {
    if cuts == [] then (true, disk)
    else
      var run := ffmpeg(CutCommand(input, cuts[0]), disk);
      var d := SetFile(disk, cuts[0].output, run.output);
      if !run.ok then (false, d) else RunCuts(input, cuts[1..], ffmpeg, d)
  }

  /** `dividir_em_partes`: one ffmpeg cut per part, in order. */
  method SplitIntoParts(input: string, total: nat, max: nat, base: string, ext: string,
                        ffmpeg: (seq<string>, Disk) -> ToolRun, disk: Disk)
    returns (ok: bool, disk': Disk)
    requires max > 0
    ensures (ok, disk') == RunCuts(input, Plan(total, max, base, ext), ffmpeg, disk)
  {
    var plan := Plan(total, max, base, ext);
    var parts := (total + max - 1) / max;
    disk' := disk;
    var i := 0;
    while i < parts
      invariant i <= parts == |plan|
      invariant RunCuts(input, plan[i..], ffmpeg, disk') == RunCuts(input, plan, ffmpeg, disk)
    {
      var start := i * max;
      var length := Min(max, total - start);
      var output := base + "_parte" + NatToString(i + 1) + ext;
      assert plan[i..][0] == Cut(start, length, output);
      assert plan[i..][1..] == plan[i + 1..];
      var run := ffmpeg(["ffmpeg", "-y", "-i", input, "-ss", IntToString(start), "-t", IntToString(length), "-c", "copy", output], disk');
      disk' := SetFile(disk', output, run.output);
      if !run.ok {
        return false, disk';
      }
      i := i + 1;
    }
    assert plan[i..] == [];
    ok := true;
  }

  /** ffmpeg leaves its output file behind whenever it reports success. */
  ghost predicate Produces(ffmpeg: (seq<string>, Disk) -> ToolRun)
  {
    forall args, d :: ffmpeg(args, d).ok ==> ffmpeg(args, d).output.Some?
  }

  function Outputs(cuts: seq<Cut>): set<string>
  {
    set i | 0 <= i < |cuts| :: cuts[i].output
  }

  /** Cutting writes only the parts' paths, and when it succeeds every
      part is on disk. */
  lemma {:induction false} RunCutsWrites(input: string, cuts: seq<Cut>, ffmpeg: (seq<string>, Disk) -> ToolRun, disk: Disk)
    ensures AgreeOutside(disk, RunCuts(input, cuts, ffmpeg, disk).1, Outputs(cuts))
    ensures Produces(ffmpeg) && RunCuts(input, cuts, ffmpeg, disk).0 ==>
      forall i :: 0 <= i < |cuts| ==> cuts[i].output in RunCuts(input, cuts, ffmpeg, disk).1
    decreases |cuts|
  {
    if cuts != [] {
      var run := ffmpeg(CutCommand(input, cuts[0]), disk);
      var d := SetFile(disk, cuts[0].output, run.output);
      if run.ok {
        var rest := cuts[1..];
        RunCutsWrites(input, rest, ffmpeg, d);
        assert Outputs(cuts) == {cuts[0].output} + Outputs(rest) by {
          forall p | p in Outputs(cuts) ensures p in {cuts[0].output} + Outputs(rest) {
            var i :| 0 <= i < |cuts| && cuts[i].output == p;
            if i > 0 {
              assert rest[i - 1].output == p;
            }
          }
          forall p | p in Outputs(rest) ensures p in Outputs(cuts) {
            var i :| 0 <= i < |rest| && rest[i].output == p;
            assert cuts[i + 1].output == p;
          }
        }
        var e := RunCuts(input, rest, ffmpeg, d).1;
        if Produces(ffmpeg) && RunCuts(input, rest, ffmpeg, d).0 {
          forall i | 0 <= i < |cuts| ensures cuts[i].output in e {
            if i > 0 {
              assert rest[i - 1] == cuts[i];
            } else if cuts[0].output !in Outputs(rest) {
              assert cuts[0].output in d;
            } else {
              var j :| 0 <= j < |rest| && rest[j].output == cuts[0].output;
            }
          }
        }
      } else {
        assert cuts[0].output in Outputs(cuts);
      }
    }
  }

  // ---------------------------------------------------------------------------
  // The whole repackaging step

  datatype Outcome = Ignored | Failed | Finished(outputs: seq<string>)

  /** `os.remove`: a missing file raises. */
  function RemoveFile(disk: Disk, p: string): Option<Disk>
  {
    if p in disk then Some(disk - {p}) else None
  }

  /** `os.rename(a, b)` for two different paths: a missing source raises. */
  function RenameFile(disk: Disk, a: string, b: string): Option<Disk>
  {
    if a in disk then Some((disk - {a})[b := disk[a]]) else None
  }

  /** `acelerar_audio`: `atempo` filter, audio only. */
  function SpeedUpCommand(input: string, output: string, speedText: string): seq<string>
  {
    ["ffmpeg", "-y", "-i", input, "-filter:a", "atempo=" + speedText, "-vn", output]
  }

  /** `criar_video_com_audio`: a black 1280x720 picture of `int(duracao)`
      seconds under the audio. */
  function VideoCommand(audio: string, video: string, duration: nat): seq<string>
  {
    ["ffmpeg", "-y", "-f", "lavfi", "-i", "color=c=black:s=1280x720:d=" + NatToString(duration),
     "-i", audio, "-shortest", "-c:v", "libx264", "-c:a", "aac", "-b:a", "192k", "-pix_fmt", "yuv420p", video]
  }

  function PartNames(cuts: seq<Cut>): (r: seq<string>)
    ensures |r| == |cuts| && forall i :: 0 <= i < |cuts| ==> r[i] == cuts[i].output
  {
    seq(|cuts|, i requires 0 <= i < |cuts| => cuts[i].output)
  }

  /** A duration within the limit: one final file, made by renaming the
      sped-up audio (mp3) or by wrapping it in a video and removing it
      (mp4). */
  function KeepWhole(outBase: string, format: Format, duration: nat,
                     ffmpeg: (seq<string>, Disk) -> ToolRun, disk: Disk): (Outcome, Disk)
  {
    var temp := TempAudio(outBase);
    var final := outBase + FinalExtension(format);
    if format == Mp4 then
      var run := ffmpeg(VideoCommand(temp, final, duration), disk);
      var d := SetFile(disk, final, run.output);
      if !run.ok then (Failed, d)
      else match RemoveFile(d, temp)
        case None => (Failed, d)
        case Some(d') => (Finished([final]), d')
    else
      match RenameFile(disk, temp, final)
      case None => (Failed, disk)
      case Some(d) => (Finished([final]), d)
  }

  /** A duration over the limit: the parts are cut from the sped-up audio
      (mp3) or from a full video made from it and removed afterwards (mp4);
      the temporary audio is removed last. */
  function CutIntoParts(outBase: string, format: Format, duration: nat,
                        ffmpeg: (seq<string>, Disk) -> ToolRun, disk: Disk): (Outcome, Disk)
  {
    var temp := TempAudio(outBase);
    var plan := Plan(duration, Config.LimitSeconds, outBase, FinalExtension(format));
    var (ok, d) :=
      if format == Mp4 then
        var video := FullVideo(outBase);
        var run := ffmpeg(VideoCommand(temp, video, duration), disk);
        var d0 := SetFile(disk, video, run.output);
        if !run.ok then (false, d0)
        else
          var (cut, d1) := RunCuts(video, plan, ffmpeg, d0);
          if !cut then (false, d1)
          else match RemoveFile(d1, video)
            case None => (false, d1)
            case Some(d2) => (true, d2)
      else RunCuts(temp, plan, ffmpeg, disk);
    if !ok then (Failed, d)
    else match RemoveFile(d, temp)
      case None => (Failed, d)
      case Some(d') => (Finished(PartNames(plan)), d')
  }

  /** The branch on the duration of the sped-up audio. */
  function Package(outBase: string, format: Format, duration: nat,
                   ffmpeg: (seq<string>, Disk) -> ToolRun, disk: Disk): (Outcome, Disk)
  {
    if duration <= Config.LimitSeconds then KeepWhole(outBase, format, duration, ffmpeg, disk)
    else CutIntoParts(outBase, format, duration, ffmpeg, disk)
  }

  /** `processar_arquivo` for one file. `ffmpeg` stands for the ffmpeg runs
      and `probe` for `obter_duracao_ffprobe` (None when its output does not
      parse); `collapse` selects the `src/audio.py` naming. */
  function Repackage(file: string, speedText: string, format: Format, collapse: bool,
                     ffmpeg: (seq<string>, Disk) -> ToolRun, probe: (string, Disk) -> Option<nat>,
                     disk: Disk): (Outcome, Disk)
  {
    var (stem, ext) := SplitExt(file);
    if Lower(ext) !in Config.SupportedExtensions then (Ignored, disk)
    else
      var outBase := OutputBase(stem, speedText, collapse);
      var temp := TempAudio(outBase);
      var run := ffmpeg(SpeedUpCommand(file, temp, speedText), disk);
      var d := SetFile(disk, temp, run.output);
      if !run.ok then (Failed, d)
      else match probe(temp, d)
        case None => (Failed, d)
        case Some(duration) => Package(outBase, format, duration, ffmpeg, d)
  }

  /** Only an unsupported extension makes a file be ignored, and an ignored
      file leaves the disk as it was. */
  lemma {:induction false} IgnoredIff(file: string, speedText: string, format: Format, collapse: bool,
                   ffmpeg: (seq<string>, Disk) -> ToolRun, probe: (string, Disk) -> Option<nat>, disk: Disk)
    ensures var r := Repackage(file, speedText, format, collapse, ffmpeg, probe, disk);
      (r.0.Ignored? <==> Lower(SplitExt(file).1) !in Config.SupportedExtensions)
      && (r.0.Ignored? ==> r.1 == disk)
  {
    var (stem, ext) := SplitExt(file);
    if Lower(ext) in Config.SupportedExtensions {
      var outBase := OutputBase(stem, speedText, collapse);
      var temp := TempAudio(outBase);
      var d := SetFile(disk, temp, ffmpeg(SpeedUpCommand(file, temp, speedText), disk).output);
      match probe(temp, d)
      case None =>
      case Some(duration) =>
        var p := Package(outBase, format, duration, ffmpeg, d);
        assert !p.0.Ignored?;
    }
  }

  /** Within the limit there is exactly one output, the base name with the
      format's extension; the temporary audio is gone, and an mp3 output
      holds the sped-up audio itself. */
  lemma {:induction false} KeepWholeOneOutput(outBase: string, format: Format, duration: nat,
                           ffmpeg: (seq<string>, Disk) -> ToolRun, disk: Disk)
    requires Produces(ffmpeg)
    ensures var r := KeepWhole(outBase, format, duration, ffmpeg, disk);
      var final := outBase + FinalExtension(format);
      (r.0.Finished? || r.0.Failed?)
      && (r.0.Finished? ==> r.0.outputs == [final] && final in r.1 && TempAudio(outBase) !in r.1)
      && (r.0.Finished? && format == Mp3 ==> r.1[final] == disk[TempAudio(outBase)])
      && (r.0.Failed? && format == Mp3 ==> r.1 == disk && TempAudio(outBase) !in disk)
  {
    var final := outBase + FinalExtension(format);
    assert final[|outBase| + 1] == 'm' && TempAudio(outBase)[|outBase| + 1] == 't';
  }

  /** Over the limit the outputs are the `ceil(duration / 43200)` parts, all
      on disk, and neither the temporary audio nor the full video is
      left. */
  lemma {:induction false} CutIntoPartsOutputs(outBase: string, format: Format, duration: nat,
                            ffmpeg: (seq<string>, Disk) -> ToolRun, disk: Disk)
    requires Produces(ffmpeg) && duration > Config.LimitSeconds
    ensures var r := CutIntoParts(outBase, format, duration, ffmpeg, disk);
      var plan := Plan(duration, Config.LimitSeconds, outBase, FinalExtension(format));
      (r.0.Finished? || r.0.Failed?)
      && (r.0.Finished? ==>
            r.0.outputs == PartNames(plan) && |r.0.outputs| == PartCount(duration, Config.LimitSeconds) >= 2
            && (forall i :: 0 <= i < |plan| ==> plan[i].output in r.1)
            && TempAudio(outBase) !in r.1 && (format == Mp4 ==> FullVideo(outBase) !in r.1))
  {
    var temp := TempAudio(outBase);
    var video := FullVideo(outBase);
    var ext := FinalExtension(format);
    var plan := Plan(duration, Config.LimitSeconds, outBase, ext);
    LongFileHasParts(duration, Config.LimitSeconds);
    forall i | 0 <= i < |plan| ensures plan[i].output != temp && plan[i].output != video {
      PartNameNotTemp(outBase, ext, i);
    }
    if format == Mp4 {
      var run := ffmpeg(VideoCommand(temp, video, duration), disk);
      var d0 := SetFile(disk, video, run.output);
      RunCutsWrites(video, plan, ffmpeg, d0);
    } else {
      RunCutsWrites(temp, plan, ffmpeg, disk);
    }
  }

  /** Whichever branch is taken, a finished run leaves its outputs on disk
      and removes the temporary audio. */
  lemma {:induction false} PackageRemovesTemp(outBase: string, format: Format, duration: nat,
                           ffmpeg: (seq<string>, Disk) -> ToolRun, disk: Disk)
    requires Produces(ffmpeg)
    ensures var r := Package(outBase, format, duration, ffmpeg, disk);
      r.0.Finished? ==>
        TempAudio(outBase) !in r.1 && (forall p :: p in r.0.outputs ==> p in r.1)
        && (|r.0.outputs| == 1 <==> duration <= Config.LimitSeconds)
  {
    if duration <= Config.LimitSeconds {
      KeepWholeOneOutput(outBase, format, duration, ffmpeg, disk);
    } else {
      CutIntoPartsOutputs(outBase, format, duration, ffmpeg, disk);
    }
  }

  /** The branch for a duration within the limit, step by step. */
  method KeepWholeFile(outBase: string, format: Format, duration: nat,
                       ffmpeg: (seq<string>, Disk) -> ToolRun, disk: Disk)
    returns (outcome: Outcome, disk': Disk)
    ensures (outcome, disk') == KeepWhole(outBase, format, duration, ffmpeg, disk)
  {
    var temp := outBase + "_temp_audio.mp3";
    var final := outBase + FinalExtension(format);
    disk' := disk;
    if format == Mp4 {
      var video := ffmpeg(VideoCommand(temp, final, duration), disk');
      disk' := SetFile(disk', final, video.output);
      if !video.ok || temp !in disk' {
        return Failed, disk';
      }
      disk' := disk' - {temp};
    } else {
      if temp !in disk' {
        return Failed, disk';
      }
      disk' := (disk' - {temp})[final := disk'[temp]];
    }
    outcome := Finished([final]);
  }

  /** The branch for a duration over the limit, step by step. */
  method CutIntoPartsFile(outBase: string, format: Format, duration: nat,
                          ffmpeg: (seq<string>, Disk) -> ToolRun, disk: Disk)
    returns (outcome: Outcome, disk': Disk)
    ensures (outcome, disk') == CutIntoParts(outBase, format, duration, ffmpeg, disk)
  {
    var temp := outBase + "_temp_audio.mp3";
    var ext := FinalExtension(format);
    var ok;
    disk' := disk;
    if format == Mp4 {
      var full := outBase + "_video.mp4";
      var video := ffmpeg(VideoCommand(temp, full, duration), disk');
      disk' := SetFile(disk', full, video.output);
      if !video.ok {
        return Failed, disk';
      }
      ok, disk' := SplitIntoParts(full, duration, Config.LimitSeconds, outBase, ext, ffmpeg, disk');
      if !ok || full !in disk' {
        return Failed, disk';
      }
      disk' := disk' - {full};
    } else {
      ok, disk' := SplitIntoParts(temp, duration, Config.LimitSeconds, outBase, ext, ffmpeg, disk');
      if !ok {
        return Failed, disk';
      }
    }
    if temp !in disk' {
      return Failed, disk';
    }
    disk' := disk' - {temp};
    outcome := Finished(PartNames(Plan(duration, Config.LimitSeconds, outBase, ext)));
  }

  /** `processar_arquivo`, step by step. */
  method RepackageFile(file: string, speedText: string, format: Format, collapse: bool,
                       ffmpeg: (seq<string>, Disk) -> ToolRun, probe: (string, Disk) -> Option<nat>,
                       disk: Disk)
    returns (outcome: Outcome, disk': Disk)
    ensures (outcome, disk') == Repackage(file, speedText, format, collapse, ffmpeg, probe, disk)
  {
    var (stem, ext) := SplitExt(file);
    ext := Lower(ext);
    if ext !in Config.SupportedExtensions {
      return Ignored, disk;
    }
    var outBase := Replace(stem + "_x" + speedText, ".", "_");
    if collapse {
      outBase := CollapseUnderscores(outBase);
    }
    assert outBase == OutputBase(stem, speedText, collapse);
    var temp := outBase + "_temp_audio.mp3";
    assert temp == TempAudio(outBase);
    var run := ffmpeg(SpeedUpCommand(file, temp, speedText), disk);
    disk' := SetFile(disk, temp, run.output);
    if !run.ok {
      return Failed, disk';
    }
    var probed := probe(temp, disk');
    if probed.None? {
      return Failed, disk';
    }
    assert Repackage(file, speedText, format, collapse, ffmpeg, probe, disk)
        == Package(outBase, format, probed.value, ffmpeg, disk');
    if probed.value <= Config.LimitSeconds {
      outcome, disk' := KeepWholeFile(outBase, format, probed.value, ffmpeg, disk');
    } else {
      outcome, disk' := CutIntoPartsFile(outBase, format, probed.value, ffmpeg, disk');
    }
  }
}
