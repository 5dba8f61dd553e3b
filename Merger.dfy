/** `unificar_audio`: joining the per-chunk temporary files into the final
    audio file, through ffmpeg's concat demuxer when ffmpeg is installed and
    by plain byte concatenation otherwise. The main converter and
    `src/audio.py` carry identical copies. */
module Merger {
  import opened Strings
  import opened FileSystem

  /** The list file ffmpeg reads, next to the final file. */
  function ListFilePath(final: string): string
  {
    JoinPath(Dirname(final), "file_list.txt")
  }

  /** The list file's text: one `file '<absolute path>'` line per temp file,
      in list order. */
  function ListText(absolute: string -> string, temps: seq<string>): (r: string)
  {
    if temps == [] then [] else ListText(absolute, temps[..|temps| - 1]) + "file '" + absolute(temps[|temps| - 1]) + "'\n"
  }

  /** The contents of the given files, in list order. */
  function Contents(disk: Disk, paths: seq<string>): (r: seq<seq<byte>>)
    requires forall i :: 0 <= i < |paths| ==> paths[i] in disk
    ensures |r| == |paths| && forall i :: 0 <= i < |paths| ==> r[i] == disk[paths[i]]
  {
    if paths == [] then [] else [disk[paths[0]]] + Contents(disk, paths[1..])
  }

  /** The fallback's copy loop once the final file is open: each temp file is
      read and appended; a missing one raises, which ends the merge with
      False and leaves what was written so far. */
  function Fallback(temps: seq<string>, final: string, disk: Disk): (bool, Disk)
    requires final in disk
  {
    if temps == [] then (true, disk)
    else if temps[0] !in disk then (false, disk)
    else Fallback(temps[1..], final, disk[final := disk[final] + disk[temps[0]]])
  }

  /** `unificar_audio`. `hasFfmpeg` is what `shutil.which` finds; `absolute`
      stands for `os.path.abspath`; `ffmpeg` is the concat run on the listed
      files. */
  function Merge(temps: seq<string>, final: string, hasFfmpeg: bool, absolute: string -> string,
                 ffmpeg: (seq<string>, Disk) -> ToolRun, disk: Disk): (bool, Disk)
  {
    if hasFfmpeg then
      var withList := disk[ListFilePath(final) := Utf8(ListText(absolute, temps))];
      var run := ffmpeg(temps, withList);
      var after := SetFile(withList, final, run.output);
      if run.ok then (true, RemoveIfExists(after, ListFilePath(final))) else (false, after)
    else
      Fallback(temps, final, disk[final := []])
  }

  /** `unificar_audio`, step by step: write the list and run ffmpeg, or open
      the final file and append the temp files one after the other. */
  method MergeAudio(temps: seq<string>, final: string, hasFfmpeg: bool, absolute: string -> string,
                    ffmpeg: (seq<string>, Disk) -> ToolRun, disk: Disk)
    returns (ok: bool, disk': Disk)
    ensures (ok, disk') == Merge(temps, final, hasFfmpeg, absolute, ffmpeg, disk)
  {
    if hasFfmpeg {
      var listFile := ListFilePath(final);
      var text: string := [];
      var k := 0;
      while k < |temps|
        invariant k <= |temps| && text == ListText(absolute, temps[..k])
      {
        text := text + "file '" + absolute(temps[k]) + "'\n";
        k := k + 1;
        assert temps[..k][..k - 1] == temps[..k - 1];
      }
      assert temps[..k] == temps;
      disk' := disk[listFile := Utf8(text)];
      var run := ffmpeg(temps, disk');
      disk' := SetFile(disk', final, run.output);
      if !run.ok {
        return false, disk';
      }
      disk' := RemoveIfExists(disk', listFile);
      return true, disk';
    }
    disk' := disk[final := []];
    var i := 0;
    while i < |temps|
      invariant i <= |temps| && final in disk'
      invariant Fallback(temps[i..], final, disk') == Fallback(temps, final, disk[final := []])
    {
      if temps[i] !in disk' {
        return false, disk';
      }
      assert temps[i..][1..] == temps[i + 1..];
      disk' := disk'[final := disk'[final] + disk'[temps[i]]];
      i := i + 1;
    }
    ok := true;
  }

  /** With every temp file present and distinct from the final file, the
      fallback leaves in the final file its old contents followed by the temp
      files' bytes in list order, and changes nothing else. */
  lemma {:induction false} FallbackConcatenates(temps: seq<string>, final: string, disk: Disk)
    requires final in disk && final !in temps
    requires forall i :: 0 <= i < |temps| ==> temps[i] in disk
    ensures Fallback(temps, final, disk) ==
      (true, disk[final := disk[final] + ConcatBytes(Contents(disk, temps))])
  {
    if temps != [] {
      var d := disk[final := disk[final] + disk[temps[0]]];
      assert forall i :: 0 <= i < |temps[1..]| ==> temps[1..][i] == temps[i + 1];
      FallbackConcatenates(temps[1..], final, d);
      var rest := Contents(disk, temps[1..]);
      assert Contents(d, temps[1..]) == rest;
      assert Contents(disk, temps)[1..] == rest;
      assert ConcatBytes(Contents(disk, temps)) == disk[temps[0]] + ConcatBytes(rest);
      var v := d[final] + ConcatBytes(rest);
      assert v == disk[final] + (disk[temps[0]] + ConcatBytes(rest));
      assert d[final := v] == disk[final := v];
    } else {
      assert disk[final] + ConcatBytes(Contents(disk, temps)) == disk[final];
      assert disk[final := disk[final]] == disk;
    }
  }

  /** Without ffmpeg, the merge writes exactly the temp files' bytes in list
      order into the final file, changes nothing else and reports success. */
  lemma {:induction false} MergeFallbackOrder(temps: seq<string>, final: string, absolute: string -> string,
                           ffmpeg: (seq<string>, Disk) -> ToolRun, disk: Disk)
    requires final !in temps
    requires forall i :: 0 <= i < |temps| ==> temps[i] in disk
    ensures Merge(temps, final, false, absolute, ffmpeg, disk) ==
      (true, disk[final := ConcatBytes(Contents(disk, temps))])
  {
    var d := disk[final := []];
    FallbackConcatenates(temps, final, d);
    var c := ConcatBytes(Contents(disk, temps));
    assert Contents(d, temps) == Contents(disk, temps);
    assert d[final] + c == c;
    assert d[final := c] == disk[final := c];
  }

  /** The fallback succeeds exactly when every temp file can be opened, and
      touches no file but the final one. */
  lemma {:induction false} FallbackOkIff(temps: seq<string>, final: string, disk: Disk)
    requires final in disk
    ensures Fallback(temps, final, disk).0 <==> forall i :: 0 <= i < |temps| ==> temps[i] in disk
    ensures AgreeOutside(disk, Fallback(temps, final, disk).1, {final})
  {
    if temps != [] && temps[0] in disk {
      var d := disk[final := disk[final] + disk[temps[0]]];
      FallbackOkIff(temps[1..], final, d);
      assert forall i :: 0 <= i < |temps[1..]| ==> temps[1..][i] == temps[i + 1];
    }
  }

  /** Through ffmpeg the merge reports ffmpeg's status; on success the final
      file holds ffmpeg's output and the list file is gone, on failure the
      list file stays behind. Nothing but these two paths changes. */
  lemma {:induction false} MergeWithFfmpeg(temps: seq<string>, final: string, absolute: string -> string,
                        ffmpeg: (seq<string>, Disk) -> ToolRun, disk: Disk)
    ensures var (ok, d) := Merge(temps, final, true, absolute, ffmpeg, disk);
      var run := ffmpeg(temps, disk[ListFilePath(final) := Utf8(ListText(absolute, temps))]);
      && ok == run.ok
      && (ok ==> ListFilePath(final) !in d)
      && (ok && final != ListFilePath(final) ==> (final in d <==> run.output.Some?))
      && (ok && final != ListFilePath(final) && run.output.Some? ==> d[final] == run.output.value)
      && (!ok && final != ListFilePath(final) ==> ListFilePath(final) in d)
      && AgreeOutside(disk, d, {final, ListFilePath(final)})
  {
  }
}
