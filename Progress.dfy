/** The progress file of a resumable conversion (`gravar_progresso`,
    `ler_progresso`): it holds the index of the last part done, written as
    a bare decimal integer. The main converter, the lite converter and
    `src/files_utils.py` carry identical copies. */
module Progress {
  import opened Strings
  import opened FileSystem

  /** `str(i)` is plain ASCII. */
  lemma {:induction false} IntToStringAscii(i: int)
    ensures IsAscii(IntToString(i))
  {
    var s := IntToString(i);
    var d := NatToString(if i < 0 then -i else i);
    forall k | 0 <= k < |s| ensures s[k] as int < 128 {
      if i < 0 && k > 0 {
        assert s[k] == d[k - 1];
      }
    }
  }

  /** `gravar_progresso`: the file is (re)written with `str(index)`. */
  function WriteProgress(disk: Disk, path: string, index: int): (d: Disk)
    ensures path in d && AgreeOutside(disk, d, {path})
  {
    disk[path := Utf8(IntToString(index))]
  }

  /** `ler_progresso`: the integer in the file, surrounding whitespace
      ignored; a missing file, bytes that do not decode, or text `int()`
      rejects all give 0. */
  function ReadProgress(disk: Disk, path: string): (r: int)
    ensures r != 0 ==> path in disk && AsciiText(disk[path]).Some?
                       && ParseInt(Strip(AsciiText(disk[path]).value)) == Some(r)
  {
    if path !in disk then 0
    else match AsciiText(disk[path])
      case None => 0
      case Some(text) =>
        match ParseInt(Strip(text))
        case None => 0
        case Some(v) => v
  }

  /** Reading the progress file gives back the index last written to it. */
  lemma {:induction false} ReadAfterWrite(disk: Disk, path: string, index: int)
    ensures ReadProgress(WriteProgress(disk, path, index), path) == index
  {
    var s := IntToString(index);
    IntToStringAscii(index);
    AsciiRoundTrip(s);
    StripIdempotent(s);
    ParseIntOfIntToString(index);
    StripNoSpace(s);
  }

  /** Writing another file does not change what the progress file reads. */
  lemma {:induction false} ReadAfterOtherWrite(disk: Disk, path: string, other: string, content: Option<seq<byte>>)
    requires other != path
    ensures ReadProgress(SetFile(disk, other, content), path) == ReadProgress(disk, path)
  {
  }

  /** A missing or unreadable progress file reads as 0. */
  lemma {:induction false} ReadFailure(disk: Disk, path: string)
    requires path !in disk || AsciiText(disk[path]).None? || ParseInt(Strip(AsciiText(disk[path]).value)).None?
    ensures ReadProgress(disk, path) == 0
  {
  }
}
