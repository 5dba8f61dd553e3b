/** Turning one piece of text into an audio file with the speech engine
    (`converter_texto_para_audio`): the main converter retries engine
    exceptions, the copy in `src/audio.py` re-raises the first one. Both
    refuse whitespace-only text and keep a file only when it is larger than
    1024 bytes. */
module Synthesis {
  import opened Strings
  import opened FileSystem
  import Config

  /** One call of the speech engine: whether `save` raised, and what the
      output path holds once the call is over (absent, or some bytes). */
  datatype EngineCall = EngineCall(raised: bool, output: Option<seq<byte>>)

  /** The engine, as a function of the text and of how many engine calls
      were made before this one. */
  type Engine = (string, nat) -> EngineCall

  /** A finished conversion: the returned flag, the disk, and the number of
      engine calls it made. */
  datatype Conversion = Conversion(ok: bool, disk: Disk, calls: nat)

  /** The file at `path` is large enough to count as audio. */
  predicate BigEnough(disk: Disk, path: string)
  {
    path in disk && |disk[path]| > Config.MinAudioBytes
  }

  /** The main converter's `converter_texto_para_audio` once `failures`
      attempts have raised. Each attempt is one engine call, so the engine
      call of the next attempt is number `next + failures`, and `calls` of
      the result counts the failed attempts too. */
  function Convert(text: string, path: string, engine: Engine, next: nat, failures: nat, disk: Disk): Conversion
    decreases Config.MaxAttempts - failures
  {
    if failures >= Config.MaxAttempts || IsBlank(text) then Conversion(false, disk, failures)
    else
      var call := engine(text, next + failures);
      var after := SetFile(disk, path, call.output);
      if call.raised then Convert(text, path, engine, next, failures + 1, RemoveIfExists(after, path))
      else if BigEnough(after, path) then Conversion(true, after, failures + 1)
      else Conversion(false, RemoveIfExists(after, path), failures + 1)
  }

  /** `converter_texto_para_audio` of the main converter: up to three
      attempts while the engine raises; a call that returns ends the loop.
      The two-second pause between attempts is not modelled. */
  method ConvertTextToAudio(text: string, path: string, engine: Engine, next: nat, disk: Disk)
    returns (ok: bool, disk': Disk, calls: nat)
    ensures Conversion(ok, disk', calls) == Convert(text, path, engine, next, 0, disk)
  {
    var attempts: nat := 0;
    disk' := disk;
    ok := false;
    var done := false;
    while !done && attempts < Config.MaxAttempts
      invariant attempts <= Config.MaxAttempts
      invariant done ==> Conversion(ok, disk', attempts) == Convert(text, path, engine, next, 0, disk)
      invariant !done ==> !ok && Convert(text, path, engine, next, attempts, disk') == Convert(text, path, engine, next, 0, disk)
      decreases Config.MaxAttempts - attempts, !done
    {
      if IsBlank(text) {
        ConvertRefused(text, path, engine, next, attempts, disk');
        done := true;
      } else {
        var call := engine(text, next + attempts);
        ghost var before := disk';
        disk' := SetFile(disk', path, call.output);
        if call.raised {
          ConvertRaised(text, path, engine, next, attempts, before);
          disk' := RemoveIfExists(disk', path);
        } else {
          ConvertReturned(text, path, engine, next, attempts, before);
          ok := BigEnough(disk', path);
          if !ok {
            disk' := RemoveIfExists(disk', path);
          }
          done := true;
        }
        attempts := attempts + 1;
      }
    }
    if !done {
      ConvertRefused(text, path, engine, next, attempts, disk');
    }
    calls := attempts;
  }

  /** Whitespace-only text is refused without calling the engine and
      without touching the disk. */
  lemma {:induction false} ConvertBlank(text: string, path: string, engine: Engine, next: nat, disk: Disk)
    requires AllSpace(text)
    ensures Convert(text, path, engine, next, 0, disk) == Conversion(false, disk, 0)
  {
  }

  /** At most `MaxAttempts` engine calls, and only the output path changes. */
  lemma {:induction false} ConvertBounded(text: string, path: string, engine: Engine, next: nat, failures: nat, disk: Disk)
    requires failures <= Config.MaxAttempts
    ensures var c := Convert(text, path, engine, next, failures, disk);
      failures <= c.calls <= Config.MaxAttempts && AgreeOutside(disk, c.disk, {path})
    decreases Config.MaxAttempts - failures
  {
    if failures < Config.MaxAttempts && !IsBlank(text) {
      var call := engine(text, next + failures);
      var after := SetFile(disk, path, call.output);
      AttemptAgrees(disk, path, call.output);
      if call.raised {
        var rest := RemoveIfExists(after, path);
        ConvertRaised(text, path, engine, next, failures, disk);
        ConvertBounded(text, path, engine, next, failures + 1, rest);
        AgreeTrans(disk, rest, Convert(text, path, engine, next, failures + 1, rest).disk, {path});
      } else {
        ConvertReturned(text, path, engine, next, failures, disk);
      }
    }
  }

  /** An attempt that raises leads to the next one, on the disk without
      the output. */
  lemma ConvertRaised(text: string, path: string, engine: Engine, next: nat, failures: nat, disk: Disk)
    requires failures < Config.MaxAttempts && !IsBlank(text) && engine(text, next + failures).raised
    ensures Convert(text, path, engine, next, failures, disk)
         == Convert(text, path, engine, next, failures + 1, RemoveIfExists(SetFile(disk, path, engine(text, next + failures).output), path))
  {
  }

  /** An attempt that returns ends the conversion: it is the last call, and
      the disk keeps the output only when it is big enough. */
  lemma ConvertReturned(text: string, path: string, engine: Engine, next: nat, failures: nat, disk: Disk)
    requires failures < Config.MaxAttempts && !IsBlank(text) && !engine(text, next + failures).raised
    ensures var after := SetFile(disk, path, engine(text, next + failures).output);
      Convert(text, path, engine, next, failures, disk)
      == if BigEnough(after, path) then Conversion(true, after, failures + 1)
         else Conversion(false, RemoveIfExists(after, path), failures + 1)
  {
  }

  /** Blank text, or no attempt left: no call, and the disk as it is. */
  lemma ConvertRefused(text: string, path: string, engine: Engine, next: nat, failures: nat, disk: Disk)
    requires failures >= Config.MaxAttempts || IsBlank(text)
    ensures Convert(text, path, engine, next, failures, disk) == Conversion(false, disk, failures)
  {
  }

  /** One attempt writes the output path, and perhaps removes it again,
      and touches nothing else. */
  lemma AttemptAgrees(disk: Disk, path: string, output: Option<seq<byte>>)
    ensures AgreeOutside(disk, SetFile(disk, path, output), {path})
    ensures AgreeOutside(disk, RemoveIfExists(SetFile(disk, path, output), path), {path})
  {
  }

  /** Success is reported only when the output file exists and is larger
      than 1024 bytes; on failure for non-blank text the file is gone. */
  lemma {:induction false} ConvertResult(text: string, path: string, engine: Engine, next: nat, failures: nat, disk: Disk)
    ensures var c := Convert(text, path, engine, next, failures, disk);
      && (c.ok ==> BigEnough(c.disk, path))
      && (!c.ok && failures < Config.MaxAttempts && !AllSpace(text) ==> path !in c.disk)
    decreases Config.MaxAttempts - failures
  {
    if failures < Config.MaxAttempts && !IsBlank(text) {
      var call := engine(text, next + failures);
      var after := SetFile(disk, path, call.output);
      if call.raised {
        ConvertResult(text, path, engine, next, failures + 1, RemoveIfExists(after, path));
      }
    }
  }

  /** The engine call numbered `k` returns and leaves more than 1024 bytes. */
  predicate GoodCall(text: string, engine: Engine, k: nat)
  {
    var call := engine(text, k);
    !call.raised && call.output.Some? && |call.output.value| > Config.MinAudioBytes
  }

  /** The engine call numbered `k` raises. */
  predicate Raises(text: string, engine: Engine, k: nat)
  {
    engine(text, k).raised
  }

  /** Every engine call numbered from `lo` up to, not including, `hi` raises. */
  predicate RaisedBetween(text: string, engine: Engine, lo: nat, hi: nat)
  {
    forall k: nat :: lo <= k < hi ==> Raises(text, engine, k)
  }

  /** The conversion succeeds exactly when the text is not blank and one of
      the remaining attempts' engine calls returns a large enough file after
      all calls before it raised. */
  lemma {:induction false} ConvertOkIff(text: string, path: string, engine: Engine, next: nat, failures: nat, disk: Disk)
    requires failures <= Config.MaxAttempts
    ensures Convert(text, path, engine, next, failures, disk).ok <==>
      !AllSpace(text) &&
      exists k :: next + failures <= k < next + Config.MaxAttempts &&
        RaisedBetween(text, engine, next + failures, k) && GoodCall(text, engine, k)
    decreases Config.MaxAttempts - failures
  {
    var first := next + failures;
    if failures < Config.MaxAttempts && !AllSpace(text) {
      var call := engine(text, first);
      if call.raised {
        var after := RemoveIfExists(SetFile(disk, path, call.output), path);
        ConvertOkIff(text, path, engine, next, failures + 1, after);
        SucceedsAfterRaise(text, engine, first, next + Config.MaxAttempts);
      } else {
        SucceedsAtReturn(text, engine, first, next + Config.MaxAttempts);
      }
    }
  }

  /** When call `lo` raises, a good call after raised ones can only come
      later. */
  lemma SucceedsAfterRaise(text: string, engine: Engine, lo: nat, hi: nat)
    requires Raises(text, engine, lo)
    ensures (exists k :: lo <= k < hi && RaisedBetween(text, engine, lo, k) && GoodCall(text, engine, k))
      <==> (exists k :: lo + 1 <= k < hi && RaisedBetween(text, engine, lo + 1, k) && GoodCall(text, engine, k))
  {
    if exists k :: lo <= k < hi && RaisedBetween(text, engine, lo, k) && GoodCall(text, engine, k) {
      var k :| lo <= k < hi && RaisedBetween(text, engine, lo, k) && GoodCall(text, engine, k);
      assert k != lo;
      assert RaisedBetween(text, engine, lo + 1, k);
    }
    if exists k :: lo + 1 <= k < hi && RaisedBetween(text, engine, lo + 1, k) && GoodCall(text, engine, k) {
      var k :| lo + 1 <= k < hi && RaisedBetween(text, engine, lo + 1, k) && GoodCall(text, engine, k);
      assert RaisedBetween(text, engine, lo, k);
    }
  }

  /** When call `lo` returns, it is the only candidate. */
  lemma SucceedsAtReturn(text: string, engine: Engine, lo: nat, hi: nat)
    requires lo < hi && !Raises(text, engine, lo)
    ensures (exists k :: lo <= k < hi && RaisedBetween(text, engine, lo, k) && GoodCall(text, engine, k))
      <==> GoodCall(text, engine, lo)
  {
    if exists k :: lo <= k < hi && RaisedBetween(text, engine, lo, k) && GoodCall(text, engine, k) {
      var k :| lo <= k < hi && RaisedBetween(text, engine, lo, k) && GoodCall(text, engine, k);
      assert k > lo ==> Raises(text, engine, lo);
    }
    if GoodCall(text, engine, lo) {
      assert RaisedBetween(text, engine, lo, lo);
    }
  }


  /** A call of `converter_texto_para_audio` as its callers see it: from
      the text, the output path, the number of engine calls made before and
      the disk, to the conversion. */
  type Converter = (string, string, nat, Disk) -> Conversion

  /** The main converter, for a given engine. */
  function MainConverter(engine: Engine): Converter
  {
    (text, path, next, disk) => Convert(text, path, engine, next, 0, disk)
  }

  /** What callers rely on: success means a large enough output file, at
      most `MaxAttempts` engine calls are made, and no other file changes. */
  ghost predicate Honest(conv: Converter)
  {
    forall text, path, next, disk :: Keeps(conv(text, path, next, disk), path, disk)
  }

  /** One conversion keeps the promises `Honest` lists. */
  ghost predicate Keeps(c: Conversion, path: string, disk: Disk)
  {
    && (c.ok ==> BigEnough(c.disk, path))
    && c.calls <= Config.MaxAttempts
    && AgreeOutside(disk, c.disk, {path})
  }

  /** The main converter keeps those promises. */
  lemma {:induction false} MainConverterHonest(engine: Engine)
    ensures Honest(MainConverter(engine))
  {
    forall text, path, next, disk ensures Keeps(MainConverter(engine)(text, path, next, disk), path, disk) {
      ConvertResult(text, path, engine, next, 0, disk);
      ConvertBounded(text, path, engine, next, 0, disk);
    }
  }

  // ---------------------------------------------------------------------------
  // src/audio.py: a single attempt, exceptions propagate

  /** What `Audio.converter_texto_para_audio` does: return a flag, or raise. */
  datatype Outcome = Returned(ok: bool) | Raised

  /** `Audio.converter_texto_para_audio`: every pass of its loop either
      returns or raises, so the engine is called at most once. */
  function ConvertOnce(text: string, path: string, call: EngineCall, disk: Disk): (Outcome, Disk)
  {
    if IsBlank(text) then (Returned(false), disk)
    else
      var after := SetFile(disk, path, call.output);
      if call.raised then (Raised, after)
      else if BigEnough(after, path) then (Returned(true), after)
      else (Returned(false), RemoveIfExists(after, path))
  }

  /** The single-attempt converter: blank text is refused untouched; success
      means a file larger than 1024 bytes; a too-small result is deleted; an
      engine exception propagates and leaves the output as the engine left it. */
  lemma {:induction false} ConvertOnceSpec(text: string, path: string, call: EngineCall, disk: Disk)
    ensures var (out, d) := ConvertOnce(text, path, call, disk);
      && (AllSpace(text) ==> out == Returned(false) && d == disk)
      && (out == Returned(true) <==> !AllSpace(text) && !call.raised && call.output.Some?
                                      && |call.output.value| > Config.MinAudioBytes)
      && (out == Returned(true) ==> BigEnough(d, path))
      && (out == Returned(false) && !AllSpace(text) ==> path !in d)
      && (out == Raised <==> !AllSpace(text) && call.raised)
      && (out == Raised ==> d == SetFile(disk, path, call.output))
      && AgreeOutside(disk, d, {path})
  {
  }
}
