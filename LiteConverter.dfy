/** The lite converter's audio loop (`processar_audio` in
    `conversor_tts_lite.py`): the text is cut into fixed-width parts, the
    loop resumes after the part index stored in the progress file, each
    part gets up to five engine attempts with exponential pauses, the
    progress file is rewritten after each part that was saved, and unless
    the parts are to be kept separate they are streamed into the output
    file in list order and removed together with the progress file. */
module LiteConverter {
  import opened Strings
  import opened FileSystem
  import Config
  import opened Segmenter
  import opened Progress
  import opened Synthesis

  // ---------------------------------------------------------------------------
  // Names

  /** `f"{arquivo_saida}.progress"`. */
  function ProgressPath(out: string): string
  {
    out + ".progress"
  }

  /** `f"{arquivo_saida}.part{i:03d}.mp3"`. */
  function PartName(out: string, i: int): string
  {
    out + ".part" + Format03(i) + ".mp3"
  }

  lemma {:induction false} SuffixCancel(a: string, b: string, tail: string)
    requires a + tail == b + tail
    ensures a == b
  {
    assert |a| == |b|;
    assert (a + tail)[..|a|] == a;
    assert (b + tail)[..|b|] == b;
  }

  /** Different part numbers give different part files. */
  lemma {:induction false} PartNameInjective(out: string, i: int, j: int)
    requires PartName(out, i) == PartName(out, j)
    ensures i == j
  {
    var stem := out + ".part";
    assert PartName(out, i) == stem + (Format03(i) + ".mp3");
    assert PartName(out, j) == stem + (Format03(j) + ".mp3");
    assert (stem + (Format03(i) + ".mp3"))[|stem|..] == Format03(i) + ".mp3";
    assert (stem + (Format03(j) + ".mp3"))[|stem|..] == Format03(j) + ".mp3";
    SuffixCancel(Format03(i), Format03(j), ".mp3");
    Format03Injective(i, j);
  }

  /** No part file is the output file or the progress file. */
  lemma {:induction false} PartNameDistinct(out: string, i: int)
    ensures PartName(out, i) != out && PartName(out, i) != ProgressPath(out)
  {
    assert PartName(out, i)[|out| + 2] == 'a';
    assert ProgressPath(out)[|out| + 2] == 'r';
  }

  // ---------------------------------------------------------------------------
  // One part

  /** `2 ** n`. */
  function Pow2(n: nat): (r: nat)
    ensures r >= 1
  {
    if n == 0 then 1 else 2 * Pow2(n - 1)
  }

  /** The pauses after failed attempts `t` to `t + m - 1`: `2 ** t`, ... */
  function Backoff(t: nat, m: nat): (r: seq<nat>)
    ensures |r| == m
    decreases m
  {
    if m == 0 then [] else [Pow2(t)] + Backoff(t + 1, m - 1)
  }

  /** What the loop changes: the disk, `temp_files`, the number of engine
      calls and of interrupt-flag reads so far (the engine and the flag are
      functions of these counts), the pauses taken, and, for each engine
      call, the number of the part it was for. */
  datatype LiteState = LiteState(disk: Disk, temps: seq<string>, calls: nat, checks: nat,
                                 waits: seq<nat>, tried: seq<int>)

  /** Attempts `t` to 5 of part number `i`: the engine is handed the
      stripped part and saves into the part file; when it returns, the part
      file is recorded and the progress file rewritten with `i`; when it
      raises, whatever it left stays, and the loop pauses `2 ** t` seconds
      before the next attempt, or moves on after the fifth. */
  function PartAttempts(part: string, i: int, out: string, engine: Engine, t: nat, st: LiteState): LiteState
    decreases Config.LiteMaxAttempts + 1 - t
  {
    if t > Config.LiteMaxAttempts then st
    else
      var call := engine(Strip(part), st.calls);
      var temp := PartName(out, i);
      var st1 := st.(disk := SetFile(st.disk, temp, call.output), calls := st.calls + 1, tried := st.tried + [i]);
      if !call.raised then st1.(temps := st1.temps + [temp], disk := WriteProgress(st1.disk, ProgressPath(out), i))
      else if t < Config.LiteMaxAttempts then PartAttempts(part, i, out, engine, t + 1, st1.(waits := st1.waits + [Pow2(t)]))
      else st1
  }

  /** `i` repeated `m` times. */
  function Repeat(i: int, m: nat): (r: seq<int>)
    ensures |r| == m && forall k :: 0 <= k < m ==> r[k] == i
  {
    if m == 0 then [] else [i] + Repeat(i, m - 1)
  }

  /** Every engine call numbered from `lo` up to, not including, `hi` raises
      when handed `text`. */
  predicate AllRaise(text: string, engine: Engine, lo: nat, hi: nat)
  {
    forall k: nat :: lo <= k < hi ==> Raises(text, engine, k)
  }

  /** Part `i` was saved: its file was appended to `temp_files`. */
  predicate Saved(before: LiteState, after: LiteState, out: string, i: int)
  {
    after.temps == before.temps + [PartName(out, i)]
  }

  lemma {:induction false} AppendFirst<T>(before: seq<T>, x: T, rest: seq<T>, after: seq<T>)
    requires after == (before + [x]) + rest
    ensures after == before + ([x] + rest)
  {
  }

  /** What the attempts record of the engine calls: their number, the flag
      reads, the pauses and the part each call was for. */
  datatype CallLog = CallLog(calls: nat, checks: nat, waits: seq<nat>, tried: seq<int>)

  function LogOf(st: LiteState): CallLog
  {
    CallLog(st.calls, st.checks, st.waits, st.tried)
  }

  /** `PartAttempts` seen through its call log alone: the engine is handed
      `text`, and the files play no part. */
  function PartLog(text: string, i: int, engine: Engine, t: nat, log: CallLog): CallLog
    decreases Config.LiteMaxAttempts + 1 - t
  {
    if t > Config.LiteMaxAttempts then log
    else
      var log1 := log.(calls := log.calls + 1, tried := log.tried + [i]);
      if !engine(text, log.calls).raised then log1
      else if t < Config.LiteMaxAttempts then PartLog(text, i, engine, t + 1, log1.(waits := log1.waits + [Pow2(t)]))
      else log1
  }

  lemma {:induction false} PartAttemptsLog(part: string, i: int, out: string, engine: Engine, t: nat, st: LiteState)
    ensures LogOf(PartAttempts(part, i, out, engine, t, st)) == PartLog(Strip(part), i, engine, t, LogOf(st))
    decreases Config.LiteMaxAttempts + 1 - t
  {
    if t <= Config.LiteMaxAttempts {
      var call := engine(Strip(part), st.calls);
      var st1 := st.(disk := SetFile(st.disk, PartName(out, i), call.output), calls := st.calls + 1, tried := st.tried + [i]);
      if !call.raised || t == Config.LiteMaxAttempts {
        LastAttemptLog(part, i, out, engine, t, st);
      } else {
        var st2 := st1.(waits := st1.waits + [Pow2(t)]);
        RetryLog(part, i, out, engine, t, st);
        PartAttemptsLog(part, i, out, engine, t + 1, st2);
      }
    }
  }

  /** A failed attempt before the last: both the run and its log go on to
      attempt `t + 1` from the same state. */
  lemma RetryLog(part: string, i: int, out: string, engine: Engine, t: nat, st: LiteState)
    requires t < Config.LiteMaxAttempts && engine(Strip(part), st.calls).raised
    ensures var st2 := st.(disk := SetFile(st.disk, PartName(out, i), engine(Strip(part), st.calls).output),
                           calls := st.calls + 1, tried := st.tried + [i], waits := st.waits + [Pow2(t)]);
      && PartAttempts(part, i, out, engine, t, st) == PartAttempts(part, i, out, engine, t + 1, st2)
      && PartLog(Strip(part), i, engine, t, LogOf(st)) == PartLog(Strip(part), i, engine, t + 1, LogOf(st2))
  {
    var log := LogOf(st);
    var log2 := CallLog(st.calls + 1, st.checks, st.waits + [Pow2(t)], st.tried + [i]);
    assert PartLog(Strip(part), i, engine, t, log) == PartLog(Strip(part), i, engine, t + 1, log2);
  }

  /** An attempt after which the loop stops: one more engine call in the
      log. */
  lemma LastAttemptLog(part: string, i: int, out: string, engine: Engine, t: nat, st: LiteState)
    requires t <= Config.LiteMaxAttempts
    requires !engine(Strip(part), st.calls).raised || t == Config.LiteMaxAttempts
    ensures LogOf(PartAttempts(part, i, out, engine, t, st)) == PartLog(Strip(part), i, engine, t, LogOf(st))
  {
    var r := PartAttempts(part, i, out, engine, t, st);
    assert r.calls == st.calls + 1 && r.checks == st.checks && r.waits == st.waits && r.tried == st.tried + [i];
  }

  /** Attempts from `t` on make at least one and at most the remaining
      engine calls, all for part `i`, with a pause after each failed one
      but the last, and read no flag. */
  lemma {:induction false} PartAttemptsCalls(part: string, i: int, out: string, engine: Engine, t: nat, st: LiteState)
    requires 1 <= t <= Config.LiteMaxAttempts
    ensures var r := PartAttempts(part, i, out, engine, t, st);
      var m := r.calls - st.calls;
      && 1 <= m <= Config.LiteMaxAttempts + 1 - t
      && r.checks == st.checks
      && r.tried == st.tried + Repeat(i, m)
      && r.waits == st.waits + Backoff(t, m - 1)
  {
    PartAttemptsLog(part, i, out, engine, t, st);
    PartLogTried(Strip(part), i, engine, t, LogOf(st));
    PartLogWaits(Strip(part), i, engine, t, LogOf(st));
    CallsOfLog(t, i, st, PartAttempts(part, i, out, engine, t, st), PartLog(Strip(part), i, engine, t, LogOf(st)));
  }

  /** What the log of attempts `t` on says about the state they leave. */
  lemma CallsOfLog(t: nat, i: int, st: LiteState, r: LiteState, log: CallLog)
    requires LogOf(r) == log
    requires var m := log.calls - st.calls;
      && 1 <= m <= Config.LiteMaxAttempts + 1 - t
      && log.checks == st.checks
      && log.tried == st.tried + Repeat(i, m)
      && log.waits == st.waits + Backoff(t, m - 1)
    ensures var m := r.calls - st.calls;
      && 1 <= m <= Config.LiteMaxAttempts + 1 - t
      && r.checks == st.checks
      && r.tried == st.tried + Repeat(i, m)
      && r.waits == st.waits + Backoff(t, m - 1)
  {
  }

  /** The engine calls of attempts `t` on: their number, and the part each
      was for. */
  lemma {:induction false} PartLogTried(text: string, i: int, engine: Engine, t: nat, log: CallLog)
    requires 1 <= t <= Config.LiteMaxAttempts
    ensures var r := PartLog(text, i, engine, t, log);
      var m := r.calls - log.calls;
      && 1 <= m <= Config.LiteMaxAttempts + 1 - t
      && r.checks == log.checks
      && r.tried == log.tried + Repeat(i, m)
    decreases Config.LiteMaxAttempts + 1 - t
  {
    if engine(text, log.calls).raised && t < Config.LiteMaxAttempts {
      var log1 := log.(calls := log.calls + 1, tried := log.tried + [i]);
      var log2 := log1.(waits := log1.waits + [Pow2(t)]);
      var r2 := PartLog(text, i, engine, t + 1, log2);
      assert PartLog(text, i, engine, t, log) == r2;
      PartLogTried(text, i, engine, t + 1, log2);
      AppendFirst(log.tried, i, Repeat(i, r2.calls - log2.calls), r2.tried);
    } else {
      assert Repeat(i, 1) == [i];
    }
  }

  /** The pauses of attempts `t` on: one after each failed attempt but the
      last, doubling from `2 ** t`. */
  lemma {:induction false} PartLogWaits(text: string, i: int, engine: Engine, t: nat, log: CallLog)
    requires 1 <= t <= Config.LiteMaxAttempts
    ensures var r := PartLog(text, i, engine, t, log);
      r.calls > log.calls && r.waits == log.waits + Backoff(t, r.calls - log.calls - 1)
    decreases Config.LiteMaxAttempts + 1 - t
  {
    if engine(text, log.calls).raised && t < Config.LiteMaxAttempts {
      var log1 := log.(calls := log.calls + 1, tried := log.tried + [i]);
      var log2 := log1.(waits := log1.waits + [Pow2(t)]);
      var r2 := PartLog(text, i, engine, t + 1, log2);
      assert PartLog(text, i, engine, t, log) == r2;
      PartLogWaits(text, i, engine, t + 1, log2);
      AppendFirst(log.waits, Pow2(t), Backoff(t + 1, r2.calls - log2.calls - 1), r2.waits);
    }
  }

  /** The part is saved exactly when one of the remaining attempts' engine
      calls returns; otherwise `temp_files` is unchanged and every
      remaining attempt was made. */
  lemma {:induction false} PartAttemptsSaved(part: string, i: int, out: string, engine: Engine, t: nat, st: LiteState)
    requires 1 <= t <= Config.LiteMaxAttempts
    ensures var r := PartAttempts(part, i, out, engine, t, st);
      && (Saved(st, r, out, i) || r.temps == st.temps)
      && (!Saved(st, r, out, i) <==> AllRaise(Strip(part), engine, st.calls, st.calls + Config.LiteMaxAttempts + 1 - t))
      && (!Saved(st, r, out, i) ==> r.calls == st.calls + Config.LiteMaxAttempts + 1 - t)
    decreases Config.LiteMaxAttempts + 1 - t
  {
    var call := engine(Strip(part), st.calls);
    var st1 := st.(disk := SetFile(st.disk, PartName(out, i), call.output), calls := st.calls + 1, tried := st.tried + [i]);
    var r := PartAttempts(part, i, out, engine, t, st);
    var hi := st.calls + Config.LiteMaxAttempts + 1 - t;
    AllRaiseFirst(Strip(part), engine, st.calls, hi);
    AttemptOutcome(part, i, out, engine, t, st);
    if !call.raised {
      assert !Raises(Strip(part), engine, st.calls);
    } else if t < Config.LiteMaxAttempts {
      var st2 := st1.(waits := st1.waits + [Pow2(t)]);
      RetryLog(part, i, out, engine, t, st);
      PartAttemptsSaved(part, i, out, engine, t + 1, st2);
      assert st2.temps == st.temps && st2.calls == st.calls + 1;
    } else {
      assert st.calls + 1 == hi;
      assert AllRaise(Strip(part), engine, st.calls + 1, hi);
    }
  }

  /** An attempt whose engine call returns saves the part; a last attempt
      whose call raises ends the attempts with the part file written. */
  lemma AttemptOutcome(part: string, i: int, out: string, engine: Engine, t: nat, st: LiteState)
    requires t <= Config.LiteMaxAttempts
    ensures var call := engine(Strip(part), st.calls);
      var st1 := st.(disk := SetFile(st.disk, PartName(out, i), call.output), calls := st.calls + 1, tried := st.tried + [i]);
      var r := PartAttempts(part, i, out, engine, t, st);
      && (!call.raised ==> r == st1.(temps := st1.temps + [PartName(out, i)],
                                     disk := WriteProgress(st1.disk, ProgressPath(out), i)))
      && (call.raised && t == Config.LiteMaxAttempts ==> r == st1)
  {
  }

  /** All calls from `lo` raise when call `lo` does and all after it do. */
  lemma AllRaiseFirst(text: string, engine: Engine, lo: nat, hi: nat)
    requires lo < hi
    ensures AllRaise(text, engine, lo, hi) <==> Raises(text, engine, lo) && AllRaise(text, engine, lo + 1, hi)
  {
  }

  /** After a saved part the progress file reads its number; nothing but the
      part file and the progress file changes. */
  lemma {:induction false} PartAttemptsDisk(part: string, i: int, out: string, engine: Engine, t: nat, st: LiteState)
    ensures var r := PartAttempts(part, i, out, engine, t, st);
      && (Saved(st, r, out, i) ==> ReadProgress(r.disk, ProgressPath(out)) == i)
      && AgreeOutside(st.disk, r.disk, {PartName(out, i), ProgressPath(out)})
    decreases Config.LiteMaxAttempts + 1 - t
  {
    PartAttemptsProgress(part, i, out, engine, t, st);
    PartAttemptsAgree(part, i, out, engine, t, st);
  }

  lemma {:induction false} PartAttemptsProgress(part: string, i: int, out: string, engine: Engine, t: nat, st: LiteState)
    ensures var r := PartAttempts(part, i, out, engine, t, st);
      Saved(st, r, out, i) ==> ReadProgress(r.disk, ProgressPath(out)) == i
    decreases Config.LiteMaxAttempts + 1 - t
  {
    var r := PartAttempts(part, i, out, engine, t, st);
    if t <= Config.LiteMaxAttempts {
      var call := engine(Strip(part), st.calls);
      var st1 := st.(disk := SetFile(st.disk, PartName(out, i), call.output), calls := st.calls + 1, tried := st.tried + [i]);
      AttemptOutcome(part, i, out, engine, t, st);
      if !call.raised {
        ReadAfterWrite(st1.disk, ProgressPath(out), i);
      } else if t < Config.LiteMaxAttempts {
        var st2 := st1.(waits := st1.waits + [Pow2(t)]);
        RetryLog(part, i, out, engine, t, st);
        PartAttemptsProgress(part, i, out, engine, t + 1, st2);
        assert st2.temps == st.temps;
      } else {
        assert |r.temps| == |st.temps|;
      }
    } else {
      assert |r.temps| == |st.temps|;
    }
  }

  lemma {:induction false} PartAttemptsAgree(part: string, i: int, out: string, engine: Engine, t: nat, st: LiteState)
    ensures AgreeOutside(st.disk, PartAttempts(part, i, out, engine, t, st).disk, {PartName(out, i), ProgressPath(out)})
    decreases Config.LiteMaxAttempts + 1 - t
  {
    var touched := {PartName(out, i), ProgressPath(out)};
    if t <= Config.LiteMaxAttempts {
      var call := engine(Strip(part), st.calls);
      var d1 := SetFile(st.disk, PartName(out, i), call.output);
      AttemptDisk(part, i, out, engine, t, st);
      SetFileAgrees(st.disk, PartName(out, i), call.output, touched);
      if !call.raised {
        var d := WriteProgress(d1, ProgressPath(out), i);
        AgreeWiden(d1, d, {ProgressPath(out)}, touched);
        AgreeTrans(st.disk, d1, d, touched);
      } else if t < Config.LiteMaxAttempts {
        var st2 := st.(disk := d1, calls := st.calls + 1, tried := st.tried + [i], waits := st.waits + [Pow2(t)]);
        PartAttemptsAgree(part, i, out, engine, t + 1, st2);
        AgreeTrans(st.disk, d1, PartAttempts(part, i, out, engine, t + 1, st2).disk, touched);
      }
    }
  }

  /** The disk after the attempts from `t` on, one attempt unfolded. */
  lemma AttemptDisk(part: string, i: int, out: string, engine: Engine, t: nat, st: LiteState)
    requires t <= Config.LiteMaxAttempts
    ensures var call := engine(Strip(part), st.calls);
      var d1 := SetFile(st.disk, PartName(out, i), call.output);
      var st2 := st.(disk := d1, calls := st.calls + 1, tried := st.tried + [i], waits := st.waits + [Pow2(t)]);
      PartAttempts(part, i, out, engine, t, st).disk
      == if !call.raised then WriteProgress(d1, ProgressPath(out), i)
         else if t < Config.LiteMaxAttempts then PartAttempts(part, i, out, engine, t + 1, st2).disk
         else d1
  {
  }

  /** A part whose five engine calls all raise is not saved; the loop
      paused 2, 4, 8 and 16 seconds between them. */
  lemma {:induction false} FailedPartWaits(part: string, i: int, out: string, engine: Engine, st: LiteState)
    requires AllRaise(Strip(part), engine, st.calls, st.calls + Config.LiteMaxAttempts)
    ensures var r := PartAttempts(part, i, out, engine, 1, st);
      r.temps == st.temps && r.calls == st.calls + 5 && r.waits == st.waits + [2, 4, 8, 16]
  {
    PartAttemptsCalls(part, i, out, engine, 1, st);
    PartAttemptsSaved(part, i, out, engine, 1, st);
    BackoffFromOne();
  }

  /** The pauses after the first four attempts. */
  lemma BackoffFromOne()
    ensures Backoff(1, 4) == [2, 4, 8, 16]
  {
  }

  // ---------------------------------------------------------------------------
  // The loop over the parts

  /** One part's attempts as the loop sees them: from the part's text, its
      number and the state to the new state. */
  type PartStep = (string, int, LiteState) -> LiteState

  /** The five attempts of the program, for a given output file and engine. */
  function AttemptsOf(out: string, engine: Engine): PartStep
  {
    (part, i, st) => PartAttempts(part, i, out, engine, 1, st)
  }

  /** The engine calls recorded between `a` and `b` are all for part `i`. */
  predicate TriedOnly(a: LiteState, b: LiteState, i: int)
  {
    |a.tried| <= |b.tried| && b.tried[..|a.tried|] == a.tried
    && forall k :: |a.tried| <= k < |b.tried| ==> b.tried[k] == i
  }

  /** What the loop relies on from one part's attempts (see the lemmas
      above): the engine calls are all for that part, ... */
  ghost predicate TriesOwn(step: PartStep)
  {
    forall part: string, i: int, st: LiteState :: TriedOnly(st, step(part, i, st), i)
  }

  /** ... `temp_files` gains that part's file or nothing, ... */
  ghost predicate SavesOwn(step: PartStep, out: string)
  {
    forall part: string, i: int, st: LiteState :: Saved(st, step(part, i, st), out, i) || step(part, i, st).temps == st.temps
  }

  /** ... no flag is read, ... */
  ghost predicate ReadsNoFlag(step: PartStep)
  {
    forall part: string, i: int, st: LiteState :: step(part, i, st).checks == st.checks
  }

  /** ... and only the part file and the progress file are written. */
  ghost predicate WritesOwn(step: PartStep, out: string)
  {
    forall part: string, i: int, st: LiteState :: AgreeOutside(st.disk, step(part, i, st).disk, {PartName(out, i), ProgressPath(out)})
  }

  ghost predicate HonestStep(step: PartStep, out: string)
  {
    TriesOwn(step) && SavesOwn(step, out) && ReadsNoFlag(step) && WritesOwn(step, out)
  }

  /** The program's attempts keep those promises. */
  lemma {:induction false} AttemptsOfHonest(out: string, engine: Engine)
    ensures HonestStep(AttemptsOf(out, engine), out)
  {
    forall part: string, i: int, st: LiteState
      ensures TriedOnly(st, AttemptsOf(out, engine)(part, i, st), i)
      ensures Saved(st, AttemptsOf(out, engine)(part, i, st), out, i) || AttemptsOf(out, engine)(part, i, st).temps == st.temps
      ensures AttemptsOf(out, engine)(part, i, st).checks == st.checks
      ensures AgreeOutside(st.disk, AttemptsOf(out, engine)(part, i, st).disk, {PartName(out, i), ProgressPath(out)})
    {
      assert AttemptsOf(out, engine)(part, i, st) == PartAttempts(part, i, out, engine, 1, st);
      PartAttemptsHonest(part, i, out, engine, st);
    }
  }

  /** The promises of `HonestStep` for one part's five attempts. */
  lemma {:induction false} PartAttemptsHonest(part: string, i: int, out: string, engine: Engine, st: LiteState)
    ensures var r := PartAttempts(part, i, out, engine, 1, st);
      && TriedOnly(st, r, i)
      && (Saved(st, r, out, i) || r.temps == st.temps)
      && r.checks == st.checks
      && AgreeOutside(st.disk, r.disk, {PartName(out, i), ProgressPath(out)})
  {
    var r := PartAttempts(part, i, out, engine, 1, st);
    PartAttemptsCalls(part, i, out, engine, 1, st);
    PartAttemptsSaved(part, i, out, engine, 1, st);
    PartAttemptsDisk(part, i, out, engine, 1, st);
    var m := r.calls - st.calls;
    assert r.tried == st.tried + Repeat(i, m);
    assert r.tried[..|st.tried|] == st.tried;
  }

  /** The loop from list position `p` on, the part there being numbered
      `i`: the flag is read before each part; when it is set the progress
      file is rewritten with `i - 1` and the loop stops at part `i`
      (`Some(i)`); otherwise the part's attempts follow. `None`: every
      part was gone through. */
  function RunParts(parts: seq<string>, p: nat, i: int, out: string, step: PartStep, interrupt: nat -> bool,
                    st: LiteState): (Option<int>, LiteState)
    decreases |parts| - p
  {
    if p >= |parts| then (None, st)
    else if interrupt(st.checks) then
      (Some(i), st.(checks := st.checks + 1, disk := WriteProgress(st.disk, ProgressPath(out), i - 1)))
    else RunParts(parts, p + 1, i + 1, out, step, interrupt, step(parts[p], i, st.(checks := st.checks + 1)))
  }

  /** The files of the parts numbered `nums`, in that order. */
  function Names(out: string, nums: seq<int>): (r: seq<string>)
    ensures |r| == |nums| && forall k :: 0 <= k < |nums| ==> r[k] == PartName(out, nums[k])
  {
    if nums == [] then [] else [PartName(out, nums[0])] + Names(out, nums[1..])
  }

  lemma {:induction false} NamesAppend(out: string, a: seq<int>, b: seq<int>)
    ensures Names(out, a + b) == Names(out, a) + Names(out, b)
  {
    if a == [] {
      assert a + b == b;
    } else {
      assert (a + b)[1..] == a[1..] + b;
      NamesAppend(out, a[1..], b);
    }
  }

  predicate Increasing(nums: seq<int>)
  {
    forall a, b :: 0 <= a < b < |nums| ==> nums[a] < nums[b]
  }

  /** `after` is `before` followed by the files of parts numbered `nums`,
      increasing and within `lo` to `hi - 1`. */
  predicate NewParts(before: seq<string>, after: seq<string>, out: string, nums: seq<int>, lo: int, hi: int)
  {
    && after == before + Names(out, nums)
    && Increasing(nums)
    && forall k :: 0 <= k < |nums| ==> lo <= nums[k] < hi
  }

  /** The numbers of the parts the loop saves, in the order it saves them. */
  function SavedNumbers(parts: seq<string>, p: nat, i: int, out: string, step: PartStep,
                        interrupt: nat -> bool, st: LiteState): seq<int>
    decreases |parts| - p
  {
    if p >= |parts| || interrupt(st.checks) then []
    else
      var st1 := st.(checks := st.checks + 1);
      var s2 := step(parts[p], i, st1);
      (if Saved(st1, s2, out, i) then [i] else []) + SavedNumbers(parts, p + 1, i + 1, out, step, interrupt, s2)
  }

  /** The parts the loop saves are among its own, in increasing order. */
  lemma {:induction false} SavedNumbersRange(parts: seq<string>, p: nat, i: int, out: string, step: PartStep,
                                             interrupt: nat -> bool, st: LiteState)
    requires p <= |parts|
    ensures var nums := SavedNumbers(parts, p, i, out, step, interrupt, st);
      Increasing(nums) && forall k :: 0 <= k < |nums| ==> i <= nums[k] < i + |parts| - p
    decreases |parts| - p
  {
    if p < |parts| && !interrupt(st.checks) {
      var st1 := st.(checks := st.checks + 1);
      var s2 := step(parts[p], i, st1);
      var head: seq<int> := if Saved(st1, s2, out, i) then [i] else [];
      var rest := SavedNumbers(parts, p + 1, i + 1, out, step, interrupt, s2);
      assert SavedNumbers(parts, p, i, out, step, interrupt, st) == head + rest;
      SavedNumbersRange(parts, p + 1, i + 1, out, step, interrupt, s2);
      PrependLowest(head, rest, i, i + |parts| - p);
    } else {
      assert SavedNumbers(parts, p, i, out, step, interrupt, st) == [];
    }
  }

  /** Putting `lo` or nothing before numbers above `lo` keeps them increasing. */
  lemma {:induction false} PrependLowest(head: seq<int>, rest: seq<int>, lo: int, hi: int)
    requires (head == [] || head == [lo]) && lo < hi
    requires Increasing(rest) && forall k :: 0 <= k < |rest| ==> lo < rest[k] < hi
    ensures Increasing(head + rest) && forall k :: 0 <= k < |head + rest| ==> lo <= (head + rest)[k] < hi
  {
    var r := head + rest;
    forall k | 0 <= k < |r| ensures lo <= r[k] < hi && (k >= |head| ==> r[k] == rest[k - |head|]) {
      if k >= |head| {
        assert r[k] == rest[k - |head|];
      } else {
        assert r[k] == lo;
      }
    }
  }

  lemma {:induction false} SavedStep(before: seq<string>, mid: seq<string>, after: seq<string>, out: string, i: int, rest: seq<int>)
    requires mid == before + [PartName(out, i)] && after == mid + Names(out, rest)
    ensures after == before + Names(out, [i] + rest)
  {
    NamesCons(out, i, rest);
    AppendAssoc(before, [PartName(out, i)], Names(out, rest));
  }

  lemma {:induction false} NamesCons(out: string, i: int, rest: seq<int>)
    ensures Names(out, [i] + rest) == [PartName(out, i)] + Names(out, rest)
  {
    assert ([i] + rest)[1..] == rest;
  }

  lemma {:induction false} AppendAssoc<T>(a: seq<T>, b: seq<T>, c: seq<T>)
    ensures (a + b) + c == a + (b + c)
  {
  }

  /** One turn of the loop that is not interrupted: the part is handled,
      and the loop and its saved numbers go on from the next one. */
  lemma RunPartsNext(parts: seq<string>, p: nat, i: int, out: string, step: PartStep,
                     interrupt: nat -> bool, st: LiteState)
    requires p < |parts| && !interrupt(st.checks)
    ensures var s2 := step(parts[p], i, st.(checks := st.checks + 1));
      && RunParts(parts, p, i, out, step, interrupt, st) == RunParts(parts, p + 1, i + 1, out, step, interrupt, s2)
      && SavedNumbers(parts, p, i, out, step, interrupt, st)
         == (if Saved(st.(checks := st.checks + 1), s2, out, i) then [i] else [])
            + SavedNumbers(parts, p + 1, i + 1, out, step, interrupt, s2)
  {
  }

  /** The loop appends to `temp_files` the files of the parts it saves, in
      the order it saves them. */
  lemma {:induction false} RunPartsTemps(parts: seq<string>, p: nat, i: int, out: string, step: PartStep,
                                         interrupt: nat -> bool, st: LiteState)
    requires SavesOwn(step, out)
    requires p <= |parts|
    ensures RunParts(parts, p, i, out, step, interrupt, st).1.temps
            == st.temps + Names(out, SavedNumbers(parts, p, i, out, step, interrupt, st))
    decreases |parts| - p
  {
    if p < |parts| && !interrupt(st.checks) {
      var st1 := st.(checks := st.checks + 1);
      var s2 := step(parts[p], i, st1);
      RunPartsNext(parts, p, i, out, step, interrupt, st);
      RunPartsTemps(parts, p + 1, i + 1, out, step, interrupt, s2);
      assert Saved(st1, s2, out, i) || s2.temps == st1.temps;
      TempsStep(st.temps, s2.temps, RunParts(parts, p + 1, i + 1, out, step, interrupt, s2).1.temps, out, i,
                SavedNumbers(parts, p + 1, i + 1, out, step, interrupt, s2), Saved(st1, s2, out, i));
    } else {
      assert Names(out, []) == [];
    }
  }

  /** One turn's effect on `temp_files`: the part's file when it was saved,
      nothing otherwise, then what the rest of the loop appends. */
  lemma TempsStep(before: seq<string>, mid: seq<string>, after: seq<string>, out: string, i: int,
                  rest: seq<int>, saved: bool)
    requires if saved then mid == before + [PartName(out, i)] else mid == before
    requires after == mid + Names(out, rest)
    ensures after == before + Names(out, (if saved then [i] else []) + rest)
  {
    var nums := (if saved then [i] else []) + rest;
    if saved {
      assert nums == [i] + rest;
      SavedStep(before, mid, after, out, i, rest);
    } else {
      assert nums == rest;
    }
  }

  /** Every engine call the loop makes is for one of its own parts, and,
      when it stops at part `j`, for a part before `j`. */
  lemma {:induction false} RunPartsTried(parts: seq<string>, p: nat, i: int, out: string, step: PartStep,
                                         interrupt: nat -> bool, st: LiteState)
    requires TriesOwn(step)
    requires p <= |parts|
    ensures var r := RunParts(parts, p, i, out, step, interrupt, st);
      && |st.tried| <= |r.1.tried| && r.1.tried[..|st.tried|] == st.tried
      && (forall k :: |st.tried| <= k < |r.1.tried| ==> i <= r.1.tried[k] < i + |parts| - p)
      && (r.0.Some? ==> i <= r.0.value < i + |parts| - p
                        && forall k :: |st.tried| <= k < |r.1.tried| ==> r.1.tried[k] < r.0.value)
    decreases |parts| - p
  {
    if p < |parts| && !interrupt(st.checks) {
      var st1 := st.(checks := st.checks + 1);
      var s2 := step(parts[p], i, st1);
      assert TriedOnly(st1, s2, i);
      RunPartsTried(parts, p + 1, i + 1, out, step, interrupt, s2);
      var r := RunParts(parts, p, i, out, step, interrupt, st);
      assert r.1.tried[..|st.tried|] == s2.tried[..|st.tried|];
    }
  }

  /** When the loop stops at part `j`, the progress file reads `j - 1`. */
  lemma {:induction false} RunPartsStop(parts: seq<string>, p: nat, i: int, out: string, step: PartStep,
                                        interrupt: nat -> bool, st: LiteState)
    requires p <= |parts|
    ensures var r := RunParts(parts, p, i, out, step, interrupt, st);
      r.0.Some? ==> ReadProgress(r.1.disk, ProgressPath(out)) == r.0.value - 1
    decreases |parts| - p
  {
    if p < |parts| {
      if interrupt(st.checks) {
        ReadAfterWrite(st.disk, ProgressPath(out), i - 1);
      } else {
        RunPartsStop(parts, p + 1, i + 1, out, step, interrupt, step(parts[p], i, st.(checks := st.checks + 1)));
      }
    }
  }

  /** The files of the parts numbered `lo` to `hi - 1`. */
  ghost function PartSet(out: string, lo: int, hi: int): set<string>
  {
    set j | lo <= j < hi :: PartName(out, j)
  }

  /** The loop writes no file but the progress file and its own parts' files. */
  lemma {:induction false} RunPartsFrame(parts: seq<string>, p: nat, i: int, out: string, step: PartStep,
                                         interrupt: nat -> bool, st: LiteState)
    requires WritesOwn(step, out)
    requires p <= |parts|
    ensures AgreeOutside(st.disk, RunParts(parts, p, i, out, step, interrupt, st).1.disk,
                         {ProgressPath(out)} + PartSet(out, i, i + |parts| - p))
    decreases |parts| - p
  {
    if p < |parts| && !interrupt(st.checks) {
      var st1 := st.(checks := st.checks + 1);
      RunPartsFrame(parts, p + 1, i + 1, out, step, interrupt, step(parts[p], i, st1));
    }
  }

  // ---------------------------------------------------------------------------
  // The merge

  /** The streaming merge into the output file opened with `'wb'`: each
      listed file that exists is appended to the output file and then
      removed; a missing one is skipped. */
  function Stream(temps: seq<string>, out: string, disk: Disk): Disk
    decreases |temps|
  {
    if temps == [] then disk
    else
      var t := temps[0];
      var cur := if out in disk then disk[out] else [];
      if t in disk then Stream(temps[1..], out, RemoveIfExists(disk[out := cur + disk[t]], t))
      else Stream(temps[1..], out, disk)
  }

  /** The contents of the listed files that exist, in list order. */
  function Present(disk: Disk, paths: seq<string>): (r: seq<seq<byte>>)
    ensures |r| <= |paths|
  {
    if paths == [] then []
    else (if paths[0] in disk then [disk[paths[0]]] else []) + Present(disk, paths[1..])
  }

  lemma {:induction false} PresentAppend(disk: Disk, a: seq<string>, b: seq<string>)
    ensures Present(disk, a + b) == Present(disk, a) + Present(disk, b)
  {
    if a != [] {
      PresentAppend(disk, a[1..], b);
      assert (a + b)[1..] == a[1..] + b;
    } else {
      assert a + b == b;
    }
  }

  /** Two disks that agree on the listed files give the same contents. */
  lemma {:induction false} PresentAgree(d1: Disk, d2: Disk, paths: seq<string>)
    requires forall k :: 0 <= k < |paths| ==> (paths[k] in d1 <==> paths[k] in d2)
    requires forall k :: 0 <= k < |paths| && paths[k] in d1 ==> d1[paths[k]] == d2[paths[k]]
    ensures Present(d1, paths) == Present(d2, paths)
  {
    if paths != [] {
      assert forall k :: 0 <= k < |paths[1..]| ==> paths[1..][k] == paths[k + 1];
      PresentAgree(d1, d2, paths[1..]);
    }
  }

  /** No file is listed twice. */
  predicate NoDup(paths: seq<string>)
  {
    forall a, b :: 0 <= a < b < |paths| ==> paths[a] != paths[b]
  }

  lemma {:induction false} NoDupTail(paths: seq<string>)
    requires paths != [] && NoDup(paths)
    ensures NoDup(paths[1..]) && paths[0] !in paths[1..]
  {
    forall a, b | 0 <= a < b < |paths[1..]| ensures paths[1..][a] != paths[1..][b] {
      assert paths[1..][a] == paths[a + 1] && paths[1..][b] == paths[b + 1];
    }
  }

  /** With no file listed twice and the output file not listed, the output
      file ends as it began followed by the contents of the listed files
      that exist, in list order. */
  lemma {:induction false} StreamContent(temps: seq<string>, out: string, disk: Disk)
    requires NoDup(temps) && out !in temps && out in disk
    ensures var d := Stream(temps, out, disk);
      out in d && d[out] == disk[out] + ConcatBytes(Present(disk, temps))
    decreases |temps|
  {
    if temps != [] {
      var t, rest := temps[0], temps[1..];
      NoDupTail(temps);
      assert out !in rest;
      if t in disk {
        var d1 := RemoveIfExists(disk[out := disk[out] + disk[t]], t);
        StreamContent(rest, out, d1);
        assert forall k :: 0 <= k < |rest| ==> rest[k] != t && rest[k] != out;
        PresentAgree(d1, disk, rest);
        var pr := Present(disk, rest);
        assert Present(disk, temps) == [disk[t]] + pr;
        assert ConcatBytes([disk[t]] + pr) == disk[t] + ConcatBytes(pr) by {
          assert ([disk[t]] + pr)[1..] == pr;
        }
      } else {
        StreamContent(rest, out, disk);
        assert Present(disk, temps) == [] + Present(disk, rest);
        assert [] + Present(disk, rest) == Present(disk, rest);
      }
    } else {
      assert disk[out] + [] == disk[out];
    }
  }

  /** Every listed file is gone after the merge, and no other file but the
      output file changes. */
  lemma {:induction false} StreamFrame(temps: seq<string>, out: string, disk: Disk)
    requires NoDup(temps) && out !in temps
    ensures var d := Stream(temps, out, disk);
      && (forall k :: 0 <= k < |temps| ==> temps[k] !in d)
      && forall p :: p != out && p !in temps ==> (p in d <==> p in disk) && (p in d ==> d[p] == disk[p])
    decreases |temps|
  {
    if temps != [] {
      var t, rest := temps[0], temps[1..];
      NoDupTail(temps);
      var cur := if out in disk then disk[out] else [];
      var d1 := if t in disk then RemoveIfExists(disk[out := cur + disk[t]], t) else disk;
      StreamFrame(rest, out, d1);
      assert forall k :: 0 < k < |temps| ==> temps[k] == rest[k - 1];
    }
  }

  // ---------------------------------------------------------------------------
  // The whole run

  /** Where `partes[idx:]` starts in a list of `n` parts, by Python's slice
      rules (a negative index counts from the end). */
  function SliceStart(idx: int, n: nat): (s: nat)
    ensures s <= n
  {
    if idx < 0 then (if n + idx < 0 then 0 else n + idx)
    else if idx > n then n
    else idx
  }

  /** The parts of the (already optimised) text. */
  function LiteParts(text: string): seq<string>
  {
    Chunks(text, ChunkSize(|text|), 0)
  }

  /** `1, 2, ..., n`. */
  function Upto(n: int): (r: seq<int>)
    ensures |r| == (if n > 0 then n else 0) && forall k :: 0 <= k < |r| ==> r[k] == k + 1
    decreases if n > 0 then n else 0
  {
    if n <= 0 then [] else Upto(n - 1) + [n]
  }

  /** The loop over `parts` resuming after index `idx`, `temp_files`
      starting as `seed`. */
  function LoopFrom(parts: seq<string>, idx: int, out: string, engine: Engine, interrupt: nat -> bool, disk: Disk,
                    seed: seq<string>): (Option<int>, LiteState)
  {
    RunParts(parts, SliceStart(idx, |parts|), idx + 1, out, AttemptsOf(out, engine), interrupt,
             LiteState(disk, seed, 0, 0, [], []))
  }

  /** The loop of a run whose `temp_files` starts as `seed`: it starts at
      the part after the one the progress file names. */
  function Loop(text: string, out: string, engine: Engine, interrupt: nat -> bool, disk: Disk,
                seed: seq<string>): (Option<int>, LiteState)
  {
    LoopFrom(LiteParts(text), ReadProgress(disk, ProgressPath(out)), out, engine, interrupt, disk, seed)
  }

  /** After the loop: an interrupted run returns False; so does one whose
      flag is found set at the end. Otherwise the run returns True, after
      the merge and the removal of the progress file unless the parts are
      kept separate. */
  function Finish(keepSeparate: bool, out: string, interrupt: nat -> bool, r: (Option<int>, LiteState)): (bool, Disk)
  {
    if r.0.Some? || interrupt(r.1.checks) then (false, r.1.disk)
    else if keepSeparate then (true, r.1.disk)
    else (true, RemoveIfExists(Stream(r.1.temps, out, r.1.disk[out := []]), ProgressPath(out)))
  }

  /** `processar_audio` as written: `temp_files` starts empty, also on a
      resumed run. */
  function ProcessAudioAsWritten(text: string, out: string, keepSeparate: bool, engine: Engine,
                                 interrupt: nat -> bool, disk: Disk): (bool, Disk)
  {
    Finish(keepSeparate, out, interrupt, Loop(text, out, engine, interrupt, disk, []))
  }

  /** The files of the parts a resumed run skips: those numbered 1 up to
      the stored index. */
  function Earlier(out: string, disk: Disk): seq<string>
  {
    Names(out, Upto(ReadProgress(disk, ProgressPath(out))))
  }

  /** `processar_audio` with `temp_files` starting with the files of the
      parts skipped on resume, so that the merge takes them in too. */
  function ProcessAudioResumed(text: string, out: string, keepSeparate: bool, engine: Engine,
                               interrupt: nat -> bool, disk: Disk): (bool, Disk)
  {
    Finish(keepSeparate, out, interrupt, Loop(text, out, engine, interrupt, disk, Earlier(out, disk)))
  }

  /** The attempts loop for part number `i`. */
  method AttemptPart(part: string, i: int, out: string, engine: Engine, st: LiteState) returns (st': LiteState)
    ensures st' == PartAttempts(part, i, out, engine, 1, st)
  {
    var temp := PartName(out, i);
    st' := st;
    var t := 1;
    while t <= Config.LiteMaxAttempts
      invariant 1 <= t <= Config.LiteMaxAttempts + 1
      invariant PartAttempts(part, i, out, engine, t, st') == PartAttempts(part, i, out, engine, 1, st)
    {
      var call := engine(Strip(part), st'.calls);
      st' := st'.(disk := SetFile(st'.disk, temp, call.output), calls := st'.calls + 1, tried := st'.tried + [i]);
      if !call.raised {
        st' := st'.(temps := st'.temps + [temp], disk := WriteProgress(st'.disk, ProgressPath(out), i));
        break;
      }
      if t < Config.LiteMaxAttempts {
        st' := st'.(waits := st'.waits + [Pow2(t)]);
      }
      t := t + 1;
    }
  }

  /** The merge loop over `temp_files`. */
  method StreamMerge(temps: seq<string>, out: string, disk: Disk) returns (disk': Disk)
    ensures disk' == Stream(temps, out, disk)
  {
    disk' := disk;
    var k := 0;
    while k < |temps|
      invariant k <= |temps|
      invariant Stream(temps[k..], out, disk') == Stream(temps, out, disk)
    {
      var tf := temps[k];
      assert temps[k..][0] == tf && temps[k..][1..] == temps[k + 1..];
      if tf in disk' {
        var cur := if out in disk' then disk'[out] else [];
        disk' := RemoveIfExists(disk'[out := cur + disk'[tf]], tf);
      }
      k := k + 1;
    }
  }

  /** The `for` loop over the parts from list position `p0`, numbered from
      `i0`: it stops at the part where the flag is found set. */
  method RunLoop(parts: seq<string>, p0: nat, i0: int, out: string, engine: Engine, interrupt: nat -> bool,
                 st0: LiteState) returns (stopped: Option<int>, st: LiteState)
    requires p0 <= |parts|
    ensures (stopped, st) == RunParts(parts, p0, i0, out, AttemptsOf(out, engine), interrupt, st0)
  {
    st := st0;
    var p, i := p0, i0;
    while p < |parts|
      invariant p <= |parts|
      invariant RunParts(parts, p, i, out, AttemptsOf(out, engine), interrupt, st)
             == RunParts(parts, p0, i0, out, AttemptsOf(out, engine), interrupt, st0)
    {
      if interrupt(st.checks) {
        st := st.(checks := st.checks + 1, disk := WriteProgress(st.disk, ProgressPath(out), i - 1));
        return Some(i), st;
      }
      st := AttemptPart(parts[p], i, out, engine, st.(checks := st.checks + 1));
      p, i := p + 1, i + 1;
    }
    stopped := None;
  }

  /** What follows the loop: the final flag test, the merge and the removal
      of the progress file. */
  method FinishRun(keepSeparate: bool, out: string, interrupt: nat -> bool, stopped: Option<int>, st: LiteState)
    returns (ok: bool, disk': Disk)
    ensures (ok, disk') == Finish(keepSeparate, out, interrupt, (stopped, st))
  {
    if stopped.Some? || interrupt(st.checks) {
      return false, st.disk;
    }
    if keepSeparate {
      return true, st.disk;
    }
    disk' := StreamMerge(st.temps, out, st.disk[out := []]);
    disk' := RemoveIfExists(disk', ProgressPath(out));
    ok := true;
  }

  /** `processar_audio` after the text has been optimised and the user has
      chosen whether to keep the parts separate, with `temp_files` seeded
      with the skipped parts' files (see `ProcessAudioResumed`). Pauses are
      recorded, not taken. */
  method ProcessAudio(text: string, out: string, keepSeparate: bool, engine: Engine,
                      interrupt: nat -> bool, disk: Disk) returns (ok: bool, disk': Disk)
    ensures (ok, disk') == ProcessAudioResumed(text, out, keepSeparate, engine, interrupt, disk)
  {
    var parts := LiteParts(text);
    var idx := ReadProgress(disk, ProgressPath(out));
    var stopped, st := RunLoop(parts, SliceStart(idx, |parts|), idx + 1, out, engine, interrupt,
                               LiteState(disk, Earlier(out, disk), 0, 0, [], []));
    ok, disk' := FinishRun(keepSeparate, out, interrupt, stopped, st);
  }

  // ---------------------------------------------------------------------------
  // Properties of a run

  /** The state a run starts from, `temp_files` being `seed`. */
  function Initial(disk: Disk, seed: seq<string>): LiteState
  {
    LiteState(disk, seed, 0, 0, [], [])
  }

  /** The numbers of the parts the loop saves. */
  function LoopSaves(parts: seq<string>, idx: int, out: string, engine: Engine, interrupt: nat -> bool, disk: Disk,
                     seed: seq<string>): seq<int>
  {
    SavedNumbers(parts, SliceStart(idx, |parts|), idx + 1, out, AttemptsOf(out, engine), interrupt, Initial(disk, seed))
  }

  /** The loop resumes after the stored index: every engine call it makes
      is for a part numbered above that index and, unless the index is
      negative, no higher than the number of parts. */
  lemma {:induction false} ResumeSkipsEarlier(parts: seq<string>, idx: int, out: string, engine: Engine, interrupt: nat -> bool,
                           disk: Disk, seed: seq<string>)
    ensures var r := LoopFrom(parts, idx, out, engine, interrupt, disk, seed);
      forall k :: 0 <= k < |r.1.tried| ==> idx < r.1.tried[k] && (0 <= idx ==> r.1.tried[k] <= |parts|)
  {
    var p := SliceStart(idx, |parts|);
    var st0 := Initial(disk, seed);
    AttemptsOfHonest(out, engine);
    RunPartsTried(parts, p, idx + 1, out, AttemptsOf(out, engine), interrupt, st0);
    var r := RunParts(parts, p, idx + 1, out, AttemptsOf(out, engine), interrupt, st0);
    assert LoopFrom(parts, idx, out, engine, interrupt, disk, seed) == r;
    TriedAbove(r.1.tried, idx, |parts|, |st0.tried|);
  }

  /** Parts numbered from `idx + 1` on, fewer than those the slice keeps,
      are above `idx` and, unless `idx` is negative, no higher than `n`. */
  lemma TriedAbove(tried: seq<int>, idx: int, n: nat, from: nat)
    requires from == 0
    requires forall k :: from <= k < |tried| ==> idx + 1 <= tried[k] < idx + 1 + n - SliceStart(idx, n)
    ensures forall k :: 0 <= k < |tried| ==> idx < tried[k] && (0 <= idx ==> tried[k] <= n)
  {
    var p := SliceStart(idx, n);
    assert 0 <= idx ==> p == idx || (p == n && idx > n);
  }

  /** An interrupted loop leaves the progress file naming the part before
      the one it stopped at, a part above the stored index that it made no
      engine call for: the next run starts with that part. */
  lemma {:induction false} InterruptKeepsPlace(parts: seq<string>, idx: int, out: string, engine: Engine, interrupt: nat -> bool,
                            disk: Disk, seed: seq<string>)
    ensures var r := LoopFrom(parts, idx, out, engine, interrupt, disk, seed);
      r.0.Some? ==>
        && ReadProgress(r.1.disk, ProgressPath(out)) == r.0.value - 1
        && idx < r.0.value
        && forall k :: 0 <= k < |r.1.tried| ==> r.1.tried[k] < r.0.value
  {
    var p := SliceStart(idx, |parts|);
    var st0 := Initial(disk, seed);
    AttemptsOfHonest(out, engine);
    RunPartsTried(parts, p, idx + 1, out, AttemptsOf(out, engine), interrupt, st0);
    RunPartsStop(parts, p, idx + 1, out, AttemptsOf(out, engine), interrupt, st0);
    var r := RunParts(parts, p, idx + 1, out, AttemptsOf(out, engine), interrupt, st0);
    assert LoopFrom(parts, idx, out, engine, interrupt, disk, seed) == r;
    assert |st0.tried| == 0;
  }

  /** An interrupted run returns False. */
  lemma {:induction false} InterruptedRunFails(keepSeparate: bool, out: string, interrupt: nat -> bool, r: (Option<int>, LiteState))
    ensures r.0.Some? ==> Finish(keepSeparate, out, interrupt, r) == (false, r.1.disk)
  {
  }

  /** `temp_files` after the loop: the seed, then the files of the parts
      saved, numbered above the stored index in increasing order. */
  lemma {:induction false} LoopTemps(parts: seq<string>, idx: int, out: string, engine: Engine, interrupt: nat -> bool,
                  disk: Disk, seed: seq<string>)
    ensures var r := LoopFrom(parts, idx, out, engine, interrupt, disk, seed);
      var nums := LoopSaves(parts, idx, out, engine, interrupt, disk, seed);
      && r.1.temps == seed + Names(out, nums)
      && Increasing(nums)
      && (forall k :: 0 <= k < |nums| ==> idx < nums[k])
  {
    var start := SliceStart(idx, |parts|);
    AttemptsOfHonest(out, engine);
    RunPartsTemps(parts, start, idx + 1, out, AttemptsOf(out, engine), interrupt, Initial(disk, seed));
    SavedNumbersRange(parts, start, idx + 1, out, AttemptsOf(out, engine), interrupt, Initial(disk, seed));
  }

  /** The loop leaves alone every file but the progress file and the files
      of the parts above the stored index. */
  lemma {:induction false} LoopFrame(parts: seq<string>, idx: int, out: string, engine: Engine, interrupt: nat -> bool,
                  disk: Disk, seed: seq<string>, q: string)
    requires q != ProgressPath(out) && forall j :: idx < j ==> q != PartName(out, j)
    ensures var r := LoopFrom(parts, idx, out, engine, interrupt, disk, seed);
      (q in r.1.disk <==> q in disk) && (q in disk ==> r.1.disk[q] == disk[q])
  {
    var start := SliceStart(idx, |parts|);
    AttemptsOfHonest(out, engine);
    RunPartsFrame(parts, start, idx + 1, out, AttemptsOf(out, engine), interrupt, Initial(disk, seed));
    assert q !in PartSet(out, idx + 1, idx + 1 + |parts| - start);
  }

  /** A part numbered below all of `nums` is not among their names, nor is it
      named like any part numbered above `idx`. */
  lemma NameNotAmong(out: string, i: int, idx: int, nums: seq<int>)
    requires i <= idx && forall k :: 0 <= k < |nums| ==> idx < nums[k]
    ensures PartName(out, i) !in Names(out, nums)
    ensures forall j :: idx < j ==> PartName(out, i) != PartName(out, j)
  {
    var ns := Names(out, nums);
    forall k | 0 <= k < |ns| ensures ns[k] != PartName(out, i) {
      if ns[k] == PartName(out, i) {
        PartNameInjective(out, nums[k], i);
      }
    }
    forall j | idx < j ensures PartName(out, i) != PartName(out, j) {
      if PartName(out, i) == PartName(out, j) {
        PartNameInjective(out, i, j);
      }
    }
  }

  /** Increasing numbers name distinct part files, none of them the output
      or the progress file. */
  lemma {:induction false} NamesDistinct(out: string, nums: seq<int>)
    requires Increasing(nums)
    ensures NoDup(Names(out, nums)) && out !in Names(out, nums) && ProgressPath(out) !in Names(out, nums)
  {
    var ns := Names(out, nums);
    forall a, b | 0 <= a < b < |ns| ensures ns[a] != ns[b] {
      if ns[a] == ns[b] {
        PartNameInjective(out, nums[a], nums[b]);
      }
    }
    forall k | 0 <= k < |ns| ensures ns[k] != out && ns[k] != ProgressPath(out) {
      PartNameDistinct(out, nums[k]);
    }
  }

  /** The merge and the removal of the progress file: with no file listed
      twice and neither the output nor the progress file listed, the output
      file holds the contents of the listed files that exist, in list
      order, and every listed file and the progress file are gone. */
  lemma {:induction false} MergeOutcome(temps: seq<string>, out: string, disk: Disk)
    requires NoDup(temps) && out !in temps && ProgressPath(out) !in temps
    ensures var d := RemoveIfExists(Stream(temps, out, disk[out := []]), ProgressPath(out));
      && out in d && d[out] == ConcatBytes(Present(disk, temps))
      && ProgressPath(out) !in d
      && forall k :: 0 <= k < |temps| ==> temps[k] !in d
  {
    var d0 := disk[out := []];
    StreamContent(temps, out, d0);
    StreamFrame(temps, out, d0);
    assert forall k :: 0 <= k < |temps| ==> temps[k] != out;
    PresentAgree(d0, disk, temps);
    assert [] + ConcatBytes(Present(disk, temps)) == ConcatBytes(Present(disk, temps));
    assert out != ProgressPath(out) by { assert ProgressPath(out)[|out|] == '.'; }
  }

  lemma {:induction false} IncreasingAppend(a: seq<int>, b: seq<int>, bound: int)
    requires Increasing(a) && Increasing(b)
    requires forall k :: 0 <= k < |a| ==> a[k] <= bound
    requires forall k :: 0 <= k < |b| ==> bound < b[k]
    ensures Increasing(a + b)
  {
  }

  /** The file of part `n`, at or below `idx`, is neither the progress
      file nor the file of a part above `idx`. */
  lemma {:induction false} NotLaterPart(out: string, n: int, idx: int)
    requires n <= idx
    ensures PartName(out, n) != ProgressPath(out) && forall j :: idx < j ==> PartName(out, n) != PartName(out, j)
  {
    PartNameDistinct(out, n);
    forall j | idx < j ensures PartName(out, n) != PartName(out, j) {
      if PartName(out, n) == PartName(out, j) { PartNameInjective(out, n, j); }
    }
  }

  /** The loop leaves the files of the parts numbered 1 to the stored
      index as they were. */
  lemma {:induction false} EarlierKept(parts: seq<string>, idx: int, out: string, engine: Engine, interrupt: nat -> bool,
                    disk: Disk, seed: seq<string>)
    ensures var earlier := Names(out, Upto(idx));
      Present(LoopFrom(parts, idx, out, engine, interrupt, disk, seed).1.disk, earlier) == Present(disk, earlier)
  {
    var earlier := Names(out, Upto(idx));
    var d := LoopFrom(parts, idx, out, engine, interrupt, disk, seed).1.disk;
    forall k | 0 <= k < |earlier| ensures (earlier[k] in d <==> earlier[k] in disk) && (earlier[k] in d ==> d[earlier[k]] == disk[earlier[k]]) {
      assert earlier[k] == PartName(out, k + 1);
      NotLaterPart(out, k + 1, idx);
      LoopFrame(parts, idx, out, engine, interrupt, disk, seed, earlier[k]);
    }
    PresentAgree(d, disk, earlier);
  }

  /** The merge after a resumed loop whose `temp_files` starts with the
      files of the parts 1 to the stored index: it takes in those files as
      they were before the run, then the files of the parts saved, all in
      increasing part order, and removes every one of them and the
      progress file. */
  lemma {:induction false} ResumedMerge(parts: seq<string>, idx: int, out: string, engine: Engine, interrupt: nat -> bool, disk: Disk)
    ensures var earlier := Names(out, Upto(idx));
      var r := LoopFrom(parts, idx, out, engine, interrupt, disk, earlier);
      var nums := LoopSaves(parts, idx, out, engine, interrupt, disk, earlier);
      var d := RemoveIfExists(Stream(r.1.temps, out, r.1.disk[out := []]), ProgressPath(out));
      && r.1.temps == Names(out, Upto(idx) + nums)
      && Increasing(Upto(idx) + nums)
      && out in d
      && d[out] == ConcatBytes(Present(disk, earlier) + Present(r.1.disk, Names(out, nums)))
      && ProgressPath(out) !in d
      && forall j :: 1 <= j <= idx ==> PartName(out, j) !in d
  {
    var earlier := Names(out, Upto(idx));
    var r := LoopFrom(parts, idx, out, engine, interrupt, disk, earlier);
    var nums := LoopSaves(parts, idx, out, engine, interrupt, disk, earlier);
    ResumedTemps(parts, idx, out, engine, interrupt, disk);
    MergeOutcome(r.1.temps, out, r.1.disk);
    PresentAppend(r.1.disk, earlier, Names(out, nums));
    EarlierKept(parts, idx, out, engine, interrupt, disk, earlier);
    forall j | 1 <= j <= idx ensures PartName(out, j) in r.1.temps {
      assert r.1.temps[j - 1] == earlier[j - 1] == PartName(out, j);
    }
  }

  /** `temp_files` after a resumed loop: the files of the parts 1 to the
      stored index, then those of the parts saved, all distinct and in
      increasing part order. */
  lemma {:induction false} ResumedTemps(parts: seq<string>, idx: int, out: string, engine: Engine, interrupt: nat -> bool, disk: Disk)
    ensures var earlier := Names(out, Upto(idx));
      var r := LoopFrom(parts, idx, out, engine, interrupt, disk, earlier);
      var nums := LoopSaves(parts, idx, out, engine, interrupt, disk, earlier);
      && r.1.temps == earlier + Names(out, nums)
      && r.1.temps == Names(out, Upto(idx) + nums)
      && Increasing(Upto(idx) + nums)
      && NoDup(r.1.temps) && out !in r.1.temps && ProgressPath(out) !in r.1.temps
  {
    var earlier := Names(out, Upto(idx));
    var nums := LoopSaves(parts, idx, out, engine, interrupt, disk, earlier);
    LoopTemps(parts, idx, out, engine, interrupt, disk, earlier);
    NamesAppend(out, Upto(idx), nums);
    IncreasingAppend(Upto(idx), nums, idx);
    NamesDistinct(out, Upto(idx) + nums);
  }

  /** The parts a run merges (corrected): a resumed run that is neither
      interrupted nor keeps its parts separate returns True and merges the
      files of the earlier parts, as they were before the run, then those
      of the parts it saved, all in increasing part order; every one of
      them and the progress file are gone afterwards. */
  lemma {:induction false} ResumedRunMergesAll(text: string, out: string, engine: Engine, interrupt: nat -> bool, disk: Disk)
    ensures var idx := ReadProgress(disk, ProgressPath(out));
      var seed := Earlier(out, disk);
      var r := Loop(text, out, engine, interrupt, disk, seed);
      var nums := LoopSaves(LiteParts(text), idx, out, engine, interrupt, disk, seed);
      var (ok, d) := ProcessAudioResumed(text, out, false, engine, interrupt, disk);
      r.0.None? && !interrupt(r.1.checks) ==>
        && ok
        && r.1.temps == Names(out, Upto(idx) + nums)
        && Increasing(Upto(idx) + nums)
        && out in d
        && d[out] == ConcatBytes(Present(disk, seed) + Present(r.1.disk, Names(out, nums)))
        && ProgressPath(out) !in d
        && forall j :: 1 <= j <= idx ==> PartName(out, j) !in d
  {
    ResumedMerge(LiteParts(text), ReadProgress(disk, ProgressPath(out)), out, engine, interrupt, disk);
  }

  /** The parts a run merges as written: a resumed run that is neither
      interrupted nor keeps its parts separate merges only the parts it
      saved itself, all numbered above the stored index, and leaves the
      file of part 1 from the earlier run exactly as it was, neither merged
      nor removed. */
  lemma {:induction false} AsWrittenResumeDropsEarlier(text: string, out: string, engine: Engine, interrupt: nat -> bool, disk: Disk)
    requires ReadProgress(disk, ProgressPath(out)) >= 1
    ensures var idx := ReadProgress(disk, ProgressPath(out));
      var r := Loop(text, out, engine, interrupt, disk, []);
      var nums := LoopSaves(LiteParts(text), idx, out, engine, interrupt, disk, []);
      var (ok, d) := ProcessAudioAsWritten(text, out, false, engine, interrupt, disk);
      var first := PartName(out, 1);
      r.0.None? && !interrupt(r.1.checks) ==>
        && ok
        && (forall k :: 0 <= k < |nums| ==> idx < nums[k])
        && out in d && d[out] == ConcatBytes(Present(r.1.disk, Names(out, nums)))
        && (first in d <==> first in disk)
        && (first in disk ==> d[first] == disk[first])
  {
    var idx := ReadProgress(disk, ProgressPath(out));
    var r := Loop(text, out, engine, interrupt, disk, []);
    var nums := LoopSaves(LiteParts(text), idx, out, engine, interrupt, disk, []);
    if r.0.None? && !interrupt(r.1.checks) {
      LoopTemps(LiteParts(text), idx, out, engine, interrupt, disk, []);
      var first := PartName(out, 1);
      PartNameDistinct(out, 1);
      NameNotAmong(out, 1, idx, nums);
      LoopFrame(LiteParts(text), idx, out, engine, interrupt, disk, [], first);
      assert ProcessAudioAsWritten(text, out, false, engine, interrupt, disk) == Finish(false, out, interrupt, r);
      FinishKeepsEarlier(out, interrupt, r, idx, nums, disk);
    }
  }

  /** The merge at the end of a run whose parts are all numbered above
      `idx`: the file of part 1 stays as the run left it. */
  lemma FinishKeepsEarlier(out: string, interrupt: nat -> bool, r: (Option<int>, LiteState), idx: int, nums: seq<int>, disk: Disk)
    requires r.0.None? && !interrupt(r.1.checks) && idx >= 1
    requires r.1.temps == Names(out, nums) && Increasing(nums) && forall k :: 0 <= k < |nums| ==> idx < nums[k]
    requires var first := PartName(out, 1);
      (first in r.1.disk <==> first in disk) && (first in disk ==> r.1.disk[first] == disk[first])
    ensures var (ok, d) := Finish(false, out, interrupt, r);
      var first := PartName(out, 1);
      && ok && out in d && d[out] == ConcatBytes(Present(r.1.disk, Names(out, nums)))
      && (first in d <==> first in disk)
      && (first in disk ==> d[first] == disk[first])
  {
    NamesDistinct(out, nums);
    PartNameDistinct(out, 1);
    NameNotAmong(out, 1, idx, nums);
    FinishMerged(out, interrupt, r, PartName(out, 1));
  }

  /** A finished run that merges its parts: the output is their contents in
      order, and any other file that is not a part is left as it was. */
  lemma FinishMerged(out: string, interrupt: nat -> bool, r: (Option<int>, LiteState), q: string)
    requires r.0.None? && !interrupt(r.1.checks)
    requires NoDup(r.1.temps) && out !in r.1.temps && ProgressPath(out) !in r.1.temps
    requires q != out && q != ProgressPath(out) && q !in r.1.temps
    ensures var (ok, d) := Finish(false, out, interrupt, r);
      && ok && out in d && d[out] == ConcatBytes(Present(r.1.disk, r.1.temps))
      && (q in d <==> q in r.1.disk) && (q in r.1.disk ==> d[q] == r.1.disk[q])
  {
    MergeOutcome(r.1.temps, out, r.1.disk);
    StreamFrame(r.1.temps, out, r.1.disk[out := []]);
  }
}
