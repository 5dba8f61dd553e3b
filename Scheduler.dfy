/** The main converter's chunk scheduling (`iniciar_conversao` with its
    inner `processar_chunk`): every sentence chunk is synthesised into its
    own numbered temp file with up to three attempts, the temp files are
    merged only when every chunk succeeded, and they are removed at the
    end whatever happened. The chunks run one after the other here, in
    index order. */
module Scheduler {
  import opened Strings
  import opened FileSystem
  import Config
  import opened Synthesis
  import opened Merger

  /** What `processar_chunk` returns: None, True or False. */
  datatype ChunkResult = Cancelled | Succeeded | Failed

  /** What the chunks share: the disk, `temp_files`, the number of engine
      calls and of cancel-flag reads so far (the engine and the flag are
      functions of these counts), and the number of converter calls. */
  datatype RunState = RunState(disk: Disk, temps: seq<string>, calls: nat, checks: nat, conversions: nat)

  /** The end of chunk `i`'s temp file name: `_temp_<i:03d>.mp3`. */
  function TempTail(i: int): string
  {
    "_temp_" + Format03(i) + ".mp3"
  }

  /** The temp file of chunk `i`: `<dir>/<base>_temp_<i:03d>.mp3`. */
  function TempName(dir: string, base: string, i: int): string
  {
    JoinPath(dir, base + TempTail(i))
  }

  /** The merged file: `<dir>/<base>.mp3`. */
  function FinalName(dir: string, base: string): string
  {
    JoinPath(dir, base + ".mp3")
  }

  lemma {:induction false} TempTailInjective(i: int, j: int)
    requires TempTail(i) == TempTail(j)
    ensures i == j
  {
    var t := TempTail(i);
    assert t[6..|t| - 4] == Format03(i);
    assert TempTail(j)[6..|t| - 4] == Format03(j);
    Format03Injective(i, j);
  }

  lemma {:induction false} StemCancel(stem: string, a: string, b: string)
    requires stem + a == stem + b
    ensures a == b
  {
    assert (stem + a)[|stem|..] == a;
    assert (stem + b)[|stem|..] == b;
  }

  /** Different chunks never share a temp file. */
  lemma {:induction false} TempNameInjective(dir: string, base: string, i: int, j: int)
    requires TempName(dir, base, i) == TempName(dir, base, j)
    ensures i == j
  {
    SameRootedness(base, TempTail(i), TempTail(j));
    JoinPathInjective(dir, base + TempTail(i), base + TempTail(j));
    StemCancel(base, TempTail(i), TempTail(j));
    TempTailInjective(i, j);
  }

  /** The merged file is never one of the temp files. */
  lemma {:induction false} FinalNotTemp(dir: string, base: string, i: int)
    ensures FinalName(dir, base) != TempName(dir, base, i)
  {
    SameRootedness(base, ".mp3", TempTail(i));
  }

  /** The attempts of `processar_chunk` from attempt number `attempt` on:
      the flag is read before each attempt; a conversion that fails is
      followed by the next attempt. The pause between attempts is not
      modelled. */
  function Attempts(part: string, temp: string, conv: Converter, cancel: nat -> bool, attempt: nat, st: RunState): (ChunkResult, RunState)
    decreases Config.MaxAttempts + 1 - attempt
  {
    if attempt > Config.MaxAttempts then (Failed, st)
    else if cancel(st.checks) then (Cancelled, st.(checks := st.checks + 1))
    else
      var c := conv(part, temp, st.calls, st.disk);
      var next := RunState(c.disk, st.temps, st.calls + c.calls, st.checks + 1, st.conversions + 1);
      if c.ok then (Succeeded, next) else Attempts(part, temp, conv, cancel, attempt + 1, next)
  }

  /** `processar_chunk(i, part)`: a cancelled run returns None before
      naming the temp file; otherwise the temp file is recorded and the
      attempts follow. */
  function Chunk(i: int, part: string, dir: string, base: string, conv: Converter, cancel: nat -> bool, st: RunState): (ChunkResult, RunState)
  {
    if cancel(st.checks) then (Cancelled, st.(checks := st.checks + 1))
    else
      var temp := TempName(dir, base, i);
      Attempts(part, temp, conv, cancel, 1, st.(temps := st.temps + [temp], checks := st.checks + 1))
  }

  /** `processar_chunk`, with its retry loop. `conv` is the converter it
      calls: `MainConverter(engine)` in the program, which the method
      `ConvertTextToAudio` computes. */
  method ProcessChunk(i: int, part: string, dir: string, base: string, conv: Converter, cancel: nat -> bool, st: RunState)
    returns (result: ChunkResult, st': RunState)
    ensures (result, st') == Chunk(i, part, dir, base, conv, cancel, st)
  {
    if cancel(st.checks) {
      return Cancelled, st.(checks := st.checks + 1);
    }
    var temp := TempName(dir, base, i);
    result, st' := Retry(part, temp, conv, cancel, st.(temps := st.temps + [temp], checks := st.checks + 1));
  }

  /** The retry loop of `processar_chunk`: up to `MaxAttempts` attempts,
      each after a read of the flag. */
  method Retry(part: string, temp: string, conv: Converter, cancel: nat -> bool, st: RunState)
    returns (result: ChunkResult, st': RunState)
    ensures (result, st') == Attempts(part, temp, conv, cancel, 1, st)
  {
    st' := st;
    var attempt := 1;
    while attempt <= Config.MaxAttempts
      invariant 1 <= attempt <= Config.MaxAttempts + 1
      invariant Attempts(part, temp, conv, cancel, attempt, st') == Attempts(part, temp, conv, cancel, 1, st)
    {
      if cancel(st'.checks) {
        return Cancelled, st'.(checks := st'.checks + 1);
      }
      var c := conv(part, temp, st'.calls, st'.disk);
      st' := RunState(c.disk, st'.temps, st'.calls + c.calls, st'.checks + 1, st'.conversions + 1);
      if c.ok {
        return Succeeded, st';
      }
      attempt := attempt + 1;
    }
    result := Failed;
  }

  /** The attempts leave `temp_files` alone, make at most the remaining
      number of converter calls (all of them when the chunk fails), leave a
      large enough temp file on success, and touch no other file. */
  lemma {:induction false} AttemptsSpec(part: string, temp: string, conv: Converter, cancel: nat -> bool, attempt: nat, st: RunState)
    requires Honest(conv)
    requires 1 <= attempt <= Config.MaxAttempts + 1
    ensures var (r, st') := Attempts(part, temp, conv, cancel, attempt, st);
      && st'.temps == st.temps
      && st.conversions <= st'.conversions <= st.conversions + Config.MaxAttempts + 1 - attempt
      && (r == Failed ==> st'.conversions == st.conversions + Config.MaxAttempts + 1 - attempt)
      && (r == Succeeded ==> BigEnough(st'.disk, temp))
      && AgreeOutside(st.disk, st'.disk, {temp})
    decreases Config.MaxAttempts + 1 - attempt
  {
    if attempt <= Config.MaxAttempts && !cancel(st.checks) {
      var c := conv(part, temp, st.calls, st.disk);
      assert Keeps(c, temp, st.disk);
      if !c.ok {
        var next := RunState(c.disk, st.temps, st.calls + c.calls, st.checks + 1, st.conversions + 1);
        AttemptsSpec(part, temp, conv, cancel, attempt + 1, next);
      }
    }
  }

  /** A chunk that finds the flag set returns None and records nothing;
      otherwise its temp file is appended to `temp_files`. It makes at most
      `MaxAttempts` converter calls, exactly that many when it fails, leaves
      a temp file larger than 1024 bytes when it succeeds, and touches no
      file but its own temp file. */
  lemma {:induction false} ChunkSpec(i: int, part: string, dir: string, base: string, conv: Converter, cancel: nat -> bool, st: RunState)
    requires Honest(conv)
    ensures var (r, st') := Chunk(i, part, dir, base, conv, cancel, st);
      && (cancel(st.checks) ==> r == Cancelled && st' == st.(checks := st.checks + 1))
      && (!cancel(st.checks) ==> st'.temps == st.temps + [TempName(dir, base, i)])
      && st'.conversions <= st.conversions + Config.MaxAttempts
      && (r == Failed ==> st'.conversions == st.conversions + Config.MaxAttempts)
      && (r == Succeeded ==> !cancel(st.checks) && BigEnough(st'.disk, TempName(dir, base, i)))
      && AgreeOutside(st.disk, st'.disk, {TempName(dir, base, i)})
  {
    if !cancel(st.checks) {
      var temp := TempName(dir, base, i);
      AttemptsSpec(part, temp, conv, cancel, 1, st.(temps := st.temps + [temp], checks := st.checks + 1));
    }
  }

  /** One chunk's processing as the run sees it: from the chunk number,
      its text and the shared state to the result and the new state. */
  type ChunkStep = (int, string, RunState) -> (ChunkResult, RunState)

  /** `processar_chunk` for a given output directory, base name, converter
      and cancel flag. */
  function ChunkOf(dir: string, base: string, conv: Converter, cancel: nat -> bool): ChunkStep
  {
    (i, part, st) => Chunk(i, part, dir, base, conv, cancel, st)
  }

  /** Chunk `i`'s temp file name, as a function of `i`. */
  function TempNamer(dir: string, base: string): int -> string
  {
    i => TempName(dir, base, i)
  }

  /** Different chunk numbers give different names. */
  ghost predicate Injective(name: int -> string)
  {
    forall i: int, j: int :: name(i) == name(j) ==> i == j
  }

  lemma {:induction false} TempNamerInjective(dir: string, base: string)
    ensures Injective(TempNamer(dir, base))
  {
    forall i: int, j: int | TempNamer(dir, base)(i) == TempNamer(dir, base)(j) ensures i == j {
      TempNameInjective(dir, base, i, j);
    }
  }

  /** What the run relies on from one chunk step (see `ChunkSpec`), with
      `name(i)` the temp file of chunk `i`: a chunk that succeeds appends
      its temp file to `temp_files`, ... */
  ghost predicate AppendsTemp(step: ChunkStep, name: int -> string)
  {
    forall i: int, part: string, st: RunState :: step(i, part, st).0 == Succeeded ==>
      step(i, part, st).1.temps == st.temps + [name(i)]
  }

  /** ... leaves that file larger than 1024 bytes, ... */
  ghost predicate LeavesAudio(step: ChunkStep, name: int -> string)
  {
    forall i: int, part: string, st: RunState :: step(i, part, st).0 == Succeeded ==>
      BigEnough(step(i, part, st).1.disk, name(i))
  }

  /** ... and no chunk touches any file but its own temp file. */
  ghost predicate TouchesOwn(step: ChunkStep, name: int -> string)
  {
    forall i: int, part: string, st: RunState :: AgreeOutside(st.disk, step(i, part, st).1.disk, {name(i)})
  }

  ghost predicate HonestStep(step: ChunkStep, name: int -> string)
  {
    AppendsTemp(step, name) && LeavesAudio(step, name) && TouchesOwn(step, name)
  }

  /** `processar_chunk` keeps those promises when its converter keeps its own. */
  lemma {:induction false} ChunkOfHonest(dir: string, base: string, conv: Converter, cancel: nat -> bool)
    requires Honest(conv)
    ensures HonestStep(ChunkOf(dir, base, conv, cancel), TempNamer(dir, base))
  {
    forall i: int, part: string, st: RunState {
      ChunkSpec(i, part, dir, base, conv, cancel, st);
    }
  }

  /** The chunks from index `k` on, one after the other; `results` and `st`
      hold what the earlier chunks produced. Chunk `k` is numbered `k + 1`. */
  function RunChunks(parts: seq<string>, k: nat, step: ChunkStep, results: seq<ChunkResult>, st: RunState): (seq<ChunkResult>, RunState)
    decreases |parts| - k
  {
    if k >= |parts| then (results, st)
    else
      var out := step(k + 1, parts[k], st);
      RunChunks(parts, k + 1, step, results + [out.0], out.1)
  }

  /** `all(results)`: every chunk returned True. */
  predicate AllSucceeded(results: seq<ChunkResult>)
  {
    forall i :: 0 <= i < |results| ==> results[i] == Succeeded
  }

  /** `any(results)`: some chunk returned True. */
  predicate AnySucceeded(results: seq<ChunkResult>)
  {
    exists i :: 0 <= i < |results| && results[i] == Succeeded
  }

  /** What follows the chunks: the merge gate, the merge with the temp files
      removed after a successful one, and the `finally` clause removing the
      temp files in every case. The flag is read at the gate only when all
      chunks succeeded. */
  function Finish(results: seq<ChunkResult>, st: RunState, dir: string, base: string, cancel: nat -> bool,
                  hasFfmpeg: bool, absolute: string -> string, ffmpeg: (seq<string>, Disk) -> ToolRun): (bool, Disk)
  {
    var (merged, d) :=
      if !AllSucceeded(results) || cancel(st.checks) || !AnySucceeded(results) then (false, st.disk)
      else
        var (ok, d1) := Merge(st.temps, FinalName(dir, base), hasFfmpeg, absolute, ffmpeg, st.disk);
        if ok then (true, RemoveAll(d1, st.temps)) else (false, d1);
    (merged, RemoveAll(d, st.temps))
  }

  /** The state before the first chunk. */
  function Start(disk: Disk): RunState
  {
    RunState(disk, [], 0, 0, 0)
  }

  /** The conversion of the sentence chunks `parts` into `<dir>/<base>.mp3`:
      whether it was merged, and the disk afterwards. */
  function Run(parts: seq<string>, dir: string, base: string, conv: Converter, cancel: nat -> bool,
               hasFfmpeg: bool, absolute: string -> string, ffmpeg: (seq<string>, Disk) -> ToolRun, disk: Disk): (bool, Disk)
  {
    var (results, st) := RunChunks(parts, 0, ChunkOf(dir, base, conv, cancel), [], Start(disk));
    Finish(results, st, dir, base, cancel, hasFfmpeg, absolute, ffmpeg)
  }

  /** The part of `iniciar_conversao` after the text has been divided: the
      chunks, the gate, the merge and the clean-up. */
  method RunConversion(parts: seq<string>, dir: string, base: string, conv: Converter, cancel: nat -> bool,
                       hasFfmpeg: bool, absolute: string -> string, ffmpeg: (seq<string>, Disk) -> ToolRun, disk: Disk)
    returns (merged: bool, disk': Disk)
    ensures (merged, disk') == Run(parts, dir, base, conv, cancel, hasFfmpeg, absolute, ffmpeg, disk)
  {
    var results: seq<ChunkResult> := [];
    var st := Start(disk);
    var k := 0;
    ghost var step := ChunkOf(dir, base, conv, cancel);
    while k < |parts|
      invariant k <= |parts|
      invariant RunChunks(parts, k, step, results, st) == RunChunks(parts, 0, step, [], Start(disk))
    {
      var r;
      r, st := ProcessChunk(k + 1, parts[k], dir, base, conv, cancel, st);
      results := results + [r];
      k := k + 1;
    }
    merged := false;
    disk' := st.disk;
    if AllSucceeded(results) && !cancel(st.checks) && AnySucceeded(results) {
      var ok;
      ok, disk' := MergeAudio(st.temps, FinalName(dir, base), hasFfmpeg, absolute, ffmpeg, st.disk);
      if ok {
        disk' := RemovePaths(disk', st.temps);
        merged := true;
      }
    }
    disk' := RemovePaths(disk', st.temps);
  }

  /** The temp files of chunks `lo + 1` to `hi`, in index order. */
  function Names(name: int -> string, lo: nat, hi: nat): (r: seq<string>)
    ensures |r| == if lo <= hi then hi - lo else 0
    ensures forall i :: 0 <= i < |r| ==> r[i] == name(lo + 1 + i)
    decreases hi - lo
  {
    if lo >= hi then [] else [name(lo + 1)] + Names(name, lo + 1, hi)
  }

  /** The merged file is not in the list of temp files. */
  lemma {:induction false} FinalNotInNames(dir: string, base: string, lo: nat, hi: nat)
    ensures FinalName(dir, base) !in Names(TempNamer(dir, base), lo, hi)
    decreases hi - lo
  {
    if lo < hi {
      FinalNotTemp(dir, base, lo + 1);
      FinalNotInNames(dir, base, lo + 1, hi);
    }
  }

  /** The chunks from `k` on return one result each, after the earlier ones. */
  lemma {:induction false} RunChunksResults(parts: seq<string>, k: nat, step: ChunkStep, results: seq<ChunkResult>, st: RunState)
    requires k <= |parts|
    ensures var res := RunChunks(parts, k, step, results, st).0;
      |res| == |results| + |parts| - k && res[..|results|] == results
    decreases |parts| - k
  {
    if k < |parts| {
      var out := step(k + 1, parts[k], st);
      RunChunksResults(parts, k + 1, step, results + [out.0], out.1);
      var res := RunChunks(parts, k, step, results, st).0;
      assert res[..|results| + 1][..|results|] == res[..|results|];
    }
  }

  /** The chunks from `k` on touch no file but their own temp files. */
  lemma {:induction false} RunChunksFrame(parts: seq<string>, k: nat, step: ChunkStep, name: int -> string,
                                          results: seq<ChunkResult>, st: RunState)
    requires TouchesOwn(step, name)
    requires k <= |parts|
    ensures AgreeOutside(st.disk, RunChunks(parts, k, step, results, st).1.disk, Later(name, k, |parts|))
    decreases |parts| - k
  {
    if k < |parts| {
      var out := step(k + 1, parts[k], st);
      RunChunksFrame(parts, k + 1, step, name, results + [out.0], out.1);
    }
  }

  /** The temp files of chunks `lo + 1` to `hi`, as a set. */
  ghost function Later(name: int -> string, lo: int, hi: int): set<string>
  {
    set j | lo < j <= hi :: name(j)
  }

  /** Chunk `i`'s temp file is no later chunk's. */
  lemma {:induction false} NotLater(name: int -> string, i: int, n: int)
    requires Injective(name)
    ensures name(i) !in Later(name, i, n)
  {
  }

  /** Every result from position `m` on is True. */
  predicate SucceededFrom(results: seq<ChunkResult>, m: nat)
  {
    forall i :: m <= i < |results| ==> results[i] == Succeeded
  }

  lemma {:induction false} AppendNames(before: seq<string>, after: seq<string>, name: int -> string, k: nat, n: nat)
    requires k < n && after == before + [name(k + 1)]
    ensures after + Names(name, k + 1, n) == before + Names(name, k, n)
  {
    var t := name(k + 1);
    var later := Names(name, k + 1, n);
    assert (before + [t]) + later == before + ([t] + later);
  }

  /** When the chunks from `k` on all succeed, the first of them succeeds
      and so do the rest. */
  lemma {:induction false} FirstSucceeded(parts: seq<string>, k: nat, step: ChunkStep, results: seq<ChunkResult>, st: RunState)
    requires k < |parts|
    requires SucceededFrom(RunChunks(parts, k, step, results, st).0, |results|)
    ensures var out := step(k + 1, parts[k], st);
      && out.0 == Succeeded
      && SucceededFrom(RunChunks(parts, k + 1, step, results + [out.0], out.1).0, |results + [out.0]|)
  {
    var out := step(k + 1, parts[k], st);
    var res := RunChunks(parts, k + 1, step, results + [out.0], out.1).0;
    RunChunksResults(parts, k + 1, step, results + [out.0], out.1);
    assert res[|results|] == out.0;
  }

  /** When the chunks from `k` on all succeed, `temp_files` gains their temp
      files in index order. */
  lemma {:induction false} RunChunksTemps(parts: seq<string>, k: nat, step: ChunkStep, name: int -> string,
                                          results: seq<ChunkResult>, st: RunState)
    requires AppendsTemp(step, name)
    requires k <= |parts|
    requires SucceededFrom(RunChunks(parts, k, step, results, st).0, |results|)
    ensures RunChunks(parts, k, step, results, st).1.temps == st.temps + Names(name, k, |parts|)
    decreases |parts| - k
  {
    if k < |parts| {
      var out := step(k + 1, parts[k], st);
      FirstSucceeded(parts, k, step, results, st);
      RunChunksTemps(parts, k + 1, step, name, results + [out.0], out.1);
      AppendNames(st.temps, out.1.temps, name, k, |parts|);
    } else {
      assert st.temps + [] == st.temps;
    }
  }

  /** When the chunks from `k` on all succeed, each of their temp files is
      larger than 1024 bytes once the last chunk is done. */
  lemma {:induction false} RunChunksAudio(parts: seq<string>, k: nat, step: ChunkStep, name: int -> string,
                                          results: seq<ChunkResult>, st: RunState)
    requires LeavesAudio(step, name) && TouchesOwn(step, name) && Injective(name)
    requires k <= |parts|
    requires SucceededFrom(RunChunks(parts, k, step, results, st).0, |results|)
    ensures forall j :: k < j <= |parts| ==> BigEnough(RunChunks(parts, k, step, results, st).1.disk, name(j))
    decreases |parts| - k
  {
    if k < |parts| {
      var out := step(k + 1, parts[k], st);
      FirstSucceeded(parts, k, step, results, st);
      RunChunksAudio(parts, k + 1, step, name, results + [out.0], out.1);
      RunChunksFrame(parts, k + 1, step, name, results + [out.0], out.1);
      NotLater(name, k + 1, |parts|);
      KeptAcross(out.1.disk, RunChunks(parts, k + 1, step, results + [out.0], out.1).1.disk,
                 Later(name, k + 1, |parts|), name(k + 1));
    }
  }

  /** A large enough file outside the paths a step may touch stays so. */
  lemma {:induction false} KeptAcross(d1: Disk, d2: Disk, touched: set<string>, path: string)
    requires BigEnough(d1, path) && AgreeOutside(d1, d2, touched) && path !in touched
    ensures BigEnough(d2, path)
  {
  }

  /** The merge gate of `iniciar_conversao`: the run reports a merged file
      exactly when every chunk succeeded, there was at least one chunk, the
      flag was clear at the gate and the merge itself succeeded; and every
      file in `temp_files` is gone afterwards, whatever happened. */
  lemma {:induction false} RunGate(parts: seq<string>, dir: string, base: string, conv: Converter, cancel: nat -> bool,
                hasFfmpeg: bool, absolute: string -> string, ffmpeg: (seq<string>, Disk) -> ToolRun, disk: Disk)
    ensures var (results, st) := RunChunks(parts, 0, ChunkOf(dir, base, conv, cancel), [], Start(disk));
      var (merged, d) := Run(parts, dir, base, conv, cancel, hasFfmpeg, absolute, ffmpeg, disk);
      && (merged <==> AllSucceeded(results) && |parts| > 0 && !cancel(st.checks)
                      && Merge(st.temps, FinalName(dir, base), hasFfmpeg, absolute, ffmpeg, st.disk).0)
      && forall i :: 0 <= i < |st.temps| ==> st.temps[i] !in d
  {
    var (results, st) := RunChunks(parts, 0, ChunkOf(dir, base, conv, cancel), [], Start(disk));
    RunChunksResults(parts, 0, ChunkOf(dir, base, conv, cancel), [], Start(disk));
    if AllSucceeded(results) && |parts| > 0 {
      assert results[0] == Succeeded;
    }
  }

  /** Without ffmpeg, the run merges exactly when every chunk succeeded,
      there was at least one chunk and the flag was clear at the gate; the
      merged file then holds the bytes of the temp files of chunks 1 to n in
      index order, each of them larger than 1024 bytes. */
  lemma {:induction false} RunWithoutFfmpeg(parts: seq<string>, dir: string, base: string, conv: Converter, cancel: nat -> bool,
                         absolute: string -> string, ffmpeg: (seq<string>, Disk) -> ToolRun, disk: Disk)
    requires Honest(conv)
    ensures var (results, st) := RunChunks(parts, 0, ChunkOf(dir, base, conv, cancel), [], Start(disk));
      var (merged, d) := Run(parts, dir, base, conv, cancel, false, absolute, ffmpeg, disk);
      var temps := Names(TempNamer(dir, base), 0, |parts|);
      && (merged <==> AllSucceeded(results) && |parts| > 0 && !cancel(st.checks))
      && (merged ==>
            && st.temps == temps
            && (forall i :: 0 <= i < |temps| ==> BigEnough(st.disk, temps[i]))
            && FinalName(dir, base) in d
            && d[FinalName(dir, base)] == ConcatBytes(Contents(st.disk, temps)))
  {
    var step := ChunkOf(dir, base, conv, cancel);
    var name := TempNamer(dir, base);
    var (results, st) := RunChunks(parts, 0, step, [], Start(disk));
    var final := FinalName(dir, base);
    RunGate(parts, dir, base, conv, cancel, false, absolute, ffmpeg, disk);
    RunChunksResults(parts, 0, step, [], Start(disk));
    if AllSucceeded(results) && |parts| > 0 && !cancel(st.checks) {
      AllChunksSaved(parts, dir, base, conv, cancel, disk);
      FinalNotInNames(dir, base, 0, |parts|);
      MergeFallbackOrder(Names(name, 0, |parts|), final, absolute, ffmpeg, st.disk);
    }
  }

  /** When every chunk succeeds, `temp_files` lists the temp files of
      chunks 1 to n in index order, each larger than 1024 bytes. */
  lemma {:induction false} AllChunksSaved(parts: seq<string>, dir: string, base: string, conv: Converter,
                                          cancel: nat -> bool, disk: Disk)
    requires Honest(conv)
    requires AllSucceeded(RunChunks(parts, 0, ChunkOf(dir, base, conv, cancel), [], Start(disk)).0)
    ensures var st := RunChunks(parts, 0, ChunkOf(dir, base, conv, cancel), [], Start(disk)).1;
      var temps := Names(TempNamer(dir, base), 0, |parts|);
      && st.temps == temps
      && forall i :: 0 <= i < |temps| ==> BigEnough(st.disk, temps[i])
  {
    var step := ChunkOf(dir, base, conv, cancel);
    var name := TempNamer(dir, base);
    ChunkOfHonest(dir, base, conv, cancel);
    TempNamerInjective(dir, base);
    RunChunksTemps(parts, 0, step, name, [], Start(disk));
    RunChunksAudio(parts, 0, step, name, [], Start(disk));
  }
}
