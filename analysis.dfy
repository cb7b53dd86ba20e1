/**
 * The per-sample orchestration of substrate prediction: `predict_substrate`
 * builds one run_dbcan command for one input file and turns the process's
 * exit status into a flag; `analyze_sample` runs it on every entry of the
 * sample directory whose filetype is analysed and folds the flags into one
 * verdict.
 *
 * The directory listing is an input sequence, in the order given, and the
 * external process is an abstract function `run` from the command to its
 * outcome.
 */
module Analysis {
  import opened Wrappers
  import opened Strings
  import opened Dicts
  import opened Constants

  /** What running an external command yields: its exit status, or an error raised while starting or waiting for it. */
  datatype ProcessOutcome = Exited(status: int) | Raised(reason: string)

  type Runner = seq<string> -> ProcessOutcome

  /** An exception that escapes `predict_substrate` and so aborts the whole sample. */
  datatype Failure =
    | UnknownFiletype(filetype: string)  // the KeyError of MODE_DICT[filetype]
    | Unchecked(reason: string)          // any error of the process other than a non-zero exit

  datatype LogRecord = Debug(msg: string) | Info(msg: string) | Warning(msg: string) | Error(msg: string)

  /** The arguments of `analyze_sample`, which every file of the sample shares. */
  datatype Sample = Sample(name: string, inputDir: string, resultDir: string, dbDir: string, gffType: string, threads: string)

  /** The values a run_dbcan easy_substrate command carries after its flags. */
  datatype Invocation = Invocation(
    dbDir: string, mode: string, inputRawData: string, outputDir: string,
    threads: string, gffType: string, inputGff: string)

  /**
   * The two adjacent literals of the failure warning are one Python string,
   * and it is the separator of the join: no header precedes the names.
   */
  const FAILURE_SEPARATOR := "Analysis failed for the next files:\n,\n"

  // ---------------------------------------------------------------------------
  // predict_substrate

  /** `filename.split(".")[-1]`: the longest suffix without a dot, the whole name when there is no dot. */
  function Filetype(filename: string): (t: string)
    ensures '.' !in t
    ensures |t| <= |filename| && t == filename[|filename| - |t|..]
    ensures '.' in filename ==> |t| < |filename| && filename[|filename| - |t| - 1] == '.'
    ensures '.' !in filename ==> t == filename
  {
    SplitAtLast(filename, '.');
    var parts := Split(filename, '.');
    parts[|parts| - 1]
  }

  /** Given the position of the last dot, the filetype is what follows it and the sidecar path is what precedes it plus `.gff`. */
  lemma LastDotAt(filename: string, k: nat)
    requires k < |filename| && filename[k] == '.' && '.' !in filename[k + 1..]
    ensures Filetype(filename) == filename[k + 1..]
    ensures GffFilepath(filename) == filename[..k] + ".gff"
  {
    var t := Filetype(filename);
    var g := GffFilepath(filename);
    assert filename == g[..|g| - 4] + "." + t;
    assert filename[..k] == g[..|g| - 4];
  }

  /** The filter of `analyze_sample`: the entry's filetype is one of the analysed ones. */
  predicate IsEligible(filename: string)
  {
    Filetype(filename) in APPLYABLE_FILETYPES
  }

  /** `MODE_DICT[filetype]`, with `None` for the KeyError. */
  function LookupMode(filetype: string): (m: Option<string>)
    ensures m.Some? <==> filetype in APPLYABLE_FILETYPES
    ensures m.Some? ==> m.value == PROK_MODE || m.value == PROTEIN_MODE
    ensures m == Some(PROTEIN_MODE) <==> filetype == "faa"
    ensures m == Some(PROK_MODE) <==> filetype == "gene" || filetype == "fasta"
  {
    if filetype in MODE_DICT then Some(MODE_DICT[filetype]) else None
  }

  /**
   * `".".join(input_filepath.split(".")[:-1]) + ".gff"`: the path up to its
   * last dot, then `.gff`; just `.gff` when the path has no dot at all.
   */
  function GffFilepath(inputFilepath: string): (g: string)
    ensures |g| >= 4 && g[|g| - 4..] == ".gff"
    ensures '.' !in inputFilepath ==> g == ".gff"
    ensures '.' in inputFilepath ==> inputFilepath == g[..|g| - 4] + "." + Filetype(inputFilepath)
  {
    SplitAtLast(inputFilepath, '.');
    var parts := Split(inputFilepath, '.');
    Join(parts[..|parts| - 1], ".") + ".gff"
  }

  /** The argument list handed to the process. */
  function Command(inv: Invocation): (cmd: seq<string>)
    ensures |cmd| == 16
  {
    [ "run_dbcan", "easy_substrate",
      "--db_dir", inv.dbDir,
      "--mode", inv.mode,
      "--input_raw_data", inv.inputRawData,
      "--output_dir", inv.outputDir,
      "--threads", inv.threads,
      "--gff_type", inv.gffType,
      "--input_gff", inv.inputGff ]
  }

  /** The flag/value pairs of an argument list, read left to right; a repeated flag keeps its last value. */
  function Options(args: seq<string>): map<string, string>
    decreases |args|
  {
    if |args| < 2 then map[]
    else Options(args[..|args| - 2])[args[|args| - 2] := args[|args| - 1]]
  }

  /**
   * How run_dbcan reads an easy_substrate command: the subcommand, then
   * flag/value pairs of which the seven below must all be present.
   */
  function ParseCommand(cmd: seq<string>): Option<Invocation>
  {
    if |cmd| < 2 || cmd[0] != "run_dbcan" || cmd[1] != "easy_substrate" || |cmd| % 2 != 0 then None
    else
      var opts := Options(cmd[2..]);
      if && "--db_dir" in opts && "--mode" in opts && "--input_raw_data" in opts
         && "--output_dir" in opts && "--threads" in opts && "--gff_type" in opts
         && "--input_gff" in opts
      then Some(Invocation(
        opts["--db_dir"], opts["--mode"], opts["--input_raw_data"], opts["--output_dir"],
        opts["--threads"], opts["--gff_type"], opts["--input_gff"]))
      else None
  }

  /** Appending one flag/value pair sets that flag. */
  lemma OptionsAppend(args: seq<string>, flag: string, value: string)
    ensures Options(args + [flag, value]) == Options(args)[flag := value]
  {
    assert (args + [flag, value])[..|args|] == args;
  }

  /** The command carries every value under its own flag: reading it back gives the invocation it was built from. */
  lemma CommandParsesBack(inv: Invocation)
    ensures ParseCommand(Command(inv)) == Some(inv)
  {
    var a := Command(inv)[2..];
    OptionsAppend([], "--db_dir", inv.dbDir);
    OptionsAppend(a[..2], "--mode", inv.mode);
    OptionsAppend(a[..4], "--input_raw_data", inv.inputRawData);
    OptionsAppend(a[..6], "--output_dir", inv.outputDir);
    OptionsAppend(a[..8], "--threads", inv.threads);
    OptionsAppend(a[..10], "--gff_type", inv.gffType);
    OptionsAppend(a[..12], "--input_gff", inv.inputGff);
    assert a[..2] == [] + ["--db_dir", inv.dbDir];
    assert a[..4] == a[..2] + ["--mode", inv.mode];
    assert a[..6] == a[..4] + ["--input_raw_data", inv.inputRawData];
    assert a[..8] == a[..6] + ["--output_dir", inv.outputDir];
    assert a[..10] == a[..8] + ["--threads", inv.threads];
    assert a[..12] == a[..10] + ["--gff_type", inv.gffType];
    assert a == a[..12] + ["--input_gff", inv.inputGff];
  }

  /** The command `predict_substrate` builds for an input file of a filetype that has a mode. */
  function SubstrateCommand(
    inputFilepath: string, mode: string, dbDir: string, gffType: string,
    sampleResultDir: string, threads: string): seq<string>
  {
    Command(Invocation(dbDir, mode, inputFilepath, sampleResultDir, threads, gffType, GffFilepath(inputFilepath)))
  }

  /**
   * `predict_substrate`: look up the mode (a KeyError escapes), run the
   * command, and report whether it exited with status 0. Only a non-zero
   * exit is caught and becomes `false`; any other error escapes.
   * `filename` only names the file in the log.
   */
  function PredictSubstrate(
    filename: string, inputFilepath: string, filetype: string, dbDir: string,
    gffType: string, sampleResultDir: string, threads: string, run: Runner): (r: Result<bool, Failure>)
    ensures filetype !in APPLYABLE_FILETYPES <==> r == Err(UnknownFiletype(filetype))
    ensures filetype in APPLYABLE_FILETYPES ==>
      var outcome := run(SubstrateCommand(inputFilepath, MODE_DICT[filetype], dbDir, gffType, sampleResultDir, threads));
      && (r == Ok(true) <==> outcome == Exited(0))
      && (r == Ok(false) <==> outcome.Exited? && outcome.status != 0)
      && (r.Err? <==> outcome.Raised?)
  {
    match LookupMode(filetype)
    case None => Err(UnknownFiletype(filetype))
    case Some(mode) =>
      match run(SubstrateCommand(inputFilepath, mode, dbDir, gffType, sampleResultDir, threads))
      case Exited(status) => Ok(status == 0)
      case Raised(reason) => Err(Unchecked(reason))
  }

  /** The record `predict_substrate` logs when it returns. */
  function PredictLog(filename: string, ok: bool): (rec: LogRecord)
    ensures rec.Debug? <==> ok
    ensures rec.Error? <==> !ok
  {
    if ok then Debug("Substrate predicted successfully for " + filename + ".")
    else Error("Error during substrate prediction for " + filename)
  }

  // ---------------------------------------------------------------------------
  // analyze_sample

  function InputFilepath(sample: Sample, filename: string): string
  {
    sample.inputDir + "/" + filename
  }

  /** The command `analyze_sample` has run for an eligible entry of the sample. */
  function FileCommand(sample: Sample, filename: string): seq<string>
    requires IsEligible(filename)
  {
    SubstrateCommand(
      InputFilepath(sample, filename), MODE_DICT[Filetype(filename)], sample.dbDir, sample.gffType,
      sample.resultDir, sample.threads)
  }

  /**
   * The command for an eligible entry names the database, the entry's mode,
   * the entry under the sample's input directory, the sample's result
   * directory itself as the output directory, the threads, the gff type and
   * the entry's sidecar `.gff` path.
   */
  lemma FileCommandFields(sample: Sample, filename: string)
    requires IsEligible(filename)
    ensures ParseCommand(FileCommand(sample, filename)) == Some(Invocation(
      sample.dbDir, MODE_DICT[Filetype(filename)], sample.inputDir + "/" + filename,
      sample.resultDir, sample.threads, sample.gffType, GffFilepath(sample.inputDir + "/" + filename)))
  {
    CommandParsesBack(Invocation(
      sample.dbDir, MODE_DICT[Filetype(filename)], InputFilepath(sample, filename),
      sample.resultDir, sample.threads, sample.gffType, GffFilepath(InputFilepath(sample, filename))));
  }

  /** What the process does for an eligible entry of the sample. */
  function RunFor(sample: Sample, run: Runner, filename: string): ProcessOutcome
    requires IsEligible(filename)
  {
    run(FileCommand(sample, filename))
  }

  /** The local state of the loop of `analyze_sample`: `result_flags` and the records logged so far. */
  datatype LoopState = LoopState(flags: Items, log: seq<LogRecord>)

  /** One iteration of the loop, on one directory entry. */
  function Step(sample: Sample, run: Runner, st: LoopState, filename: string): (r: Result<LoopState, Failure>)
    ensures !IsEligible(filename) ==> r.Ok? && r.value.flags == st.flags
    ensures r.Ok? ==> |r.value.log| == |st.log| + 1
    ensures r.Err? ==> IsEligible(filename) && r.error.Unchecked?
  {
    var filetype := Filetype(filename);
    if filetype !in APPLYABLE_FILETYPES then
      Ok(LoopState(st.flags, st.log + [Warning("Skip analysis for " + filename)]))
    else
      match PredictSubstrate(
        filename, InputFilepath(sample, filename), filetype, sample.dbDir,
        sample.gffType, sample.resultDir, sample.threads, run)
      case Err(e) => Err(e)
      case Ok(ok) => Ok(LoopState(Put(st.flags, filename, ok), st.log + [PredictLog(filename, ok)]))
  }

  /** The loop of `analyze_sample` over a listing, in listing order; an escaping error ends it. */
  function Loop(sample: Sample, run: Runner, listing: seq<string>): Result<LoopState, Failure>
    decreases |listing|
  {
    if |listing| == 0 then Ok(LoopState([], []))
    else
      match Loop(sample, run, listing[..|listing| - 1])
      case Err(e) => Err(e)
      case Ok(st) => Step(sample, run, st, listing[|listing| - 1])
  }

  /** The record logged after the loop: success, or the names of the failed files. */
  function Conclusion(sampleName: string, flags: Items): (rec: LogRecord)
    ensures rec.Info? <==> AllTrue(flags)
    ensures rec.Warning? <==> !AllTrue(flags)
  {
    if AllTrue(flags) then Info("Sample analyzed successfully: " + sampleName)
    else Warning(Join(FailedKeys(flags), FAILURE_SEPARATOR))
  }

  /** The eligible entries of a listing, in listing order. */
  function EligibleEntries(listing: seq<string>): (es: seq<string>)
    ensures forall f :: f in es <==> f in listing && IsEligible(f)
    decreases |listing|
  {
    if |listing| == 0 then []
    else
      var last := listing[|listing| - 1];
      EligibleEntries(listing[..|listing| - 1]) + if IsEligible(last) then [last] else []
  }

  /** The eligible entries of a listing whose process did not exit with status 0, in listing order. */
  function FailingEntries(sample: Sample, run: Runner, listing: seq<string>): (es: seq<string>)
    ensures forall f :: f in es <==> f in listing && IsEligible(f) && RunFor(sample, run, f) != Exited(0)
    decreases |listing|
  {
    if |listing| == 0 then []
    else
      var last := listing[|listing| - 1];
      FailingEntries(sample, run, listing[..|listing| - 1])
        + if IsEligible(last) && RunFor(sample, run, last) != Exited(0) then [last] else []
  }

  /**
   * `analyze_sample`: for each directory entry, in listing order, skip it
   * unless its filetype is analysed, else predict its substrate and record
   * the flag under its name; then log and return whether every flag is true.
   */
  method AnalyzeSample(
    sampleName: string, sampleInputDir: string, sampleResultDir: string, dbDir: string,
    gffType: string, threads: string, listing: seq<string>, run: Runner)
    returns (r: Result<bool, Failure>, log: seq<LogRecord>)
    ensures FollowsLoop(Sample(sampleName, sampleInputDir, sampleResultDir, dbDir, gffType, threads), run, listing, r, log)
    ensures var sample := Sample(sampleName, sampleInputDir, sampleResultDir, dbDir, gffType, threads);
      && (r.Ok? <==> forall f :: f in listing && IsEligible(f) ==> !RunFor(sample, run, f).Raised?)
      && (r == Ok(true) <==> forall f :: f in listing && IsEligible(f) ==> RunFor(sample, run, f) == Exited(0))
      && (r.Err? ==> r.error.Unchecked?)
      && (r == Ok(false) && Distinct(listing) ==>
            log[|log| - 1] == Warning(Join(FailingEntries(sample, run, listing), FAILURE_SEPARATOR)))
    ensures var sample := Sample(sampleName, sampleInputDir, sampleResultDir, dbDir, gffType, threads);
      r.Err? ==> exists k :: (
        && 0 <= k < |listing|
        && Loop(sample, run, listing[..k]).Ok?
        && Loop(sample, run, listing[..k + 1]).Err?
        && log == Loop(sample, run, listing[..k]).value.log)
  {
    var sample := Sample(sampleName, sampleInputDir, sampleResultDir, dbDir, gffType, threads);
    var resultFlags: Items := [];
    log := [];
    var i := 0;
    while i < |listing|
      invariant 0 <= i <= |listing|
      invariant Loop(sample, run, listing[..i]) == Ok(LoopState(resultFlags, log))
    {
      var filename := listing[i];
      LoopNext(sample, run, listing, i);
      var filetype := Filetype(filename);
      if filetype !in APPLYABLE_FILETYPES {
        log := log + [Warning("Skip analysis for " + filename)];
        i := i + 1;
        continue;
      }
      var inputFilepath := sampleInputDir + "/" + filename;
      var predicted := PredictSubstrate(
        filename, inputFilepath, filetype, dbDir, gffType, sampleResultDir, threads, run);
      if predicted.Err? {
        LoopAbortIsFinal(sample, run, listing, i + 1);
        r := Err(predicted.error);
        SampleOutcome(sample, run, listing, r, log);
        return;
      }
      resultFlags := Put(resultFlags, filename, predicted.value);
      log := log + [PredictLog(filename, predicted.value)];
      i := i + 1;
    }
    assert listing[..i] == listing;
    if AllTrue(resultFlags) {
      log := log + [Info("Sample analyzed successfully: " + sampleName)];
      r := Ok(true);
    } else {
      log := log + [Warning(Join(FailedKeys(resultFlags), FAILURE_SEPARATOR))];
      r := Ok(false);
    }
    SampleOutcome(sample, run, listing, r, log);
  }

  /**
   * The result of `analyze_sample` is the error that escaped the loop, or the
   * conjunction of the flags the loop recorded, logged after the loop's records.
   */
  ghost predicate FollowsLoop(sample: Sample, run: Runner, listing: seq<string>, r: Result<bool, Failure>, log: seq<LogRecord>)
  {
    if Loop(sample, run, listing).Err? then r == Err(Loop(sample, run, listing).error)
    else
      var st := Loop(sample, run, listing).value;
      r == Ok(AllTrue(st.flags)) && log == st.log + [Conclusion(sample.name, st.flags)]
  }

  /** What the result and the last log record of `analyze_sample` mean, once they follow the loop. */
  lemma SampleOutcome(sample: Sample, run: Runner, listing: seq<string>, r: Result<bool, Failure>, log: seq<LogRecord>)
    requires FollowsLoop(sample, run, listing, r, log)
    ensures r.Ok? <==> forall f :: f in listing && IsEligible(f) ==> !RunFor(sample, run, f).Raised?
    ensures r == Ok(true) <==> forall f :: f in listing && IsEligible(f) ==> RunFor(sample, run, f) == Exited(0)
    ensures r.Err? ==> r.error.Unchecked?
    ensures r == Ok(false) && Distinct(listing) ==>
      log[|log| - 1] == Warning(Join(FailingEntries(sample, run, listing), FAILURE_SEPARATOR))
  {
    LoopOutcome(sample, run, listing);
    SampleVerdict(sample, run, listing);
  }

  // ---------------------------------------------------------------------------
  // Properties of the loop

  /** One iteration on an eligible entry, told by what the process does for it. */
  lemma StepEligible(sample: Sample, run: Runner, st: LoopState, filename: string)
    requires IsEligible(filename)
    ensures Step(sample, run, st, filename) ==
      match RunFor(sample, run, filename)
      case Exited(status) =>
        Ok(LoopState(Put(st.flags, filename, status == 0), st.log + [PredictLog(filename, status == 0)]))
      case Raised(reason) => Err(Unchecked(reason))
  {
  }

  /** An error that escapes one iteration ends the loop: later entries change nothing. */
  lemma {:induction false} LoopAbortIsFinal(sample: Sample, run: Runner, listing: seq<string>, n: nat)
    requires n <= |listing|
    requires Loop(sample, run, listing[..n]).Err?
    ensures Loop(sample, run, listing) == Loop(sample, run, listing[..n])
    decreases |listing| - n
  {
    if n < |listing| {
      assert listing[..n + 1][..n] == listing[..n];
      LoopAbortIsFinal(sample, run, listing, n + 1);
    } else {
      assert listing[..n] == listing;
    }
  }

  /** The result flags after the last entry of a listing, from those after the entries before it. */
  lemma LoopLastFlags(sample: Sample, run: Runner, listing: seq<string>)
    requires |listing| > 0
    requires Loop(sample, run, listing).Ok?
    ensures Loop(sample, run, listing[..|listing| - 1]).Ok?
    ensures var last := listing[|listing| - 1];
      var items := Loop(sample, run, listing[..|listing| - 1]).value.flags;
      Loop(sample, run, listing).value.flags ==
        if IsEligible(last) then Put(items, last, RunFor(sample, run, last) == Exited(0)) else items
  {
    var init, last := listing[..|listing| - 1], listing[|listing| - 1];
    if IsEligible(last) {
      StepEligible(sample, run, Loop(sample, run, init).value, last);
    }
  }

  /**
   * The loop finishes exactly when the process raises for no eligible entry;
   * otherwise the error that escapes is the process's, never a KeyError,
   * because the filter admits only filetypes that MODE_DICT maps.
   */
  lemma {:induction false} LoopOutcome(sample: Sample, run: Runner, listing: seq<string>)
    ensures Loop(sample, run, listing).Ok? <==>
      forall f :: f in listing && IsEligible(f) ==> !RunFor(sample, run, f).Raised?
    ensures Loop(sample, run, listing).Err? ==> Loop(sample, run, listing).error.Unchecked?
    decreases |listing|
  {
    if |listing| > 0 {
      var init, last := listing[..|listing| - 1], listing[|listing| - 1];
      assert listing == init + [last];
      LoopOutcome(sample, run, init);
      if Loop(sample, run, init).Ok? && IsEligible(last) {
        StepEligible(sample, run, Loop(sample, run, init).value, last);
      }
    }
  }

  /**
   * What `result_flags` holds after a listing: distinct keys, each an
   * eligible entry of the listing, every eligible entry a key, and each flag
   * saying whether that entry's process exited with status 0.
   */
  ghost predicate FlagsRecorded(sample: Sample, run: Runner, listing: seq<string>, items: Items)
  {
    && Distinct(Keys(items))
    && (forall i :: 0 <= i < |items| ==>
          items[i].0 in listing && IsEligible(items[i].0) &&
          items[i].1 == (RunFor(sample, run, items[i].0) == Exited(0)))
    && (forall f :: f in listing && IsEligible(f) ==> f in Keys(items))
  }

  /** Recording one more entry keeps `FlagsRecorded`. */
  lemma FlagsRecordedStep(sample: Sample, run: Runner, init: seq<string>, last: string, items: Items)
    requires FlagsRecorded(sample, run, init, items)
    ensures FlagsRecorded(sample, run, init + [last],
      if IsEligible(last) then Put(items, last, RunFor(sample, run, last) == Exited(0)) else items)
  {
    var listing := init + [last];
    var b := IsEligible(last) && RunFor(sample, run, last) == Exited(0);
    var items' := if IsEligible(last) then Put(items, last, b) else items;
    if IsEligible(last) {
      PutItems(items, last, b);
    }
    forall i | 0 <= i < |items'|
      ensures items'[i].0 in listing && IsEligible(items'[i].0)
      ensures items'[i].1 == (RunFor(sample, run, items'[i].0) == Exited(0))
    {
      if items'[i] != (last, b) {
        var j :| 0 <= j < |items| && items[j] == items'[i];
        assert items[j].0 in init;
      }
    }
    forall f | f in listing && IsEligible(f) ensures f in Keys(items') {
      if f != last {
        assert f in init;
      }
    }
    assert FlagsRecorded(sample, run, listing, items');
  }

  /** `result_flags` after the loop holds exactly what `FlagsRecorded` says. */
  lemma {:induction false} LoopFlags(sample: Sample, run: Runner, listing: seq<string>)
    requires Loop(sample, run, listing).Ok?
    ensures FlagsRecorded(sample, run, listing, Loop(sample, run, listing).value.flags)
    decreases |listing|
  {
    if |listing| > 0 {
      var init, last := listing[..|listing| - 1], listing[|listing| - 1];
      assert listing == init + [last];
      LoopLastFlags(sample, run, listing);
      LoopFlags(sample, run, init);
      FlagsRecordedStep(sample, run, init, last, Loop(sample, run, init).value.flags);
    }
  }

  /** With distinct names, recording one more entry appends it to the keys, and to the failed keys when its flag is false. */
  lemma FailuresStep(sample: Sample, run: Runner, init: seq<string>, last: string, items: Items)
    requires last !in init
    requires FlagsRecorded(sample, run, init, items)
    requires Keys(items) == EligibleEntries(init)
    requires FailedKeys(items) == FailingEntries(sample, run, init)
    ensures var items' :=
        if IsEligible(last) then Put(items, last, RunFor(sample, run, last) == Exited(0)) else items;
      && Keys(items') == EligibleEntries(init + [last])
      && FailedKeys(items') == FailingEntries(sample, run, init + [last])
  {
    var listing := init + [last];
    EntriesAppend(sample, run, init, last);
    if IsEligible(last) {
      var b := RunFor(sample, run, last) == Exited(0);
      assert last !in Keys(items);
      AppendItem(items, last, b);
    }
  }

  /** The eligible and failing entries of a listing grow by its last entry when that entry is eligible, resp. failing. */
  lemma EntriesAppend(sample: Sample, run: Runner, init: seq<string>, last: string)
    ensures EligibleEntries(init + [last]) == EligibleEntries(init) + if IsEligible(last) then [last] else []
    ensures FailingEntries(sample, run, init + [last]) ==
      FailingEntries(sample, run, init) + if IsEligible(last) && RunFor(sample, run, last) != Exited(0) then [last] else []
  {
    assert (init + [last])[..|init|] == init;
  }

  /**
   * With distinct names in the listing, `result_flags` holds one key per
   * eligible entry, in listing order, and the failed keys are the failing
   * entries in listing order.
   */
  lemma {:induction false} LoopFailures(sample: Sample, run: Runner, listing: seq<string>)
    requires Distinct(listing)
    requires Loop(sample, run, listing).Ok?
    ensures Keys(Loop(sample, run, listing).value.flags) == EligibleEntries(listing)
    ensures FailedKeys(Loop(sample, run, listing).value.flags) == FailingEntries(sample, run, listing)
    decreases |listing|
  {
    if |listing| > 0 {
      var init, last := listing[..|listing| - 1], listing[|listing| - 1];
      assert listing == init + [last];
      assert Distinct(init);
      LoopLastFlags(sample, run, listing);
      LoopFlags(sample, run, init);
      LoopFailures(sample, run, init);
      FailuresStep(sample, run, init, last, Loop(sample, run, init).value.flags);
    }
  }

  /**
   * The verdict of a finished sample: it is true exactly when every eligible
   * entry's process exited with status 0 (so vacuously with none); with
   * distinct names, a false verdict logs the failing entries in listing
   * order, joined by the separator.
   */
  lemma SampleVerdict(sample: Sample, run: Runner, listing: seq<string>)
    ensures Loop(sample, run, listing).Ok? ==>
      (AllTrue(Loop(sample, run, listing).value.flags) <==>
       forall f :: f in listing && IsEligible(f) ==> RunFor(sample, run, f) == Exited(0))
    ensures Loop(sample, run, listing).Ok? && !AllTrue(Loop(sample, run, listing).value.flags) && Distinct(listing) ==>
      Conclusion(sample.name, Loop(sample, run, listing).value.flags) ==
        Warning(Join(FailingEntries(sample, run, listing), FAILURE_SEPARATOR))
  {
    if Loop(sample, run, listing).Ok? {
      var items := Loop(sample, run, listing).value.flags;
      LoopFlags(sample, run, listing);
      if AllTrue(items) {
        forall f | f in listing && IsEligible(f) ensures RunFor(sample, run, f) == Exited(0) {
          var j :| 0 <= j < |items| && Keys(items)[j] == f;
        }
      }
      if Distinct(listing) {
        LoopFailures(sample, run, listing);
      }
    }
  }

  /** The result flags, without the log. */
  function FlagsOf(r: Result<LoopState, Failure>): Result<Items, Failure>
  {
    if r.Ok? then Ok(r.value.flags) else Err(r.error)
  }

  /** The loop over a listing with one more entry runs one more iteration, unless it already aborted. */
  lemma LoopAppend(sample: Sample, run: Runner, init: seq<string>, last: string)
    ensures Loop(sample, run, init + [last]) ==
      if Loop(sample, run, init).Err? then Loop(sample, run, init) else Step(sample, run, Loop(sample, run, init).value, last)
  {
    assert (init + [last])[..|init|] == init;
  }

  /** The loop over the first `i + 1` entries is one more iteration after the loop over the first `i`. */
  lemma LoopNext(sample: Sample, run: Runner, listing: seq<string>, i: nat)
    requires i < |listing| && Loop(sample, run, listing[..i]).Ok?
    ensures Loop(sample, run, listing[..i + 1]) == Step(sample, run, Loop(sample, run, listing[..i]).value, listing[i])
  {
    assert listing[..i + 1][..i] == listing[..i];
  }

  /**
   * One more entry after a loop that has not aborted: the loop goes on unless
   * the entry is eligible and its process raises, and the entry's flag is
   * recorded exactly when it is eligible.
   */
  lemma LoopAppendFlags(sample: Sample, run: Runner, init: seq<string>, last: string)
    requires Loop(sample, run, init).Ok?
    ensures Loop(sample, run, init + [last]).Ok? <==> !IsEligible(last) || !RunFor(sample, run, last).Raised?
    ensures Loop(sample, run, init + [last]).Ok? ==>
      Loop(sample, run, init + [last]).value.flags ==
        if IsEligible(last) then Put(Loop(sample, run, init).value.flags, last, RunFor(sample, run, last) == Exited(0))
        else Loop(sample, run, init).value.flags
  {
    LoopAppend(sample, run, init, last);
    if IsEligible(last) {
      StepEligible(sample, run, Loop(sample, run, init).value, last);
    }
  }

  /** The flags after an iteration depend on the flags before it, not on the log. */
  lemma StepFlags(sample: Sample, run: Runner, st1: LoopState, st2: LoopState, filename: string)
    requires st1.flags == st2.flags
    ensures FlagsOf(Step(sample, run, st1, filename)) == FlagsOf(Step(sample, run, st2, filename))
  {
  }

  /** A skipped entry never reaches the process and leaves `result_flags` and the verdict as they were. */
  lemma {:induction false} SkippedEntriesIrrelevant(sample: Sample, run: Runner, listing: seq<string>)
    ensures FlagsOf(Loop(sample, run, listing)) == FlagsOf(Loop(sample, run, EligibleEntries(listing)))
    decreases |listing|
  {
    if |listing| > 0 {
      var init, last := listing[..|listing| - 1], listing[|listing| - 1];
      assert listing == init + [last];
      SkippedEntriesIrrelevant(sample, run, init);
      var es := EligibleEntries(init);
      EntriesAppend(sample, run, init, last);
      LoopAppend(sample, run, init, last);
      if IsEligible(last) {
        assert EligibleEntries(listing) == es + [last];
        LoopAppend(sample, run, es, last);
        if Loop(sample, run, init).Ok? {
          assert Loop(sample, run, es).Ok?;
          StepFlags(sample, run, Loop(sample, run, init).value, Loop(sample, run, es).value, last);
        } else {
          assert Loop(sample, run, es).Err?;
          assert Loop(sample, run, listing) == Loop(sample, run, init);
          assert Loop(sample, run, es + [last]) == Loop(sample, run, es);
        }
      } else {
        assert EligibleEntries(listing) == es;
        assert FlagsOf(Loop(sample, run, listing)) == FlagsOf(Loop(sample, run, init));
      }
    }
  }

  /**
   * The log of the loop holds one record per entry, in listing order: a skip
   * warning for an entry that is not analysed, the predictor's record for
   * one that is.
   */
  lemma {:induction false} LoopLog(sample: Sample, run: Runner, listing: seq<string>)
    requires Loop(sample, run, listing).Ok?
    ensures var log := Loop(sample, run, listing).value.log;
      && |log| == |listing|
      && forall i :: 0 <= i < |listing| ==>
           (log[i] == Warning("Skip analysis for " + listing[i]) <==> !IsEligible(listing[i]))
    decreases |listing|
  {
    if |listing| > 0 {
      var init := listing[..|listing| - 1];
      LoopLog(sample, run, init);
    }
  }

  /** With no eligible entry the sample succeeds vacuously, whatever the process would do. */
  lemma {:induction false} NoEligibleEntriesSucceeds(sample: Sample, run: Runner, listing: seq<string>)
    requires forall f :: f in listing ==> !IsEligible(f)
    ensures Loop(sample, run, listing).Ok?
    ensures Loop(sample, run, listing).value.flags == []
    decreases |listing|
  {
    if |listing| > 0 {
      assert listing[|listing| - 1] in listing;
      NoEligibleEntriesSucceeds(sample, run, listing[..|listing| - 1]);
    }
  }
}
