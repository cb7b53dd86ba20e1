# Substrate prediction over a sample directory

This project models the analysis core of a pipeline that runs the external
`run_dbcan easy_substrate` tool on every analysable file of one sample.

- `predict_substrate` handles one file. It looks up the prediction mode for
  the file's filetype in `MODE_DICT`. It derives the sidecar `.gff` path and
  builds the 16-word command. It runs the command and reports whether the
  process exited with status 0.
- `analyze_sample` walks the sample's directory listing. It skips entries
  whose filetype is not in `APPLYABLE_FILETYPES`. It records one flag per
  analysed file in an insertion-ordered dict. It then logs either a success
  record or a warning naming the failed files, and returns the conjunction
  of the flags.

Modules:

- `Wrappers`: `Option` and `Result`.
- `Strings`: Python's `str.split` on a one-character separator and
  `str.join`, with both round trips.
- `Dicts`: an insertion-ordered `dict[str, bool]` as a sequence of pairs.
  `d[k] = v` is `Put`; the failed keys are listed in insertion order.
- `Constants`: `MODE_DICT` and `APPLYABLE_FILETYPES`.
- `Analysis`:
  - `PredictSubstrate` is a function over an abstract process runner.
  - `AnalyzeSample` is a method with the source's loop. It is proved against
    the prefix-recursive function `Loop`, and the properties of `Loop` are
    proved as lemmas.
- `Scenarios`: what the analysis does with names of the form `base.ext`, and
  a whole sample with one passing file, one failing file and one skipped entry.

The external process is a parameter `run: seq<string> -> ProcessOutcome`.
Its outcome is either `Exited(status)` or `Raised(reason)`.

- A zero exit gives `true`.
- A non-zero exit is the caught `CalledProcessError` and gives `false`.
- Anything the process raises otherwise escapes `predict_substrate` and
  aborts the sample. The model returns `Err(Unchecked(reason))`.

`MODE_DICT[filetype]` can raise `KeyError`. That path is modelled as
`Err(UnknownFiletype(filetype))`, and `LoopOutcome` proves that
`analyze_sample` never reaches it.

The model states the code's own behaviour:

- **No sorting.** Entries are processed in the order the directory listing
  returns them.
- **Output directory.** `--output_dir` is the sample result directory itself.
- **Failure warning.** The message is built from two adjacent string
  literals that Python concatenates into one. So the failed file names are
  joined with the whole string `"Analysis failed for the next files:\n,\n"`
  (`FAILURE_SEPARATOR`). There is no separate header line, and a single
  failed file gives a warning that is just its name.

## Model

| member | source | states |
|---|---|---|
| Strings.Split | src/services/analysis.py:34 | `str.split(".")` yields at least one piece, and no piece contains the separator |
| Strings.JoinSplit | src/services/analysis.py:89 | joining the pieces of a split with the separator gives back the original string |
| Strings.SplitJoin | src/services/analysis.py:89 | splitting a join of separator-free pieces gives back those pieces |
| Strings.Join | src/services/analysis.py:60 | `sep.join(parts)`: the pieces with the separator between neighbours; `Strings.JoinSplit` and `Strings.SplitJoin` are its round trips with `Strings.Split` |
| Strings.SplitAtLast | src/services/analysis.py:34 | without a dot the name is its own only piece; with one, the name is the join of all pieces but the last, a dot, and the last piece |
| Analysis.Filetype | src/services/analysis.py:34 | the filetype is the dot-free suffix after the last dot, or the whole name when it has no dot |
| Analysis.LastDotAt | src/services/analysis.py:34 | for the last dot at position k, the filetype is everything after k and the gff path is everything before k plus `.gff` |
| Analysis.IsEligible | src/services/analysis.py:34-36 | an entry is analysed exactly when its filetype is in `APPLYABLE_FILETYPES`; `Scenarios.ModeByExtension` states it by extension |
| Analysis.LookupMode | src/services/analysis.py:88 | `MODE_DICT[filetype]` has a value exactly for the analysable filetypes: `protein` exactly for `faa`, `prok` exactly for `gene` and `fasta` |
| Analysis.GffFilepath | src/services/analysis.py:89 | the path ends in `.gff`; a path without a dot gives just `.gff`; otherwise the input path is the gff stem, a dot and the filetype |
| Analysis.Command | src/services/analysis.py:91-101 | the command has the 16 words `run_dbcan easy_substrate` plus seven flag/value pairs |
| Analysis.OptionsAppend | src/services/analysis.py:91-101 | appending one flag/value pair to the argument list sets that flag in the parsed options |
| Analysis.CommandParsesBack | src/services/analysis.py:91-101 | reading the command's flags back gives exactly the values it was built from |
| Analysis.SubstrateCommand | src/services/analysis.py:88-101 | the command for an input path and mode, with the gff path derived from the input path; `Analysis.CommandParsesBack` reads every value back from it |
| Analysis.InputFilepath | src/services/analysis.py:40 | `sample_input_dir + "/" + filename`; `Analysis.FileCommandFields` states it as the command's input path |
| Analysis.FileCommandFields | src/services/analysis.py:40-50 | an analysed entry's command carries the db dir, the entry's mode, `input_dir + "/" + name`, the sample result dir as output dir, the threads, the gff type and the sidecar gff path |
| Analysis.PredictSubstrate | src/services/analysis.py:88-110 | a `KeyError` exactly for a filetype outside the table; otherwise `true` exactly on exit 0, `false` exactly on a non-zero exit, and an escaping error exactly when the process raises |
| Analysis.PredictLog | src/services/analysis.py:103-110 | `predict_substrate` logs at debug level exactly when it returns true and at error level exactly when it returns false |
| Dicts.Put | src/services/analysis.py:52 | a new key is appended at the end; an existing key keeps its position and only its value changes; distinct keys stay distinct |
| Dicts.PutItems | src/services/analysis.py:52 | after `d[k] = v` the keys are the old keys plus `k`, and every item is `(k, v)` or an old item |
| Dicts.AllTrue | src/services/analysis.py:54 | `all(result_flags.values())`: every stored flag is true (vacuously for an empty dict); its meaning for a sample is stated by `Analysis.SampleVerdict` |
| Dicts.FailedKeys | src/services/analysis.py:60 | every listed key has a false flag, every key with a false flag is listed, and the list is empty exactly when every flag is true; the insertion order is given by `Dicts.AppendItem` |
| Dicts.AppendItem | src/services/analysis.py:52-60 | appending a pair extends the keys by its key, and extends the failed keys by that key exactly when its flag is false, so the failed keys keep insertion order |
| Analysis.Step | src/services/analysis.py:33-52 | one iteration: a skipped entry keeps the flags; a finished iteration adds exactly one log record; an error escapes only for an analysed entry and is never a `KeyError` |
| Analysis.Loop | src/services/analysis.py:32-52 | the loop over a listing, entry by entry in listing order, stopping at the first escaping error; its properties are the `Loop…` lemmas below |
| Analysis.Conclusion | src/services/analysis.py:54-63 | the record logged after the loop is at info level exactly when every flag is true, and a warning exactly when some flag is false |
| Analysis.AnalyzeSample | src/services/analysis.py:10-63 | returns what `Loop` computes and then logs the conclusion. It succeeds exactly when no analysed entry's process raises, and returns true exactly when every analysed entry exits 0. It never raises `KeyError`. With distinct names, its last log record on `false` is the failing entries joined by the separator. After an escaping error, the log holds exactly the records of the entries before the one that raised |
| Analysis.SampleOutcome | src/services/analysis.py:54-63 | once result and log follow the loop, the result and last record mean what `analyze_sample` promises: success, true verdict and failure warning as above |
| Analysis.LoopNext | src/services/analysis.py:32-52 | the loop over the first `i + 1` entries is one iteration after the loop over the first `i` |
| Analysis.StepEligible | src/services/analysis.py:40-52 | one iteration on an analysed entry stores whether its process exited 0 and logs the predictor's record, or aborts when the process raises |
| Analysis.LoopAbortIsFinal | src/services/analysis.py:42-50 | once an error escapes an iteration, the later entries change nothing |
| Analysis.LoopLastFlags | src/services/analysis.py:32-52 | the flags after the last entry are the earlier flags with that entry put, when it is analysed, and unchanged otherwise |
| Analysis.LoopOutcome | src/services/analysis.py:32-52 | the loop finishes exactly when no analysed entry's process raises, and an escaping error is never a `KeyError` |
| Analysis.FlagsRecordedStep | src/services/analysis.py:36-52 | one more entry keeps the recorded-flags invariant: distinct keys, each an analysed entry flagged by its exit status, and every analysed entry a key |
| Analysis.LoopFlags | src/services/analysis.py:32-52 | after a finished loop, `result_flags` holds exactly one flag per analysed entry, true exactly when its process exited 0 |
| Analysis.FailuresStep | src/services/analysis.py:52-60 | one more distinct entry extends the keys by the analysed entries and the failed keys by the failing entries |
| Analysis.EntriesAppend | src/services/analysis.py:36-38 | the analysed and failing entries of a listing with one more entry are those of the listing, plus that entry when it qualifies |
| Analysis.LoopFailures | src/services/analysis.py:52-60 | for distinct names, the dict's keys are the analysed entries in listing order, and its failed keys are the failing entries in listing order |
| Analysis.SampleVerdict | src/services/analysis.py:54-63 | after a finished loop, the conjunction of the flags is true exactly when every analysed entry exits 0; with distinct names, a false verdict's warning lists the failing entries |
| Analysis.LoopAppend | src/services/analysis.py:32-52 | the loop over a listing with one more entry is one more iteration after the loop over the listing |
| Analysis.LoopAppendFlags | src/services/analysis.py:36-52 | an extra entry aborts the loop exactly when it is analysed and its process raises; otherwise it puts its flag, or changes nothing when skipped |
| Analysis.StepFlags | src/services/analysis.py:36-52 | the flags one iteration produces do not depend on what was logged before |
| Analysis.SkippedEntriesIrrelevant | src/services/analysis.py:36-38 | the flags, or the error, are the same as for the listing with only the analysed entries kept |
| Analysis.LoopLog | src/services/analysis.py:36-38 | a finished loop logs one record per directory entry, and the record is a skip warning exactly for the entries that are not analysed |
| Analysis.NoEligibleEntriesSucceeds | src/services/analysis.py:54-56 | a listing without analysable entries finishes with an empty dict, so the sample succeeds |
| Constants.ModeTableMatchesFiletypes | src/services/constants.py:2-9 | the mode table's keys are exactly the analysable filetypes |
| Constants.ModeTableEntries | src/services/constants.py:2-9 | three analysable filetypes: `faa` maps to `protein`; `gene` and `fasta` map to `prok` |
| Scenarios.ExtensionAndSidecar | src/services/analysis.py:34 | `base.ext` with a dot-free `ext` has filetype `ext` and sidecar `base.gff` |
| Scenarios.MixedFailures | src/services/analysis.py:36-60 | in the listing `[good, bad, other]`, only `bad` is a failing entry |
| Scenarios.MixedSample | src/services/analysis.py:10-63 | `analyze_sample` on `[good, bad, other]`, with exit 0 for `good`, a non-zero exit for `bad` and `other` skipped, returns false, and its last log record is the warning `bad` alone, with no header |
| Scenarios.ModeByExtension | src/services/analysis.py:36 | `base.ext` is analysed exactly when `ext` is in the table, in protein mode exactly for `faa` and prok mode exactly for `gene` and `fasta` |

## Left out

- **Logging.** The logger and its configuration in `src/services/common.py`
  are not part of this model. Log calls are modelled as a returned list of
  records with their level and message. `exc_info` tracebacks are not kept.
- **Directory listing.** `os.listdir` is modelled as the input sequence
  `listing`. A listing that raises, such as a missing directory, is not
  modelled.
- **External process.** `subprocess.run(..., check=True)` and `run_dbcan`
  are modelled as the abstract parameter `run`. What the tool writes to
  disk, its timing and its concurrency are not modelled.
- Analysis.AnalyzeSample: the failure warning is only described for
  listings with distinct names. Distinctness always holds for `os.listdir`
  on one directory.
- **Argument types.** `threads` and `gff_type` are passed through as opaque
  strings. The `Literal["prodigal", "NCBI_prok"]` annotation is not enforced
  by Python and is not modelled.
