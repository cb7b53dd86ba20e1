/** Shapes of file names and samples: what the analysis does with them. */
module Scenarios {
  import opened Wrappers
  import opened Strings
  import opened Dicts
  import opened Constants
  import opened Analysis

  /**
   * A name `base.ext` with a dot-free extension has filetype `ext`, and its
   * sidecar is `base.gff`: `d/sample1.faa` gives `faa` and `d/sample1.gff`.
   */
  lemma ExtensionAndSidecar(base: string, ext: string)
    requires '.' !in ext
    ensures Filetype(base + "." + ext) == ext
    ensures GffFilepath(base + "." + ext) == base + ".gff"
  {
    var name := base + "." + ext;
    assert name[|base|] == '.';
    assert name[|base| + 1..] == ext;
    assert name[..|base|] == base;
    LastDotAt(name, |base|);
  }

  /** `faa` files are analysed in protein mode, `gene` and `fasta` files in prok mode. */
  lemma ModeByExtension(base: string, ext: string)
    requires '.' !in ext
    ensures IsEligible(base + "." + ext) <==> ext in APPLYABLE_FILETYPES
    ensures LookupMode(Filetype(base + "." + ext)) == Some(PROTEIN_MODE) <==> ext == "faa"
    ensures LookupMode(Filetype(base + "." + ext)) == Some(PROK_MODE) <==> ext == "gene" || ext == "fasta"
  {
    ExtensionAndSidecar(base, ext);
  }

  /**
   * A sample with two analysable files and one other entry, whose process
   * exits 0 for the first file and non-zero for the second: the sample
   * fails, and its warning is just the second file's name, with no header.
   */
  method MixedSample(sample: Sample, run: Runner, good: string, bad: string, other: string)
    returns (r: Result<bool, Failure>, log: seq<LogRecord>)
    requires IsEligible(good) && IsEligible(bad) && !IsEligible(other)
    requires good != bad && other != good && other != bad
    requires RunFor(sample, run, good) == Exited(0)
    requires RunFor(sample, run, bad).Exited? && RunFor(sample, run, bad).status != 0
    ensures r == Ok(false)
    ensures |log| > 0 && log[|log| - 1] == Warning(bad)
  {
    var listing := [good, bad, other];
    MixedFailures(sample, run, good, bad, other);
    DistinctThree(good, bad, other);
    assert Join([bad], FAILURE_SEPARATOR) == bad;
    assert Sample(sample.name, sample.inputDir, sample.resultDir, sample.dbDir, sample.gffType, sample.threads) == sample;
    r, log := AnalyzeSample(
      sample.name, sample.inputDir, sample.resultDir, sample.dbDir, sample.gffType, sample.threads, listing, run);
  }

  /** Only the second entry of the listing of `MixedSample` fails. */
  lemma MixedFailures(sample: Sample, run: Runner, good: string, bad: string, other: string)
    requires IsEligible(good) && IsEligible(bad) && !IsEligible(other)
    requires RunFor(sample, run, good) == Exited(0)
    requires RunFor(sample, run, bad).Exited? && RunFor(sample, run, bad).status != 0
    ensures FailingEntries(sample, run, [good, bad, other]) == [bad]
  {
    ThreeEntries(good, bad, other);
    EntriesAppend(sample, run, [], good);
    EntriesAppend(sample, run, [good], bad);
    EntriesAppend(sample, run, [good, bad], other);
  }

  /** A listing of three entries, built one entry at a time. */
  lemma ThreeEntries(a: string, b: string, c: string)
    ensures [a, b, c] == [a, b] + [c] && [a, b] == [a] + [b] && [a] == [] + [a]
  {
  }

  /** Three pairwise different names form a listing without repeats. */
  lemma DistinctThree(a: string, b: string, c: string)
    requires a != b && b != c && a != c
    ensures Distinct([a, b, c])
  {
  }
}
