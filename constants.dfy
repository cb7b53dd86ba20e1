/** The static tables of the analysis: which filetypes are analysed, and in which mode. */
module Constants {

  /** MODE_DICT: the run_dbcan prediction mode for each analysed filetype. */
  const MODE_DICT: map<string, string> := map["gene" := "prok", "fasta" := "prok", "faa" := "protein"]

  /** APPLYABLE_FILETYPES: a directory entry is analysed exactly when its filetype is one of these. */
  const APPLYABLE_FILETYPES: set<string> := {"gene", "fasta", "faa"}

  const PROK_MODE := "prok"
  const PROTEIN_MODE := "protein"

  /** Every analysed filetype has a mode, and the table names no other filetype. */
  lemma ModeTableMatchesFiletypes()
    ensures MODE_DICT.Keys == APPLYABLE_FILETYPES
  {
  }

  /** The three filetypes and their modes: protein sequences for `faa`, prokaryotic genomes otherwise. */
  lemma ModeTableEntries()
    ensures APPLYABLE_FILETYPES == {"gene", "fasta", "faa"} && |APPLYABLE_FILETYPES| == 3
    ensures MODE_DICT["faa"] == PROTEIN_MODE
    ensures MODE_DICT["gene"] == PROK_MODE && MODE_DICT["fasta"] == PROK_MODE
    ensures forall t :: t in MODE_DICT ==> MODE_DICT[t] in {PROK_MODE, PROTEIN_MODE}
  {
  }
}
