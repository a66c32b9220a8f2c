# Genome Motif Analyzer — verified model of the motif-matching core

This project models the approximate motif search of the Genome Motif Analyzer
in Dafny. A genome holds one DNA sequence, already loaded from a FASTA file,
and an optional display name. `find_motif(motif, max_mismatches)` slides a
window of the motif's length across the sequence. It keeps every start offset
whose window differs from the motif in at most `max_mismatches` positions
(Hamming distance, substitutions only). It then stores the list under the
motif in the genome's `motif_positions` dictionary. `count_motif` reads that
dictionary. `visualize_motif` either reports that there are no occurrences or
plots the stored positions to a file.

Files:

- `utils.dfy`, module `Utils`: the comparator `hamming_distance`, as the
  recursive function `HammingDistance`. Lemmas prove its bounds, symmetry,
  truncation to the common prefix (Python's `zip`) and agreement with a
  count of mismatching indices.
- `genome.dfy`, module `GenomeAnalysis`:
  - the specification of the scan (`MatchesBelow`, `MatchPositions`) and the
    lemmas about it;
  - the class `Genome` with the fields `genomeSequence`, `genomeName` and
    `motifPositions` (a `map<string, seq<int>>`);
  - the imperative `FindMotif`, which keeps the source's loop and its in-place
    appends to the dictionary entry;
  - `CountMotif`;
  - the decision part of `visualize_motif`, which returns what would be
    plotted and the file path it would go to.

The model follows the code, including on inputs a stricter implementation
might reject:

- An empty motif is not rejected. Every offset `0 .. |S|` is reported
  (`EmptyMotifMatchesEverywhere`).
- A negative threshold is not rejected either. It yields an empty list
  (`NegativeThresholdMatchesNothing`).
- A motif longer than the sequence yields an empty list, with no error.

The class carries one ghost field, `thresholds`, that the source does not
have. It records the threshold each stored entry was computed with, so that
`Valid()` can state the store's invariant: every stored list is the search
result for its motif.

`genomeName` is an `Option<string>`. The path-based loader never sets
`genome_name`, so in that case the f-string of the default plot path renders
it as `None` (`visualizations/None_<motif>_plot.png`).

## Model

| member | source | states |
|---|---|---|
| `Utils.HammingDistance` | gma/utils.py:2-4 | the mismatch count is a natural number no larger than the shorter argument's length |
| `Utils.HammingSelf` | gma/utils.py:4 | a string is at distance 0 from itself |
| `Utils.HammingSymmetric` | gma/utils.py:4 | swapping the arguments does not change the distance |
| `Utils.HammingIgnoresTail` | gma/utils.py:4 | appending characters to the longer argument, on either side, leaves the distance unchanged (`zip` truncation) |
| `Utils.HammingCommonPrefix` | gma/utils.py:4 | the distance equals the distance of the two common-length prefixes |
| `Utils.HammingZeroIff` | gma/utils.py:4 | for equal-length strings the distance is 0 exactly when the strings are equal |
| `Utils.HammingSnoc` | gma/utils.py:4 | appending one aligned pair adds 1 exactly when the two characters differ |
| `Utils.HammingCountsMismatches` | gma/utils.py:2-4 | the distance equals the number of indices of the common prefix where the characters differ |
| `GenomeAnalysis.MatchesBelow` | gma/genome.py:59-62 | the first n scan steps keep exactly the matching offsets below n, strictly ascending, at most n of them |
| `GenomeAnalysis.MatchPositions` | gma/genome.py:59-62 | soundness and completeness: p is reported iff 0 <= p <= len(S)-len(M) and the window at p is within K mismatches; the result is strictly ascending; a motif longer than the sequence gives [] |
| `GenomeAnalysis.MatchPositionsUnique` | gma/genome.py:59-62 | any strictly ascending list holding exactly the matching offsets is the search result |
| `GenomeAnalysis.ExactWhenNoMismatches` | gma/genome.py:61 | with K = 0 the reported offsets are exactly those where the window equals the motif |
| `GenomeAnalysis.NegativeThresholdMatchesNothing` | gma/genome.py:61 | a negative threshold yields the empty list, not an error |
| `GenomeAnalysis.EveryOffsetWhenTolerant` | gma/genome.py:59-61 | with K >= len(M) the result is every offset 0 .. len(S)-len(M) in order (empty when len(M) > len(S)) |
| `GenomeAnalysis.EmptyMotifMatchesEverywhere` | gma/genome.py:59-61 | an empty motif with K >= 0 yields every offset 0 .. len(S) |
| `GenomeAnalysis.MatchCount` | gma/genome.py:59-62 | the number of reported positions equals the number of matching offsets |
| `GenomeAnalysis.ExampleExactSearch` | gma/genome.py:47-63 | "ATG" in "ATGCATGCATGC" with K = 0 is found at [0, 4, 8] |
| `GenomeAnalysis.ExampleOneMismatch` | gma/genome.py:47-63 | "ATC" in "ATGCATGCATGC" with K = 1 is found at [0, 4, 8] |
| `GenomeAnalysis.DefaultPlotPath` | gma/genome.py:87-88 | the default path is "visualizations/" + name text + "_" + motif + "_plot.png", and the motif can be read back from it |
| `GenomeAnalysis.DefaultPlotPathInjective` | gma/genome.py:88 | two different motifs of one genome never get the same default plot path |
| `GenomeAnalysis.Genome.constructor` | gma/genome.py:26-31 | a genome starts with an empty result store, which satisfies the store invariant |
| `GenomeAnalysis.Genome.FindMotif` | gma/genome.py:47-63 | returns the search result for (sequence, motif, K); the motif's entry becomes that list, replacing any earlier one; every other entry, the sequence and the name are unchanged; the store invariant is kept |
| `GenomeAnalysis.Genome.CountMotif` | gma/genome.py:74 | 0 for a motif never searched; otherwise, under the store invariant, the number of offsets that matched when the motif was last searched |
| `GenomeAnalysis.Genome.VisualizeMotif` | gma/genome.py:78-88 | no occurrences iff the count is 0; otherwise it plots the stored positions at height 1 under the source's title and x-label, to the given path or, if that is missing or empty, to the default path; under the invariant every plotted position is a real match |
| `GenomeAnalysis.RepeatSearch` | gma/genome.py:58 | a second search for the same motif replaces the entry rather than merging; equal arguments give equal results whatever the store held; the count afterwards is the length of the last result |

## Left out

- `load_genome` (FASTA parsing through Biopython, file and stream reading,
  UTF-8 decoding) is not modelled. The constructor receives the loaded
  sequence and the optional name. The path branch keeps the last record and
  leaves the name unset; the stream branch demands exactly one record. That
  asymmetry sits outside the model.
- A `find_motif` call before loading, when `genome_sequence` is still `None`,
  raises a `TypeError` in the source. The model has no unloaded state.
- Rendering in `visualize_motif` (figure, scatter, `savefig`, `close`) is
  not modelled. Nor are a missing `visualizations` directory and other write
  failures: these are calls into matplotlib. `VisualizeMotif` returns the
  request the renderer would receive.
- `os.path.join` is modelled as concatenation with "/". That matches the
  source because its second part is never absolute. It starts with the name
  text, and the name is either unset (rendered `None`) or the stem of
  `os.path.basename(...)` (gma/genome.py:37). A basename contains no "/".
  The model's constructor accepts any name. For a name starting with "/" it
  still concatenates, whereas `os.path.join` would drop `visualizations`.
- The `print` calls (loaded-length message, "No occurrences" message) are not
  modelled.
- Aliasing is not modelled. In the source the returned list is the same
  object as the stored entry, so a caller who mutates it also changes the
  store. The model returns a value.
- The command-line wrapper, the Streamlit page, packaging and the test file
  that needs an external FASTA file are not modelled.
