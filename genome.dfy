/** The motif matcher, the per-genome result store and the decision part of
    the visualisation (what is plotted and where), over an already-loaded
    genome sequence. */
module GenomeAnalysis {
  import opened Utils

  datatype Option<T> = None | Some(value: T)

  /** Offset `p` starts a full-length window of `s` within `k` mismatches of `m`. */
  predicate IsMatch(s: string, m: string, k: int, p: int)
  {
    0 <= p && p + |m| <= |s| && HammingDistance(s[p..p + |m|], m) <= k
  }

  predicate StrictlyAscending(r: seq<int>)
  {
    forall i, j :: 0 <= i < j < |r| ==> r[i] < r[j]
  }

  /** Number of offsets the scan visits: `range(len(s) - len(m) + 1)`,
      which is empty when the motif is longer than the sequence. */
  function ScanLength(s: string, m: string): nat
  {
    if |m| <= |s| then |s| - |m| + 1 else 0
  }

  /** The offsets `0 .. n-1` that the scan accepts, in the order it emits them. */
  function MatchesBelow(s: string, m: string, k: int, n: nat): (r: seq<int>)
    requires n <= ScanLength(s, m)
    ensures forall p :: p in r <==> p < n && IsMatch(s, m, k, p)
    ensures StrictlyAscending(r)
    ensures |r| <= n
  {
    if n == 0 then []
    else
      var p := n - 1;
      var prev := MatchesBelow(s, m, k, p);
      assert forall i :: 0 <= i < |prev| ==> prev[i] in prev;
      prev + (if HammingDistance(s[p..p + |m|], m) <= k then [p] else [])
  }

  /** One more step of the scan appends offset `i` exactly when its window matches. */
  lemma MatchesBelowStep(s: string, m: string, k: int, i: int)
    requires 0 <= i < ScanLength(s, m)
    ensures MatchesBelow(s, m, k, i + 1)
         == MatchesBelow(s, m, k, i) + (if HammingDistance(s[i..i + |m|], m) <= k then [i] else [])
  {
  }

  /** Every match offset of `m` in `s` with at most `k` mismatches, ascending. */
  function MatchPositions(s: string, m: string, k: int): (r: seq<int>)
    ensures forall p :: p in r <==> IsMatch(s, m, k, p)
    ensures StrictlyAscending(r)
    ensures |r| <= ScanLength(s, m)
    ensures |m| > |s| ==> r == []
  {
    MatchesBelow(s, m, k, ScanLength(s, m))
  }

  /** The offsets whose window matches, as a set. */
  ghost function MatchSet(s: string, m: string, k: int): set<int>
  {
    set p | 0 <= p < ScanLength(s, m) && IsMatch(s, m, k, p)
  }

  function Offsets(n: nat): (r: seq<int>)
    ensures |r| == n && forall i :: 0 <= i < n ==> r[i] == i
  {
    seq(n, i => i)
  }

  /** With no mismatch allowed the search is exact substring search. */
  lemma ExactWhenNoMismatches(s: string, m: string, p: int)
    ensures p in MatchPositions(s, m, 0)
        <==> 0 <= p && p + |m| <= |s| && s[p..p + |m|] == m
  {
    if 0 <= p && p + |m| <= |s| {
      HammingZeroIff(s[p..p + |m|], m);
    }
  }

  /** A negative threshold admits no window, so the result is empty. */
  lemma NegativeThresholdMatchesNothing(s: string, m: string, k: int)
    requires k < 0
    ensures MatchPositions(s, m, k) == []
  {
    MatchCount(s, m);
    assert MatchSet(s, m, k) == {};
  }

  lemma {:induction false} TolerantMatchesBelow(s: string, m: string, k: int, n: nat)
    requires |m| <= k && n <= ScanLength(s, m)
    ensures MatchesBelow(s, m, k, n) == Offsets(n)
  {
    if n > 0 {
      TolerantMatchesBelow(s, m, k, n - 1);
      assert Offsets(n) == Offsets(n - 1) + [n - 1];
    }
  }

  /** A threshold of at least the motif length accepts every offset
      `0 .. |s| - |m|` (none when the motif is longer than the sequence). */
  lemma EveryOffsetWhenTolerant(s: string, m: string, k: int)
    requires |m| <= k
    ensures MatchPositions(s, m, k) == Offsets(ScanLength(s, m))
  {
    TolerantMatchesBelow(s, m, k, ScanLength(s, m));
  }

  /** The empty motif is not rejected: for any threshold `k >= 0` every offset
      `0 .. |s|` is reported, the empty window matching the empty motif. */
  lemma EmptyMotifMatchesEverywhere(s: string, k: int)
    requires 0 <= k
    ensures MatchPositions(s, "", k) == Offsets(|s| + 1)
  {
    EveryOffsetWhenTolerant(s, "", k);
  }

  /** A strictly ascending sequence has as many elements as distinct values. */
  lemma {:induction false} AscendingCard(r: seq<int>)
    requires StrictlyAscending(r)
    ensures |set x | x in r| == |r|
  {
    if r != [] {
      var q := r[..|r| - 1];
      var last := r[|r| - 1];
      AscendingCard(q);
      assert r == q + [last];
      assert (set x | x in r) == (set x | x in q) + {last};
      assert last !in q by {
        forall i | 0 <= i < |q| ensures q[i] != last {
          assert q[i] == r[i];
        }
      }
    }
  }

  /** The number of reported positions is the number of matching offsets. */
  lemma MatchCount(s: string, m: string)
    ensures forall k :: |MatchPositions(s, m, k)| == |MatchSet(s, m, k)|
  {
    forall k ensures |MatchPositions(s, m, k)| == |MatchSet(s, m, k)| {
      var r := MatchPositions(s, m, k);
      AscendingCard(r);
      assert (set x | x in r) == MatchSet(s, m, k);
    }
  }

  /** Two strictly ascending sequences with the same elements are equal. */
  lemma {:induction false} AscendingUnique(a: seq<int>, b: seq<int>)
    requires StrictlyAscending(a) && StrictlyAscending(b)
    requires forall x :: x in a <==> x in b
    ensures a == b
  {
    assert a != [] ==> a[0] in a;
    assert b != [] ==> b[0] in b;
    if a != [] && b != [] {
      assert a[0] in a && b[0] in b;
      assert a[0] == b[0] by {
        var i :| 0 <= i < |b| && b[i] == a[0];
        var j :| 0 <= j < |a| && a[j] == b[0];
      }
      assert a == [a[0]] + a[1..] && b == [b[0]] + b[1..];
      forall x ensures x in a[1..] <==> x in b[1..] {
        if x in a[1..] {
          var i :| 1 <= i < |a| && a[i] == x;
          assert x in b && x != b[0];
          var j :| 0 <= j < |b| && b[j] == x;
          assert b[1..][j - 1] == x;
        }
        if x in b[1..] {
          var i :| 1 <= i < |b| && b[i] == x;
          assert x in a && x != a[0];
          var j :| 0 <= j < |a| && a[j] == x;
          assert a[1..][j - 1] == x;
        }
      }
      AscendingUnique(a[1..], b[1..]);
    }
  }

  /** Ascending order, soundness and completeness pin the result down: any
      strictly ascending list holding exactly the matching offsets is it. */
  lemma MatchPositionsUnique(s: string, m: string, k: int, r: seq<int>)
    requires StrictlyAscending(r)
    requires forall p :: p in r <==> IsMatch(s, m, k, p)
    ensures r == MatchPositions(s, m, k)
  {
    AscendingUnique(r, MatchPositions(s, m, k));
  }

  /** The comparator on two three-character strings, position by position. */
  lemma HammingOfThree(w: string, m: string)
    requires |w| == 3 && |m| == 3
    ensures HammingDistance(w, m)
         == (if w[0] != m[0] then 1 else 0) + (if w[1] != m[1] then 1 else 0) + (if w[2] != m[2] then 1 else 0)
  {
    assert w[1..][1..] == w[2..] && m[1..][1..] == m[2..];
    assert w[2..][1..] == [] && m[2..][1..] == [];
    assert HammingDistance(w[2..], m[2..]) == (if w[2] != m[2] then 1 else 0);
    assert HammingDistance(w[1..], m[1..])
        == (if w[1] != m[1] then 1 else 0) + HammingDistance(w[2..], m[2..]);
  }

  /** "ATG" occurs exactly at 0, 4 and 8 of "ATGCATGCATGC". */
  lemma ExampleExactSearch()
    ensures MatchPositions("ATGCATGCATGC", "ATG", 0) == [0, 4, 8]
  {
    var s, m := "ATGCATGCATGC", "ATG";
    forall p ensures p in [0, 4, 8] <==> IsMatch(s, m, 0, p) {
      if 0 <= p <= 9 {
        HammingOfThree(s[p..p + 3], m);
        assert p == 0 || p == 1 || p == 2 || p == 3 || p == 4 || p == 5 || p == 6 || p == 7 || p == 8 || p == 9;
      }
    }
    MatchPositionsUnique(s, m, 0, [0, 4, 8]);
  }

  /** With one mismatch allowed, "ATC" is found where "ATG" occurs. */
  lemma ExampleOneMismatch()
    ensures MatchPositions("ATGCATGCATGC", "ATC", 1) == [0, 4, 8]
  {
    var s, m := "ATGCATGCATGC", "ATC";
    forall p ensures p in [0, 4, 8] <==> IsMatch(s, m, 1, p) {
      if 0 <= p <= 9 {
        HammingOfThree(s[p..p + 3], m);
        assert p == 0 || p == 1 || p == 2 || p == 3 || p == 4 || p == 5 || p == 6 || p == 7 || p == 8 || p == 9;
      }
    }
    MatchPositionsUnique(s, m, 1, [0, 4, 8]);
  }

  /** What `visualize_motif` ends in: nothing drawn, or a scatter request. */
  datatype PlotRequest = PlotRequest(xs: seq<int>, ys: seq<int>, title: string, xLabel: string, path: string)
  datatype Visualization = NoOccurrences | Rendered(request: PlotRequest)

  const PlotDirectory: string := "visualizations"
  const PlotSuffix: string := "_plot.png"

  /** Python's rendering of an optional name inside an f-string. */
  function NameText(name: Option<string>): string
  {
    match name
    case None => "None"
    case Some(n) => n
  }

  /** `os.path.join("visualizations", f"{name}_{motif}_plot.png")`. The second
      part starts with the name text, and a loaded genome's name is either
      unset or the stem of a file's basename, which holds no "/". So that part
      is never absolute, and the join is a plain concatenation with "/". */
  function DefaultPlotPath(name: Option<string>, motif: string): (p: string)
    ensures |p| == |PlotDirectory| + 1 + |NameText(name)| + 1 + |motif| + |PlotSuffix|
    ensures p[..|PlotDirectory| + 1] == PlotDirectory + "/"
    ensures p[|PlotDirectory| + 1 .. |PlotDirectory| + 1 + |NameText(name)| + 1] == NameText(name) + "_"
    ensures p[|p| - |PlotSuffix|..] == PlotSuffix
    ensures p[|PlotDirectory| + 1 + |NameText(name)| + 1 .. |p| - |PlotSuffix|] == motif
  {
    PlotDirectory + "/" + (NameText(name) + "_" + motif + PlotSuffix)
  }

  /** Two motifs of one genome never share a default plot file; this follows
      from the motif being recoverable from the path. */
  lemma DefaultPlotPathInjective(name: Option<string>, m1: string, m2: string)
    requires DefaultPlotPath(name, m1) == DefaultPlotPath(name, m2)
    ensures m1 == m2
  {
  }

  /** A genome with its loaded sequence and the store of search results. */
  class Genome {
    var genomeSequence: string
    var genomeName: Option<string>
    var motifPositions: map<string, seq<int>>
    /** The threshold each stored entry was computed with (the source does not keep it). */
    ghost var thresholds: map<string, int>

    /** The entry for `m`, if any, is the search result for `m` at its threshold. */
    ghost predicate EntryValid(m: string)
      reads this
    {
      m in motifPositions ==>
        m in thresholds && motifPositions[m] == MatchPositions(genomeSequence, m, thresholds[m])
    }

    /** Every stored entry is the search result for its motif. */
    ghost predicate Valid()
      reads this
    {
      && motifPositions.Keys == thresholds.Keys
      && forall m :: EntryValid(m)
    }

    /** A genome whose sequence has been loaded and whose store is empty. */
    constructor (sequence: string, name: Option<string>)
      ensures Valid()
      ensures genomeSequence == sequence && genomeName == name
      ensures motifPositions == map[]
    {
      genomeSequence := sequence;
      genomeName := name;
      motifPositions := map[];
      thresholds := map[];
    }

    /** Resets the entry for `motif`, then appends every accepted offset to it
        in scan order; the entry itself is the result. */
    method FindMotif(motif: string, maxMismatches: int := 0) returns (positions: seq<int>)
      requires Valid()
      modifies this
      ensures Valid()
      ensures positions == MatchPositions(genomeSequence, motif, maxMismatches)
      ensures motifPositions == old(motifPositions)[motif := positions]
      ensures thresholds == old(thresholds)[motif := maxMismatches]
      ensures genomeSequence == old(genomeSequence) && genomeName == old(genomeName)
    {
      motifPositions := motifPositions[motif := []];
      var n := |genomeSequence| - |motif| + 1;
      var i := 0;
      while i < n
        invariant 0 <= i <= ScanLength(genomeSequence, motif)
        invariant genomeSequence == old(genomeSequence) && genomeName == old(genomeName)
        invariant thresholds == old(thresholds)
        invariant motifPositions
               == old(motifPositions)[motif := MatchesBelow(genomeSequence, motif, maxMismatches, i)]
      {
        MatchesBelowStep(genomeSequence, motif, maxMismatches, i);
        var subseq := genomeSequence[i..i + |motif|];
        ghost var done := MatchesBelow(genomeSequence, motif, maxMismatches, i);
        if HammingDistance(subseq, motif) <= maxMismatches {
          motifPositions := motifPositions[motif := motifPositions[motif] + [i]];
          assert motifPositions == old(motifPositions)[motif := done + [i]];
          assert done + [i] == MatchesBelow(genomeSequence, motif, maxMismatches, i + 1);
        } else {
          assert done == MatchesBelow(genomeSequence, motif, maxMismatches, i + 1);
          assert motifPositions == old(motifPositions)[motif := done];
        }
        i := i + 1;
      }
      thresholds := thresholds[motif := maxMismatches];
      positions := motifPositions[motif];
      forall m | m != motif
        ensures EntryValid(m)
      {
        assert old(EntryValid(m));
      }
    }

    /** Number of stored occurrences of `motif`; reading never adds an entry. */
    function CountMotif(motif: string): (n: nat)
      reads this
      ensures motif !in motifPositions ==> n == 0
      ensures Valid() && motif in motifPositions
           ==> n == |MatchSet(genomeSequence, motif, thresholds[motif])|
    {
      if motif in motifPositions then
        MatchCount(genomeSequence, motif);
        assert Valid() ==> EntryValid(motif);
        |motifPositions[motif]|
      else 0
    }

    /** The decision part of `visualize_motif`: no stored occurrence means
        nothing is drawn; otherwise every stored position is drawn at height 1
        and the plot goes to `outputPath` unless that is missing or empty. */
    function VisualizeMotif(motif: string, outputPath: Option<string> := None): (v: Visualization)
      reads this
      ensures v.NoOccurrences? <==> CountMotif(motif) == 0
      ensures v.Rendered? ==>
        && v.request.xs == motifPositions[motif]
        && |v.request.ys| == |v.request.xs|
        && (forall i :: 0 <= i < |v.request.ys| ==> v.request.ys[i] == 1)
        && v.request.xLabel == "Position"
        && v.request.title == "Motif '" + motif + "' positions in genome " + NameText(genomeName)
      ensures v.Rendered? && outputPath.Some? && outputPath.value != ""
           ==> v.request.path == outputPath.value
      ensures v.Rendered? && (outputPath.None? || outputPath.value == "")
           ==> v.request.path == DefaultPlotPath(genomeName, motif)
      ensures v.Rendered? && Valid() ==>
        forall p :: p in v.request.xs ==> IsMatch(genomeSequence, motif, thresholds[motif], p)
    {
      assert Valid() ==> EntryValid(motif);
      var positions := if motif in motifPositions then motifPositions[motif] else [];
      if positions == [] then NoOccurrences
      else
        var title := "Motif '" + motif + "' positions in genome " + NameText(genomeName);
        var path := if outputPath.Some? && outputPath.value != "" then outputPath.value
                    else DefaultPlotPath(genomeName, motif);
        Rendered(PlotRequest(positions, seq(|positions|, _ => 1), title, "Position", path))
    }
  }

  /** Searching the same motif again replaces its entry instead of merging,
      and the result depends only on the sequence, the motif and the threshold. */
  method RepeatSearch(g: Genome, motif: string, first: int, second: int)
    returns (r1: seq<int>, r2: seq<int>)
    requires g.Valid()
    modifies g
    ensures g.Valid()
    ensures r2 == MatchPositions(old(g.genomeSequence), motif, second)
    ensures g.motifPositions == old(g.motifPositions)[motif := r2]
    ensures g.CountMotif(motif) == |r2|
    ensures first == second ==> r1 == r2
  {
    r1 := g.FindMotif(motif, first);
    r2 := g.FindMotif(motif, second);
  }
}
