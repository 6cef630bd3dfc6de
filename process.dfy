/**
 * `process_fastq`: choose the cells (from the allow-list, or at random from the barcodes
 * present), filter the reads, report the requested cells never seen and write the sidecar.
 * The input file is its lines; the output file and the sidecar file are returned as lines.
 */
module Downsample {
  import opened Optional
  import opened Headers
  import opened Fastq
  import opened Filter
  import opened Selection
  import opened Allowlist
  import opened Report

  /** Why `process_fastq` stops before the end. */
  datatype Failure =
    /** `random.sample` raises ValueError: the requested count is negative. */
    | NegativeSampleSize(requested: int)
    /**
     * `reformat_read_id` raises IndexError on a kept header without `#`; the output file
     * keeps what was written before it.
     */
    | MalformedHeader(selected: set<string>, header: string, partial: Tally)

  /** What a completed run produces. */
  datatype Summary = Summary(
    selected: set<string>,
    tally: Tally,
    /** The requested barcodes never found; only computed when an allow-list is given. */
    missing: Option<set<string>>,
    /** The lines of `<output>.barcodes.txt`. */
    sidecar: seq<string>)

  datatype Outcome = Completed(summary: Summary) | Failed(failure: Failure)

  /**
   * The cells a run may select: those of the allow-list when one is given, whatever the
   * count; otherwise any `min(num_cells or 50, |observed|)` of the barcodes in the input.
   */
  ghost predicate Chosen(selected: set<string>, input: seq<string>, numCells: Option<int>,
                         allowlist: Option<seq<string>>) {
    match allowlist
    case Some(lines) => selected == AllowSet(lines)
    case None =>
      var observed := Observed(Parse(input));
      selected <= observed && SampleSize(numCells, |observed|) == Some(|selected|)
  }

  method ProcessFastq(input: seq<string>, numCells: Option<int>, allowlist: Option<seq<string>>,
                      reformat: bool) returns (outcome: Outcome)
    ensures outcome.Failed? && outcome.failure.NegativeSampleSize? <==>
      allowlist.None? && Requested(numCells) < 0
    ensures outcome.Failed? && outcome.failure.NegativeSampleSize? ==>
      outcome.failure.requested == Requested(numCells)
    ensures outcome.Failed? && outcome.failure.MalformedHeader? ==>
      var f := outcome.failure;
      && Chosen(f.selected, input, numCells, allowlist)
      && Run(Parse(input), f.selected, reformat, Start) == Malformed(f.header, f.partial)
    ensures outcome.Completed? ==>
      var s := outcome.summary;
      && Chosen(s.selected, input, numCells, allowlist)
      && Run(Parse(input), s.selected, reformat, Start) == Finished(s.tally)
      && s.missing == (if allowlist.Some? then Some(Missing(s.selected, s.tally.cellsFound)) else None)
      && SidecarListing(s.sidecar, s.tally.cellsFound)
      && |s.sidecar| == |s.tally.cellsFound|
  {
    var selected: set<string>;
    if allowlist.Some? {
      selected := ReadBarcodes(allowlist.value);
    } else {
      var observed := CollectBarcodes(input);
      var size := SampleSize(numCells, |observed|);
      if size.None? {
        return Failed(NegativeSampleSize(Requested(numCells)));
      }
      selected := SampleCells(observed, size.value);
    }
    var pass := FilterReads(input, selected, reformat);
    if pass.Malformed? {
      return Failed(MalformedHeader(selected, pass.header, pass.tally));
    }
    var found := pass.tally.cellsFound;
    var missing := if allowlist.Some? then Some(Missing(selected, found)) else None;
    var sidecar := WriteSidecar(found);
    outcome := Completed(Summary(selected, pass.tally, missing, sidecar));
  }

  /**
   * In random mode every selected cell is found: the selection is drawn from the barcodes
   * of the input, and a finished pass finds every selected barcode that occurs.
   */
  lemma SampledCellsAllFound(recs: seq<Record>, selected: set<string>, reformat: bool)
    requires selected <= Observed(recs)
    requires Run(recs, selected, reformat, Start).Finished?
    ensures Run(recs, selected, reformat, Start).tally.cellsFound == selected
    ensures Missing(selected, Run(recs, selected, reformat, Start).tally.cellsFound) == {}
  {
    FilterFinished(recs, selected, reformat);
  }

  /**
   * After a finished pass, a requested barcode is reported missing exactly when no record
   * of the input carries it.
   */
  lemma MissingMeansAbsent(recs: seq<Record>, selected: set<string>, reformat: bool, b: string)
    requires Run(recs, selected, reformat, Start).Finished?
    ensures b in Missing(selected, Run(recs, selected, reformat, Start).tally.cellsFound) <==>
      b in selected && forall k :: 0 <= k < |recs| ==> CellBarcode(recs[k].header) != b
  {
    FilterFinished(recs, selected, reformat);
    ObservedMembers(recs, b);
  }

  /**
   * Every line of the sidecar names a selected cell that some kept record carries, whether
   * the cells came from an allow-list or from sampling.
   */
  lemma SidecarWithinSelection(recs: seq<Record>, selected: set<string>, reformat: bool,
                               sidecar: seq<string>, i: nat)
    requires SidecarListing(sidecar, Run(recs, selected, reformat, Start).tally.cellsFound)
    requires i < |sidecar|
    ensures sidecar[i][1..] in selected
    ensures exists r :: r in recs && Selected(r, selected) && CellBarcode(r.header) == sidecar[i][1..]
  {
    FoundCellsAreSelected(recs, selected, reformat, sidecar[i][1..]);
  }
}
