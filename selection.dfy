/**
 * Random mode of `process_fastq`: the first pass collects the barcodes present in the
 * input, then `random.sample` picks `min(num_cells or 50, |observed|)` of them.
 */
module Selection {
  import opened Optional
  import opened Headers
  import opened Fastq
  import opened Filter

  /**
   * The first loop of `process_fastq`: read a header every four lines until a blank one
   * and collect its barcode; the three lines after each header are skipped unread.
   */
  method CollectBarcodes(lines: seq<string>) returns (cells: set<string>)
    ensures cells == Observed(Parse(lines))
  {
    cells := {};
    var pos := 0;
    ghost var stripped := StripAll(lines);
    ghost var all := Observed(RecordsFrom(stripped, 0));
    while true
      invariant cells + Observed(RecordsFrom(stripped, pos)) == all
      decreases |lines| - pos
    {
      var header := ReadLine(lines, pos);
      if header == [] {
        break;
      }
      assert cells + {CellBarcode(header)} + Observed(RecordsFrom(stripped, pos + 4)) == all by {
        ObservedStep(stripped, pos);
      }
      cells := cells + {CellBarcode(header)};
      pos := pos + 4;
    }
  }

  /** A non-blank header at `pos` adds its barcode to those of the records after it. */
  lemma ObservedStep(stripped: seq<string>, pos: nat)
    requires LineAt(stripped, pos) != []
    ensures Observed(RecordsFrom(stripped, pos))
         == {CellBarcode(LineAt(stripped, pos))} + Observed(RecordsFrom(stripped, pos + 4))
  {
    RecordsFromStep(stripped, pos);
  }

  /** The barcodes the first pass collects are those of the records the second pass reads. */
  lemma CollectedAreObserved(lines: seq<string>, b: string)
    ensures b in Observed(Parse(lines)) <==>
      exists k :: 0 <= k < |Parse(lines)| && CellBarcode(Parse(lines)[k].header) == b
    ensures |Observed(Parse(lines))| <= |Parse(lines)|
  {
    ObservedMembers(Parse(lines), b);
  }

  /** The default number of cells when none is given. */
  const DefaultCells := 50

  /** `num_cells or 50`: an absent or zero count means the default. */
  function Requested(numCells: Option<int>): (n: int)
    ensures n != 0
    ensures numCells == None || numCells == Some(0) ==> n == DefaultCells
    ensures numCells.Some? && numCells.value != 0 ==> n == numCells.value
  {
    match numCells
    case None => DefaultCells
    case Some(n) => if n == 0 then DefaultCells else n
  }

  /**
   * The size passed to `random.sample`: the smaller of the requested count and the number
   * of barcodes available, so a request beyond what the input holds is clamped. None where
   * `random.sample` raises ValueError, which is when the request is negative.
   */
  function SampleSize(numCells: Option<int>, available: nat): (size: Option<nat>)
    ensures size.None? <==> Requested(numCells) < 0
    ensures size.Some? ==>
      && size.value <= available
      && size.value <= Requested(numCells)
      && (size.value == available || size.value == Requested(numCells))
  {
    var n := Requested(numCells);
    if n < 0 then None
    else if n < available then Some(n)
    else Some(available)
  }

  /** With no count given (as `main` leaves it when no allow-list is given), 50 cells are asked for. */
  lemma DefaultSampleSize(available: nat)
    ensures SampleSize(None, available) == Some(if available < DefaultCells then available else DefaultCells)
    ensures SampleSize(Some(0), available) == SampleSize(None, available)
  {
  }

  /**
   * `random.sample(list(observed), size)`: `size` distinct barcodes out of those observed.
   * Which ones is left to the nondeterministic choice below; the random generator is not
   * part of this model.
   */
  method SampleCells(observed: set<string>, size: nat) returns (selected: set<string>)
    requires size <= |observed|
    ensures selected <= observed
    ensures |selected| == size
  {
    selected := {};
    var remaining := observed;
    while |selected| < size
      invariant selected <= observed && remaining <= observed
      invariant selected !! remaining
      invariant |remaining| == |observed| - |selected|
      invariant |selected| <= size
      decreases size - |selected|
    {
      var b :| b in remaining;
      selected := selected + {b};
      remaining := remaining - {b};
    }
  }
}
