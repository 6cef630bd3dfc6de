/**
 * The filtering pass of `process_fastq`: walk the records, keep those whose barcode is
 * selected, optionally rewrite their headers, and count what was read and kept.
 */
module Filter {
  import opened Optional
  import opened Text
  import opened Headers
  import opened Fastq

  /** Whether the pass keeps a record. */
  predicate Selected(r: Record, selected: set<string>) {
    CellBarcode(r.header) in selected
  }

  /** The selected records in input order: the reference for what the pass keeps. */
  function Kept(recs: seq<Record>, selected: set<string>): (kept: seq<Record>)
    ensures |kept| <= |recs|
  {
    if recs == [] then []
    else if Selected(recs[0], selected) then [recs[0]] + Kept(recs[1..], selected)
    else Kept(recs[1..], selected)
  }

  /** The barcodes of some records. */
  function Observed(recs: seq<Record>): (cells: set<string>)
    ensures |cells| <= |recs|
  {
    if recs == [] then {} else {CellBarcode(recs[0].header)} + Observed(recs[1..])
  }

  /** The header the pass writes for a kept record; None where `reformat_read_id` fails. */
  function Rewrite(header: string, reformat: bool): (out: Option<string>)
    ensures out.Some? <==> !reformat || '#' in header
    ensures !reformat ==> out == Some(header)
    ensures reformat && out.Some? ==>
      |out.value| >= 1 && out.value[0] == '@' && '#' !in out.value[1..] && '_' !in out.value[1..]
  {
    if reformat then ReformatReadId(header) else Some(header)
  }

  /** How many leading records have a header that can be written. */
  function WritablePrefix(recs: seq<Record>, reformat: bool): (n: nat)
    ensures n <= |recs|
  {
    if recs == [] || Rewrite(recs[0].header, reformat).None? then 0
    else 1 + WritablePrefix(recs[1..], reformat)
  }

  /**
   * The lines written for some records, four per record, up to the first record whose
   * header cannot be rewritten.
   */
  function Emitted(recs: seq<Record>, reformat: bool): (lines: seq<string>)
    ensures |lines| == 4 * WritablePrefix(recs, reformat)
  {
    if recs == [] then []
    else match Rewrite(recs[0].header, reformat)
      case None => []
      case Some(header) =>
        [header, recs[0].sequence, recs[0].separator, recs[0].quality]
        + Emitted(recs[1..], reformat)
  }

  /** The counters and outputs the pass accumulates. */
  datatype Tally = Tally(output: seq<string>, readCount: nat, keptCount: nat, cellsFound: set<string>)

  /** The state before the first record. */
  const Start := Tally([], 0, 0, {})

  /**
   * How the pass ends: after the last record, or at the first kept record whose header
   * lacks a `#` when reformatting (the IndexError), with what was written until then.
   */
  datatype Outcome = Finished(tally: Tally) | Malformed(header: string, tally: Tally)

  /**
   * The tally after the pass reads record `r`: every record is counted; a selected one
   * is written and its barcode found. None when it is selected but its header cannot be
   * rewritten.
   */
  function Visit(r: Record, selected: set<string>, reformat: bool, t: Tally): Option<Tally> {
    var barcode := CellBarcode(r.header);
    if barcode !in selected then Some(t.(readCount := t.readCount + 1))
    else match Rewrite(r.header, reformat)
      case None => None
      case Some(header) =>
        Some(Tally(t.output + [header, r.sequence, r.separator, r.quality],
                   t.readCount + 1, t.keptCount + 1, t.cellsFound + {barcode}))
  }

  /** The pass, record by record, from the tally `t`. */
  function Run(recs: seq<Record>, selected: set<string>, reformat: bool, t: Tally): Outcome
    decreases |recs|
  {
    if recs == [] then Finished(t)
    else match Visit(recs[0], selected, reformat, t)
      case None => Malformed(recs[0].header, t.(readCount := t.readCount + 1))
      case Some(next) => Run(recs[1..], selected, reformat, next)
  }

  // ---------------------------------------------------------------------------------
  // Properties of the reference definitions

  /** Exactly the selected records are kept. */
  lemma {:induction false} KeptMembers(recs: seq<Record>, selected: set<string>)
    ensures forall r :: r in Kept(recs, selected) <==> r in recs && Selected(r, selected)
  {
    if recs != [] {
      KeptMembers(recs[1..], selected);
      assert recs == [recs[0]] + recs[1..];
    }
  }

  /** Keeping is stable: it commutes with concatenation, so input order is preserved. */
  lemma {:induction false} KeptAppend(a: seq<Record>, b: seq<Record>, selected: set<string>)
    ensures Kept(a + b, selected) == Kept(a, selected) + Kept(b, selected)
  {
    if a != [] {
      assert (a + b)[0] == a[0] && (a + b)[1..] == a[1..] + b;
      KeptAppend(a[1..], b, selected);
      var x, y := Kept(a[1..], selected), Kept(b, selected);
      assert [a[0]] + (x + y) == ([a[0]] + x) + y;
    } else {
      assert a + b == b;
    }
  }

  /** Filtering kept records again keeps all of them. */
  lemma {:induction false} KeptIdempotent(recs: seq<Record>, selected: set<string>)
    ensures Kept(Kept(recs, selected), selected) == Kept(recs, selected)
  {
    if recs != [] {
      KeptIdempotent(recs[1..], selected);
      if Selected(recs[0], selected) {
        var rest := Kept(recs[1..], selected);
        assert ([recs[0]] + rest)[1..] == rest;
      }
    }
  }

  /** A barcode is observed exactly when some record carries it. */
  lemma {:induction false} ObservedMembers(recs: seq<Record>, b: string)
    ensures b in Observed(recs) <==> exists i :: 0 <= i < |recs| && CellBarcode(recs[i].header) == b
  {
    if recs != [] {
      ObservedMembers(recs[1..], b);
      if b in Observed(recs[1..]) {
        var i :| 0 <= i < |recs[1..]| && CellBarcode(recs[1..][i].header) == b;
        assert CellBarcode(recs[i + 1].header) == b;
      }
      if exists i :: 0 <= i < |recs| && CellBarcode(recs[i].header) == b {
        var i :| 0 <= i < |recs| && CellBarcode(recs[i].header) == b;
        if i > 0 {
          assert CellBarcode(recs[1..][i - 1].header) == b;
        }
      }
    }
  }

  /** The barcodes of the kept records are the observed barcodes that are selected. */
  lemma {:induction false} ObservedKept(recs: seq<Record>, selected: set<string>)
    ensures Observed(Kept(recs, selected)) == Observed(recs) * selected
  {
    if recs != [] {
      ObservedKept(recs[1..], selected);
      if Selected(recs[0], selected) {
        var rest := Kept(recs[1..], selected);
        assert ([recs[0]] + rest)[0] == recs[0] && ([recs[0]] + rest)[1..] == rest;
      }
    }
  }

  /** Every leading record counted by WritablePrefix can be rewritten, and the next cannot. */
  lemma {:induction false} WritablePrefixSpec(recs: seq<Record>, reformat: bool)
    ensures forall j :: 0 <= j < WritablePrefix(recs, reformat) ==> Rewrite(recs[j].header, reformat).Some?
    ensures WritablePrefix(recs, reformat) < |recs| ==>
      Rewrite(recs[WritablePrefix(recs, reformat)].header, reformat).None?
  {
    if recs != [] && Rewrite(recs[0].header, reformat).Some? {
      WritablePrefixSpec(recs[1..], reformat);
      forall j | 0 < j < WritablePrefix(recs, reformat)
        ensures Rewrite(recs[j].header, reformat).Some?
      {
        assert recs[j] == recs[1..][j - 1];
      }
    }
  }

  /** Without `--reformat` every header can be written. */
  lemma {:induction false} WritableWithoutReformat(recs: seq<Record>)
    ensures WritablePrefix(recs, false) == |recs|
  {
    if recs != [] {
      WritableWithoutReformat(recs[1..]);
    }
  }

  /**
   * Output record `k` is lines `4k` to `4k+3`: the rewritten header of record `k`, then
   * its sequence, separator and quality lines unchanged.
   */
  lemma {:induction false} EmittedAt(recs: seq<Record>, reformat: bool, k: nat, at: nat)
    requires k < WritablePrefix(recs, reformat) && at == 4 * k
    ensures Rewrite(recs[k].header, reformat).Some?
    ensures Emitted(recs, reformat)[at..at + 4]
         == [Rewrite(recs[k].header, reformat).value, recs[k].sequence, recs[k].separator, recs[k].quality]
  {
    if k > 0 {
      EmittedShift(recs, reformat, at);
      EmittedAt(recs[1..], reformat, k - 1, at - 4);
      assert recs[1..][k - 1] == recs[k];
    } else {
      var first := EmittedFirst(recs, reformat);
      assert Emitted(recs, reformat)[0..4] == first;
    }
  }

  /** A writable first record contributes the first four lines, `first`. */
  lemma EmittedFirst(recs: seq<Record>, reformat: bool) returns (first: seq<string>)
    requires 0 < WritablePrefix(recs, reformat)
    ensures Rewrite(recs[0].header, reformat).Some?
    ensures first == [Rewrite(recs[0].header, reformat).value, recs[0].sequence, recs[0].separator, recs[0].quality]
    ensures Emitted(recs, reformat) == first + Emitted(recs[1..], reformat)
    ensures WritablePrefix(recs, reformat) == 1 + WritablePrefix(recs[1..], reformat)
  {
    first := [Rewrite(recs[0].header, reformat).value, recs[0].sequence, recs[0].separator, recs[0].quality];
  }

  /** Past the first record, the output lines are those of the records after it. */
  lemma EmittedShift(recs: seq<Record>, reformat: bool, at: nat)
    requires 0 < WritablePrefix(recs, reformat) && 4 <= at && at + 4 <= |Emitted(recs, reformat)|
    ensures at <= |Emitted(recs[1..], reformat)|
    ensures Emitted(recs, reformat)[at..at + 4] == Emitted(recs[1..], reformat)[at - 4..at]
  {
    var first := EmittedFirst(recs, reformat);
    SliceAfterRecord(first, Emitted(recs[1..], reformat), at - 4);
  }

  /** Past the four lines of a first record, the lines are those of the records after it. */
  lemma SliceAfterRecord(first: seq<string>, rest: seq<string>, j: nat)
    requires |first| == 4 && j + 4 <= |rest|
    ensures (first + rest)[4 + j..4 + j + 4] == rest[j..j + 4]
  {
  }

  // ---------------------------------------------------------------------------------
  // The pass against the reference definitions

  /** The step of the pass over a record it does not keep. */
  lemma RunSkip(recs: seq<Record>, selected: set<string>, reformat: bool, t: Tally)
    requires recs != [] && !Selected(recs[0], selected)
    ensures Run(recs, selected, reformat, t)
         == Run(recs[1..], selected, reformat, t.(readCount := t.readCount + 1))
  {
  }

  /** The step of the pass over a kept record whose header can be written. */
  lemma RunKeep(recs: seq<Record>, selected: set<string>, reformat: bool, t: Tally)
    requires recs != [] && Selected(recs[0], selected)
    requires Rewrite(recs[0].header, reformat).Some?
    ensures Run(recs, selected, reformat, t)
         == Run(recs[1..], selected, reformat, Visit(recs[0], selected, reformat, t).value)
  {
  }

  /** The step of the pass over a kept record whose header cannot be rewritten. */
  lemma RunFail(recs: seq<Record>, selected: set<string>, reformat: bool, t: Tally)
    requires recs != [] && Selected(recs[0], selected)
    requires Rewrite(recs[0].header, reformat).None?
    ensures Run(recs, selected, reformat, t) == Malformed(recs[0].header, t.(readCount := t.readCount + 1))
  {
  }

  /** Keeping a record whose header can be written puts its four lines first. */
  lemma KeepFirst(r: Record, rest: seq<Record>, reformat: bool)
    requires Rewrite(r.header, reformat).Some?
    ensures WritablePrefix([r] + rest, reformat) == 1 + WritablePrefix(rest, reformat)
    ensures Emitted([r] + rest, reformat)
         == [Rewrite(r.header, reformat).value, r.sequence, r.separator, r.quality] + Emitted(rest, reformat)
  {
    assert ([r] + rest)[0] == r && ([r] + rest)[1..] == rest;
  }

  /**
   * What the pass writes from the tally `t`: the lines of the kept records up to the
   * first one whose header cannot be rewritten; it stops there with Malformed and that
   * header, or it finishes when there is no such record.
   */
  ghost predicate WritesKept(recs: seq<Record>, selected: set<string>, reformat: bool, t: Tally) {
    var kept := Kept(recs, selected);
    var n := WritablePrefix(kept, reformat);
    var out := Run(recs, selected, reformat, t);
    && (out.Finished? <==> n == |kept|)
    && out.tally.output == t.output + Emitted(kept, reformat)
    && (out.Malformed? ==> out.header == kept[n].header)
  }

  /** What the pass counts from the tally `t`: the kept records it writes and their barcodes. */
  ghost predicate CountsKept(recs: seq<Record>, selected: set<string>, reformat: bool, t: Tally) {
    var kept := Kept(recs, selected);
    var n := WritablePrefix(kept, reformat);
    var out := Run(recs, selected, reformat, t);
    && out.tally.keptCount == t.keptCount + n
    && out.tally.cellsFound == t.cellsFound + Observed(kept[..n])
  }

  /** WritesKept carries over a kept record whose header can be written. */
  lemma WritesKeptStep(recs: seq<Record>, selected: set<string>, reformat: bool, t: Tally)
    requires recs != [] && Selected(recs[0], selected)
    requires Rewrite(recs[0].header, reformat).Some?
    requires WritesKept(recs[1..], selected, reformat,
                        Visit(recs[0], selected, reformat, t).value)
    ensures WritesKept(recs, selected, reformat, t)
  {
    var r := recs[0];
    var first := [Rewrite(r.header, reformat).value, r.sequence, r.separator, r.quality];
    var next := Visit(r, selected, reformat, t).value;
    var rest := Kept(recs[1..], selected);
    var emitted := Emitted(rest, reformat);
    assert Kept(recs, selected) == [r] + rest;
    RunKeep(recs, selected, reformat, t);
    KeepFirst(r, rest, reformat);
    assert Run(recs, selected, reformat, t).tally.output == t.output + (first + emitted) by {
      assert next.output == t.output + first;
      assert (t.output + first) + emitted == t.output + (first + emitted);
    }
    var m := WritablePrefix(rest, reformat);
    if m < |rest| {
      assert ([r] + rest)[m + 1] == rest[m];
    }
  }

  /** CountsKept carries over a kept record whose header can be written. */
  lemma CountsKeptStep(recs: seq<Record>, selected: set<string>, reformat: bool, t: Tally)
    requires recs != [] && Selected(recs[0], selected)
    requires Rewrite(recs[0].header, reformat).Some?
    requires CountsKept(recs[1..], selected, reformat,
                        Visit(recs[0], selected, reformat, t).value)
    ensures CountsKept(recs, selected, reformat, t)
  {
    var r := recs[0];
    RunKeep(recs, selected, reformat, t);
    var rest := Kept(recs[1..], selected);
    assert Kept(recs, selected) == [r] + rest;
    KeepFirst(r, rest, reformat);
    var m := WritablePrefix(rest, reformat);
    assert ([r] + rest)[..m + 1] == [r] + rest[..m];
    assert ([r] + rest[..m])[1..] == rest[..m];
  }

  /** From any tally, the pass writes what WritesKept describes. */
  lemma {:induction false} RunOutput(recs: seq<Record>, selected: set<string>, reformat: bool, t: Tally)
    ensures WritesKept(recs, selected, reformat, t)
    decreases |recs|
  {
    if recs != [] {
      var r := recs[0];
      if !Selected(r, selected) {
        RunSkip(recs, selected, reformat, t);
        RunOutput(recs[1..], selected, reformat, t.(readCount := t.readCount + 1));
      } else if Rewrite(r.header, reformat).None? {
        RunFail(recs, selected, reformat, t);
      } else {
        RunOutput(recs[1..], selected, reformat, Visit(r, selected, reformat, t).value);
        WritesKeptStep(recs, selected, reformat, t);
      }
    }
  }

  /** From any tally, the pass counts what CountsKept describes. */
  lemma {:induction false} RunCounted(recs: seq<Record>, selected: set<string>, reformat: bool, t: Tally)
    ensures CountsKept(recs, selected, reformat, t)
    decreases |recs|
  {
    if recs != [] {
      var r := recs[0];
      if !Selected(r, selected) {
        RunSkip(recs, selected, reformat, t);
        RunCounted(recs[1..], selected, reformat, t.(readCount := t.readCount + 1));
      } else if Rewrite(r.header, reformat).None? {
        RunFail(recs, selected, reformat, t);
      } else {
        RunCounted(recs[1..], selected, reformat, Visit(r, selected, reformat, t).value);
        CountsKeptStep(recs, selected, reformat, t);
      }
    }
  }

  /** The pass counts every record it goes through: all of them when it finishes. */
  lemma {:induction false} RunReadCount(recs: seq<Record>, selected: set<string>, reformat: bool, t: Tally)
    ensures var out := Run(recs, selected, reformat, t);
      && out.tally.readCount <= t.readCount + |recs|
      && (out.Finished? ==> out.tally.readCount == t.readCount + |recs|)
      && (out.Malformed? ==> t.readCount < out.tally.readCount)
    decreases |recs|
  {
    if recs != [] {
      var r := recs[0];
      if !Selected(r, selected) {
        RunSkip(recs, selected, reformat, t);
        RunReadCount(recs[1..], selected, reformat, t.(readCount := t.readCount + 1));
      } else if Rewrite(r.header, reformat).None? {
        RunFail(recs, selected, reformat, t);
      } else {
        RunKeep(recs, selected, reformat, t);
        RunReadCount(recs[1..], selected, reformat, Visit(r, selected, reformat, t).value);
      }
    }
  }

  /**
   * The pass from the start: it finishes exactly when every kept header can be written,
   * and then it has read every record, written the kept records in input order (four
   * lines each), kept no more than it read, and found exactly the selected barcodes that
   * occur in the input.
   */
  lemma FilterFinished(recs: seq<Record>, selected: set<string>, reformat: bool)
    ensures var kept := Kept(recs, selected);
      var out := Run(recs, selected, reformat, Start);
      && (out.Finished? <==> WritablePrefix(kept, reformat) == |kept|)
      && (out.Finished? ==>
            && out.tally.output == Emitted(kept, reformat)
            && |out.tally.output| == 4 * out.tally.keptCount
            && out.tally.readCount == |recs|
            && out.tally.keptCount == |kept| <= out.tally.readCount
            && out.tally.cellsFound == Observed(recs) * selected)
  {
    var kept := Kept(recs, selected);
    RunOutput(recs, selected, reformat, Start);
    RunCounted(recs, selected, reformat, Start);
    RunReadCount(recs, selected, reformat, Start);
    assert kept[..|kept|] == kept;
    ObservedKept(recs, selected);
  }

  /**
   * Every barcode the pass reports as found is selected and is the barcode of some kept
   * record, whether it finished or stopped early.
   */
  lemma FoundCellsAreSelected(recs: seq<Record>, selected: set<string>, reformat: bool, b: string)
    requires b in Run(recs, selected, reformat, Start).tally.cellsFound
    ensures b in selected
    ensures exists r :: r in recs && Selected(r, selected) && CellBarcode(r.header) == b
  {
    var kept := Kept(recs, selected);
    var n := WritablePrefix(kept, reformat);
    RunCounted(recs, selected, reformat, Start);
    ObservedMembers(kept[..n], b);
    var i :| 0 <= i < n && CellBarcode(kept[..n][i].header) == b;
    KeptMembers(recs, selected);
    assert kept[i] in kept;
  }

  /** Without `--reformat` the pass always finishes. */
  lemma FinishesWithoutReformat(recs: seq<Record>, selected: set<string>)
    ensures Run(recs, selected, false, Start).Finished?
  {
    RunOutput(recs, selected, false, Start);
    WritableWithoutReformat(Kept(recs, selected));
  }

  /**
   * With `--reformat` the pass fails exactly when some selected record has a header
   * without `#`, and the header it reports is one of those (MalformedFirst: the first).
   */
  lemma MalformedOnlyWithoutHash(recs: seq<Record>, selected: set<string>)
    ensures var out := Run(recs, selected, true, Start);
      && (out.Malformed? <==> exists r :: r in recs && Selected(r, selected) && '#' !in r.header)
      && (out.Malformed? ==> '#' !in out.header && CellBarcode(out.header) in selected)
  {
    var kept := Kept(recs, selected);
    var n := WritablePrefix(kept, true);
    var out := Run(recs, selected, true, Start);
    RunOutput(recs, selected, true, Start);
    WritablePrefixSpec(kept, true);
    KeptMembers(recs, selected);
    if out.Malformed? {
      assert kept[n] in kept;
    } else {
      forall r | r in recs && Selected(r, selected)
        ensures '#' in r.header
      {
        assert r in kept;
        var j :| 0 <= j < |kept| && kept[j] == r;
      }
    }
  }

  /**
   * A failing pass reports the first kept header that cannot be rewritten: that of kept
   * record `k`, every kept header before which has a `#`.
   */
  lemma MalformedFirst(recs: seq<Record>, selected: set<string>, reformat: bool) returns (k: nat)
    requires Run(recs, selected, reformat, Start).Malformed?
    ensures k < |Kept(recs, selected)|
    ensures Run(recs, selected, reformat, Start).header == Kept(recs, selected)[k].header
    ensures Rewrite(Kept(recs, selected)[k].header, reformat).None?
    ensures forall j :: 0 <= j < k ==> Rewrite(Kept(recs, selected)[j].header, reformat).Some?
    ensures reformat
    ensures forall j :: 0 <= j < k ==> '#' in Kept(recs, selected)[j].header
  {
    var kept := Kept(recs, selected);
    k := WritablePrefix(kept, reformat);
    RunOutput(recs, selected, reformat, Start);
    WritablePrefixSpec(kept, reformat);
    if !reformat {
      WritableWithoutReformat(kept);
    }
  }

  // ---------------------------------------------------------------------------------
  // Reading the output back

  /** A file whose lines are all stripped reads as itself. */
  lemma {:induction false} StripAllStripped(lines: seq<string>)
    requires forall i :: 0 <= i < |lines| ==> Stripped(lines[i])
    ensures StripAll(lines) == lines
  {
    if lines != [] {
      StripAllStripped(lines[1..]);
      assert lines == [lines[0]] + lines[1..];
    }
  }

  /** The lines written for clean records, read back without reformatting, are those records. */
  lemma {:induction false} EmittedReadsBack(recs: seq<Record>)
    requires forall r :: r in recs ==> Clean(r)
    ensures RecordsFrom(Emitted(recs, false), 0) == recs
  {
    var lines := Emitted(recs, false);
    if recs == [] {
      assert LineAt(lines, 0) == [];
    } else {
      var r := recs[0];
      var first := [r.header, r.sequence, r.separator, r.quality];
      var rest := Emitted(recs[1..], false);
      assert lines == first + rest;
      assert recs[0] in recs;
      assert RecordAt(lines, 0) == r;
      assert forall q :: q in recs[1..] ==> q in recs;
      EmittedReadsBack(recs[1..]);
      RecordsFromShift(first, rest, 0, 4);
      assert RecordsFrom(lines, 0) == [r] + RecordsFrom(lines, 4);
      assert recs == [r] + recs[1..];
    }
  }

  /** Every line the pass writes without reformatting is stripped. */
  lemma {:induction false} EmittedStripped(recs: seq<Record>)
    requires forall r :: r in recs ==> Clean(r)
    ensures forall i :: 0 <= i < |Emitted(recs, false)| ==> Stripped(Emitted(recs, false)[i])
  {
    if recs != [] {
      assert recs[0] in recs;
      assert forall q :: q in recs[1..] ==> q in recs;
      EmittedStripped(recs[1..]);
      var r := recs[0];
      var first := [r.header, r.sequence, r.separator, r.quality];
      var rest := Emitted(recs[1..], false);
      assert Emitted(recs, false) == first + rest;
      forall i | 0 <= i < |first + rest|
        ensures Stripped((first + rest)[i])
      {
        if i >= 4 {
          assert (first + rest)[i] == rest[i - 4];
        }
      }
    }
  }

  /**
   * Without `--reformat`, reading the output file back yields exactly the kept records,
   * and filtering it again with the same selection writes the same lines: the pass is
   * idempotent.
   */
  lemma FilterIdempotent(lines: seq<string>, selected: set<string>)
    ensures var out := Run(Parse(lines), selected, false, Start);
      && out.Finished?
      && Parse(out.tally.output) == Kept(Parse(lines), selected)
      && Run(Parse(out.tally.output), selected, false, Start)
         == Finished(Tally(out.tally.output, out.tally.keptCount, out.tally.keptCount, out.tally.cellsFound))
  {
    var recs := Parse(lines);
    var kept := Kept(recs, selected);
    var out := Run(recs, selected, false, Start);
    FinishesWithoutReformat(recs, selected);
    FilterFinished(recs, selected, false);
    ParseClean(lines);
    KeptMembers(recs, selected);
    EmittedStripped(kept);
    StripAllStripped(out.tally.output);
    EmittedReadsBack(kept);
    assert Parse(out.tally.output) == kept;
    KeptIdempotent(recs, selected);
    FinishesWithoutReformat(kept, selected);
    FilterFinished(kept, selected, false);
    ObservedKept(recs, selected);
    ObservedKept(kept, selected);
  }

  // ---------------------------------------------------------------------------------
  // The pass as the source runs it

  /**
   * The body of the second loop of `process_fastq` for one record: count it, and when its
   * barcode is selected, write its four lines (the header rewritten when `reformat` is
   * set) and note its barcode. None where `reformat_read_id` raises. This is `Visit` as
   * statements; it keeps the loop of FilterReads small enough to verify quickly.
   */
  method Consume(r: Record, selected: set<string>, reformat: bool, t: Tally) returns (next: Option<Tally>)
    ensures next == Visit(r, selected, reformat, t)
  {
    var barcode := CellBarcode(r.header);
    if barcode !in selected {
      return Some(t.(readCount := t.readCount + 1));
    }
    var written := Rewrite(r.header, reformat);
    if written.None? {
      return None;
    }
    next := Some(Tally(t.output + [written.value, r.sequence, r.separator, r.quality],
                       t.readCount + 1, t.keptCount + 1, t.cellsFound + {barcode}));
  }

  /**
   * The second loop of `process_fastq`: read four stripped lines at a time until a blank
   * header and consume each record; stop at the first header `reformat_read_id` rejects.
   */
  method FilterReads(lines: seq<string>, selected: set<string>, reformat: bool) returns (outcome: Outcome)
    ensures outcome == Run(Parse(lines), selected, reformat, Start)
  {
    var tally := Start;
    var pos := 0;
    ghost var stripped := StripAll(lines);
    while true
      invariant Run(RecordsFrom(stripped, pos), selected, reformat, tally)
             == Run(Parse(lines), selected, reformat, Start)
      decreases |lines| - pos
    {
      ghost var recs := RecordsFrom(stripped, pos);
      var header := ReadLine(lines, pos);
      if header == [] {
        break;
      }
      var sequence := ReadLine(lines, pos + 1);
      var separator := ReadLine(lines, pos + 2);
      var quality := ReadLine(lines, pos + 3);
      RecordsFromStep(stripped, pos);
      var r := Record(header, sequence, separator, quality);
      assert recs[0] == r;
      var next := Consume(r, selected, reformat, tally);
      if next.None? {
        return Malformed(header, tally.(readCount := tally.readCount + 1));
      }
      tally := next.value;
      pos := pos + 4;
    }
    outcome := Finished(tally);
  }
}
