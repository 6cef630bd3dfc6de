/**
 * How both passes walk a FASTQ file: four lines per record, every line stripped, and
 * reading stops at the first header that is empty once stripped.
 *
 * Both passes strip each line as they read it; since stripping one line does not depend
 * on the others, the walk is stated over the stripped lines, `StripAll(lines)`.
 */
module Fastq {
  import opened Text

  /** One read as the filtering pass sees it: its four lines, each stripped. */
  datatype Record = Record(header: string, sequence: string, separator: string, quality: string)

  /** Line `i` of the file; past the end the reader yields "" as `readline` does at EOF. */
  function LineAt(lines: seq<string>, i: nat): string {
    if i < |lines| then lines[i] else ""
  }

  /** Every line of the file, stripped (line by line: see StripAllAt). */
  function StripAll(lines: seq<string>): (stripped: seq<string>)
    ensures |stripped| == |lines|
  {
    seq(|lines|, i requires 0 <= i < |lines| => Strip(lines[i]))
  }

  /** Reading line `i` and stripping it gives line `i` of the stripped file, also past the end. */
  lemma {:induction false} StripAllAt(lines: seq<string>, i: nat)
    ensures LineAt(StripAll(lines), i) == Strip(LineAt(lines, i))
  {
  }

  /**
   * `f.readline().strip()` at line `i`: the stripped line, or "" past the end of the file.
   * Both passes read through this method rather than the expression it computes, so that
   * their loops see the stripped file and not the body of `Strip`.
   */
  method ReadLine(lines: seq<string>, i: nat) returns (line: string)
    ensures line == LineAt(StripAll(lines), i)
  {
    line := Strip(LineAt(lines, i));
    StripAllAt(lines, i);
  }

  /** The record whose header is line `pos` of the stripped file. */
  function RecordAt(stripped: seq<string>, pos: nat): Record {
    Record(LineAt(stripped, pos), LineAt(stripped, pos + 1),
           LineAt(stripped, pos + 2), LineAt(stripped, pos + 3))
  }

  /** The records read from line `pos` on, up to the first empty header. */
  function RecordsFrom(stripped: seq<string>, pos: nat): seq<Record>
    decreases |stripped| - pos
  {
    if LineAt(stripped, pos) == [] then []
    else [RecordAt(stripped, pos)] + RecordsFrom(stripped, pos + 4)
  }

  /** The records of a whole file. */
  function Parse(lines: seq<string>): seq<Record> {
    RecordsFrom(StripAll(lines), 0)
  }

  /** A record as the reader produces it: a non-empty header and four stripped lines. */
  predicate Clean(r: Record) {
    r.header != [] && Stripped(r.header) && Stripped(r.sequence)
    && Stripped(r.separator) && Stripped(r.quality)
  }

  /** One step of the walk: a non-empty header at `pos` is a record, and the walk goes on at `pos + 4`. */
  lemma RecordsFromStep(stripped: seq<string>, pos: nat)
    requires RecordsFrom(stripped, pos) != []
    ensures pos < |stripped| && stripped[pos] != []
    ensures RecordsFrom(stripped, pos) == [RecordAt(stripped, pos)] + RecordsFrom(stripped, pos + 4)
    ensures RecordsFrom(stripped, pos)[0] == RecordAt(stripped, pos)
    ensures RecordsFrom(stripped, pos)[1..] == RecordsFrom(stripped, pos + 4)
  {
    assert ([RecordAt(stripped, pos)] + RecordsFrom(stripped, pos + 4))[1..] == RecordsFrom(stripped, pos + 4);
  }

  /** Record `k` of those read from `pos` is made of lines `pos + 4k` to `pos + 4k + 3`. */
  lemma {:induction false} RecordsFromAt(stripped: seq<string>, pos: nat, k: nat)
    requires k < |RecordsFrom(stripped, pos)|
    ensures RecordsFrom(stripped, pos)[k] == RecordAt(stripped, pos + 4 * k)
    ensures RecordAt(stripped, pos + 4 * k).header != []
    decreases k
  {
    RecordsFromStep(stripped, pos);
    if k > 0 {
      RecordsFromAt(stripped, pos + 4, k - 1);
      assert pos + 4 + 4 * (k - 1) == pos + 4 * k;
    } else {
      assert pos + 4 * k == pos;
    }
  }

  /** The walk from `pos` stops exactly at the header line that follows its last record. */
  lemma {:induction false} RecordsFromStop(stripped: seq<string>, pos: nat)
    ensures LineAt(stripped, pos + 4 * |RecordsFrom(stripped, pos)|) == []
    decreases |stripped| - pos
  {
    var recs := RecordsFrom(stripped, pos);
    if recs != [] {
      RecordsFromStep(stripped, pos);
      RecordsFromStop(stripped, pos + 4);
      assert pos + 4 + 4 * |RecordsFrom(stripped, pos + 4)| == pos + 4 * |recs|;
    } else {
      assert pos + 4 * |recs| == pos;
    }
  }

  /** The record at line `pos` of the stripped file is made of lines `pos` to `pos + 3`, each stripped. */
  lemma RecordAtStripped(lines: seq<string>, pos: nat)
    ensures RecordAt(StripAll(lines), pos) ==
      Record(Strip(LineAt(lines, pos)), Strip(LineAt(lines, pos + 1)),
             Strip(LineAt(lines, pos + 2)), Strip(LineAt(lines, pos + 3)))
  {
    StripAllAt(lines, pos);
    StripAllAt(lines, pos + 1);
    StripAllAt(lines, pos + 2);
    StripAllAt(lines, pos + 3);
  }

  /** Record `k` of those read from the top is the one whose header is line `pos = 4k`. */
  lemma RecordsFromIndex(stripped: seq<string>, k: nat, pos: nat)
    requires k < |RecordsFrom(stripped, 0)| && pos == 4 * k
    ensures RecordsFrom(stripped, 0)[k] == RecordAt(stripped, pos)
    ensures RecordAt(stripped, pos).header != []
  {
    RecordsFromAt(stripped, 0, k);
    assert 0 + 4 * k == pos;
  }

  /**
   * Record `k` of a file is made of its lines `pos = 4k` to `pos + 3`, stripped, and its
   * header is not blank.
   */
  lemma ParseAt(lines: seq<string>, k: nat, pos: nat)
    requires k < |Parse(lines)| && pos == 4 * k
    ensures Parse(lines)[k] ==
      Record(Strip(LineAt(lines, pos)), Strip(LineAt(lines, pos + 1)),
             Strip(LineAt(lines, pos + 2)), Strip(LineAt(lines, pos + 3)))
    ensures Parse(lines)[k].header != []
  {
    RecordsFromIndex(StripAll(lines), k, pos);
    RecordAtStripped(lines, pos);
  }

  /** The walk from the top stops at line `stop = 4 * |records|`. */
  lemma RecordsFromEnd(stripped: seq<string>, stop: nat)
    requires stop == 4 * |RecordsFrom(stripped, 0)|
    ensures LineAt(stripped, stop) == []
  {
    RecordsFromStop(stripped, 0);
    assert 0 + 4 * |RecordsFrom(stripped, 0)| == stop;
  }

  /**
   * Reading stops at line `stop = 4 * |Parse(lines)|`: the first header line that is blank
   * once stripped, or past the end of the file.
   */
  lemma ParseStop(lines: seq<string>, stop: nat)
    requires stop == 4 * |Parse(lines)|
    ensures Strip(LineAt(lines, stop)) == []
  {
    RecordsFromEnd(StripAll(lines), stop);
    StripAllAt(lines, stop);
  }

  /** The header line of the last record lies inside the file. */
  lemma ParseLastInside(lines: seq<string>)
    requires Parse(lines) != []
    ensures 4 * (|Parse(lines)| - 1) < |lines|
  {
    RecordsFromAt(StripAll(lines), 0, |Parse(lines)| - 1);
  }

  /** Every record read from a file of stripped lines is clean. */
  lemma {:induction false} RecordsFromClean(stripped: seq<string>, pos: nat)
    requires forall i :: 0 <= i < |stripped| ==> Stripped(stripped[i])
    ensures forall r :: r in RecordsFrom(stripped, pos) ==> Clean(r)
    decreases |stripped| - pos
  {
    if RecordsFrom(stripped, pos) != [] {
      RecordsFromStep(stripped, pos);
      RecordsFromClean(stripped, pos + 4);
      assert Clean(RecordAt(stripped, pos)) by {
        LineStripped(stripped, pos);
        LineStripped(stripped, pos + 1);
        LineStripped(stripped, pos + 2);
        LineStripped(stripped, pos + 3);
      }
    }
  }

  /** In a file of stripped lines, every line read is stripped, also past the end. */
  lemma LineStripped(stripped: seq<string>, i: nat)
    requires forall i :: 0 <= i < |stripped| ==> Stripped(stripped[i])
    ensures Stripped(LineAt(stripped, i))
  {
  }

  /** Every record the reader yields is clean. */
  lemma ParseClean(lines: seq<string>)
    ensures forall r :: r in Parse(lines) ==> Clean(r)
  {
    var stripped := StripAll(lines);
    forall i | 0 <= i < |stripped|
      ensures Stripped(stripped[i])
    {
      StripAllAt(lines, i);
    }
    RecordsFromClean(stripped, 0);
  }

  /** The record at `pos` is the same whatever lines come before it, where it is at `at`. */
  lemma RecordAtShift(front: seq<string>, stripped: seq<string>, pos: nat, at: nat)
    requires at == |front| + pos
    ensures LineAt(front + stripped, at) == LineAt(stripped, pos)
    ensures RecordAt(front + stripped, at) == RecordAt(stripped, pos)
  {
    var all := front + stripped;
    assert LineAt(all, at + 1) == LineAt(stripped, pos + 1);
    assert LineAt(all, at + 2) == LineAt(stripped, pos + 2);
    assert LineAt(all, at + 3) == LineAt(stripped, pos + 3);
  }

  /** The records read from `pos` depend only on the lines from `pos` on. */
  lemma {:induction false} RecordsFromShift(front: seq<string>, stripped: seq<string>, pos: nat, at: nat)
    requires at == |front| + pos
    ensures RecordsFrom(front + stripped, at) == RecordsFrom(stripped, pos)
    decreases |stripped| - pos
  {
    RecordAtShift(front, stripped, pos, at);
    if LineAt(stripped, pos) != [] {
      RecordsFromShift(front, stripped, pos + 4, at + 4);
    }
  }
}
