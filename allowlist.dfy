/**
 * `read_barcodes_file`: an allow-list file, one barcode per line, each possibly written
 * with surrounding whitespace and a leading `@`.
 */
module Allowlist {
  import opened Text

  /** One allow-list line as a barcode: stripped, then one leading `@` removed if present. */
  function Normalise(line: string): (barcode: string)
    ensures |barcode| <= |line|
    ensures Strip(line) == barcode || Strip(line) == "@" + barcode
    ensures Strip(line) == "@" + barcode <==> Strip(line) != [] && Strip(line)[0] == '@'
  {
    var token := Strip(line);
    if token != [] && token[0] == '@' then
      assert token == "@" + token[1..];
      token[1..]
    else token
  }

  /** The barcodes of some allow-list lines, one per line, duplicates collapsed. */
  function AllowSet(lines: seq<string>): (barcodes: set<string>)
    ensures |barcodes| <= |lines|
  {
    if lines == [] then {}
    else AllowSet(lines[..|lines| - 1]) + {Normalise(lines[|lines| - 1])}
  }

  /** Every line's barcode is allowed. */
  lemma {:induction false} AllowSetHas(lines: seq<string>, i: nat)
    requires i < |lines|
    ensures Normalise(lines[i]) in AllowSet(lines)
  {
    var front := lines[..|lines| - 1];
    if i < |front| {
      AllowSetHas(front, i);
      assert front[i] == lines[i];
    }
  }

  /** Every allowed barcode comes from some line: the line `i` returned. */
  lemma {:induction false} AllowSetSource(lines: seq<string>, b: string) returns (i: nat)
    requires b in AllowSet(lines)
    ensures i < |lines| && Normalise(lines[i]) == b
  {
    var front := lines[..|lines| - 1];
    if b == Normalise(lines[|lines| - 1]) {
      i := |lines| - 1;
    } else {
      i := AllowSetSource(front, b);
      assert front[i] == lines[i];
    }
  }

  /** A stripped barcode reads back as itself whether it is listed with an `@` or without. */
  lemma NormaliseListed(b: string)
    requires Stripped(b)
    ensures Normalise("@" + b) == b
    ensures b == [] || b[0] != '@' ==> Normalise(b) == b
  {
    var line := "@" + b;
    assert line[0] == '@' && line[1..] == b;
    assert Stripped(line) by {
      if b != [] {
        assert line[|line| - 1] == b[|b| - 1];
      }
    }
  }

  /** The loop of `read_barcodes_file`: add each line's barcode to a set, in file order. */
  method ReadBarcodes(lines: seq<string>) returns (barcodes: set<string>)
    ensures barcodes == AllowSet(lines)
  {
    barcodes := {};
    for i := 0 to |lines|
      invariant barcodes == AllowSet(lines[..i])
    {
      assert lines[..i + 1][..i] == lines[..i];
      barcodes := barcodes + {Normalise(lines[i])};
    }
    assert lines[..|lines|] == lines;
  }
}
