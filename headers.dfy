/** The two functions that read a FASTQ header line. */
module Headers {
  import opened Optional
  import opened Text

  /**
   * The cell barcode of a header: the text before the first `_`, without its first
   * character (the `@` of a well-formed header, but whatever character stands there).
   */
  function CellBarcode(header: string): (barcode: string)
    ensures '_' !in barcode
    ensures header == [] || header[0] == '_' ==> barcode == []
    ensures header != [] && header[0] != '_' ==>
      && 1 + |barcode| <= |header|
      && header[1..1 + |barcode|] == barcode
      && (1 + |barcode| == |header| || header[1 + |barcode|] == '_')
  {
    var first := BeforeFirst(header, '_');
    if first == [] then [] else first[1..]
  }

  /**
   * The read identifier kept by `--reformat`: `@` followed by the text between the first
   * and the second `#`, cut at the first `_`. Without a `#` the source fails with an
   * IndexError, modelled as None.
   */
  function ReformatReadId(header: string): (id: Option<string>)
    ensures id.Some? <==> '#' in header
    ensures id.Some? ==> |id.value| >= 1 && id.value[0] == '@'
    ensures id.Some? ==> '#' !in id.value[1..] && '_' !in id.value[1..]
    ensures id.Some? ==>
      var i := |BeforeFirst(header, '#')|;
      var uuid := id.value[1..];
      && i < |header| && header[i] == '#' && '#' !in header[..i]
      && i + 1 + |uuid| <= |header|
      && header[i + 1..i + 1 + |uuid|] == uuid
      && (i + 1 + |uuid| == |header| || header[i + 1 + |uuid|] in {'#', '_'})
  {
    var before := BeforeFirst(header, '#');
    if |before| == |header| then
      assert before == header;
      None
    else
      var segment := BeforeFirst(header[|before| + 1..], '#');
      var uuid := BeforeFirst(segment, '_');
      assert ("@" + uuid)[1..] == uuid;
      Some("@" + uuid)
  }

  /**
   * Building a header from its parts and reading the barcode back gives the part back:
   * `@A_1` has barcode `A`, and a header without `_` has all but its first character.
   */
  lemma CellBarcodeOfParts(lead: char, barcode: string, rest: string)
    requires lead != '_' && '_' !in barcode
    ensures CellBarcode([lead] + barcode + "_" + rest) == barcode
    ensures CellBarcode([lead] + barcode) == barcode
  {
    var h := [lead] + barcode + "_" + rest;
    assert h[..1 + |barcode|] == [lead] + barcode;
    BeforeFirstAt(h, '_', 1 + |barcode|);
    BeforeFirstAt([lead] + barcode, '_', 1 + |barcode|);
  }

  /**
   * Reformatting a header of the shape `<prefix>#<uuid>_<rest>` gives `@<uuid>`
   * (for example `@abc#UUID123_xyz` becomes `@UUID123`).
   */
  lemma ReformatOfParts(prefix: string, uuid: string, rest: string)
    requires '#' !in prefix && '#' !in uuid && '_' !in uuid
    ensures ReformatReadId(prefix + "#" + uuid + "_" + rest) == Some("@" + uuid)
  {
    var h := prefix + "#" + uuid + "_" + rest;
    assert h[..|prefix|] == prefix;
    BeforeFirstAt(h, '#', |prefix|);
    var tail := h[|prefix| + 1..];
    assert tail == uuid + "_" + rest;
    var segment := BeforeFirst(tail, '#');
    assert tail[..|uuid|] == uuid;
    assert segment[..|uuid|] == uuid && (|uuid| < |segment| ==> segment[|uuid|] == '_');
    BeforeFirstAt(segment, '_', |uuid|);
  }
}
