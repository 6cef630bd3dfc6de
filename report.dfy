/**
 * What `process_fastq` reports once the second pass is over: the requested barcodes that
 * were never seen, and the sidecar file listing the barcodes found, sorted, one per line
 * with a leading `@`.
 */
module Report {
  import opened Text
  import opened Allowlist

  /** `selected_cells - cells_found`: the requested barcodes that no kept record carries. */
  function Missing(selected: set<string>, found: set<string>): (missing: set<string>)
    ensures missing <= selected && missing !! found
    ensures missing + (found * selected) == selected
  {
    selected - found
  }

  /** Strictly increasing under Python's `<` on `str`, hence without repeats. */
  predicate Ascending(s: seq<string>) {
    forall i, j :: 0 <= i < j < |s| ==> Below(s[i], s[j])
  }

  /** `s` is `sorted(cells)`: every element of `cells` once, in increasing order. */
  predicate SortedListing(s: seq<string>, cells: set<string>) {
    && Ascending(s)
    && (forall b :: b in s ==> b in cells)
    && (forall b :: b in cells ==> b in s)
  }

  /** Dropping the first element of a sorted listing lists the rest of the set. */
  lemma ListingTail(s: seq<string>, cells: set<string>)
    requires SortedListing(s, cells) && s != []
    ensures SortedListing(s[1..], cells - {s[0]})
    ensures forall b :: b in cells && b != s[0] ==> Below(s[0], b)
  {
    forall b | b in s[1..]
      ensures b != s[0]
    {
      var j :| 0 <= j < |s[1..]| && s[1..][j] == b;
      assert Below(s[0], s[j + 1]);
      BelowIrreflexive(s[0]);
    }
    forall b | b in cells && b != s[0]
      ensures Below(s[0], b)
    {
      var j :| 0 <= j < |s| && s[j] == b;
    }
  }

  /** A sorted listing has one entry per element. */
  lemma {:induction false} ListingSize(s: seq<string>, cells: set<string>)
    requires SortedListing(s, cells)
    ensures |s| == |cells|
    decreases |s|
  {
    if s != [] {
      ListingTail(s, cells);
      ListingSize(s[1..], cells - {s[0]});
    }
  }

  /**
   * A set has exactly one sorted listing, so any sorting algorithm yields what Python's
   * `sorted` yields.
   */
  lemma {:induction false} ListingUnique(a: seq<string>, b: seq<string>, cells: set<string>)
    requires SortedListing(a, cells) && SortedListing(b, cells)
    ensures a == b
    decreases |a|
  {
    if a == [] || b == [] {
      ListingSize(a, cells);
      ListingSize(b, cells);
    } else {
      ListingTail(a, cells);
      ListingTail(b, cells);
      if a[0] != b[0] {
        BelowAsymmetric(a[0], b[0]);
      }
      ListingUnique(a[1..], b[1..], cells - {a[0]});
      assert a == [a[0]] + a[1..] && b == [b[0]] + b[1..];
    }
  }

  /** The least barcode of a non-empty set. */
  method Least(cells: set<string>) returns (least: string)
    requires cells != {}
    ensures least in cells
    ensures forall b :: b in cells && b != least ==> Below(least, b)
  {
    least :| least in cells;
    var rest := cells - {least};
    while rest != {}
      invariant least in cells && least !in rest && rest <= cells
      invariant forall b :: b in cells && b !in rest && b != least ==> Below(least, b)
      decreases |rest|
    {
      var b :| b in rest;
      if Below(b, least) {
        forall c | c in cells && c !in rest && c != least
          ensures Below(b, c)
        {
          BelowTransitive(b, least, c);
        }
        least := b;
      } else {
        BelowTotal(least, b);
      }
      rest := rest - {b};
    }
  }

  /** `sorted(cells)`, as a selection sort. */
  method SortCells(cells: set<string>) returns (sorted: seq<string>)
    ensures SortedListing(sorted, cells)
  {
    sorted := [];
    var rest := cells;
    while rest != {}
      invariant rest <= cells
      invariant Ascending(sorted)
      invariant forall b :: b in sorted <==> b in cells && b !in rest
      invariant forall i, b :: 0 <= i < |sorted| && b in rest ==> Below(sorted[i], b)
      decreases |rest|
    {
      var least := Least(rest);
      sorted := sorted + [least];
      rest := rest - {least};
    }
  }

  /**
   * `lines` is the sidecar file for the barcodes `found`: one line `@b` per barcode `b`
   * found and no other line, in increasing order.
   */
  predicate SidecarListing(lines: seq<string>, found: set<string>) {
    && Ascending(lines)
    && (forall i :: 0 <= i < |lines| ==> |lines[i]| > 0 && lines[i][0] == '@' && lines[i][1..] in found)
    && (forall b :: b in found ==> "@" + b in lines)
  }

  /** The last loop of `process_fastq`: write `@` and each found barcode, in sorted order. */
  method WriteSidecar(found: set<string>) returns (lines: seq<string>)
    ensures SidecarListing(lines, found)
    ensures |lines| == |found|
  {
    var sorted := SortCells(found);
    ListingSize(sorted, found);
    lines := [];
    for i := 0 to |sorted|
      invariant |lines| == i
      invariant forall k :: 0 <= k < i ==> lines[k] == "@" + sorted[k]
      invariant Ascending(lines)
    {
      forall k | 0 <= k < i
        ensures Below(lines[k], "@" + sorted[i])
      {
        BelowCommonPrefix('@', sorted[k], sorted[i]);
        assert "@" + sorted[k] == ['@'] + sorted[k] && "@" + sorted[i] == ['@'] + sorted[i];
      }
      lines := lines + ["@" + sorted[i]];
    }
    forall k | 0 <= k < |lines|
      ensures |lines[k]| > 0 && lines[k][0] == '@' && lines[k][1..] in found
    {
      assert lines[k][1..] == sorted[k];
    }
    forall b | b in found
      ensures "@" + b in lines
    {
      var k :| 0 <= k < |sorted| && sorted[k] == b;
      assert lines[k] == "@" + b;
    }
  }

  /** The sidecar for a set of barcodes is unique: it is what the source writes. */
  lemma SidecarUnique(a: seq<string>, b: seq<string>, found: set<string>)
    requires SidecarListing(a, found) && SidecarListing(b, found)
    ensures a == b
  {
    var cells := set x | x in a;
    forall x | x in b
      ensures x in a
    {
      var i :| 0 <= i < |b| && b[i] == x;
      assert x == "@" + x[1..];
    }
    forall x | x in a
      ensures x in b
    {
      var i :| 0 <= i < |a| && a[i] == x;
      assert x == "@" + x[1..];
    }
    ListingUnique(a, b, cells);
  }

  /**
   * Read back as an allow-list, the sidecar gives the barcodes found again, provided none
   * of them has whitespace at either end (which `strip` would remove).
   */
  lemma SidecarReadsBack(lines: seq<string>, found: set<string>)
    requires SidecarListing(lines, found)
    requires forall b :: b in found ==> Stripped(b)
    ensures AllowSet(lines) == found
  {
    forall b | b in found
      ensures b in AllowSet(lines)
    {
      var i :| 0 <= i < |lines| && lines[i] == "@" + b;
      AllowSetHas(lines, i);
      NormaliseListed(b);
    }
    forall b | b in AllowSet(lines)
      ensures b in found
    {
      var i := AllowSetSource(lines, b);
      var cell := lines[i][1..];
      assert lines[i] == "@" + cell;
      NormaliseListed(cell);
    }
  }
}
