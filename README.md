# downsample_fastq in Dafny

A model of `downsample_fastq.py`. The script subsamples a FASTQ file of sequencing reads
to the reads of a set of cells. Each cell is named by a barcode, which the script reads
from the start of each read header.

The cells come from one of two places:

- an allow-list file, one barcode per line, optionally written with a leading `@`;
- a random sample of `min(num_cells or 50, |observed|)` of the barcodes present in the
  input, which takes a first pass over the file.

A second pass then copies the four lines of every read whose barcode is selected. With
`--reformat`, the header is rewritten to `@<uuid>`. The pass counts the reads it scans and
the reads it keeps, and collects the barcodes it actually found.

After the second pass:

- when an allow-list was used, the requested barcodes that were never found are reported;
- the found barcodes are written, sorted and `@`-prefixed, to the sidecar file
  `<output>.barcodes.txt`.

Files are modelled as sequences of lines, without their line terminators. The reader yields
`""` past the end, as `readline` does at end of file. The output file and the sidecar file
are returned as sequences of lines.

Modules:

- `Text`: Python's `str.strip()`, `str.split(c)[0]` and the order `<` on `str`.
- `Headers`: `get_cell_barcode` and `reformat_read_id`. The latter returns `None` where
  Python raises IndexError.
- `Allowlist`: `read_barcodes_file`.
- `Fastq`: how both passes walk the file, four stripped lines per record, stopping at the
  first blank header. `Parse` gives the records.
- `Filter`: the second pass.
  - `Run` specifies it record by record.
  - `Kept`, `Emitted` and `Observed` are independent reference definitions: the stable
    filter, the lines written, and the barcodes seen.
  - `FilterReads` is the loop itself, proved equal to `Run`.
- `Selection`: the first pass, the `num_cells or 50` rule, the `min` clamp, and sampling
  without replacement.
- `Report`: the missing-cell difference and the sorted sidecar.
- `Downsample`: `process_fastq` as a whole.

Behaviour of the script worth noting, all of it modelled as the code does it:

- Output lines are the input lines *stripped*, headers included.
- Blank allow-list lines add the empty barcode `""` to the selection.
- Input ends only at a header that is blank once stripped. A header whose following lines
  are missing still makes a record, with `""` for each missing line.
- `num_cells or 50` also turns an explicit count of 0 into 50. A negative count reaches
  `random.sample`, which raises ValueError; this is modelled as the failure
  `NegativeSampleSize`.

## Model

| member | source | states |
|---|---|---|
| Text.Strip | downsample_fastq.py:34 | the result is no longer than the line, has no whitespace at either end, and leaves an already stripped line unchanged |
| Text.StripBlank | downsample_fastq.py:55-57 | a line strips to nothing exactly when it is all whitespace, so a header line of only whitespace ends the input |
| Text.StripSlice | downsample_fastq.py:83 | `strip` only removes whitespace: its result is a contiguous slice of the line and everything outside that slice is whitespace |
| Text.BeforeFirst | downsample_fastq.py:19 | `s.split(c)[0]` is a prefix of `s` without `c`, followed in `s` by `c` or by the end |
| Text.BeforeFirstAt | downsample_fastq.py:26 | the split point is the first occurrence of the separator, wherever it is |
| Text.BelowIrreflexive | downsample_fastq.py:112 | no string sorts before itself |
| Text.BelowTransitive | downsample_fastq.py:112 | the order used by `sorted` is transitive |
| Text.BelowTotal | downsample_fastq.py:112 | any two different strings are ordered one way or the other |
| Text.BelowAsymmetric | downsample_fastq.py:112 | two strings are never ordered both ways |
| Text.BelowCommonPrefix | downsample_fastq.py:113 | putting `@` in front of two barcodes keeps their order |
| Headers.CellBarcode | downsample_fastq.py:17-19 | the barcode contains no `_`, is empty for an empty header or one starting with `_`, and otherwise is exactly the header from its second character up to the first `_` or the end |
| Headers.ReformatReadId | downsample_fastq.py:21-27 | defined exactly when the header contains `#`; then the result is `@` followed by the text right after the first `#`, up to the next `#`, `_` or the end, and contains no `#` or `_` after the `@` |
| Headers.CellBarcodeOfParts | downsample_fastq.py:17-19 | a header made of a lead character, a barcode without `_`, then `_` and anything (or nothing) yields that barcode back |
| Headers.ReformatOfParts | downsample_fastq.py:26-27 | `<prefix>#<uuid>_<rest>` reformats to `@<uuid>`, as `@abc#UUID123_xyz` gives `@UUID123` |
| Allowlist.Normalise | downsample_fastq.py:34-36 | an allow-list line becomes its stripped text with at most one leading `@` removed, and the `@` is removed exactly when the stripped text starts with one |
| Allowlist.AllowSet | downsample_fastq.py:31-37 | the allow-list holds at most one barcode per line, duplicates collapsing |
| Allowlist.AllowSetHas | downsample_fastq.py:33-37 | every line's normalised barcode is in the set, empty ones included |
| Allowlist.AllowSetSource | downsample_fastq.py:33-37 | every barcode in the set is the normalised form of some line |
| Allowlist.NormaliseListed | downsample_fastq.py:30 | a stripped barcode is read back as itself whether it is listed with or without the `@` |
| Allowlist.ReadBarcodes | downsample_fastq.py:29-38 | the loop adds each line's normalised barcode and so yields exactly the allow-list set |
| Fastq.ReadLine | downsample_fastq.py:55 | `readline().strip()` yields the stripped line, or `""` at end of file |
| Fastq.RecordsFromStep | downsample_fastq.py:82-88 | a non-blank header starts a record made of the next four lines, and reading continues four lines further on |
| Fastq.RecordsFromAt | downsample_fastq.py:82-88 | record `k` read from a position is made of the four lines `4k` further on, and its header is not blank |
| Fastq.RecordsFromStop | downsample_fastq.py:84-85 | reading stops at the header line right after the last record, and that line is blank |
| Fastq.RecordAtStripped | downsample_fastq.py:83-88 | the record whose header is line `pos` of the stripped file is made of lines `pos` to `pos+3` of the file, each stripped |
| Fastq.ParseAt | downsample_fastq.py:83-88 | record `k` of a file is its lines `4k` to `4k+3`, each stripped, with a non-blank header |
| Fastq.ParseStop | downsample_fastq.py:84-85 | reading stops at line `4·|records|`, which is blank once stripped or past the end of the file |
| Fastq.ParseLastInside | downsample_fastq.py:83-85 | the header line of the last record lies inside the file |
| Fastq.RecordsFromClean | downsample_fastq.py:83-88 | every record read from stripped lines has a non-blank header and four stripped lines |
| Fastq.ParseClean | downsample_fastq.py:83-88 | every record the reader yields has a non-blank header and four stripped lines |
| Fastq.RecordsFromShift | downsample_fastq.py:82-88 | the records read from a position depend only on the lines from there on |
| Filter.Kept | downsample_fastq.py:93 | the kept records are never more than the records read |
| Filter.Observed | downsample_fastq.py:62-63 | some records carry no more distinct barcodes than there are records |
| Filter.Rewrite | downsample_fastq.py:95 | a header can be written exactly when `--reformat` is off or the header contains `#`; without `--reformat` it is written as read (stripped), and with it as `@` followed by text holding no `#` or `_` |
| Filter.WritablePrefix | downsample_fastq.py:95 | the leading run of records whose header can be written is no longer than the records |
| Filter.Emitted | downsample_fastq.py:96 | four lines are written per record, up to the first record whose header cannot be rewritten |
| Filter.KeptMembers | downsample_fastq.py:93 | a record is kept exactly when it is read and its barcode is selected |
| Filter.KeptAppend | downsample_fastq.py:82-98 | keeping commutes with concatenation, so kept records stay in input order |
| Filter.KeptIdempotent | downsample_fastq.py:93 | filtering the kept records again keeps them all |
| Filter.ObservedMembers | downsample_fastq.py:62-63 | a barcode is observed exactly when some record carries it |
| Filter.ObservedKept | downsample_fastq.py:98 | the barcodes of the kept records are the observed barcodes that are selected |
| Filter.WritablePrefixSpec | downsample_fastq.py:95 | every header in the leading run can be rewritten and the one after it cannot |
| Filter.WritableWithoutReformat | downsample_fastq.py:95 | without `--reformat` every header can be written |
| Filter.EmittedFirst | downsample_fastq.py:95-96 | a writable first record contributes the first four output lines, its rewritten header and its other three lines, before the lines of the records after it |
| Filter.EmittedAt | downsample_fastq.py:95-96 | output lines `4k` to `4k+3` are the rewritten header of kept record `k` followed by its sequence, separator and quality lines unchanged |
| Filter.RunSkip | downsample_fastq.py:90-93 | a record whose barcode is not selected is only counted |
| Filter.RunKeep | downsample_fastq.py:93-98 | a selected record whose header can be written is counted, written and its barcode found |
| Filter.RunFail | downsample_fastq.py:95 | a selected header that cannot be rewritten stops the pass, after it was counted |
| Filter.KeepFirst | downsample_fastq.py:95-96 | a writable kept record contributes its four lines before those of the records after it |
| Filter.WritesKeptStep | downsample_fastq.py:93-97 | what the pass writes is preserved across a kept, writable record |
| Filter.CountsKeptStep | downsample_fastq.py:97-98 | what the pass counts is preserved across a kept, writable record |
| Filter.RunOutput | downsample_fastq.py:82-98 | from any state, the pass appends the lines of the kept records up to the first one whose header cannot be rewritten; it finishes exactly when there is none, and otherwise stops with that header |
| Filter.RunCounted | downsample_fastq.py:82-98 | from any state, the pass adds the number of kept records it writes and their barcodes |
| Filter.RunReadCount | downsample_fastq.py:90 | the pass counts every record it goes through, all of them when it finishes |
| Filter.FilterFinished | downsample_fastq.py:82-98 | the pass finishes exactly when every kept header can be written; then the output is the kept records in input order, four lines each; `read_count` is the number of records and `kept_count` the number kept, no more than those read; the cells found are exactly the selected barcodes present |
| Filter.FoundCellsAreSelected | downsample_fastq.py:93-98 | every cell found is selected and carried by some kept record, whether the pass finished or stopped |
| Filter.MalformedFirst | downsample_fastq.py:93-95 | a failing pass runs with `--reformat` and reports the header of the first kept record that cannot be rewritten: every kept header before it has a `#` |
| Filter.FinishesWithoutReformat | downsample_fastq.py:95 | without `--reformat` the pass always finishes |
| Filter.MalformedOnlyWithoutHash | downsample_fastq.py:26 | with `--reformat` the pass fails exactly when some selected record's header has no `#`, and the header it fails on has no `#` and a selected barcode |
| Filter.StripAllStripped | downsample_fastq.py:86-88 | stripping lines that are already stripped changes nothing |
| Filter.EmittedReadsBack | downsample_fastq.py:96 | the lines written for records as the reader yields them read back as those records |
| Filter.EmittedStripped | downsample_fastq.py:96 | every line written without `--reformat` is stripped |
| Filter.FilterIdempotent | downsample_fastq.py:80-98 | without `--reformat` the output reads back as exactly the kept records, and filtering it again with the same selection writes the same lines |
| Filter.Consume | downsample_fastq.py:90-98 | one pass through the loop body counts the record and, if its barcode is selected, writes it and notes the barcode, or fails on a header that cannot be rewritten |
| Filter.FilterReads | downsample_fastq.py:80-98 | the loop over the file computes the specified pass: its outcome is `Run` over the parsed records from the empty state |
| Selection.CollectBarcodes | downsample_fastq.py:53-63 | the first loop collects exactly the barcodes of the records the second pass reads |
| Selection.ObservedStep | downsample_fastq.py:55-63 | a non-blank header adds its barcode to those of the records after it |
| Selection.CollectedAreObserved | downsample_fastq.py:62-63 | a barcode is collected exactly when some record carries it, and there are no more barcodes than records |
| Selection.Requested | downsample_fastq.py:67 | `num_cells or 50` is 50 for an absent or zero count and the count otherwise, never 0 |
| Selection.SampleSize | downsample_fastq.py:68 | the sample size is the smaller of the requested count and the number of barcodes available, and the sample fails exactly when the request is negative |
| Selection.DefaultSampleSize | downsample_fastq.py:67-68 | with no count, or a count of 0, up to 50 cells are sampled |
| Selection.SampleCells | downsample_fastq.py:68 | the sample is a subset of the observed barcodes of exactly the requested size |
| Report.Missing | downsample_fastq.py:104 | the missing cells are selected, not found, and together with the selected cells found make up the selection |
| Report.ListingTail | downsample_fastq.py:112 | the first element of a sorted listing is the least, and the rest is a sorted listing of the others |
| Report.ListingSize | downsample_fastq.py:112 | a sorted listing has one line per barcode |
| Report.ListingUnique | downsample_fastq.py:112 | a set has exactly one sorted listing, so any correct sort yields what `sorted` yields |
| Report.Least | downsample_fastq.py:112 | the least barcode of a non-empty set is in the set and sorts before every other one |
| Report.SortCells | downsample_fastq.py:112 | the result lists every barcode of the set once, in increasing order |
| Report.WriteSidecar | downsample_fastq.py:111-113 | the sidecar has one line per found barcode: `@` followed by the barcode, for every barcode found and no other, in increasing order |
| Report.SidecarUnique | downsample_fastq.py:111-113 | two sidecars for the same barcodes are equal |
| Report.SidecarReadsBack | downsample_fastq.py:29-38 | read back as an allow-list, the sidecar yields the found barcodes again when none has whitespace at either end |
| Downsample.ProcessFastq | downsample_fastq.py:40-113 | the selection is the allow-list set when one is given, whatever the count, and otherwise a subset of the observed barcodes of the clamped sample size; a negative count fails exactly in random mode; a malformed header fails with the partial output `Run` describes; on success the counters and output are those of `Run`, the missing set is computed exactly when an allow-list is given, and the sidecar lists the found cells |
| Downsample.SampledCellsAllFound | downsample_fastq.py:67-68 | in random mode every selected cell is found, so nothing would be missing |
| Downsample.MissingMeansAbsent | downsample_fastq.py:103-104 | a requested barcode is reported missing exactly when no record of the input carries it |
| Downsample.SidecarWithinSelection | downsample_fastq.py:111-113 | every sidecar line names a selected cell that a kept record carries |

## Left out

- `parse_args` and `main` (command-line handling) are left out. The count and the allow-list are parameters. `main`'s default of 50 when neither is given has the same effect as `num_cells or 50`, which `Selection.Requested` models.
- `if barcodes_file:` treats an empty path as no allow-list. The model passes the allow-list's lines or nothing, so an empty path is not modelled.
- File handling is left out: the choice between gzip and plain `open` by the `.gz` suffix, compression of the output, the output path and the `.barcodes.txt` path. Errors from missing or unreadable files are left out too. Files are line sequences.
- Line terminators are left out. Lines come without their `\n`, and the output is a sequence of lines rather than the text `header\nseq\n+\nqual\n`.
- All `print` output is left out: progress messages, counts, and the warning that lists the missing barcodes. The missing set itself is computed.
- Selection.SampleCells: promises only what `random.sample` guarantees, a subset of the requested size. Which cells are chosen is a nondeterministic choice. Uniformity and the random generator are not modelled.
- Text.Strip: treats as whitespace only the ASCII characters that `str.isspace` accepts (space, 9 to 13, 28 to 31). Non-ASCII whitespace that Python also strips, such as U+0085 and U+00A0, is kept.
- Report.SortCells: is a selection sort, not Python's Timsort. `Report.ListingUnique` shows the result is the same.
