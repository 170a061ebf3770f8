# bam2wig: strand-specific P-site wiggle tracks, modelled in Dafny

This project models the BAM-to-wiggle signal extractor of the Riboformer
repository, `scripts/bam2wig_chromos.py`. The extractor reads a BAM file of
ribosome-profiling alignments and works in three steps:

1. It normalises every reference name to a chromosome identifier
   (`extract_chromosome_name`).
2. It counts, per strand, how many mapped reads have their P-site at each
   position of each chromosome. The P-site is the read's 5' end moved
   downstream by an offset, 14 by default.
3. It writes one `fixedStep` wiggle file per strand. The files follow the BAM
   header order, with one count line for every position `0 .. length - 1`
   of every header reference.

The model is split into five files:

- `wrappers.dfy`: the `Option` and `Result` datatypes.
- `py_string.dfy` (module `PyString`): the Python `str` operations the
  extractor relies on, `startswith` and `replace(sep, '')`. `split` and
  `join` are included so that removal can be stated as cutting at every
  separator.
- `map_sum.dfy` (module `MapSum`): the sum of a map's values, independent of
  key order.
- `bam2wig.dfy` (module `Bam2Wig`): the extractor.
  - Name normalisation is a pure function.
  - The counting loop is the method `CountReads`.
  - The two emission loops are the methods `WriteTrack` and `WriteBlock`.
  - The whole run is `ConvertBamToWig`.
  - Each method is proved against a specification function: `StrandTable`
    for a strand's table, `Track` for a whole file.
- `bam2wig_props.dfy` (module `Bam2WigProps`): what those specification
  functions guarantee, as lemmas:
  - Counting: exactly one +1 per mapped read, and the totals of the two
    tables add up to the number of mapped reads.
  - File shape: the line count, and where each block sits.
  - Content: every written count is the number of reads landing there.
    P-sites outside `[0, length)` are dropped. Header names that normalise
    to the same identifier share counts.
  - A worked example.

The BAM file is taken as data:

- The header is a sequence of `Reference(name, length)` in header order.
- The alignments are a sequence of `AlignedRead` records in the order
  `bam.fetch()` yields them. Each
  record carries its reference name, its start, its exclusive end, its
  strand and whether it is unmapped.

A wiggle file is a sequence of `Line` values:

- `TrackLine(name)`, for `track type=wiggle_0 name=...`.
- `FixedStep(chrom)`, for `fixedStep chrom=... start=1 step=1`.
- `Value(count)`.

A run ends in an `Outcome`. It holds each file that was opened, with the
lines written to it, and the exception that ended the run, if any.

Where the script's docstrings and its code differ, the model follows the code:

- A name that starts with `Chr` loses every occurrence of `Chr`, not only the
  leading one. `str.replace` makes one left-to-right pass, so a new `Chr`
  can appear in the result (`ChrCChrhr` becomes `Chr`).
- A name that starts with `AT` becomes its third character. The bare name
  `AT` has no third character and raises `IndexError`. No other name can
  make the function raise.
- A P-site below 0 or at or beyond the chromosome length is counted but
  never written. No error is raised for it.
- Header references whose names normalise to the same identifier read the
  same count table. A duplicated header name takes the length of its last
  occurrence, as `dict(zip(...))` does.
- A mapped read whose reference name raises ends the run before any file is
  opened.
- A header name that raises while the forward file is being written leaves
  that file holding the lines written so far. The reverse file is then never
  opened.

## Model

| member | source | states |
|---|---|---|
| PyString.SplitJoin | scripts/bam2wig_chromos.py:17 | splitting a name at a separator and joining the pieces back with it gives the name again |
| PyString.RemoveAllIsJoinOfSplit | scripts/bam2wig_chromos.py:17 | `replace(sep, '')` keeps exactly the text between the occurrences that a left-to-right scan finds, i.e. it equals `''.join(s.split(sep))` |
| PyString.SplitPiecesAreSeparatorFree | scripts/bam2wig_chromos.py:17 | no piece produced by the scan contains the separator, so every occurrence the scan meets is cut |
| PyString.RemoveAllWithoutSeparator | scripts/bam2wig_chromos.py:17 | a name without the separator is left unchanged by `replace` |
| PyString.RemoveAllIsSinglePass | scripts/bam2wig_chromos.py:17 | the pass is single: removing `Chr` from `ChrCChrhr` leaves `Chr` |
| Bam2Wig.ExtractChromosomeName | scripts/bam2wig_chromos.py:5-22 | normalisation raises `IndexError` exactly for the name `AT`, the only `AT` name without a third character; a name that starts with neither `Chr` nor `AT` is returned unchanged |
| Bam2Wig.ExtractChromosomeNameCases | scripts/bam2wig_chromos.py:16-20 | a `Chr` name becomes its `Chr`-separated pieces joined with nothing between; an `AT` name of 3 or more characters becomes its third character |
| Bam2Wig.PSitePosition | scripts/bam2wig_chromos.py:54-61 | the P-site is `offset` bases downstream of the read's 5' end (its start on the forward strand, its last covered base `reference_end - 1` on the reverse strand), and with an offset shorter than the read it lies among the bases the read covers |
| Bam2Wig.Increment | scripts/bam2wig_chromos.py:58-61 | `counts[chrom][pos] += 1` raises exactly one (chrom, pos) count by 1, leaves every other count as it was, and adds `chrom` to the keys |
| Bam2Wig.CountReads | scripts/bam2wig_chromos.py:44-63 | the loop succeeds exactly when every mapped read's name normalises; its two tables are then the forward and reverse strand tables of the reads, unmapped reads skipped |
| Bam2Wig.LengthTable | scripts/bam2wig_chromos.py:42 | every header name has a length, and a name's length is that of its last occurrence in the header |
| Bam2Wig.FirstUnresolved | scripts/bam2wig_chromos.py:68-69 | every header entry before the returned index normalises, and the entry at that index (if any) raises |
| Bam2Wig.WriteBlock | scripts/bam2wig_chromos.py:71-81 | both branches of `if counts:` write the block that the strand's table determines: the declaration, then the count of every position `0 .. length - 1`, 0 where absent |
| Bam2Wig.WriteTrack | scripts/bam2wig_chromos.py:66-99 | a file is the track line plus the blocks of the header entries in header order, up to the first entry whose name raises; it fails exactly when such an entry exists |
| Bam2Wig.ConvertBamToWig | scripts/bam2wig_chromos.py:24-99 | the run succeeds exactly when every mapped read name and every header name normalises; a counting failure opens no file; the forward file holds the forward table's blocks (partial when a header name raises), and the reverse file is written in full from the reverse table only when every header name normalises |
| Bam2WigProps.ChrNameNormalisation | scripts/bam2wig_chromos.py:16-17 | a `Chr` name is the `Chr`-joined concatenation of pieces that contain no `Chr`; the first piece is empty, and the normalised name is the concatenation of the pieces |
| Bam2WigProps.NormalisationExamples | scripts/bam2wig_chromos.py:13-22 | `Chr1` gives `1`, `ChrC` gives `C`, `AT1G01010.1` gives `1`, `Mt` is kept, and `AT` raises |
| Bam2WigProps.DefaultOffsetPositions | scripts/bam2wig_chromos.py:24 | with the default offset 14, a forward read starting at 100 has its P-site at 114, and a reverse read ending at 200 has it at 185 |
| Bam2WigProps.OtherReadLeavesTable | scripts/bam2wig_chromos.py:45-61 | an unmapped read, or a read of the other strand, leaves a strand's table unchanged |
| Bam2WigProps.ReadStep | scripts/bam2wig_chromos.py:45-61 | one more read changes every count of a strand's table by 1 if the read lands there and by 0 otherwise |
| Bam2WigProps.HitsNext | scripts/bam2wig_chromos.py:45-61 | read `n` adds one to the number of reads landing at a position exactly when it lands there |
| Bam2WigProps.MappedOnStrandNext | scripts/bam2wig_chromos.py:45-61 | read `n` adds one to the number of mapped reads on its strand exactly when it is mapped |
| Bam2WigProps.StrandTablePrefixCountsHits | scripts/bam2wig_chromos.py:45-61 | after the first `n` reads, each count is the number of those reads whose P-site falls at that chromosome and position on that strand |
| Bam2WigProps.StrandTableCountsHits | scripts/bam2wig_chromos.py:45-61 | each stored count is the number of reads whose P-site falls at that chromosome and position on that strand |
| Bam2WigProps.IncrementTotal | scripts/bam2wig_chromos.py:58-61 | one increment raises a table's total by exactly 1 |
| Bam2WigProps.StrandTablePrefixTotal | scripts/bam2wig_chromos.py:45-61 | after the first `n` reads, a strand's total is the number of those reads that are mapped on that strand |
| Bam2WigProps.StrandTableTotal | scripts/bam2wig_chromos.py:45-61 | a strand's total is the number of mapped reads on that strand |
| Bam2WigProps.CountConservation | scripts/bam2wig_chromos.py:45-61 | the totals of the forward and reverse tables add up to the number of mapped reads |
| Bam2WigProps.BlocksLength | scripts/bam2wig_chromos.py:68-81 | the blocks of a header take `Σ(1 + length)` lines |
| Bam2WigProps.TrackLength | scripts/bam2wig_chromos.py:66-81 | a file has `1 + Σ(1 + length)` lines and starts with its track line |
| Bam2WigProps.BlocksPrefix | scripts/bam2wig_chromos.py:68 | the blocks of the first `m` header entries are a prefix of the blocks of the whole header (header order) |
| Bam2WigProps.BlocksWindow | scripts/bam2wig_chromos.py:68-81 | entry `i`'s block occupies the lines right after the blocks of the entries before it |
| Bam2WigProps.BlocksBlockAt | scripts/bam2wig_chromos.py:68-81 | right after the blocks of the earlier entries come entry `i`'s declaration with its normalised name, then at offset `k` the count of position `k` |
| Bam2WigProps.TrackBlockAt | scripts/bam2wig_chromos.py:66-81 | in the file, entry `i`'s `fixedStep` line follows the track line and the earlier blocks, and its `k`-th count line holds the table's count at position `k`, 0 when absent |
| Bam2WigProps.HeaderEmittable | scripts/bam2wig_chromos.py:68-70 | when every header name normalises, every entry can be written |
| Bam2WigProps.BlocksReadOnlyWrittenPositions | scripts/bam2wig_chromos.py:74-76 | two tables that agree on every written position give the same blocks |
| Bam2WigProps.TrackReadsOnlyWrittenPositions | scripts/bam2wig_chromos.py:74-76 | two tables that agree on every written position give the same file, so counts outside `[0, length)` never reach it |
| Bam2WigProps.OutOfRangePSiteDropped | scripts/bam2wig_chromos.py:57-76 | a last read whose P-site lies outside every header entry of its chromosome leaves the file exactly as it would be without that read |
| Bam2WigProps.SharedNameSharesCounts | scripts/bam2wig_chromos.py:69-71 | two header entries whose names normalise alike carry the same count at every position both cover |
| Bam2WigProps.WrittenCountIsHits | scripts/bam2wig_chromos.py:45-76 | in a complete file, the line of position `k` of entry `i` holds the number of reads on that strand whose P-site is position `k` of the entry's normalised name |
| Bam2WigProps.ExampleTables | scripts/bam2wig_chromos.py:41-61 | one forward read at 100 on chromosome `1` of length 500 gives a forward table holding a single 1 at position 114 and an empty reverse table |
| Bam2WigProps.ExampleForwardTrack | scripts/bam2wig_chromos.py:66-81 | the example's forward file has 502 lines: the track line, the declaration of `1`, a 1 at position 114 and 0 everywhere else |
| Bam2WigProps.ExampleReverseTrack | scripts/bam2wig_chromos.py:84-99 | the example's reverse file has 502 lines and holds 0 at every position |

## Left out

- Reading the BAM file with pysam (`AlignmentFile`, `fetch`, `get_reference_name`, `close`) is not modelled. This is a foreign library. The header and the alignments are inputs instead, and each alignment carries its reference name rather than a reference id.
- Writing the files is not modelled. The text formatting of each line and the `_f.wig` / `_r.wig` file names are left out. A file is its sequence of `Line` values.
- The command-line parsing is glue code. Its default offset of 14, like the default argument `p_site_offset=14` of `convert_bam_to_wig`, is the constant `DefaultPSiteOffset`, which is also the default value of `ConvertBamToWig`'s `pSiteOffset` parameter.
- Bam2Wig.LengthTable: does not state that its keys are exactly the header names, only that every header name is a key. The model never reads any other key.
- Bam2WigProps.OutOfRangePSiteDropped: is stated for the last read only. The same fact for a read elsewhere in the sequence would need a lemma that the tables do not depend on read order, which is not part of this model.
- Bam2Wig.PSitePosition: assumes `reference_start` and `reference_end` are present for a mapped read. pysam's `None` for a read without coordinates is not modelled.
- Exceptions other than the `IndexError` of `extract_chromosome_name` are not modelled: I/O errors, and a header name missing from the length table, which cannot happen because every header name has a length.
