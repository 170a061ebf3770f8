/**
 * What the extractor of scripts/bam2wig_chromos.py guarantees about its count
 * tables and its two wiggle files, proved about the functions that the methods
 * of module Bam2Wig are specified by.
 */
module Bam2WigProps {
  import opened Wrappers
  import opened PyString
  import opened MapSum
  import opened Bam2Wig

  // ---------------------------------------------------------------------------
  // Name normalisation

  /** A `Chr` name is cut at every `Chr` its left-to-right scan meets: the name is the
      pieces joined by `Chr`, the first piece is empty (the leading tag), no piece holds
      a `Chr`, and the normalised name is the pieces joined with nothing between. */
  lemma ChrNameNormalisation(name: string)
    requires StartsWith(name, ChrTag)
    ensures var pieces := Split(name, ChrTag);
      && pieces[0] == ""
      && Join(pieces, ChrTag) == name
      && (forall k :: 0 <= k < |pieces| ==> !Contains(pieces[k], ChrTag))
      && ExtractChromosomeName(name) == Ok(Join(pieces, ""))
  {
    SplitJoin(name, ChrTag);
    SplitPiecesAreSeparatorFree(name, ChrTag);
    RemoveAllIsJoinOfSplit(name, ChrTag);
    assert name[..|ChrTag|] == ChrTag;
  }

  /** Worked names: `Chr` names lose the tag, gene identifiers collapse to their
      chromosome digit, other names pass through, and the bare name `AT` raises. */
  lemma NormalisationExamples()
    ensures ExtractChromosomeName("Chr1") == Ok("1")
    ensures ExtractChromosomeName("ChrC") == Ok("C")
    ensures ExtractChromosomeName("AT1G01010.1") == Ok("1")
    ensures ExtractChromosomeName("Mt") == Ok("Mt")
    ensures ExtractChromosomeName("AT").Err?
  {
    assert "Chr1"[..3] == ChrTag && "Chr1"[3..] == "1";
    assert "ChrC"[..3] == ChrTag && "ChrC"[3..] == "C";
    assert "AT1G01010.1"[..3] != ChrTag by { assert "AT1G01010.1"[0] != ChrTag[0]; }
    assert "AT1G01010.1"[..2] == GeneTag;
    assert "Mt"[..2] != GeneTag by { assert "Mt"[0] != GeneTag[0]; }
  }

  // ---------------------------------------------------------------------------
  // P-site arithmetic

  /** The two worked positions for the default offset: a forward read starting at 100
      has its P-site at 114, a reverse read ending at 200 at 185. */
  lemma DefaultOffsetPositions(chrom: string)
    ensures PSitePosition(AlignedRead(chrom, 100, 130, false, false), DefaultPSiteOffset) == 114
    ensures PSitePosition(AlignedRead(chrom, 170, 200, true, false), DefaultPSiteOffset) == 185
  {
  }

  // ---------------------------------------------------------------------------
  // Counting

  /** The read adds one at (`chrom`, `pos`) of the `reverse` strand table. */
  predicate Lands(read: AlignedRead, offset: int, reverse: bool, chrom: string, pos: int)
  {
    && !read.isUnmapped
    && read.isReverse == reverse
    && ExtractChromosomeName(read.referenceName) == Ok(chrom)
    && PSitePosition(read, offset) == pos
  }

  /** The indices below `n` of the reads whose P-site is (`chrom`, `pos`) on the given strand. */
  ghost function HitsBefore(alignments: seq<AlignedRead>, n: nat, offset: int, reverse: bool, chrom: string, pos: int): set<int>
    requires n <= |alignments|
  {
    set i | 0 <= i < n && Lands(alignments[i], offset, reverse, chrom, pos)
  }

  /** The indices of the reads whose P-site is (`chrom`, `pos`) on the given strand. */
  ghost function Hits(alignments: seq<AlignedRead>, offset: int, reverse: bool, chrom: string, pos: int): set<int>
  {
    HitsBefore(alignments, |alignments|, offset, reverse, chrom, pos)
  }

  /** The indices below `n` of the mapped reads on the given strand. */
  ghost function MappedOnStrandBefore(alignments: seq<AlignedRead>, n: nat, reverse: bool): set<int>
    requires n <= |alignments|
  {
    set i | 0 <= i < n && !alignments[i].isUnmapped && alignments[i].isReverse == reverse
  }

  /** The indices of the mapped reads on the given strand. */
  ghost function MappedOnStrand(alignments: seq<AlignedRead>, reverse: bool): set<int>
  {
    MappedOnStrandBefore(alignments, |alignments|, reverse)
  }

  /** The indices of the mapped reads. */
  ghost function Mapped(alignments: seq<AlignedRead>): set<int>
  {
    set i | 0 <= i < |alignments| && !alignments[i].isUnmapped
  }

  /** The sum of the counts of each chromosome of a table. */
  ghost function ChromosomeSums(t: Table): (sums: map<string, nat>)
    ensures sums.Keys == t.Keys
  {
    map c | c in t :: SumValues(t[c])
  }

  /** The sum of all counts of a table. */
  ghost function Total(t: Table): nat
  {
    SumValues(ChromosomeSums(t))
  }

  /** A prefix of reads whose names resolve has names that resolve. */
  lemma ResolvePrefix(alignments: seq<AlignedRead>, n: nat)
    requires n <= |alignments| && ReadNamesResolve(alignments)
    ensures ReadNamesResolve(alignments[..n])
  {
  }

  /** A read the table does not count on this strand (unmapped, or of the other strand)
      leaves the table as it was. */
  lemma OtherReadLeavesTable(alignments: seq<AlignedRead>, read: AlignedRead, offset: int, reverse: bool)
    requires ReadNamesResolve(alignments + [read])
    requires read.isUnmapped || read.isReverse != reverse
    ensures ReadNamesResolve(alignments)
    ensures StrandTable(alignments + [read], offset, reverse) == StrandTable(alignments, offset, reverse)
  {
    assert (alignments + [read])[..|alignments|] == alignments;
  }

  /** One more read changes the strand's table in exactly one entry, by exactly one, and
      only when it lands on that strand. */
  lemma ReadStep(alignments: seq<AlignedRead>, read: AlignedRead, offset: int, reverse: bool)
    requires ReadNamesResolve(alignments + [read])
    ensures ReadNamesResolve(alignments)
    ensures forall c, p :: CountAt(StrandTable(alignments + [read], offset, reverse), c, p)
                        == CountAt(StrandTable(alignments, offset, reverse), c, p)
                           + (if Lands(read, offset, reverse, c, p) then 1 else 0)
  {
    assert (alignments + [read])[..|alignments|] == alignments;
    assert (alignments + [read])[|alignments|] == read;
    assert !read.isUnmapped ==> ExtractChromosomeName(read.referenceName).Ok?;
  }

  /** Index `n` joins the indices below `n` that satisfy `p` exactly when it satisfies `p`. */
  lemma IndicesNext(n: nat, p: int -> bool)
    ensures |set i | 0 <= i < n + 1 && p(i)| == |set i | 0 <= i < n && p(i)| + (if p(n) then 1 else 0)
  {
    var before := set i | 0 <= i < n && p(i);
    var after := set i | 0 <= i < n + 1 && p(i);
    if p(n) {
      assert after == before + {n};
    } else {
      assert after == before;
    }
  }

  /** Read `n` adds its index to the hits exactly when it lands there. */
  lemma HitsNext(alignments: seq<AlignedRead>, n: nat, offset: int, reverse: bool, chrom: string, pos: int)
    requires n < |alignments|
    ensures |HitsBefore(alignments, n + 1, offset, reverse, chrom, pos)|
         == |HitsBefore(alignments, n, offset, reverse, chrom, pos)|
            + (if Lands(alignments[n], offset, reverse, chrom, pos) then 1 else 0)
  {
    var lands := i => 0 <= i < |alignments| && Lands(alignments[i], offset, reverse, chrom, pos);
    IndicesNext(n, lands);
    assert HitsBefore(alignments, n + 1, offset, reverse, chrom, pos) == set i | 0 <= i < n + 1 && lands(i);
    assert HitsBefore(alignments, n, offset, reverse, chrom, pos) == set i | 0 <= i < n && lands(i);
  }

  /** Read `n` adds its index to the mapped reads of its strand, if it is mapped. */
  lemma MappedOnStrandNext(alignments: seq<AlignedRead>, n: nat, reverse: bool)
    requires n < |alignments|
    ensures |MappedOnStrandBefore(alignments, n + 1, reverse)|
         == |MappedOnStrandBefore(alignments, n, reverse)|
            + (if !alignments[n].isUnmapped && alignments[n].isReverse == reverse then 1 else 0)
  {
    var mapped := i => 0 <= i < |alignments| && !alignments[i].isUnmapped && alignments[i].isReverse == reverse;
    IndicesNext(n, mapped);
    assert MappedOnStrandBefore(alignments, n + 1, reverse) == set i | 0 <= i < n + 1 && mapped(i);
    assert MappedOnStrandBefore(alignments, n, reverse) == set i | 0 <= i < n && mapped(i);
  }

  /** Counting the first `n` reads stores at each position the number of those reads
      whose P-site falls there. */
  lemma {:induction false} StrandTablePrefixCountsHits(
    alignments: seq<AlignedRead>, n: nat, offset: int, reverse: bool, chrom: string, pos: int)
    requires ReadNamesResolve(alignments) && n <= |alignments|
    ensures ReadNamesResolve(alignments[..n])
    ensures CountAt(StrandTable(alignments[..n], offset, reverse), chrom, pos)
         == |HitsBefore(alignments, n, offset, reverse, chrom, pos)|
    decreases n
  {
    ResolvePrefix(alignments, n);
    if n > 0 {
      StrandTablePrefixCountsHits(alignments, n - 1, offset, reverse, chrom, pos);
      assert alignments[..n] == alignments[..n - 1] + [alignments[n - 1]];
      ReadStep(alignments[..n - 1], alignments[n - 1], offset, reverse);
      HitsNext(alignments, n - 1, offset, reverse, chrom, pos);
    }
  }

  /** The count stored at a position is the number of reads whose P-site falls there. */
  lemma StrandTableCountsHits(
    alignments: seq<AlignedRead>, offset: int, reverse: bool, chrom: string, pos: int)
    requires ReadNamesResolve(alignments)
    ensures CountAt(StrandTable(alignments, offset, reverse), chrom, pos) == |Hits(alignments, offset, reverse, chrom, pos)|
  {
    StrandTablePrefixCountsHits(alignments, |alignments|, offset, reverse, chrom, pos);
    assert alignments[..|alignments|] == alignments;
  }

  /** Replacing one chromosome's counts replaces that chromosome's sum and no other. */
  lemma ChromosomeSumsUpdate(t: Table, chrom: string, counts: map<int, nat>)
    ensures ChromosomeSums(t[chrom := counts]) == ChromosomeSums(t)[chrom := SumValues(counts)]
  {
  }

  /** Adding one to an entry adds one to the table's total. */
  lemma IncrementTotal(t: Table, chrom: string, pos: int)
    ensures Total(Increment(t, chrom, pos)) == Total(t) + 1
  {
    var inner: map<int, nat> := if chrom in t then t[chrom] else map[];
    var grown: map<int, nat> := inner[pos := CountAt(t, chrom, pos) + 1];
    var r := Increment(t, chrom, pos);
    assert r == t[chrom := grown];
    SumValuesUpdate(inner, pos, CountAt(t, chrom, pos) + 1);
    assert SumValues(grown) == SumValues(inner) + 1;
    var sums := ChromosomeSums(t);
    ChromosomeSumsUpdate(t, chrom, grown);
    SumValuesUpdate(sums, chrom, SumValues(grown));
    if chrom !in t {
      assert inner.Keys == {};
    }
  }

  /** Counting the first `n` reads gives a strand total equal to the number of those
      reads that are mapped on that strand. */
  lemma {:induction false} StrandTablePrefixTotal(alignments: seq<AlignedRead>, n: nat, offset: int, reverse: bool)
    requires ReadNamesResolve(alignments) && n <= |alignments|
    ensures ReadNamesResolve(alignments[..n])
    ensures Total(StrandTable(alignments[..n], offset, reverse)) == |MappedOnStrandBefore(alignments, n, reverse)|
    decreases n
  {
    ResolvePrefix(alignments, n);
    if n == 0 {
      var empty: Table := map[];
      assert ChromosomeSums(empty).Keys == {};
      assert MappedOnStrandBefore(alignments, 0, reverse) == {};
    } else {
      var init := alignments[..n - 1];
      var read := alignments[n - 1];
      StrandTablePrefixTotal(alignments, n - 1, offset, reverse);
      assert alignments[..n] == init + [read];
      MappedOnStrandNext(alignments, n - 1, reverse);
      if !read.isUnmapped && read.isReverse == reverse {
        IncrementTotal(StrandTable(init, offset, reverse), ExtractChromosomeName(read.referenceName).value,
                       PSitePosition(read, offset));
      }
    }
  }

  /** A strand's total is the number of mapped reads on that strand. */
  lemma StrandTableTotal(alignments: seq<AlignedRead>, offset: int, reverse: bool)
    requires ReadNamesResolve(alignments)
    ensures Total(StrandTable(alignments, offset, reverse)) == |MappedOnStrand(alignments, reverse)|
  {
    StrandTablePrefixTotal(alignments, |alignments|, offset, reverse);
    assert alignments[..|alignments|] == alignments;
  }

  /** Conservation: the counts of both tables add up to the number of mapped reads. */
  lemma CountConservation(alignments: seq<AlignedRead>, offset: int)
    requires ReadNamesResolve(alignments)
    ensures Total(StrandTable(alignments, offset, false)) + Total(StrandTable(alignments, offset, true))
         == |Mapped(alignments)|
  {
    StrandTableTotal(alignments, offset, false);
    StrandTableTotal(alignments, offset, true);
    assert Mapped(alignments) == MappedOnStrand(alignments, false) + MappedOnStrand(alignments, true);
    assert MappedOnStrand(alignments, false) * MappedOnStrand(alignments, true) == {};
  }

  // ---------------------------------------------------------------------------
  // Emission

  /** The number of lines the blocks of `entries` take: a declaration plus one line per
      position, for each entry. */
  function LineCount(entries: seq<Reference>, lengths: map<string, nat>): nat
    requires forall i :: 0 <= i < |entries| ==> entries[i].name in lengths
    decreases |entries|
  {
    if entries == [] then 0
    else LineCount(entries[..|entries| - 1], lengths) + 1 + lengths[entries[|entries| - 1].name]
  }

  /** The blocks of `entries` take `LineCount` lines. */
  lemma {:induction false} BlocksLength(entries: seq<Reference>, lengths: map<string, nat>, t: Table)
    requires Emittable(entries, lengths)
    ensures |Blocks(entries, lengths, t)| == LineCount(entries, lengths)
    decreases |entries|
  {
    if entries != [] {
      BlocksLength(entries[..|entries| - 1], lengths, t);
    }
  }

  /** A wiggle file is the track line and then, per header entry, one declaration and
      one line per position: `1 + sum(1 + length)` lines. */
  lemma TrackLength(trackName: string, entries: seq<Reference>, lengths: map<string, nat>, t: Table)
    requires Emittable(entries, lengths)
    ensures |Track(trackName, entries, lengths, t)| == 1 + LineCount(entries, lengths)
    ensures Track(trackName, entries, lengths, t)[0] == TrackLine(trackName)
  {
    BlocksLength(entries, lengths, t);
  }

  /** A prefix of writable entries is writable. */
  lemma EmittablePrefixOf(entries: seq<Reference>, lengths: map<string, nat>, m: nat)
    requires Emittable(entries, lengths) && m <= |entries|
    ensures Emittable(entries[..m], lengths)
  {
    assert forall j :: 0 <= j < m ==> entries[..m][j] == entries[j];
  }

  /** The blocks of a prefix of the entries are a prefix of the blocks. */
  lemma {:induction false} BlocksPrefix(entries: seq<Reference>, lengths: map<string, nat>, t: Table, m: nat)
    requires Emittable(entries, lengths) && m <= |entries|
    ensures Blocks(entries[..m], lengths, t) <= Blocks(entries, lengths, t)
    decreases |entries|
  {
    if m < |entries| {
      var n := |entries| - 1;
      var init := entries[..n];
      assert init[..m] == entries[..m];
      BlocksPrefix(init, lengths, t, m);
    } else {
      assert entries[..m] == entries;
    }
  }

  /** Writing entry `i` appends its block to the blocks of the entries before it. */
  lemma BlocksSnocAt(entries: seq<Reference>, lengths: map<string, nat>, t: Table, i: nat)
    requires Emittable(entries, lengths) && i < |entries|
    ensures Emittable(entries[..i], lengths) && Emittable(entries[..i + 1], lengths)
    ensures Blocks(entries[..i + 1], lengths, t)
         == Blocks(entries[..i], lengths, t)
            + Block(ExtractChromosomeName(entries[i].name).value, lengths[entries[i].name], t)
  {
    EmittablePrefixOf(entries, lengths, i);
    EmittablePrefixOf(entries, lengths, i + 1);
    assert entries[..i + 1][..i] == entries[..i];
  }

  /** Entry `i`'s block occupies the lines right after the blocks of the entries before it. */
  lemma BlocksWindow(entries: seq<Reference>, lengths: map<string, nat>, t: Table, i: nat)
    requires Emittable(entries, lengths) && i < |entries|
    ensures var start := LineCount(entries[..i], lengths);
      var block := Block(ExtractChromosomeName(entries[i].name).value, lengths[entries[i].name], t);
      var blocks := Blocks(entries, lengths, t);
      && start + |block| <= |blocks|
      && forall j :: 0 <= j < |block| ==> blocks[start + j] == block[j]
  {
    var block := Block(ExtractChromosomeName(entries[i].name).value, lengths[entries[i].name], t);
    var blocks := Blocks(entries, lengths, t);
    BlocksSnocAt(entries, lengths, t, i);
    var front := Blocks(entries[..i], lengths, t);
    var upTo := Blocks(entries[..i + 1], lengths, t);
    BlocksLength(entries[..i], lengths, t);
    BlocksPrefix(entries, lengths, t, i + 1);
    forall j | 0 <= j < |block|
      ensures blocks[|front| + j] == block[j]
    {
      assert blocks[|front| + j] == upTo[|front| + j];
    }
  }

  /** Entry `i`'s block sits right after the blocks of the entries before it: its
      declaration, then the count of each of its positions. */
  lemma BlocksBlockAt(entries: seq<Reference>, lengths: map<string, nat>, t: Table, i: nat)
    requires Emittable(entries, lengths) && i < |entries|
    ensures var start := LineCount(entries[..i], lengths);
      var chrom := ExtractChromosomeName(entries[i].name).value;
      var blocks := Blocks(entries, lengths, t);
      && start + lengths[entries[i].name] < |blocks|
      && blocks[start] == FixedStep(chrom)
      && forall k :: 0 <= k < lengths[entries[i].name] ==> blocks[start + 1 + k] == Value(CountAt(t, chrom, k))
  {
    var chrom := ExtractChromosomeName(entries[i].name).value;
    var block := Block(chrom, lengths[entries[i].name], t);
    var blocks := Blocks(entries, lengths, t);
    var start := LineCount(entries[..i], lengths);
    BlocksWindow(entries, lengths, t, i);
    assert blocks[start] == block[0];
    forall k | 0 <= k < lengths[entries[i].name]
      ensures blocks[start + 1 + k] == Value(CountAt(t, chrom, k))
    {
      assert blocks[start + 1 + k] == block[1 + k];
    }
  }

  /** Entry `i`'s block in the wiggle file: its `fixedStep` line, then at offset `k` the
      count of position `k` of the entry's normalised name (0 when absent). */
  lemma TrackBlockAt(trackName: string, entries: seq<Reference>, lengths: map<string, nat>, t: Table, i: nat)
    requires Emittable(entries, lengths) && i < |entries|
    ensures var start := 1 + LineCount(entries[..i], lengths);
      var chrom := ExtractChromosomeName(entries[i].name).value;
      var track := Track(trackName, entries, lengths, t);
      && start + lengths[entries[i].name] < |track|
      && track[start] == FixedStep(chrom)
      && forall k :: 0 <= k < lengths[entries[i].name] ==> track[start + 1 + k] == Value(CountAt(t, chrom, k))
  {
    BlocksBlockAt(entries, lengths, t, i);
  }

  /** Two tables agree on every position the entries' blocks write. */
  ghost predicate AgreeOnWritten(entries: seq<Reference>, lengths: map<string, nat>, t1: Table, t2: Table)
    requires Emittable(entries, lengths)
  {
    forall i, k :: 0 <= i < |entries| && 0 <= k < lengths[entries[i].name] ==>
      CountAt(t1, ExtractChromosomeName(entries[i].name).value, k) == CountAt(t2, ExtractChromosomeName(entries[i].name).value, k)
  }

  /** A header whose names all normalise can be written in full. */
  lemma HeaderEmittable(header: seq<Reference>)
    requires FirstUnresolved(header) == |header|
    ensures Emittable(header, LengthTable(header))
  {
    EmittablePrefix(header, |header|);
    assert header[..|header|] == header;
  }

  /** Blocks read their tables only at the positions they write. */
  lemma {:induction false} BlocksReadOnlyWrittenPositions(
    entries: seq<Reference>, lengths: map<string, nat>, t1: Table, t2: Table)
    requires Emittable(entries, lengths) && AgreeOnWritten(entries, lengths, t1, t2)
    ensures Blocks(entries, lengths, t1) == Blocks(entries, lengths, t2)
    decreases |entries|
  {
    if entries != [] {
      var n := |entries| - 1;
      var init := entries[..n];
      assert forall i :: 0 <= i < n ==> init[i] == entries[i];
      assert AgreeOnWritten(init, lengths, t1, t2);
      BlocksReadOnlyWrittenPositions(init, lengths, t1, t2);
      var chrom := ExtractChromosomeName(entries[n].name).value;
      var length := lengths[entries[n].name];
      assert CountLines(t1, chrom, length) == CountLines(t2, chrom, length);
    }
  }

  /** Counts outside `[0, length)` of every entry are never written: two tables that agree
      on the written positions give the same file. */
  lemma TrackReadsOnlyWrittenPositions(
    trackName: string, entries: seq<Reference>, lengths: map<string, nat>, t1: Table, t2: Table)
    requires Emittable(entries, lengths)
    requires forall i, k :: 0 <= i < |entries| && 0 <= k < lengths[entries[i].name] ==>
      CountAt(t1, ExtractChromosomeName(entries[i].name).value, k) == CountAt(t2, ExtractChromosomeName(entries[i].name).value, k)
    ensures Track(trackName, entries, lengths, t1) == Track(trackName, entries, lengths, t2)
  {
    BlocksReadOnlyWrittenPositions(entries, lengths, t1, t2);
  }

  /** A read whose P-site lies outside every header entry of its chromosome is dropped
      without a trace: the file is the one written without that read. */
  lemma OutOfRangePSiteDropped(
    trackName: string, header: seq<Reference>, alignments: seq<AlignedRead>, read: AlignedRead,
    offset: int, reverse: bool)
    requires ReadNamesResolve(alignments + [read]) && FirstUnresolved(header) == |header|
    requires forall i :: 0 <= i < |header| && ExtractChromosomeName(header[i].name) == ExtractChromosomeName(read.referenceName) ==>
      PSitePosition(read, offset) < 0 || PSitePosition(read, offset) >= LengthTable(header)[header[i].name]
    ensures ReadNamesResolve(alignments)
    ensures Emittable(header, LengthTable(header))
    ensures Track(trackName, header, LengthTable(header), StrandTable(alignments + [read], offset, reverse))
         == Track(trackName, header, LengthTable(header), StrandTable(alignments, offset, reverse))
  {
    ReadStep(alignments, read, offset, reverse);
    HeaderEmittable(header);
    TrackReadsOnlyWrittenPositions(trackName, header, LengthTable(header),
      StrandTable(alignments + [read], offset, reverse), StrandTable(alignments, offset, reverse));
  }

  /** Two header entries whose names normalise to the same chromosome share one count
      table: their blocks carry the same counts on the positions both cover. */
  lemma SharedNameSharesCounts(
    trackName: string, entries: seq<Reference>, lengths: map<string, nat>, t: Table, i: nat, j: nat, k: nat)
    requires Emittable(entries, lengths) && i < |entries| && j < |entries|
    requires ExtractChromosomeName(entries[i].name) == ExtractChromosomeName(entries[j].name)
    requires k < lengths[entries[i].name] && k < lengths[entries[j].name]
    ensures var track := Track(trackName, entries, lengths, t);
      var si := 1 + LineCount(entries[..i], lengths);
      var sj := 1 + LineCount(entries[..j], lengths);
      si + 1 + k < |track| && sj + 1 + k < |track| && track[si + 1 + k] == track[sj + 1 + k]
  {
    TrackBlockAt(trackName, entries, lengths, t, i);
    TrackBlockAt(trackName, entries, lengths, t, j);
    var track := Track(trackName, entries, lengths, t);
    var chrom := ExtractChromosomeName(entries[i].name).value;
    assert track[1 + LineCount(entries[..i], lengths) + 1 + k] == Value(CountAt(t, chrom, k));
    assert track[1 + LineCount(entries[..j], lengths) + 1 + k] == Value(CountAt(t, chrom, k));
  }

  /** The line of position `k` of header entry `i` in a complete file holds the number of
      reads of that strand whose P-site is position `k` of the entry's normalised name. */
  lemma WrittenCountIsHits(
    trackName: string, header: seq<Reference>, alignments: seq<AlignedRead>, offset: int, reverse: bool,
    i: nat, k: nat)
    requires ReadNamesResolve(alignments) && FirstUnresolved(header) == |header|
    requires i < |header| && k < LengthTable(header)[header[i].name]
    ensures Emittable(header, LengthTable(header))
    ensures var track := Track(trackName, header, LengthTable(header), StrandTable(alignments, offset, reverse));
      var line := 1 + LineCount(header[..i], LengthTable(header)) + 1 + k;
      var chrom := ExtractChromosomeName(header[i].name).value;
      line < |track| && track[line] == Value(|Hits(alignments, offset, reverse, chrom, k)|)
  {
    HeaderEmittable(header);
    var chrom := ExtractChromosomeName(header[i].name).value;
    var t := StrandTable(alignments, offset, reverse);
    var lengths := LengthTable(header);
    var line := 1 + LineCount(header[..i], lengths) + 1 + k;
    assert line < |Track(trackName, header, lengths, t)|
        && Track(trackName, header, lengths, t)[line] == Value(CountAt(t, chrom, k)) by {
      TrackBlockAt(trackName, header, lengths, t, i);
    }
    StrandTableCountsHits(alignments, offset, reverse, chrom, k);
  }

  /** The header and read of the worked example: one forward read at 100 on chromosome
      `1` of 500 bases. */
  function ExampleHeader(): seq<Reference> { [Reference("1", 500)] }
  function ExampleReads(): seq<AlignedRead> { [AlignedRead("1", 100, 130, false, false)] }

  /** The example's tables: the forward one holds a single 1 at position 114. */
  lemma ExampleTables()
    ensures ReadNamesResolve(ExampleReads())
    ensures StrandTable(ExampleReads(), DefaultPSiteOffset, false) == Increment(map[], "1", 114)
    ensures StrandTable(ExampleReads(), DefaultPSiteOffset, true) == map[]
    ensures LengthTable(ExampleHeader()) == map["1" := 500]
    ensures Emittable(ExampleHeader(), map["1" := 500])
  {
    assert ExtractChromosomeName("1") == Ok("1");
    assert ExampleReads()[..0] == [];
  }

  /** With the default offset the forward file of the example holds 1 at position 114
      and 0 at every other position. */
  lemma ExampleForwardTrack()
    ensures ReadNamesResolve(ExampleReads()) && Emittable(ExampleHeader(), LengthTable(ExampleHeader()))
    ensures var forward := Track(ForwardTrackName, ExampleHeader(), LengthTable(ExampleHeader()),
                                 StrandTable(ExampleReads(), DefaultPSiteOffset, false));
      && |forward| == 502
      && forward[0] == TrackLine(ForwardTrackName) && forward[1] == FixedStep("1")
      && forward[2 + 114] == Value(1)
      && (forall line :: 2 <= line < 502 && line != 2 + 114 ==> forward[line] == Value(0))
  {
    ExampleTables();
    var lengths := map["1" := 500];
    var t := Increment(map[], "1", 114);
    assert ExampleHeader()[..0] == [];
    TrackLength(ForwardTrackName, ExampleHeader(), lengths, t);
    TrackBlockAt(ForwardTrackName, ExampleHeader(), lengths, t, 0);
    assert forall k :: CountAt(t, "1", k) == if k == 114 then 1 else 0;
  }

  /** The reverse file of the example is all zeros. */
  lemma ExampleReverseTrack()
    ensures ReadNamesResolve(ExampleReads()) && Emittable(ExampleHeader(), LengthTable(ExampleHeader()))
    ensures var reverse := Track(ReverseTrackName, ExampleHeader(), LengthTable(ExampleHeader()),
                                 StrandTable(ExampleReads(), DefaultPSiteOffset, true));
      && |reverse| == 502
      && reverse[0] == TrackLine(ReverseTrackName) && reverse[1] == FixedStep("1")
      && (forall line :: 2 <= line < 502 ==> reverse[line] == Value(0))
  {
    ExampleTables();
    var lengths := map["1" := 500];
    var t: Table := map[];
    assert ExampleHeader()[..0] == [];
    TrackLength(ReverseTrackName, ExampleHeader(), lengths, t);
    TrackBlockAt(ReverseTrackName, ExampleHeader(), lengths, t, 0);
  }
}
