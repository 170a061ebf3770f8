/**
 * The BAM-to-wiggle signal extractor (scripts/bam2wig_chromos.py).
 *
 * The BAM file is taken as data: its header, a sequence of reference names with
 * their lengths, and its alignment records in file order. Each output file is a
 * sequence of line values: the track line, one `fixedStep` declaration per header
 * reference and one count line per position of that reference.
 */
module Bam2Wig {
  import opened Wrappers
  import opened PyString

  /** The prefix `extract_chromosome_name` removes (together with every later copy). */
  const ChrTag := "Chr"
  /** The gene-identifier prefix (`AT1G01010.1`) whose third character names the chromosome. */
  const GeneTag := "AT"
  /** Distance from a read's 5' end to its P-site when the caller gives none. */
  const DefaultPSiteOffset := 14
  const ForwardTrackName := "forward"
  const ReverseTrackName := "reverse"

  /** Python's `IndexError`, raised by `reference_name[2]` on a name that is too short. */
  datatype Error = IndexError

  /** One entry of the BAM header: `bam.references[i]` and `bam.lengths[i]`. */
  datatype Reference = Reference(name: string, length: nat)

  /** The fields of an alignment record the extractor reads; `referenceEnd` is exclusive. */
  datatype AlignedRead = AlignedRead(
    referenceName: string,
    referenceStart: int,
    referenceEnd: int,
    isReverse: bool,
    isUnmapped: bool)

  /** One line of a wiggle file: `track type=wiggle_0 name=<name>`,
      `fixedStep chrom=<chrom> start=1 step=1`, or a count. */
  datatype Line = TrackLine(name: string) | FixedStep(chrom: string) | Value(count: nat)

  /** A strand's counts, `{chrom: {pos: count}}`. */
  type Table = map<string, map<int, nat>>

  datatype Tables = Tables(forward: Table, reverse: Table)

  /** What a run leaves behind: the two files it wrote (a file that was never opened
      is `None`) and the exception that ended it, if any. */
  datatype Outcome = Outcome(forwardWig: Option<seq<Line>>, reverseWig: Option<seq<Line>>, error: Option<Error>)

  // ---------------------------------------------------------------------------
  // Name normalisation

  /** `extract_chromosome_name`: a `Chr` name loses every `Chr`, an `AT` name becomes its
      third character, any other name is kept. Indexing the third character raises only
      for the name `AT` itself. */
  function ExtractChromosomeName(name: string): (r: Result<string, Error>)
    ensures r.Err? <==> name == GeneTag
    ensures !StartsWith(name, ChrTag) && !StartsWith(name, GeneTag) ==> r == Ok(name)
  {
    if StartsWith(name, ChrTag) then Ok(RemoveAll(name, ChrTag))
    else if StartsWith(name, GeneTag) then
      if 2 < |name| then Ok([name[2]])
      else
        assert name == name[..2];
        Err(IndexError)
    else Ok(name)
  }

  /** The two renaming branches of `extract_chromosome_name`: a `Chr` name becomes its
      `Chr`-separated pieces joined with nothing between, an `AT` name its third character. */
  lemma ExtractChromosomeNameCases(name: string)
    ensures StartsWith(name, ChrTag) ==> ExtractChromosomeName(name) == Ok(Join(Split(name, ChrTag), ""))
    ensures !StartsWith(name, ChrTag) && StartsWith(name, GeneTag) && |name| > 2
            ==> ExtractChromosomeName(name) == Ok([name[2]])
  {
    if StartsWith(name, ChrTag) {
      RemoveAllIsJoinOfSplit(name, ChrTag);
    }
  }

  // ---------------------------------------------------------------------------
  // Counting

  /** The P-site: `offset` bases downstream of the read's 5' end, which is the first
      covered base of a forward read and the last covered base of a reverse read. With an
      offset shorter than the read, the P-site lies among the bases the read covers. */
  function PSitePosition(read: AlignedRead, offset: int): (pos: int)
    ensures read.isReverse ==> pos + offset == read.referenceEnd - 1
    ensures !read.isReverse ==> pos - offset == read.referenceStart
    ensures 0 <= offset < read.referenceEnd - read.referenceStart ==> read.referenceStart <= pos < read.referenceEnd
  {
    if read.isReverse then read.referenceEnd - 1 - offset
    else read.referenceStart + offset
  }

  /** `counts.get(chrom, {}).get(pos, 0)`: the count stored for a position, 0 when absent. */
  function CountAt(t: Table, chrom: string, pos: int): nat
  {
    if chrom in t && pos in t[chrom] then t[chrom][pos] else 0
  }

  /** `counts[chrom][pos] += 1` on the nested `defaultdict`: exactly one entry grows by one. */
  function Increment(t: Table, chrom: string, pos: int): (r: Table)
    ensures forall c, p :: CountAt(r, c, p) == CountAt(t, c, p) + (if c == chrom && p == pos then 1 else 0)
    ensures r.Keys == t.Keys + {chrom}
  {
    var inner := if chrom in t then t[chrom] else map[];
    t[chrom := inner[pos := CountAt(t, chrom, pos) + 1]]
  }

  /** Every mapped read's reference name normalises without an exception. */
  predicate ReadNamesResolve(alignments: seq<AlignedRead>)
  {
    forall i :: 0 <= i < |alignments| && !alignments[i].isUnmapped ==> ExtractChromosomeName(alignments[i].referenceName).Ok?
  }

  /** The table of one strand after the counting loop has seen `alignments`. */
  function StrandTable(alignments: seq<AlignedRead>, offset: int, reverse: bool): Table
    requires ReadNamesResolve(alignments)
    decreases |alignments|
  {
    if alignments == [] then map[]
    else
      var before := StrandTable(alignments[..|alignments| - 1], offset, reverse);
      var read := alignments[|alignments| - 1];
      if read.isUnmapped || read.isReverse != reverse then before
      else Increment(before, ExtractChromosomeName(read.referenceName).value, PSitePosition(read, offset))
  }

  /** The `for read in bam.fetch()` loop: skips unmapped alignments and adds one to the P-site of
      every mapped read in its strand's table; a mapped read named `AT` aborts the run. */
  method CountReads(alignments: seq<AlignedRead>, offset: int) returns (res: Result<Tables, Error>)
    ensures res.Ok? <==> ReadNamesResolve(alignments)
    ensures res.Ok? ==> res.value == Tables(StrandTable(alignments, offset, false), StrandTable(alignments, offset, true))
  {
    var forward: Table := map[];
    var reverse: Table := map[];
    for i := 0 to |alignments|
      invariant ReadNamesResolve(alignments[..i])
      invariant forward == StrandTable(alignments[..i], offset, false)
      invariant reverse == StrandTable(alignments[..i], offset, true)
    {
      assert alignments[..i + 1][..i] == alignments[..i];
      var read := alignments[i];
      if read.isUnmapped {
        continue;
      }
      var chrom := ExtractChromosomeName(read.referenceName);
      if chrom.Err? {
        return Err(chrom.error);
      }
      if read.isReverse {
        var pSitePos := PSitePosition(read, offset);
        reverse := Increment(reverse, chrom.value, pSitePos);
      } else {
        var pSitePos := PSitePosition(read, offset);
        forward := Increment(forward, chrom.value, pSitePos);
      }
    }
    assert alignments[..|alignments|] == alignments;
    return Ok(Tables(forward, reverse));
  }

  // ---------------------------------------------------------------------------
  // Emission

  /** No later header entry has the same name as entry `i`. */
  predicate LastOccurrence(header: seq<Reference>, i: int)
    requires 0 <= i < |header|
  {
    forall j :: i < j < |header| ==> header[j].name != header[i].name
  }

  /** `dict(zip(bam.references, bam.lengths))`: every header name is a key, and a name
      that occurs more than once keeps the length of its last occurrence. */
  function LengthTable(header: seq<Reference>): (lengths: map<string, nat>)
    ensures forall i :: 0 <= i < |header| ==> header[i].name in lengths
    ensures forall i :: 0 <= i < |header| && LastOccurrence(header, i) ==> lengths[header[i].name] == header[i].length
    decreases |header|
  {
    if header == [] then map[]
    else
      var init := header[..|header| - 1];
      var last := header[|header| - 1];
      var lengths := LengthTable(init)[last.name := last.length];
      assert forall i :: 0 <= i < |init| ==> init[i] == header[i];
      lengths
  }

  /** The number of header entries written before the first name that raises: all of
      them when every name normalises. */
  function FirstUnresolved(header: seq<Reference>): (n: nat)
    ensures n <= |header|
    ensures forall i :: 0 <= i < n ==> ExtractChromosomeName(header[i].name).Ok?
    ensures n < |header| ==> ExtractChromosomeName(header[n].name).Err?
    decreases |header|
  {
    if header == [] then 0
    else if ExtractChromosomeName(header[0].name).Err? then 0
    else 1 + FirstUnresolved(header[1..])
  }

  /** The header entries can all be written: they normalise and have a length. */
  predicate Emittable(entries: seq<Reference>, lengths: map<string, nat>)
  {
    forall i :: 0 <= i < |entries| ==>
      ExtractChromosomeName(entries[i].name).Ok? && entries[i].name in lengths
  }

  /** The count lines of positions `0 .. n - 1` of a chromosome. */
  function CountLines(t: Table, chrom: string, n: nat): seq<Line>
  {
    seq(n, k => Value(CountAt(t, chrom, k)))
  }

  /** One more position appends its count line. */
  lemma CountLinesSnoc(t: Table, chrom: string, n: nat)
    ensures CountLines(t, chrom, n + 1) == CountLines(t, chrom, n) + [Value(CountAt(t, chrom, n))]
  {
  }

  /** One chromosome's block: its declaration and the count at every position
      `0 .. length - 1`, 0 where the table holds nothing. */
  function Block(chrom: string, length: nat, t: Table): seq<Line>
  {
    [FixedStep(chrom)] + CountLines(t, chrom, length)
  }

  /** The blocks of the given header entries, in header order. */
  function Blocks(entries: seq<Reference>, lengths: map<string, nat>, t: Table): seq<Line>
    requires Emittable(entries, lengths)
    decreases |entries|
  {
    if entries == [] then []
    else
      var last := entries[|entries| - 1];
      Blocks(entries[..|entries| - 1], lengths, t)
        + Block(ExtractChromosomeName(last.name).value, lengths[last.name], t)
  }

  /** A whole wiggle file: the track line, then the blocks. */
  function Track(trackName: string, entries: seq<Reference>, lengths: map<string, nat>, t: Table): seq<Line>
    requires Emittable(entries, lengths)
  {
    [TrackLine(trackName)] + Blocks(entries, lengths, t)
  }

  /** Every header entry before the first one that raises can be written. */
  lemma EmittablePrefix(header: seq<Reference>, n: nat)
    requires n <= FirstUnresolved(header)
    ensures Emittable(header[..n], LengthTable(header))
  {
  }

  /** Writing one more header entry appends its block. */
  lemma TrackSnoc(trackName: string, header: seq<Reference>, n: nat, lengths: map<string, nat>, t: Table)
    requires n < |header| && Emittable(header[..n + 1], lengths)
    ensures Emittable(header[..n], lengths)
    ensures Track(trackName, header[..n + 1], lengths, t)
         == Track(trackName, header[..n], lengths, t)
            + Block(ExtractChromosomeName(header[n].name).value, lengths[header[n].name], t)
  {
    assert header[..n + 1][..n] == header[..n];
  }

  /** The lines written for one chromosome, from `counts = table.get(chrom, {})`: both
      branches of `if counts:` write the block the table determines. */
  method WriteBlock(chrom: string, chromLength: nat, counts: map<int, nat>, ghost table: Table)
    returns (block: seq<Line>)
    requires counts == if chrom in table then table[chrom] else map[]
    ensures block == Block(chrom, chromLength, table)
  {
    if |counts| > 0 {
      block := [FixedStep(chrom)];
      for pos := 0 to chromLength
        invariant block == [FixedStep(chrom)] + CountLines(table, chrom, pos)
      {
        var count := if pos in counts then counts[pos] else 0;
        CountLinesSnoc(table, chrom, pos);
        block := block + [Value(count)];
      }
    } else {
      // Zeros when the strand holds no counts for this chromosome.
      block := [FixedStep(chrom)];
      for pos := 0 to chromLength
        invariant block == [FixedStep(chrom)] + CountLines(table, chrom, pos)
      {
        assert counts == map[];
        CountLinesSnoc(table, chrom, pos);
        block := block + [Value(0)];
      }
    }
  }

  /** One `with open(...)` block: writes the track line and, for each header entry in
      header order, its block. When a header name raises, the lines written so far stay
      in the file and `aborted` is set. */
  method WriteTrack(trackName: string, header: seq<Reference>, table: Table)
    returns (written: seq<Line>, aborted: bool)
    ensures aborted <==> FirstUnresolved(header) < |header|
    ensures written == Track(trackName, header[..FirstUnresolved(header)], LengthTable(header), table)
  {
    var chrLengths := LengthTable(header);
    written := [TrackLine(trackName)];
    EmittablePrefix(header, 0);
    for i := 0 to |header|
      invariant i <= FirstUnresolved(header)
      invariant Emittable(header[..i], chrLengths)
      invariant written == Track(trackName, header[..i], chrLengths, table)
    {
      var chromAdjusted := ExtractChromosomeName(header[i].name);
      if chromAdjusted.Err? {
        assert i == FirstUnresolved(header);
        aborted := true;
        return;
      }
      assert i < FirstUnresolved(header);
      EmittablePrefix(header, i + 1);
      TrackSnoc(trackName, header, i, chrLengths, table);
      var chrom := chromAdjusted.value;
      var chromLength := chrLengths[header[i].name];
      var counts := if chrom in table then table[chrom] else map[];
      var block := WriteBlock(chrom, chromLength, counts, table);
      written := written + block;
    }
    assert header[..|header|] == header;
    aborted := false;
  }

  // ---------------------------------------------------------------------------
  // The whole conversion

  /** `convert_bam_to_wig`: counts first (an exception here leaves no file), then writes
      the forward file and then the reverse file. A header name that raises leaves the
      forward file partly written and the reverse file unopened. */
  method ConvertBamToWig(header: seq<Reference>, alignments: seq<AlignedRead>, pSiteOffset: int := DefaultPSiteOffset)
    returns (out: Outcome)
    ensures out.error.None? <==> ReadNamesResolve(alignments) && FirstUnresolved(header) == |header|
    ensures !ReadNamesResolve(alignments) ==> out.forwardWig.None? && out.reverseWig.None?
    ensures ReadNamesResolve(alignments) ==>
      out.forwardWig == Some(Track(ForwardTrackName, header[..FirstUnresolved(header)], LengthTable(header),
                                   StrandTable(alignments, pSiteOffset, false)))
    ensures ReadNamesResolve(alignments) && FirstUnresolved(header) == |header| ==>
      out.reverseWig == Some(Track(ReverseTrackName, header, LengthTable(header),
                                   StrandTable(alignments, pSiteOffset, true)))
    ensures FirstUnresolved(header) < |header| ==> out.reverseWig == None
  {
    var counted := CountReads(alignments, pSiteOffset);
    if counted.Err? {
      return Outcome(None, None, Some(counted.error));
    }
    var forwardLines, forwardAborted := WriteTrack(ForwardTrackName, header, counted.value.forward);
    if forwardAborted {
      return Outcome(Some(forwardLines), None, Some(IndexError));
    }
    var reverseLines, reverseAborted := WriteTrack(ReverseTrackName, header, counted.value.reverse);
    assert header[..|header|] == header;
    return Outcome(Some(forwardLines), Some(reverseLines), None);
  }
}
