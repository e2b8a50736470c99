/** The node-length index built by `parse_gfa` (src/main.rs): every segment line
    `S <tab> id <tab> sequence` of the graph contributes `id -> byte length of
    sequence`, a later line with the same id replacing an earlier one; the
    smallest and largest ids bound a dense vector, zero where no segment was
    seen, in which node `id` sits at `id - min_id`. The graph file is given as
    its sequence of lines. */
module Gfa {
  import opened Outcome
  import opened Text

  /** A segment line reduced to what the index keeps. */
  datatype Segment = Segment(id: nat, len: nat)

  /** The dense vector and its offset: node `id` has length `lengths[id - minId]`. */
  datatype Index = Index(lengths: seq<nat>, minId: nat)

  // ---------------------------------------------------------------------------
  // Reading segment lines

  /** The segment a graph line declares, if any: a trimmed line starting with
      `S` that has at least three tab-separated fields. A segment line whose id
      is not a `usize` fails the run. */
  function SegmentOfLine(line: string): (r: Result<Option<Segment>>)
    ensures r.Ok? && r.value.Some? ==> r.value.value.id <= UsizeMax
  {
    var trimmed := Trim(line);
    if |trimmed| == 0 || trimmed[0] != 'S' then Ok(None)
    else
      var fields := Split(trimmed, {Tab});
      if |fields| < 3 then Ok(None)
      else match ParseUsize(fields[1])
        case None => Err(BadNumber(fields[1]))
        case Some(id) => Ok(Some(Segment(id, ByteLen(fields[2]))))
  }

  /** The segment line `S <tab> id <tab> sequence` as a graph writer emits it. */
  function SegmentLine(id: nat, sequence: string): string
  {
    Join(["S", DecimalString(id), sequence], Tab)
  }

  /** Reading a written segment line gives back its id and the UTF-8 length of
      its sequence, as long as the sequence has no tab and does not end in
      whitespace (which `trim` would cut off). */
  lemma SegmentLineRoundTrip(id: nat, sequence: string)
    requires id <= UsizeMax
    requires |sequence| > 0 && FreeOf(sequence, {Tab}) && !IsWhitespace(sequence[|sequence| - 1])
    ensures SegmentOfLine(SegmentLine(id, sequence)) == Ok(Some(Segment(id, ByteLen(sequence))))
  {
    var d := DecimalString(id);
    assert FreeOf(d, {Tab}) by {
      assert forall i :: 0 <= i < |d| ==> IsDigit(d[i]);
    }
    ParseDecimal(id);
    WrittenSegment(d, sequence);
  }

  /** A segment line whose id field is not a `usize` fails the run. */
  lemma BadIdFails(d: string, sequence: string)
    requires FreeOf(d, {Tab}) && ParseUsize(d).None?
    requires |sequence| > 0 && FreeOf(sequence, {Tab}) && !IsWhitespace(sequence[|sequence| - 1])
    ensures SegmentOfLine(Join(["S", d, sequence], Tab)) == Err(BadNumber(d))
  {
    WrittenSegment(d, sequence);
  }

  /** What reading `S <tab> d <tab> sequence` gives, for any id text `d`. */
  lemma WrittenSegment(d: string, sequence: string)
    requires FreeOf(d, {Tab})
    requires |sequence| > 0 && FreeOf(sequence, {Tab}) && !IsWhitespace(sequence[|sequence| - 1])
    ensures SegmentOfLine(Join(["S", d, sequence], Tab))
            == match ParseUsize(d)
               case None => Err(BadNumber(d))
               case Some(id) => Ok(Some(Segment(id, ByteLen(sequence))))
  {
    var line := Join(["S", d, sequence], Tab);
    WrittenSegmentTrimmed(d, sequence);
    WrittenSegmentFields(d, sequence);
    SegmentOfFields(line, d, sequence);
  }

  lemma WrittenSegmentFields(d: string, sequence: string)
    requires FreeOf(d, {Tab}) && FreeOf(sequence, {Tab})
    ensures Split(Join(["S", d, sequence], Tab), {Tab}) == ["S", d, sequence]
  {
    SplitJoin(["S", d, sequence], Tab);
  }

  lemma SegmentOfFields(line: string, d: string, sequence: string)
    requires Trim(line) == line && |line| > 0 && line[0] == 'S'
    requires Split(line, {Tab}) == ["S", d, sequence]
    ensures SegmentOfLine(line)
            == match ParseUsize(d)
               case None => Err(BadNumber(d))
               case Some(id) => Ok(Some(Segment(id, ByteLen(sequence))))
  {
  }

  /** `trim` leaves a written segment line alone when its sequence does not end
      in whitespace. */
  lemma WrittenSegmentTrimmed(d: string, sequence: string)
    requires |sequence| > 0 && !IsWhitespace(sequence[|sequence| - 1])
    ensures var line := Join(["S", d, sequence], Tab);
      |line| > 0 && line[0] == 'S' && Trim(line) == line
  {
    var line := Join(["S", d, sequence], Tab);
    WrittenSegmentEnds(d, sequence);
    assert !IsWhitespace(line[0]);
    NothingToTrim(line);
  }

  lemma WrittenSegmentEnds(d: string, sequence: string)
    requires |sequence| > 0
    ensures var line := Join(["S", d, sequence], Tab);
      |line| > 0 && line[0] == 'S' && line[|line| - 1] == sequence[|sequence| - 1]
  {
    assert ["S", d, sequence][1..] == [d, sequence];
    assert [d, sequence][1..] == [sequence];
    assert Join([d, sequence], Tab) == d + [Tab] + sequence;
    assert Join(["S", d, sequence], Tab) == "S" + [Tab] + (d + [Tab] + sequence);
  }

  /** A line whose first character is neither whitespace nor `S` (a header, a
      link, a path) declares no segment. */
  lemma OtherLineSkipped(line: string)
    requires |line| > 0 && !IsWhitespace(line[0]) && line[0] != 'S'
    ensures SegmentOfLine(line) == Ok(None)
  {
    assert TrimFrom(line) == 0;
    assert Trim(line)[0] == line[0];
  }

  /** A segment line with fewer than three fields is skipped: `S` alone, or
      `S <tab> d` without a sequence. */
  lemma ShortSegmentLineSkipped(d: string)
    requires |d| > 0 && FreeOf(d, {Tab}) && !IsWhitespace(d[|d| - 1])
    ensures SegmentOfLine("S") == Ok(None)
    ensures SegmentOfLine(Join(["S", d], Tab)) == Ok(None)
  {
    NothingToTrim("S");
    assert Split("S", {Tab}) == ["S"] by {
      assert "S"[1..] == "";
      assert Split("", {Tab}) == [""];
      assert ['S'] + "" == "S";
    }
    var line := Join(["S", d], Tab);
    assert ["S", d][1..] == [d];
    assert Join([d], Tab) == d;
    assert line == "S" + [Tab] + d;
    NothingToTrim(line);
    SplitJoin(["S", d], Tab);
  }

  /** A segment line with an empty sequence is skipped too: `trim` removes the
      tab before the empty field, which leaves only two fields. */
  lemma EmptySequenceSkipped(d: string)
    requires |d| > 0 && FreeOf(d, {Tab}) && !IsWhitespace(d[|d| - 1])
    ensures SegmentOfLine(Join(["S", d, ""], Tab)) == Ok(None)
  {
    var short := Join(["S", d], Tab);
    var line := Join(["S", d, ""], Tab);
    assert ["S", d, ""][1..] == [d, ""] && [d, ""][1..] == [""];
    assert ["S", d][1..] == [d];
    assert Join([d], Tab) == d && Join([""], Tab) == "";
    assert Join([d, ""], Tab) == d + [Tab] + "" == d + [Tab];
    assert short == "S" + [Tab] + d;
    assert line == short + [Tab];
    assert TrimFrom(line) == 0;
    assert TrimTo(line) == |line| - 1 by {
      assert IsWhitespace(line[|line| - 1]);
      assert !IsWhitespace(line[|line| - 2]);
    }
    assert Trim(line) == short;
    ShortSegmentLineSkipped(d);
    assert Trim(short) == short;
  }

  /** Every graph line read as a segment line, in file order. */
  function Parsed(lines: seq<string>): (r: seq<Result<Option<Segment>>>)
    ensures |r| == |lines| && forall i :: 0 <= i < |lines| ==> r[i] == SegmentOfLine(lines[i])
  {
    seq(|lines|, i requires 0 <= i < |lines| => SegmentOfLine(lines[i]))
  }

  /** Whether a read line declares segment `id`. */
  predicate Declares(p: Result<Option<Segment>>, id: nat)
  {
    p.Ok? && p.value.Some? && p.value.value.id == id
  }

  /** The segments of the read lines in file order; the first failure is the
      error. */
  function Collect(parsed: seq<Result<Option<Segment>>>): (r: Result<seq<Segment>>)
    ensures r.Ok? ==> |r.value| <= |parsed|
  {
    if |parsed| == 0 then Ok([])
    else match Collect(parsed[..|parsed| - 1])
      case Err(e) => Err(e)
      case Ok(segs) =>
        match parsed[|parsed| - 1]
        case Err(e) => Err(e)
        case Ok(None) => Ok(segs)
        case Ok(Some(seg)) => Ok(segs + [seg])
  }

  /** The segments of the graph's lines in file order; the first segment line
      with a bad id is the error. */
  function Segments(lines: seq<string>): (r: Result<seq<Segment>>)
    ensures r.Ok? ==> |r.value| <= |lines|
  {
    Collect(Parsed(lines))
  }

  // ---------------------------------------------------------------------------
  // The map and its bounds

  /** `segments_map` after inserting every segment in order: the last segment
      inserted holds its own length, whatever came before it. */
  function LengthMap(segs: seq<Segment>): (m: map<nat, nat>)
    ensures |segs| > 0 ==> segs[|segs| - 1].id in m && m[segs[|segs| - 1].id] == segs[|segs| - 1].len
  {
    if |segs| == 0 then map[]
    else LengthMap(segs[..|segs| - 1])[segs[|segs| - 1].id := segs[|segs| - 1].len]
  }

  /** Every segment's id is a key of the map. */
  lemma {:induction false} LengthMapHoldsAll(segs: seq<Segment>)
    ensures forall j :: 0 <= j < |segs| ==> segs[j].id in LengthMap(segs)
  {
    if |segs| > 0 {
      var init := segs[..|segs| - 1];
      LengthMapHoldsAll(init);
      assert forall j :: 0 <= j < |init| ==> segs[j] == init[j];
    }
  }

  /** The map's ids lie between the smallest and the largest segment id. */
  lemma {:induction false} LengthMapWithinBounds(segs: seq<Segment>)
    requires |segs| > 0
    ensures forall id :: id in LengthMap(segs) ==> MinId(segs) <= id <= MaxId(segs)
  {
    var init := segs[..|segs| - 1];
    var last := segs[|segs| - 1];
    assert init + [last] == segs;
    AppendSegment(init, last);
    if |segs| == 1 {
      assert LengthMap(init) == map[];
    } else {
      LengthMapWithinBounds(init);
      var lo, hi := MinId(segs), MaxId(segs);
      assert lo == Min(MinId(init), last.id) && hi == Max(MaxId(init), last.id);
      forall id | id in LengthMap(segs) ensures lo <= id <= hi {
        if id != last.id {
          assert id in LengthMap(init);
        }
      }
    }
  }

  /** The smallest and the largest id are both keys of the map. */
  lemma {:induction false} BoundsDeclared(segs: seq<Segment>)
    requires |segs| > 0
    ensures MinId(segs) in LengthMap(segs) && MaxId(segs) in LengthMap(segs)
  {
    var init := segs[..|segs| - 1];
    var last := segs[|segs| - 1];
    assert init + [last] == segs;
    AppendSegment(init, last);
    if |segs| > 1 {
      BoundsDeclared(init);
    }
  }

  function MinId(segs: seq<Segment>): (lo: nat)
    requires |segs| > 0
    ensures forall j :: 0 <= j < |segs| ==> lo <= segs[j].id
  {
    if |segs| == 1 then segs[0].id
    else
      var rest := MinId(segs[..|segs| - 1]);
      var last := segs[|segs| - 1].id;
      assert forall j :: 0 <= j < |segs| - 1 ==> segs[..|segs| - 1][j] == segs[j];
      if last < rest then last else rest
  }

  function MaxId(segs: seq<Segment>): (hi: nat)
    requires |segs| > 0
    ensures forall j :: 0 <= j < |segs| ==> segs[j].id <= hi
  {
    if |segs| == 1 then segs[0].id
    else
      var rest := MaxId(segs[..|segs| - 1]);
      var last := segs[|segs| - 1].id;
      assert forall j :: 0 <= j < |segs| - 1 ==> segs[..|segs| - 1][j] == segs[j];
      if last > rest then last else rest
  }

  function Min(a: nat, b: nat): nat { if a <= b then a else b }

  function Max(a: nat, b: nat): nat { if a >= b then a else b }

  // ---------------------------------------------------------------------------
  // The index, as a specification

  /** The dense vector over `[MinId, MaxId]` and its offset. No segment at all
      makes `max_id - min_id` underflow; a range of 2^64 ids makes the `+ 1`
      overflow. */
  function BuildIndex(segs: seq<Segment>): (r: Result<Index>)
    ensures |segs| == 0 ==> r == Err(NoSegments)
    ensures |segs| > 0 ==> (r.Ok? <==> MaxId(segs) - MinId(segs) + 1 <= UsizeMax)
    ensures r.Ok? ==> r.value.minId == MinId(segs) && 1 <= |r.value.lengths| <= UsizeMax
  {
    if |segs| == 0 then Err(NoSegments)
    else
      var lo, hi := MinId(segs), MaxId(segs);
      if hi - lo + 1 > UsizeMax then Err(RangeOverflow)
      else
        Ok(Index(Dense(LengthMap(segs), lo, hi), lo))
  }

  /** The vector over ids `lo..=hi` holding each id's length, 0 where `m` has none. */
  function Dense(m: map<nat, nat>, lo: nat, hi: nat): (r: seq<nat>)
    requires lo <= hi
    ensures |r| == hi - lo + 1
    ensures forall k :: 0 <= k < |r| ==> r[k] == if lo + k in m then m[lo + k] else 0
  {
    seq(hi - lo + 1, k => if lo + k in m then m[lo + k] else 0)
  }

  /** What `parse_gfa` returns for a graph with these lines. */
  function GfaIndex(lines: seq<string>): (r: Result<Index>)
    ensures Segments(lines).Err? ==> r == Err(Segments(lines).error)
    ensures r.Ok? ==> 1 <= |r.value.lengths| <= UsizeMax
  {
    match Segments(lines)
    case Err(e) => Err(e)
    case Ok(segs) => BuildIndex(segs)
  }

  /** `segment_lengths[node_id - min_id]`: the subtraction underflows below the
      range and the index is out of bounds above it. */
  function NodeLen(ix: Index, id: nat): (r: Result<nat>)
    ensures r.Ok? <==> ix.minId <= id < ix.minId + |ix.lengths|
  {
    if id < ix.minId || id - ix.minId >= |ix.lengths| then Err(NodeOutOfRange(id))
    else Ok(ix.lengths[id - ix.minId])
  }

  /** The node-length callback `|node_id| segment_lengths[node_id - min_id]`. */
  function Lookup(ix: Index): (f: nat -> Result<nat>)
    ensures f == (id => NodeLen(ix, id))
  {
    id => NodeLen(ix, id)
  }

  // ---------------------------------------------------------------------------
  // The index, as the source builds it

  /** What the line loop of `parse_gfa` knows after `i` lines: they hold the
      segments `segs`, and the map and the running bounds are theirs. */
  ghost predicate Scanned(parsed: seq<Result<Option<Segment>>>, i: nat, segs: seq<Segment>,
                          m: map<nat, nat>, minId: nat, maxId: nat)
  {
    && i <= |parsed|
    && Collect(parsed[..i]) == Ok(segs)
    && m == LengthMap(segs)
    && minId == (if |segs| == 0 then UsizeMax else MinId(segs))
    && maxId == (if |segs| == 0 then 0 else MaxId(segs))
  }

  lemma ScanFails(parsed: seq<Result<Option<Segment>>>, i: nat, segs: seq<Segment>,
                  m: map<nat, nat>, minId: nat, maxId: nat)
    requires Scanned(parsed, i, segs, m, minId, maxId) && i < |parsed| && parsed[i].Err?
    ensures Collect(parsed) == Err(parsed[i].error)
  {
    CollectStep(parsed, i);
    PrefixFailure(parsed, i + 1);
  }

  lemma ScanSkips(parsed: seq<Result<Option<Segment>>>, i: nat, segs: seq<Segment>,
                  m: map<nat, nat>, minId: nat, maxId: nat)
    requires Scanned(parsed, i, segs, m, minId, maxId) && i < |parsed| && parsed[i] == Ok(None)
    ensures Scanned(parsed, i + 1, segs, m, minId, maxId)
  {
    CollectStep(parsed, i);
  }

  lemma ScanAppends(parsed: seq<Result<Option<Segment>>>, i: nat, segs: seq<Segment>,
                    m: map<nat, nat>, minId: nat, maxId: nat, seg: Segment)
    requires Scanned(parsed, i, segs, m, minId, maxId) && i < |parsed| && parsed[i] == Ok(Some(seg))
    requires seg.id <= UsizeMax
    ensures Scanned(parsed, i + 1, segs + [seg], m[seg.id := seg.len], Min(minId, seg.id), Max(maxId, seg.id))
  {
    CollectStep(parsed, i);
    AppendSegment(segs, seg);
  }

  lemma ScanDone(parsed: seq<Result<Option<Segment>>>, segs: seq<Segment>,
                 m: map<nat, nat>, minId: nat, maxId: nat)
    requires Scanned(parsed, |parsed|, segs, m, minId, maxId)
    ensures Collect(parsed) == Ok(segs)
    ensures |segs| == 0 <==> maxId < minId
  {
    assert parsed[..|parsed|] == parsed;
    if |segs| > 0 {
      assert segs[0].id <= maxId && minId <= segs[0].id;
    }
  }

  /** `parse_gfa` on the lines already read: one pass that keeps the running
      minimum and maximum id and the id-to-length map, then a zeroed vector
      filled in place from the map. */
  method ParseGfa(lines: seq<string>) returns (r: Result<Index>)
    ensures r == GfaIndex(lines)
  {
    ghost var parsed := Parsed(lines);
    var segmentsMap: map<nat, nat> := map[];
    var minId: nat := UsizeMax;
    var maxId: nat := 0;
    ghost var segs: seq<Segment> := [];
    for i := 0 to |lines|
      invariant Scanned(parsed, i, segs, segmentsMap, minId, maxId)
    {
      var segment := SegmentOfLine(lines[i]);
      match segment {
        case Err(e) =>
          ScanFails(parsed, i, segs, segmentsMap, minId, maxId);
          return Err(e);
        case Ok(None) =>
          ScanSkips(parsed, i, segs, segmentsMap, minId, maxId);
        case Ok(Some(seg)) =>
          ScanAppends(parsed, i, segs, segmentsMap, minId, maxId, seg);
          minId := Min(minId, seg.id);
          maxId := Max(maxId, seg.id);
          segmentsMap := segmentsMap[seg.id := seg.len];
          segs := segs + [seg];
      }
    }
    ScanDone(parsed, segs, segmentsMap, minId, maxId);
    if maxId < minId {
      return Err(NoSegments);
    }
    if maxId - minId + 1 > UsizeMax {
      return Err(RangeOverflow);
    }
    LengthMapWithinBounds(segs);
    var lengths := DenseLengths(segmentsMap, minId, maxId);
    r := Ok(Index(lengths, minId));
  }

  /** The zeroed vector of `max_id - min_id + 1` lengths, then every map entry
      written at `id - min_id`; the map is visited in no particular order. */
  method DenseLengths(segmentsMap: map<nat, nat>, minId: nat, maxId: nat) returns (lengths: seq<nat>)
    requires minId <= maxId
    requires forall id :: id in segmentsMap ==> minId <= id <= maxId
    ensures lengths == Dense(segmentsMap, minId, maxId)
  {
    var segmentLengths := new nat[maxId - minId + 1](_ => 0);
    var pending := segmentsMap.Keys;
    while pending != {}
      invariant pending <= segmentsMap.Keys
      invariant forall k :: 0 <= k < segmentLengths.Length ==>
                  segmentLengths[k] == if minId + k in segmentsMap && minId + k !in pending
                                       then segmentsMap[minId + k] else 0
      decreases pending
    {
      var id :| id in pending;
      segmentLengths[id - minId] := segmentsMap[id];
      pending := pending - {id};
    }
    lengths := segmentLengths[..];
  }

  /** One more line read: `Collect` of the longer prefix in terms of the shorter. */
  lemma CollectStep(parsed: seq<Result<Option<Segment>>>, i: nat)
    requires i < |parsed|
    ensures Collect(parsed[..i + 1]) == match Collect(parsed[..i])
      case Err(e) => Err(e)
      case Ok(segs) =>
        match parsed[i]
        case Err(e) => Err(e)
        case Ok(None) => Ok(segs)
        case Ok(Some(seg)) => Ok(segs + [seg])
  {
    assert parsed[..i + 1][..i] == parsed[..i];
  }

  /** One more segment: the map gains it, the bounds move to include it. */
  lemma AppendSegment(segs: seq<Segment>, seg: Segment)
    ensures LengthMap(segs + [seg]) == LengthMap(segs)[seg.id := seg.len]
    ensures MinId(segs + [seg]) == if |segs| == 0 then seg.id else Min(MinId(segs), seg.id)
    ensures MaxId(segs + [seg]) == if |segs| == 0 then seg.id else Max(MaxId(segs), seg.id)
  {
    var more := segs + [seg];
    assert more[..|more| - 1] == segs;
    assert more[|more| - 1] == seg;
    if |segs| > 0 {
      MinMaxAppend(segs, seg);
    }
  }

  lemma MinMaxAppend(segs: seq<Segment>, seg: Segment)
    requires |segs| > 0
    ensures MinId(segs + [seg]) == Min(MinId(segs), seg.id)
    ensures MaxId(segs + [seg]) == Max(MaxId(segs), seg.id)
  {
    var more := segs + [seg];
    assert more[..|more| - 1] == segs;
  }

  /** A failing prefix makes the whole sequence fail with the same error. */
  lemma {:induction false} PrefixFailure(parsed: seq<Result<Option<Segment>>>, n: nat)
    requires n <= |parsed| && Collect(parsed[..n]).Err?
    ensures Collect(parsed) == Collect(parsed[..n])
    decreases |parsed| - n
  {
    if n < |parsed| {
      assert parsed[..n + 1][..n] == parsed[..n];
      PrefixFailure(parsed, n + 1);
    } else {
      assert parsed[..n] == parsed;
    }
  }

  // ---------------------------------------------------------------------------
  // What the index promises

  /** Each id of the map holds the length from the LAST line declaring it; the
      map holds exactly the ids some line declares. */
  lemma {:induction false} LengthIsFromLast(parsed: seq<Result<Option<Segment>>>, segs: seq<Segment>, id: nat)
    requires Collect(parsed) == Ok(segs)
    ensures id in LengthMap(segs) <==> LastDeclared(parsed, id) >= 0
    ensures id in LengthMap(segs) ==>
              parsed[LastDeclared(parsed, id)] == Ok(Some(Segment(id, LengthMap(segs)[id])))
  {
    if |parsed| > 0 {
      var n := |parsed| - 1;
      var init := parsed[..n];
      CollectStep(parsed, n);
      assert parsed[..n + 1] == parsed;
      var prev := Collect(init).value;
      LengthIsFromLast(init, prev, id);
      if parsed[n] == Ok(None) {
        assert segs == prev;
      } else {
        assert segs == prev + [parsed[n].value.value];
        AppendSegment(prev, parsed[n].value.value);
      }
    }
  }

  /** The position of the last entry declaring `id`, -1 when none does. */
  function LastDeclared(parsed: seq<Result<Option<Segment>>>, id: nat): (k: int)
    ensures -1 <= k < |parsed|
    ensures k >= 0 ==> Declares(parsed[k], id)
    ensures forall j :: k < j < |parsed| ==> !Declares(parsed[j], id)
  {
    if |parsed| == 0 then -1
    else if Declares(parsed[|parsed| - 1], id) then |parsed| - 1
    else LastDeclared(parsed[..|parsed| - 1], id)
  }

  /** The index spans exactly the declared ids: every id some segment line
      declares lies in its range, and the smallest and the largest ids of the
      range are both declared. */
  lemma IndexSpansDeclaredIds(lines: seq<string>, ix: Index)
    requires GfaIndex(lines) == Ok(ix)
    ensures |ix.lengths| >= 1
    ensures forall id: nat :: LastDeclared(Parsed(lines), id) >= 0 ==>
              ix.minId <= id < ix.minId + |ix.lengths|
    ensures LastDeclared(Parsed(lines), ix.minId) >= 0
    ensures LastDeclared(Parsed(lines), ix.minId + |ix.lengths| - 1) >= 0
  {
    var parsed := Parsed(lines);
    var segs := Collect(parsed).value;
    LengthMapWithinBounds(segs);
    BoundsDeclared(segs);
    forall id: nat | LastDeclared(parsed, id) >= 0
      ensures ix.minId <= id < ix.minId + |ix.lengths|
    {
      LengthIsFromLast(parsed, segs, id);
    }
    LengthIsFromLast(parsed, segs, ix.minId);
    LengthIsFromLast(parsed, segs, MaxId(segs));
  }

  /** Looking node `id` up in the index gives the length from the last segment
      line declaring it; an id no line declares reads 0 inside the range and
      fails outside it. */
  lemma NodeLenIsLastDeclared(lines: seq<string>, ix: Index, id: nat)
    requires GfaIndex(lines) == Ok(ix)
    ensures var k := LastDeclared(Parsed(lines), id);
      k >= 0 ==> NodeLen(ix, id).Ok? && SegmentOfLine(lines[k]) == Ok(Some(Segment(id, NodeLen(ix, id).value)))
    ensures LastDeclared(Parsed(lines), id) < 0 ==>
              NodeLen(ix, id) == if ix.minId <= id < ix.minId + |ix.lengths| then Ok(0) else Err(NodeOutOfRange(id))
  {
    var parsed := Parsed(lines);
    var segs := Collect(parsed).value;
    LengthIsFromLast(parsed, segs, id);
    IndexLookup(segs, ix, id);
    IndexSpansDeclaredIds(lines, ix);
  }

  /** Node `id` of a built index holds its entry of the map, or 0. */
  lemma IndexLookup(segs: seq<Segment>, ix: Index, id: nat)
    requires BuildIndex(segs) == Ok(ix)
    ensures ix.minId <= id < ix.minId + |ix.lengths| ==>
              NodeLen(ix, id) == Ok(if id in LengthMap(segs) then LengthMap(segs)[id] else 0)
  {
    var m := LengthMap(segs);
    assert ix.lengths == Dense(m, MinId(segs), MaxId(segs)) && ix.minId == MinId(segs);
    if ix.minId <= id < ix.minId + |ix.lengths| {
      var k := id - ix.minId;
      assert ix.lengths[k] == if ix.minId + k in m then m[ix.minId + k] else 0;
    }
  }

  /** A graph without segment lines, and so without a malformed one, fails with
      the `max_id - min_id` underflow. */
  lemma {:induction false} NoSegmentsFails(parsed: seq<Result<Option<Segment>>>)
    requires forall i :: 0 <= i < |parsed| ==> parsed[i] == Ok(None)
    ensures Collect(parsed) == Ok([])
    ensures BuildIndex([]) == Err(NoSegments)
  {
    if |parsed| > 0 {
      var init := parsed[..|parsed| - 1];
      assert forall i :: 0 <= i < |init| ==> init[i] == parsed[i];
      NoSegmentsFails(init);
    }
  }

  lemma NoSegmentLinesFails(lines: seq<string>)
    requires forall i :: 0 <= i < |lines| ==> SegmentOfLine(lines[i]) == Ok(None)
    ensures GfaIndex(lines) == Err(NoSegments)
  {
    NoSegmentsFails(Parsed(lines));
  }
}
