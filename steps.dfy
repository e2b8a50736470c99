/** `for_each_step` (src/main.rs): reads the walk and the target interval of one
    GAF alignment record and attributes a covered length to every node of the
    walk. The first node is trimmed by the target start, interior nodes count
    in full and the last node receives whatever is left of the interval, so
    the lengths of one record add up to `target_end - target_start`.

    The node-length callback is the parameter `nodeLen`; the per-node callback
    becomes the returned sequence of `Step`s, in the order the source calls it.
    A panic anywhere in the record aborts the run before anything is printed,
    so handing the steps over at the end of the record is not observable. */
module Steps {
  import opened Outcome
  import opened Text
  import opened Walk

  /** One call of the per-node callback: `callback(node_id, len)`. */
  datatype Step = Step(node: nat, len: nat)

  /** What a record contributes before allocation: the node ids of its walk,
      its target start and the length of its target interval. */
  datatype Alignment = Alignment(ids: seq<nat>, targetStart: nat, targetLen: nat)

  // ---------------------------------------------------------------------------
  // Sums

  function Sum(s: seq<nat>): nat
  {
    if |s| == 0 then 0 else Sum(s[..|s| - 1]) + s[|s| - 1]
  }

  lemma SumAppend(s: seq<nat>, x: nat)
    ensures Sum(s + [x]) == Sum(s) + x
  {
    assert (s + [x])[..|s|] == s;
  }

  function Lens(steps: seq<Step>): (r: seq<nat>)
    ensures |r| == |steps| && forall k :: 0 <= k < |steps| ==> r[k] == steps[k].len
  {
    seq(|steps|, k requires 0 <= k < |steps| => steps[k].len)
  }

  /** The total length handed to the per-node callback. */
  function SumLens(steps: seq<Step>): nat
  {
    Sum(Lens(steps))
  }

  lemma SumLensAppend(steps: seq<Step>, more: seq<Step>)
    ensures SumLens(steps + more) == SumLens(steps) + SumLens(more)
    decreases |more|
  {
    if |more| == 0 {
      assert steps + more == steps;
    } else {
      var init := more[..|more| - 1];
      var last := more[|more| - 1];
      SumLensAppend(steps, init);
      assert steps + more == (steps + init) + [last];
      assert Lens((steps + init) + [last]) == Lens(steps + init) + [last.len];
      assert Lens(more) == Lens(init) + [last.len];
      SumAppend(Lens(steps + init), last.len);
      SumAppend(Lens(init), last.len);
    }
  }

  // ---------------------------------------------------------------------------
  // Reading the record

  /** The pieces of a record between tabs. */
  function Fields(line: string): (r: seq<string>)
    ensures |r| >= 1
  {
    Split(line, {Tab})
  }

  /** The walk (field 5) and the interval (fields 7 and 8) of a record, or
      `None` for the walk `*`, which aligns nowhere. Fields are read and parsed
      in the source's order: field 5, field 7, field 8, the subtraction, then
      the node tokens. */
  function ParseAlignment(line: string): (r: Result<Option<Alignment>>)
    ensures r.Ok? && r.value.Some? ==> r.value.value.targetStart + r.value.value.targetLen <= UsizeMax
  {
    var fields := Fields(line);
    if |fields| <= 5 then Err(MissingField(5))
    else if fields[5] == "*" then Ok(None)
    else if |fields| <= 7 then Err(MissingField(7))
    else match ParseUsize(fields[7])
      case None => Err(BadNumber(fields[7]))
      case Some(start) =>
        if |fields| <= 8 then Err(MissingField(8))
        else match ParseUsize(fields[8])
          case None => Err(BadNumber(fields[8]))
          case Some(end) =>
            if end < start then Err(IntervalUnderflow)
            else match ParseIds(Tokens(fields[5]))
              case Err(e) => Err(e)
              case Ok(ids) => Ok(Some(Alignment(ids, start, end - start)))
  }

  /** The length a record's steps must add up to: its interval when its walk
      names at least one node, and nothing otherwise. */
  function CoveredLength(line: string): (n: nat)
    ensures n <= UsizeMax
    ensures ParseAlignment(line).Err? || ParseAlignment(line) == Ok(None) ==> n == 0
  {
    match ParseAlignment(line)
    case Ok(Some(a)) => if |a.ids| > 0 then a.targetLen else 0
    case _ => 0
  }

  // ---------------------------------------------------------------------------
  // Allocation, as a specification

  /** Every node length looked up in walk order; the first lookup that fails is
      the error. */
  function Lookups(ids: seq<nat>, nodeLen: nat -> Result<nat>): (r: Result<seq<nat>>)
    ensures r.Ok? ==>
              && |r.value| == |ids|
              && forall j :: 0 <= j < |ids| ==> nodeLen(ids[j]) == Ok(r.value[j])
    ensures r.Err? ==>
              exists k ::
                && 0 <= k < |ids| && nodeLen(ids[k]) == Err(r.error)
                && forall j :: 0 <= j < k ==> nodeLen(ids[j]).Ok?
  {
    if |ids| == 0 then Ok([])
    else match nodeLen(ids[0])
      case Err(e) => Err(e)
      case Ok(len) =>
        match Lookups(ids[1..], nodeLen)
        case Err(e) =>
          var r: Result<seq<nat>> := Err(e);
          ghost var k :| 0 <= k < |ids| - 1 && nodeLen(ids[1..][k]) == Err(e)
            && forall j :: 0 <= j < k ==> nodeLen(ids[1..][j]).Ok?;
          assert forall j :: 0 <= j < k + 1 ==> nodeLen(ids[j]).Ok? by {
            forall j | 0 <= j < k + 1 ensures nodeLen(ids[j]).Ok? {
              if j > 0 { assert ids[j] == ids[1..][j - 1]; }
            }
          }
          r
        case Ok(lens) => Ok([len] + lens)
  }

  /** The lengths of every node but the last: the first trimmed by the target
      start, the interior ones in full. Their sum is `seen` at the last node. */
  function Leading(lens: seq<nat>, targetStart: nat): (r: seq<nat>)
    requires |lens| >= 1 && lens[0] >= targetStart
    ensures |r| == |lens| - 1
  {
    if |lens| == 1 then [] else [lens[0] - targetStart] + lens[1..|lens| - 1]
  }

  /** The length attributed to each node of a walk with node lengths `lens`:
      the leading ones, then the rest of the interval for the last node. They
      add up to the interval exactly. */
  function Attributed(lens: seq<nat>, targetStart: nat, targetLen: nat): (r: seq<nat>)
    requires |lens| >= 1 && lens[0] >= targetStart
    requires targetLen >= Sum(Leading(lens, targetStart))
    ensures |r| == |lens|
    ensures Sum(r) == targetLen
  {
    var lead := Leading(lens, targetStart);
    SumAppend(lead, targetLen - Sum(lead));
    lead + [targetLen - Sum(lead)]
  }

  function Zip(ids: seq<nat>, lens: seq<nat>): (r: seq<Step>)
    requires |ids| == |lens|
    ensures |r| == |ids| && Lens(r) == lens
    ensures forall k :: 0 <= k < |ids| ==> r[k] == Step(ids[k], lens[k])
  {
    var r := seq(|ids|, k requires 0 <= k < |ids| => Step(ids[k], lens[k]));
    assert Lens(r) == lens;
    r
  }

  /** The steps of a walk with node ids `ids`, in closed form. Failures come in
      the order the loop meets them: the first node's lookup, the first node's
      start check, a later lookup, the last node's check. */
  function Allocate(ids: seq<nat>, nodeLen: nat -> Result<nat>, targetStart: nat, targetLen: nat)
    : (r: Result<seq<Step>>)
    ensures r.Ok? ==>
              && |r.value| == |ids|
              && forall j :: 0 <= j < |ids| ==> r.value[j].node == ids[j] && nodeLen(ids[j]).Ok?
    ensures r.Ok? && |ids| > 0 ==> SumLens(r.value) == targetLen
  {
    if |ids| == 0 then Ok([])
    else match nodeLen(ids[0])
      case Err(e) => Err(e)
      case Ok(first) =>
        if first < targetStart then Err(StartBeyondFirstNode)
        else match Lookups(ids, nodeLen)
          case Err(e) => Err(e)
          case Ok(lens) =>
            if targetLen < Sum(Leading(lens, targetStart)) then Err(SeenBeyondTarget)
            else Ok(Zip(ids, Attributed(lens, targetStart, targetLen)))
  }

  /** All the steps of one record, as `for_each_step` emits them. */
  function StepsOfLine(line: string, nodeLen: nat -> Result<nat>): (r: Result<seq<Step>>)
    ensures r.Ok? ==> SumLens(r.value) == CoveredLength(line)
    ensures r.Ok? ==> forall j :: 0 <= j < |r.value| ==> nodeLen(r.value[j].node).Ok?
  {
    match ParseAlignment(line)
    case Err(e) => Err(e)
    case Ok(None) => Ok([])
    case Ok(Some(a)) => Allocate(a.ids, nodeLen, a.targetStart, a.targetLen)
  }

  // ---------------------------------------------------------------------------
  // Allocation, as the source computes it

  /** When every lookup before position `i` succeeds and the one at `i` fails,
      the lookups fail with that error. */
  lemma {:induction false} LookupsFailAt(ids: seq<nat>, nodeLen: nat -> Result<nat>, i: nat)
    requires i < |ids| && nodeLen(ids[i]).Err?
    requires forall j :: 0 <= j < i ==> nodeLen(ids[j]).Ok?
    ensures Lookups(ids, nodeLen) == Err(nodeLen(ids[i]).error)
  {
    if i > 0 {
      assert forall j :: 0 <= j < i - 1 ==> ids[1..][j] == ids[j + 1];
      LookupsFailAt(ids[1..], nodeLen, i - 1);
    }
  }

  /** When every lookup succeeds, the lookups give exactly those lengths. */
  lemma {:induction false} LookupsSucceed(ids: seq<nat>, nodeLen: nat -> Result<nat>, lens: seq<nat>)
    requires |lens| == |ids|
    requires forall j :: 0 <= j < |ids| ==> nodeLen(ids[j]) == Ok(lens[j])
    ensures Lookups(ids, nodeLen) == Ok(lens)
  {
    if |ids| > 0 {
      assert forall j :: 0 <= j < |ids| - 1 ==> ids[1..][j] == ids[j + 1];
      LookupsSucceed(ids[1..], nodeLen, lens[1..]);
      assert lens == [lens[0]] + lens[1..];
    }
  }

  /** The lengths of the nodes processed so far when none of them is the last:
      the first trimmed, the others in full. */
  function Trimmed(lens: seq<nat>, targetStart: nat): (r: seq<nat>)
    requires |lens| > 0 ==> lens[0] >= targetStart
    ensures |r| == |lens|
  {
    if |lens| == 0 then [] else [lens[0] - targetStart] + lens[1..]
  }

  lemma TrimmedAppend(lens: seq<nat>, x: nat, targetStart: nat)
    requires |lens| > 0 ==> lens[0] >= targetStart
    requires |lens| == 0 ==> x >= targetStart
    ensures Trimmed(lens + [x], targetStart)
            == Trimmed(lens, targetStart) + [if |lens| == 0 then x - targetStart else x]
  {
    if |lens| > 0 {
      assert (lens + [x])[1..] == lens[1..] + [x];
    }
  }

  lemma LeadingIsTrimmed(lens: seq<nat>, targetStart: nat)
    requires |lens| >= 1 && lens[0] >= targetStart
    ensures Leading(lens, targetStart) == Trimmed(lens[..|lens| - 1], targetStart)
  {
  }

  function Nodes(steps: seq<Step>): (r: seq<nat>)
    ensures |r| == |steps| && forall k :: 0 <= k < |steps| ==> r[k] == steps[k].node
  {
    seq(|steps|, k requires 0 <= k < |steps| => steps[k].node)
  }

  lemma StepsAppend(steps: seq<Step>, s: Step)
    ensures Lens(steps + [s]) == Lens(steps) + [s.len]
    ensures Nodes(steps + [s]) == Nodes(steps) + [s.node]
    ensures SumLens(steps + [s]) == SumLens(steps) + s.len
  {
    assert Lens(steps + [s]) == Lens(steps) + [s.len];
    SumAppend(Lens(steps), s.len);
  }

  /** Allocation fails with the error of the first failing lookup, unless the
      first node was found and is shorter than the target start. */
  lemma AllocateLookupFails(ids: seq<nat>, nodeLen: nat -> Result<nat>, targetStart: nat, targetLen: nat, i: nat)
    requires i < |ids| && nodeLen(ids[i]).Err?
    requires forall j :: 0 <= j < i ==> nodeLen(ids[j]).Ok?
    requires i > 0 ==> nodeLen(ids[0]).value >= targetStart
    ensures Allocate(ids, nodeLen, targetStart, targetLen) == Err(nodeLen(ids[i]).error)
  {
    if i > 0 {
      LookupsFailAt(ids, nodeLen, i);
    }
  }

  /** With every node found and the first long enough, allocation fails exactly
      when the interval is shorter than what the leading nodes already cover,
      and otherwise attributes `Attributed` to the nodes in walk order. */
  lemma AllocateAllFound(ids: seq<nat>, nodeLen: nat -> Result<nat>, targetStart: nat, targetLen: nat, lens: seq<nat>)
    requires |ids| > 0 && |lens| == |ids|
    requires forall j :: 0 <= j < |ids| ==> nodeLen(ids[j]) == Ok(lens[j])
    requires lens[0] >= targetStart
    ensures targetLen < Sum(Leading(lens, targetStart)) ==>
              Allocate(ids, nodeLen, targetStart, targetLen) == Err(SeenBeyondTarget)
    ensures targetLen >= Sum(Leading(lens, targetStart)) ==>
              Allocate(ids, nodeLen, targetStart, targetLen)
              == Ok(Zip(ids, Attributed(lens, targetStart, targetLen)))
  {
    LookupsSucceed(ids, nodeLen, lens);
  }

  /** A first node shorter than the target start fails the record. */
  lemma AllocateStartFails(ids: seq<nat>, nodeLen: nat -> Result<nat>, targetStart: nat, targetLen: nat)
    requires |ids| > 0 && nodeLen(ids[0]).Ok? && nodeLen(ids[0]).value < targetStart
    ensures Allocate(ids, nodeLen, targetStart, targetLen) == Err(StartBeyondFirstNode)
  {
  }

  // ---------------------------------------------------------------------------
  // What the allocation promises

  /** A walk of one node attributes the whole interval to it, whatever the
      node's length, as long as that length reaches the target start. */
  lemma SingleNodeTakesInterval(id: nat, nodeLen: nat -> Result<nat>, targetStart: nat, targetLen: nat)
    requires nodeLen(id).Ok? && nodeLen(id).value >= targetStart
    ensures Allocate([id], nodeLen, targetStart, targetLen) == Ok([Step(id, targetLen)])
  {
    var lens := [nodeLen(id).value];
    LookupsSucceed([id], nodeLen, lens);
    assert Leading(lens, targetStart) == [];
    assert Attributed(lens, targetStart, targetLen) == [targetLen];
    var z := Zip([id], [targetLen]);
    assert z == [Step(id, targetLen)] by {
      assert z[0] == Step(id, targetLen);
    }
    calc {
      Allocate([id], nodeLen, targetStart, targetLen);
      { AllocateAllFound([id], nodeLen, targetStart, targetLen, lens); }
      Ok(Zip([id], Attributed(lens, targetStart, targetLen)));
      Ok(z);
    }
  }

  /** In a walk of two or more nodes the first node is trimmed by the target
      start, every interior node counts in full, and the last node gets the
      interval minus everything before it. */
  lemma FirstInteriorLast(ids: seq<nat>, nodeLen: nat -> Result<nat>, targetStart: nat, targetLen: nat)
    requires |ids| >= 2
    requires Allocate(ids, nodeLen, targetStart, targetLen).Ok?
    ensures var steps := Allocate(ids, nodeLen, targetStart, targetLen).value;
      && nodeLen(ids[0]).value >= targetStart
      && steps[0].len == nodeLen(ids[0]).value - targetStart
      && (forall i :: 0 < i < |ids| - 1 ==> steps[i].len == nodeLen(ids[i]).value)
      && SumLens(steps[..|ids| - 1]) <= targetLen
      && steps[|ids| - 1].len == targetLen - SumLens(steps[..|ids| - 1])
  {
    var n := |ids|;
    var lens := Lookups(ids, nodeLen).value;
    var steps := Allocate(ids, nodeLen, targetStart, targetLen).value;
    assert steps == Zip(ids, Attributed(lens, targetStart, targetLen));
    var lead := Leading(lens, targetStart);
    assert Lens(steps[..n - 1]) == lead;
  }

  // ---------------------------------------------------------------------------
  // What a record promises

  /** The record whose tab-separated fields are `fields`. */
  function Record(fields: seq<string>): string
  {
    Join(fields, Tab)
  }

  predicate TabFree(fields: seq<string>)
  {
    forall j :: 0 <= j < |fields| ==> FreeOf(fields[j], {Tab})
  }

  lemma RecordFields(fields: seq<string>)
    requires |fields| >= 1 && TabFree(fields)
    ensures Fields(Record(fields)) == fields
  {
    SplitJoin(fields, Tab);
  }

  /** A record whose walk is `*` emits nothing and does not fail, whatever its
      other fields hold. */
  lemma StarWalkEmitsNothing(fields: seq<string>, nodeLen: nat -> Result<nat>)
    requires |fields| > 5 && TabFree(fields) && fields[5] == "*"
    ensures StepsOfLine(Record(fields), nodeLen) == Ok([])
  {
    RecordFields(fields);
  }

  /** A record whose target end is below its target start fails, before any
      node is looked up. */
  lemma UnderflowFails(fields: seq<string>, nodeLen: nat -> Result<nat>, start: nat, end: nat)
    requires |fields| > 8 && TabFree(fields) && fields[5] != "*"
    requires ParseUsize(fields[7]) == Some(start) && ParseUsize(fields[8]) == Some(end)
    requires end < start
    ensures StepsOfLine(Record(fields), nodeLen) == Err(IntervalUnderflow)
  {
    RecordFields(fields);
  }

  /** A record with at most five fields has no walk, and fails on field 5. */
  lemma ShortRecordFails(fields: seq<string>, nodeLen: nat -> Result<nat>)
    requires 1 <= |fields| <= 5 && TabFree(fields)
    ensures StepsOfLine(Record(fields), nodeLen) == Err(MissingField(5))
  {
    RecordFields(fields);
  }

  /** A record with a walk fails on a missing target start or end, and on one
      that is not a `usize`; the start is read and parsed before the end is. */
  lemma IntervalFieldFails(fields: seq<string>, nodeLen: nat -> Result<nat>)
    requires |fields| > 5 && TabFree(fields) && fields[5] != "*"
    ensures |fields| <= 7 ==> StepsOfLine(Record(fields), nodeLen) == Err(MissingField(7))
    ensures |fields| > 7 && ParseUsize(fields[7]).None? ==>
              StepsOfLine(Record(fields), nodeLen) == Err(BadNumber(fields[7]))
    ensures |fields| == 8 && ParseUsize(fields[7]).Some? ==>
              StepsOfLine(Record(fields), nodeLen) == Err(MissingField(8))
    ensures |fields| > 8 && ParseUsize(fields[7]).Some? && ParseUsize(fields[8]).None? ==>
              StepsOfLine(Record(fields), nodeLen) == Err(BadNumber(fields[8]))
  {
    RecordFields(fields);
  }

  /** A walk token that is not a `usize` fails the record with the first such
      token, before any node is looked up. */
  lemma BadTokenFails(fields: seq<string>, nodeLen: nat -> Result<nat>, start: nat, end: nat)
    requires |fields| > 8 && TabFree(fields) && fields[5] != "*"
    requires ParseUsize(fields[7]) == Some(start) && ParseUsize(fields[8]) == Some(end) && start <= end
    requires ParseIds(Tokens(fields[5])).Err?
    ensures StepsOfLine(Record(fields), nodeLen) == Err(ParseIds(Tokens(fields[5])).error)
  {
    RecordFields(fields);
  }

  /** The lengths a record emits add up to `target_end - target_start` as soon
      as its walk names a node; its emitted nodes are its walk's tokens, in path
      order, one step per token. */
  lemma RecordConservation(fields: seq<string>, nodeLen: nat -> Result<nat>, start: nat, end: nat)
    requires |fields| > 8 && TabFree(fields) && fields[5] != "*"
    requires ParseUsize(fields[7]) == Some(start) && ParseUsize(fields[8]) == Some(end)
    requires StepsOfLine(Record(fields), nodeLen).Ok?
    ensures start <= end
    ensures ParseIds(Tokens(fields[5])).Ok?
    ensures Nodes(StepsOfLine(Record(fields), nodeLen).value) == ParseIds(Tokens(fields[5])).value
    ensures |Tokens(fields[5])| > 0 ==>
              SumLens(StepsOfLine(Record(fields), nodeLen).value) == end - start
  {
    RecordFields(fields);
  }

  /** What the allocation loop knows once it has handled `|steps|` nodes: their
      lengths were found, the first reaches the target start, the steps name
      the nodes in walk order, and their lengths are the trimmed ones, or the
      attributed ones once the last node is done. */
  ghost predicate Allocated(ids: seq<nat>, nodeLen: nat -> Result<nat>, targetStart: nat, targetLen: nat,
                            lens: seq<nat>, steps: seq<Step>)
  {
    && |lens| == |steps| <= |ids|
    && (forall k :: 0 <= k < |lens| ==> nodeLen(ids[k]) == Ok(lens[k]))
    && (|lens| > 0 ==> lens[0] >= targetStart)
    && Nodes(steps) == ids[..|steps|]
    && (|steps| < |ids| ==> Lens(steps) == Trimmed(lens, targetStart))
    && (0 < |steps| == |ids| ==>
          && targetLen >= Sum(Leading(lens, targetStart))
          && Lens(steps) == Attributed(lens, targetStart, targetLen))
  }

  /** The loop's exits, each giving the closed form's outcome. */
  lemma LoopLookupFails(ids: seq<nat>, nodeLen: nat -> Result<nat>, targetStart: nat, targetLen: nat,
                        lens: seq<nat>, steps: seq<Step>)
    requires Allocated(ids, nodeLen, targetStart, targetLen, lens, steps)
    requires |steps| < |ids| && nodeLen(ids[|steps|]).Err?
    ensures Allocate(ids, nodeLen, targetStart, targetLen) == Err(nodeLen(ids[|steps|]).error)
  {
    AllocateLookupFails(ids, nodeLen, targetStart, targetLen, |steps|);
  }

  lemma LoopLastFails(ids: seq<nat>, nodeLen: nat -> Result<nat>, targetStart: nat, targetLen: nat,
                      lens: seq<nat>, steps: seq<Step>, x: nat)
    requires Allocated(ids, nodeLen, targetStart, targetLen, lens, steps)
    requires |steps| == |ids| - 1 && nodeLen(ids[|steps|]) == Ok(x)
    requires |steps| == 0 ==> x >= targetStart
    requires targetLen < SumLens(steps)
    ensures Allocate(ids, nodeLen, targetStart, targetLen) == Err(SeenBeyondTarget)
  {
    LastStepFails(lens, x, targetStart, targetLen, steps);
    FoundOneMore(ids, nodeLen, lens, x);
    AllocateAllFound(ids, nodeLen, targetStart, targetLen, lens + [x]);
  }

  lemma LoopDone(ids: seq<nat>, nodeLen: nat -> Result<nat>, targetStart: nat, targetLen: nat,
                 lens: seq<nat>, steps: seq<Step>)
    requires Allocated(ids, nodeLen, targetStart, targetLen, lens, steps) && |steps| == |ids|
    ensures Allocate(ids, nodeLen, targetStart, targetLen) == Ok(steps)
  {
    if |ids| == 0 {
      assert steps == [];
    } else {
      assert ids[..|steps|] == ids;
      AllocateAllFound(ids, nodeLen, targetStart, targetLen, lens);
      ZipAttributed(ids, lens, targetStart, targetLen, steps);
    }
  }

  /** One iteration of the allocation loop keeps its invariant. */
  lemma Advance(ids: seq<nat>, nodeLen: nat -> Result<nat>, targetStart: nat, targetLen: nat,
                lens: seq<nat>, steps: seq<Step>, x: nat, len: nat)
    requires Allocated(ids, nodeLen, targetStart, targetLen, lens, steps) && |steps| < |ids|
    requires nodeLen(ids[|steps|]) == Ok(x)
    requires |steps| == 0 ==> x >= targetStart
    requires |steps| == |ids| - 1 ==> targetLen >= SumLens(steps)
    requires len == if |steps| == |ids| - 1 then targetLen - SumLens(steps)
                    else if |steps| == 0 then x - targetStart else x
    ensures Allocated(ids, nodeLen, targetStart, targetLen, lens + [x], steps + [Step(ids[|steps|], len)])
    ensures SumLens(steps + [Step(ids[|steps|], len)]) == SumLens(steps) + len
  {
    var i := |steps|;
    var lens', steps' := lens + [x], steps + [Step(ids[i], len)];
    StepsAppend(steps, Step(ids[i], len));
    assert forall k :: 0 <= k < |lens'| ==> nodeLen(ids[k]) == Ok(lens'[k]) by {
      FoundOneMore(ids, nodeLen, lens, x);
    }
    assert Nodes(steps') == ids[..|steps'|] by {
      TakeOneMore(ids, i);
    }
    LensOneMore(ids, targetStart, targetLen, lens, steps, x, len);
  }

  lemma FoundOneMore(ids: seq<nat>, nodeLen: nat -> Result<nat>, lens: seq<nat>, x: nat)
    requires |lens| < |ids| && (forall k :: 0 <= k < |lens| ==> nodeLen(ids[k]) == Ok(lens[k]))
    requires nodeLen(ids[|lens|]) == Ok(x)
    ensures forall k :: 0 <= k < |lens| + 1 ==> nodeLen(ids[k]) == Ok((lens + [x])[k])
  {
  }

  lemma LensOneMore(ids: seq<nat>, targetStart: nat, targetLen: nat, lens: seq<nat>, steps: seq<Step>, x: nat, len: nat)
    requires |lens| == |steps| < |ids|
    requires |lens| > 0 ==> lens[0] >= targetStart
    requires Lens(steps) == Trimmed(lens, targetStart)
    requires |steps| == 0 ==> x >= targetStart
    requires |steps| == |ids| - 1 ==> targetLen >= SumLens(steps)
    requires len == if |steps| == |ids| - 1 then targetLen - SumLens(steps)
                    else if |steps| == 0 then x - targetStart else x
    ensures |steps| + 1 < |ids| ==>
              Lens(steps + [Step(ids[|steps|], len)]) == Trimmed(lens + [x], targetStart)
    ensures |steps| + 1 == |ids| ==>
              && targetLen >= Sum(Leading(lens + [x], targetStart))
              && Lens(steps + [Step(ids[|steps|], len)]) == Attributed(lens + [x], targetStart, targetLen)
  {
    var i := |steps|;
    if i == |ids| - 1 {
      LastStep(lens, x, targetStart, targetLen, steps, ids[i]);
    } else {
      TrimmedAppend(lens, x, targetStart);
      StepsAppend(steps, Step(ids[i], len));
    }
  }

  /** The last node's step completes the leading steps to `Attributed`. */
  lemma LastStep(before: seq<nat>, x: nat, targetStart: nat, targetLen: nat, steps: seq<Step>, id: nat)
    requires |before| > 0 ==> before[0] >= targetStart
    requires |before| == 0 ==> x >= targetStart
    requires Lens(steps) == Trimmed(before, targetStart) && targetLen >= SumLens(steps)
    ensures targetLen >= Sum(Leading(before + [x], targetStart))
    ensures Lens(steps + [Step(id, targetLen - SumLens(steps))]) == Attributed(before + [x], targetStart, targetLen)
  {
    var lens := before + [x];
    assert lens[..|before|] == before;
    LeadingIsTrimmed(lens, targetStart);
    StepsAppend(steps, Step(id, targetLen - SumLens(steps)));
  }

  /** What the steps before the last node cover is the sum of `Leading`. */
  lemma LastStepFails(before: seq<nat>, x: nat, targetStart: nat, targetLen: nat, steps: seq<Step>)
    requires |before| > 0 ==> before[0] >= targetStart
    requires |before| == 0 ==> x >= targetStart
    requires Lens(steps) == Trimmed(before, targetStart) && targetLen < SumLens(steps)
    ensures targetLen < Sum(Leading(before + [x], targetStart))
  {
    var lens := before + [x];
    assert lens[..|before|] == before;
    LeadingIsTrimmed(lens, targetStart);
  }

  lemma ZipAttributed(ids: seq<nat>, lens: seq<nat>, targetStart: nat, targetLen: nat, steps: seq<Step>)
    requires |ids| > 0 && |lens| == |ids| && lens[0] >= targetStart
    requires targetLen >= Sum(Leading(lens, targetStart))
    requires Nodes(steps) == ids && Lens(steps) == Attributed(lens, targetStart, targetLen)
    ensures steps == Zip(ids, Attributed(lens, targetStart, targetLen))
  {
    var z := Zip(ids, Attributed(lens, targetStart, targetLen));
    assert forall k :: 0 <= k < |steps| ==> steps[k] == Step(Nodes(steps)[k], Lens(steps)[k]);
  }

  lemma TakeOneMore(ids: seq<nat>, i: nat)
    requires i < |ids|
    ensures ids[..i + 1] == ids[..i] + [ids[i]]
  {
  }

  /** The allocation loop of `for_each_step`: look every node up, trim the
      first by the target start, give the last what is left of the interval,
      and keep the running total `seen`. */
  method AllocateSteps(ids: seq<nat>, nodeLen: nat -> Result<nat>, targetStart: nat, targetLen: nat)
    returns (r: Result<seq<Step>>)
    ensures r == Allocate(ids, nodeLen, targetStart, targetLen)
  {
    var n := |ids|;
    var seen: nat := 0;
    var steps: seq<Step> := [];
    ghost var lens: seq<nat> := [];
    for i := 0 to n
      invariant |steps| == i
      invariant Allocated(ids, nodeLen, targetStart, targetLen, lens, steps)
      invariant seen == SumLens(steps)
    {
      var found := nodeLen(ids[i]);
      if found.Err? {
        LoopLookupFails(ids, nodeLen, targetStart, targetLen, lens, steps);
        return Err(found.error);
      }
      var len := found.value;
      if i == 0 {
        if len < targetStart {
          AllocateStartFails(ids, nodeLen, targetStart, targetLen);
          return Err(StartBeyondFirstNode);
        }
        len := len - targetStart;
      }
      if i == n - 1 {
        if targetLen < seen {
          LoopLastFails(ids, nodeLen, targetStart, targetLen, lens, steps, found.value);
          return Err(SeenBeyondTarget);
        }
        len := targetLen - seen;
      }
      Advance(ids, nodeLen, targetStart, targetLen, lens, steps, found.value, len);
      lens := lens + [found.value];
      seen := seen + len;
      steps := steps + [Step(ids[i], len)];
    }
    LoopDone(ids, nodeLen, targetStart, targetLen, lens, steps);
    r := Ok(steps);
  }

  /** `for_each_step`: parse the record, then allocate. */
  method ForEachStep(line: string, nodeLen: nat -> Result<nat>) returns (r: Result<seq<Step>>)
    ensures r == StepsOfLine(line, nodeLen)
  {
    var parsed := ParseAlignment(line);
    match parsed {
      case Err(e) =>
        r := Err(e);
      case Ok(None) =>
        r := Ok([]);
      case Ok(Some(a)) =>
        r := AllocateSteps(a.ids, nodeLen, a.targetStart, a.targetLen);
    }
  }
}
