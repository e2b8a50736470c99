/** The unweighted projection of `main` (src/main.rs): a coverage vector with one
    slot per index entry, zero at first, and every step of every alignment
    record adding its length to the slot of its node, `coverage[node_id -
    min_id] += len`. The source keeps the vector as `f64`; here the slots are
    exact naturals. */
module Coverage {
  import opened Outcome
  import opened Text
  import opened Steps
  import opened Gfa

  /** Every step's node has a slot in a vector of `n` slots starting at `minId`. */
  predicate InRange(steps: seq<Step>, minId: nat, n: nat)
  {
    forall j :: 0 <= j < |steps| ==> minId <= steps[j].node < minId + n
  }

  /** The vector after adding every step in order. */
  function Accumulated(cov: seq<nat>, minId: nat, steps: seq<Step>): (r: seq<nat>)
    requires InRange(steps, minId, |cov|)
    ensures |r| == |cov|
  {
    if |steps| == 0 then cov
    else
      var s := steps[|steps| - 1];
      var prev := Accumulated(cov, minId, steps[..|steps| - 1]);
      prev[s.node - minId := prev[s.node - minId] + s.len]
  }

  /** The total length the steps hand to node `node`: an independent reading
      of what its slot gains. */
  function CoverOf(steps: seq<Step>, node: nat): nat
  {
    if |steps| == 0 then 0
    else
      var s := steps[|steps| - 1];
      CoverOf(steps[..|steps| - 1], node) + (if s.node == node then s.len else 0)
  }

  function Zeros(n: nat): (r: seq<nat>)
    ensures |r| == n && forall k :: 0 <= k < n ==> r[k] == 0
  {
    seq(n, _ => 0)
  }

  // ---------------------------------------------------------------------------
  // What accumulation does

  /** Slot `k` gains exactly the lengths of the steps on node `minId + k`. */
  lemma {:induction false} AccumulatedAt(cov: seq<nat>, minId: nat, steps: seq<Step>, k: nat)
    requires InRange(steps, minId, |cov|) && k < |cov|
    ensures Accumulated(cov, minId, steps)[k] == cov[k] + CoverOf(steps, minId + k)
  {
    if |steps| > 0 {
      AccumulatedAt(cov, minId, steps[..|steps| - 1], k);
    }
  }

  /** Raising one element by `x` raises the sum by `x`. */
  lemma {:induction false} SumUpdate(s: seq<nat>, i: nat, x: nat)
    requires i < |s|
    ensures Sum(s[i := s[i] + x]) == Sum(s) + x
  {
    var t := s[i := s[i] + x];
    var n := |s| - 1;
    assert t[..n] == if i < n then s[..n][i := s[i] + x] else s[..n];
    if i < n {
      SumUpdate(s[..n], i, x);
    }
  }

  /** Nothing is lost or invented: the vector grows by the total step length. */
  lemma {:induction false} AccumulatedTotal(cov: seq<nat>, minId: nat, steps: seq<Step>)
    requires InRange(steps, minId, |cov|)
    ensures Sum(Accumulated(cov, minId, steps)) == Sum(cov) + SumLens(steps)
  {
    if |steps| > 0 {
      var init := steps[..|steps| - 1];
      var s := steps[|steps| - 1];
      AccumulatedTotal(cov, minId, init);
      var prev := Accumulated(cov, minId, init);
      SumUpdate(prev, s.node - minId, s.len);
      assert steps == init + [s];
      StepsAppend(init, s);
    }
  }

  /** Adding two batches one after the other is adding their concatenation. */
  lemma {:induction false} AccumulatedAppend(cov: seq<nat>, minId: nat, a: seq<Step>, b: seq<Step>)
    requires InRange(a, minId, |cov|) && InRange(b, minId, |cov|)
    ensures InRange(a + b, minId, |cov|)
    ensures Accumulated(cov, minId, a + b) == Accumulated(Accumulated(cov, minId, a), minId, b)
    decreases |b|
  {
    if |b| == 0 {
      assert a + b == a;
    } else {
      var init := b[..|b| - 1];
      AccumulatedAppend(cov, minId, a, init);
      assert (a + b)[..|a + b| - 1] == a + init;
    }
  }

  // ---------------------------------------------------------------------------
  // The whole file of alignments, as a specification

  /** What `for_each_step` gives for each line of the alignment file. */
  function Records(lines: seq<string>, nodeLen: nat -> Result<nat>): (r: seq<Result<seq<Step>>>)
    ensures |r| == |lines| && forall i :: 0 <= i < |lines| ==> r[i] == StepsOfLine(lines[i], nodeLen)
  {
    seq(|lines|, i requires 0 <= i < |lines| => StepsOfLine(lines[i], nodeLen))
  }

  /** Every record's steps, in file order; the first record that fails is the
      error, since its panic ends the run. */
  function Gather(records: seq<Result<seq<Step>>>): (r: Result<seq<Step>>)
    ensures r.Ok? ==> forall i :: 0 <= i < |records| ==> records[i].Ok?
  {
    if |records| == 0 then Ok([])
    else match Gather(records[..|records| - 1])
      case Err(e) => Err(e)
      case Ok(before) =>
        match records[|records| - 1]
        case Err(e) => Err(e)
        case Ok(steps) => Ok(before + steps)
  }

  function AllSteps(lines: seq<string>, nodeLen: nat -> Result<nat>): (r: Result<seq<Step>>)
    ensures r.Ok? ==> forall i :: 0 <= i < |lines| ==> StepsOfLine(lines[i], nodeLen).Ok?
  {
    Gather(Records(lines, nodeLen))
  }

  /** The target length each record covers, in file order. */
  function Covered(lines: seq<string>): (r: seq<nat>)
    ensures |r| == |lines| && forall i :: 0 <= i < |lines| ==> r[i] == CoveredLength(lines[i])
  {
    seq(|lines|, i requires 0 <= i < |lines| => CoveredLength(lines[i]))
  }

  /** One more record: `Gather` of the longer prefix in terms of the shorter. */
  lemma GatherStep(records: seq<Result<seq<Step>>>, i: nat)
    requires i < |records|
    ensures Gather(records[..i + 1]) == match Gather(records[..i])
      case Err(e) => Err(e)
      case Ok(before) =>
        match records[i]
        case Err(e) => Err(e)
        case Ok(steps) => Ok(before + steps)
  {
    assert records[..i + 1][..i] == records[..i];
  }

  /** A failing prefix fails the whole file with the same error. */
  lemma {:induction false} GatherPrefixFails(records: seq<Result<seq<Step>>>, n: nat)
    requires n <= |records| && Gather(records[..n]).Err?
    ensures Gather(records) == Gather(records[..n])
    decreases |records| - n
  {
    if n < |records| {
      GatherStep(records, n);
      GatherPrefixFails(records, n + 1);
    } else {
      assert records[..n] == records;
    }
  }

  /** Gathered steps have a slot when every record's steps do. */
  lemma {:induction false} GatherInRange(records: seq<Result<seq<Step>>>, minId: nat, n: nat)
    requires forall i :: 0 <= i < |records| && records[i].Ok? ==> InRange(records[i].value, minId, n)
    ensures Gather(records).Ok? ==> InRange(Gather(records).value, minId, n)
  {
    if |records| > 0 {
      var init := records[..|records| - 1];
      assert forall i :: 0 <= i < |init| ==> init[i] == records[i];
      GatherInRange(init, minId, n);
    }
  }

  /** The gathered steps add up to the sum of what each record adds up to. */
  lemma {:induction false} GatherTotal(records: seq<Result<seq<Step>>>, covered: seq<nat>)
    requires |covered| == |records|
    requires forall i :: 0 <= i < |records| && records[i].Ok? ==> SumLens(records[i].value) == covered[i]
    ensures Gather(records).Ok? ==> SumLens(Gather(records).value) == Sum(covered)
  {
    if |records| > 0 {
      var n := |records| - 1;
      var init := records[..n];
      assert forall i :: 0 <= i < n ==> init[i] == records[i];
      assert forall i :: 0 <= i < n ==> covered[..n][i] == covered[i];
      GatherTotal(init, covered[..n]);
      if Gather(records).Ok? {
        SumLensAppend(Gather(init).value, records[n].value);
      }
    }
  }

  /** Steps found in the index have a slot in it. */
  lemma StepsInIndex(ix: Index, steps: seq<Step>)
    requires forall j :: 0 <= j < |steps| ==> Lookup(ix)(steps[j].node).Ok?
    ensures InRange(steps, ix.minId, |ix.lengths|)
  {
    forall j | 0 <= j < |steps| ensures ix.minId <= steps[j].node < ix.minId + |ix.lengths| {
      assert NodeLen(ix, steps[j].node).Ok?;
    }
  }

  /** Every record that succeeds only names nodes of the index. */
  lemma RecordsInIndex(ix: Index, lines: seq<string>)
    ensures var records := Records(lines, Lookup(ix));
      forall i :: 0 <= i < |records| && records[i].Ok? ==> InRange(records[i].value, ix.minId, |ix.lengths|)
  {
    var records := Records(lines, Lookup(ix));
    forall i | 0 <= i < |records| && records[i].Ok?
      ensures InRange(records[i].value, ix.minId, |ix.lengths|)
    {
      StepsInIndex(ix, records[i].value);
    }
  }

  /** The unweighted coverage vector for an index and a file of alignments. */
  function Project(ix: Index, lines: seq<string>): (r: Result<seq<nat>>)
    ensures r.Ok? ==> |r.value| == |ix.lengths|
  {
    match AllSteps(lines, Lookup(ix))
    case Err(e) => Err(e)
    case Ok(steps) =>
      RecordsInIndex(ix, lines);
      GatherInRange(Records(lines, Lookup(ix)), ix.minId, |ix.lengths|);
      Ok(Accumulated(Zeros(|ix.lengths|), ix.minId, steps))
  }

  /** A successful projection is the accumulation of all records' steps. */
  lemma ProjectedSteps(ix: Index, lines: seq<string>) returns (steps: seq<Step>)
    requires Project(ix, lines).Ok?
    ensures AllSteps(lines, Lookup(ix)) == Ok(steps)
    ensures InRange(steps, ix.minId, |ix.lengths|)
    ensures Project(ix, lines).value == Accumulated(Zeros(|ix.lengths|), ix.minId, steps)
  {
    steps := AllSteps(lines, Lookup(ix)).value;
    RecordsInIndex(ix, lines);
    GatherInRange(Records(lines, Lookup(ix)), ix.minId, |ix.lengths|);
  }

  /** Slot `k` of the projection is the total length the records attribute
      to node `min_id + k`; a node no record walks through stays 0. */
  lemma CoverageOfNode(ix: Index, lines: seq<string>, k: nat)
    requires Project(ix, lines).Ok? && k < |ix.lengths|
    ensures Project(ix, lines).value[k] == CoverOf(AllSteps(lines, Lookup(ix)).value, ix.minId + k)
  {
    var steps := ProjectedSteps(ix, lines);
    var zeros := Zeros(|ix.lengths|);
    AccumulatedAt(zeros, ix.minId, steps, k);
  }

  /** Conservation: the coverage vector adds up to the sum of the target
      intervals of the records whose walk names a node. */
  lemma CoverageTotal(ix: Index, lines: seq<string>)
    requires Project(ix, lines).Ok?
    ensures Sum(Project(ix, lines).value) == Sum(Covered(lines))
  {
    var steps := ProjectedSteps(ix, lines);
    AccumulatedTotal(Zeros(|ix.lengths|), ix.minId, steps);
    ZerosSum(|ix.lengths|);
    GatherTotal(Records(lines, Lookup(ix)), Covered(lines));
  }

  lemma {:induction false} ZerosSum(n: nat)
    ensures Sum(Zeros(n)) == 0
  {
    if n > 0 {
      assert Zeros(n)[..n - 1] == Zeros(n - 1);
      ZerosSum(n - 1);
    }
  }

  // ---------------------------------------------------------------------------
  // The projection, as the source runs it

  /** `coverage[node_id - min_id] += len`: one slot changes, by `len`. */
  method AddCoverage(coverage: array<nat>, minId: nat, step: Step)
    requires minId <= step.node < minId + coverage.Length
    modifies coverage
    ensures coverage[..] == old(coverage[..])[step.node - minId := old(coverage[step.node - minId]) + step.len]
  {
    coverage[step.node - minId] := coverage[step.node - minId] + step.len;
  }

  /** The per-node callback applied to one record's steps. */
  method AccumulateSteps(coverage: array<nat>, minId: nat, steps: seq<Step>)
    requires InRange(steps, minId, coverage.Length)
    modifies coverage
    ensures coverage[..] == Accumulated(old(coverage[..]), minId, steps)
  {
    for i := 0 to |steps|
      invariant coverage[..] == Accumulated(old(coverage[..]), minId, steps[..i])
    {
      assert steps[..i + 1][..i] == steps[..i];
      AddCoverage(coverage, minId, steps[i]);
    }
    assert steps[..|steps|] == steps;
  }

  /** The single pass of `main` without weighting: a zeroed vector, then every
      record's steps added in file order. */
  method ProjectUnweighted(ix: Index, lines: seq<string>) returns (r: Result<seq<nat>>)
    ensures r == Project(ix, lines)
  {
    ghost var records := Records(lines, Lookup(ix));
    RecordsInIndex(ix, lines);
    var coverage := new nat[|ix.lengths|](_ => 0);
    ghost var done: seq<Step> := [];
    for i := 0 to |lines|
      invariant Gather(records[..i]) == Ok(done)
      invariant InRange(done, ix.minId, coverage.Length)
      invariant coverage.Length == |ix.lengths|
      invariant coverage[..] == Accumulated(Zeros(coverage.Length), ix.minId, done)
    {
      GatherStep(records, i);
      var steps := ForEachStep(lines[i], Lookup(ix));
      match steps {
        case Err(e) =>
          GatherPrefixFails(records, i + 1);
          return Err(e);
        case Ok(s) =>
          AccumulateSteps(coverage, ix.minId, s);
          AccumulatedAppend(Zeros(coverage.Length), ix.minId, done, s);
          done := done + s;
      }
    }
    assert records[..|lines|] == records;
    r := Ok(coverage[..]);
  }

  /** The run without weighting: the index, then the projection. */
  function UnweightedCoverage(gfaLines: seq<string>, gafLines: seq<string>): (r: Result<seq<nat>>)
    ensures r.Ok? ==> GfaIndex(gfaLines).Ok? && |r.value| == |GfaIndex(gfaLines).value.lengths|
  {
    match GfaIndex(gfaLines)
    case Err(e) => Err(e)
    case Ok(ix) => Project(ix, gafLines)
  }

  method Run(gfaLines: seq<string>, gafLines: seq<string>) returns (r: Result<seq<nat>>)
    ensures r == UnweightedCoverage(gfaLines, gafLines)
  {
    var index := ParseGfa(gfaLines);
    match index {
      case Err(e) => return Err(e);
      case Ok(ix) => r := ProjectUnweighted(ix, gafLines);
    }
  }

  // ---------------------------------------------------------------------------
  // A worked example

  /** Nodes 1, 2 and 3 of lengths 10, 5 and 8; the walk `>1>2>3` over the
      target interval [2, 20): node 1 loses its first 2 bases, node 2 counts in
      full and node 3 takes the remaining 18 - 13 = 5. */
  lemma WorkedExample()
    ensures Allocate([1, 2, 3], Lookup(Index([10, 5, 8], 1)), 2, 18)
            == Ok([Step(1, 8), Step(2, 5), Step(3, 5)])
  {
    var nodeLen := Lookup(Index([10, 5, 8], 1));
    assert nodeLen(1) == Ok(10) && nodeLen(2) == Ok(5) && nodeLen(3) == Ok(8);
    var ids, lens := [1, 2, 3], [10, 5, 8];
    assert forall j :: 0 <= j < |ids| ==> nodeLen(ids[j]) == Ok(lens[j]);
    WorkedAttribution();
    AllocateAllFound(ids, nodeLen, 2, 18, lens);
    assert Zip(ids, [8, 5, 5]) == [Step(1, 8), Step(2, 5), Step(3, 5)];
  }

  /** The lengths of the worked example: 10 - 2, then 5, then 18 - 13. */
  lemma WorkedAttribution()
    ensures Sum(Leading([10, 5, 8], 2)) == 13 <= 18
    ensures Attributed([10, 5, 8], 2, 18) == [8, 5, 5]
  {
    assert Leading([10, 5, 8], 2) == [8, 5];
    assert [8, 5][..1] == [8] && [8][..0] == [];
  }
}
