/** The query weighting of `main` (src/main.rs): a first pass over the alignment
    file counts the records of each query group, keyed by the query name, the
    query start and the query end; the second pass looks every record's key up
    and divides its contributions by that count, so a query aligned several
    times contributes once in total. The division itself is on `f64` and is
    not part of this model; the counts and their lookup are. */
module Queries {
  import opened Outcome
  import opened Steps

  /** `format!("{}:{}:{}", fields[0], fields[2], fields[3])` for a record with
      at least four fields; shorter records have no key and are not counted. */
  function QueryKey(line: string): (r: Option<string>)
    ensures r.Some? <==> |Fields(line)| >= 4
  {
    var fields := Fields(line);
    if |fields| >= 4 then Some(fields[0] + ":" + fields[2] + ":" + fields[3]) else None
  }

  /** How many of the lines carry query key `key`. */
  function Occurrences(lines: seq<string>, key: string): (n: nat)
    ensures n <= |lines|
  {
    if |lines| == 0 then 0
    else Occurrences(lines[..|lines| - 1], key) + (if QueryKey(lines[|lines| - 1]) == Some(key) then 1 else 0)
  }

  /** A key occurs exactly when some line carries it. */
  lemma {:induction false} OccursIff(lines: seq<string>, key: string)
    ensures Occurrences(lines, key) > 0 <==> exists i :: 0 <= i < |lines| && QueryKey(lines[i]) == Some(key)
  {
    if |lines| > 0 {
      var init := lines[..|lines| - 1];
      OccursIff(init, key);
      if exists i :: 0 <= i < |lines| && QueryKey(lines[i]) == Some(key) {
        var i :| 0 <= i < |lines| && QueryKey(lines[i]) == Some(key);
        if i < |init| {
          assert init[i] == lines[i];
        }
      }
      if exists i :: 0 <= i < |init| && QueryKey(init[i]) == Some(key) {
        var i :| 0 <= i < |init| && QueryKey(init[i]) == Some(key);
        assert lines[i] == init[i];
      }
    }
  }

  /** The first pass: `*query_counts.entry(query_key).or_insert(0) += 1` for
      every record with at least four fields. A key is present exactly when
      some record carries it, with the number of records that do. */
  method CountQueries(lines: seq<string>) returns (counts: map<string, nat>)
    ensures forall key :: key in counts <==> Occurrences(lines, key) > 0
    ensures forall key :: key in counts ==> counts[key] == Occurrences(lines, key)
  {
    counts := map[];
    for i := 0 to |lines|
      invariant forall key :: key in counts <==> Occurrences(lines[..i], key) > 0
      invariant forall key :: key in counts ==> counts[key] == Occurrences(lines[..i], key)
    {
      assert lines[..i + 1][..i] == lines[..i];
      assert lines[..i + 1][i] == lines[i];
      var fields := Fields(lines[i]);
      if |fields| >= 4 {
        var queryKey := fields[0] + ":" + fields[2] + ":" + fields[3];
        var count := if queryKey in counts then counts[queryKey] else 0;
        counts := counts[queryKey := count + 1];
      }
    }
    assert lines[..|lines|] == lines;
  }

  /** `query_counts.get(&query_key).unwrap_or(&1)`. */
  function CountOf(counts: map<string, nat>, key: string): (n: nat)
    ensures key in counts ==> n == counts[key]
    ensures key !in counts ==> n == 1
  {
    if key in counts then counts[key] else 1
  }

  /** The divisor of a record in the second pass. Building its key indexes
      `fields[2]` and then `fields[3]`, so a record with fewer fields panics. */
  function Divisor(counts: map<string, nat>, line: string): (r: Result<nat>)
    ensures |Fields(line)| <= 2 <==> r == Err(MissingField(2))
    ensures |Fields(line)| == 3 <==> r == Err(MissingField(3))
    ensures r.Ok? ==> QueryKey(line).Some? && r.value == CountOf(counts, QueryKey(line).value)
  {
    var fields := Fields(line);
    if |fields| <= 2 then Err(MissingField(2))
    else if |fields| == 3 then Err(MissingField(3))
    else Ok(CountOf(counts, QueryKey(line).value))
  }

  /** In the second pass over the same file, every record with a key finds it
      counted: its divisor is the number of records of its query group, never
      the fallback, and at least 1, so the division is always defined. */
  lemma SecondPassDivisor(lines: seq<string>, counts: map<string, nat>, i: nat)
    requires forall key :: key in counts <==> Occurrences(lines, key) > 0
    requires forall key :: key in counts ==> counts[key] == Occurrences(lines, key)
    requires i < |lines| && |Fields(lines[i])| >= 4
    ensures Divisor(counts, lines[i]) == Ok(Occurrences(lines, QueryKey(lines[i]).value))
    ensures Divisor(counts, lines[i]).value >= 1
  {
    OccursIff(lines, QueryKey(lines[i]).value);
  }

  /** One record of the weighted second pass: its divisor, then its steps. The
      key is built before the walk is read, so a short record fails with the
      missing key field even when its walk would fail too. */
  datatype WeightedRecord = WeightedRecord(divisor: nat, steps: seq<Step>)

  function WeightedSteps(counts: map<string, nat>, line: string, nodeLen: nat -> Result<nat>): (r: Result<WeightedRecord>)
    ensures r.Ok? ==> Divisor(counts, line) == Ok(r.value.divisor)
    ensures r.Ok? ==> StepsOfLine(line, nodeLen) == Ok(r.value.steps)
    ensures Divisor(counts, line).Err? ==> r == Err(Divisor(counts, line).error)
  {
    match Divisor(counts, line)
    case Err(e) => Err(e)
    case Ok(d) =>
      match StepsOfLine(line, nodeLen)
      case Err(e) => Err(e)
      case Ok(steps) => Ok(WeightedRecord(d, steps))
  }
}
