/** The walk tokenizer of `for_each_step` (src/main.rs): the path field of a GAF
    record is split on the orientation markers `<` and `>`, empty tokens are
    dropped and every remaining token is parsed as a node id. The markers are
    only separators: which of the two stands before a node is not kept. */
module Walk {
  import opened Outcome
  import opened Text

  const Markers: set<char> := {'<', '>'}

  /** The non-empty elements of `parts`, in order: every non-empty piece is
      kept and no empty one. */
  function NonEmpty(parts: seq<string>): (r: seq<string>)
    ensures forall j :: 0 <= j < |r| ==> |r[j]| > 0
    ensures |r| <= |parts|
  {
    if |parts| == 0 then []
    else (if |parts[0]| > 0 then [parts[0]] else []) + NonEmpty(parts[1..])
  }

  /** Every non-empty piece is kept, and nothing else. */
  lemma {:induction false} NonEmptyKeeps(parts: seq<string>)
    ensures forall p :: p in NonEmpty(parts) <==> p in parts && |p| > 0
  {
    if |parts| > 0 {
      NonEmptyKeeps(parts[1..]);
      assert forall p :: p in parts <==> p == parts[0] || p in parts[1..];
    }
  }

  /** Filtering distributes over concatenation, so the kept pieces stay in
      their order. */
  lemma {:induction false} NonEmptyAppend(a: seq<string>, b: seq<string>)
    ensures NonEmpty(a + b) == NonEmpty(a) + NonEmpty(b)
  {
    if |a| == 0 {
      assert a + b == b;
    } else {
      assert (a + b)[1..] == a[1..] + b;
      NonEmptyAppend(a[1..], b);
    }
  }

  /** The node tokens of a path field: never an empty one. */
  function Tokens(walk: string): (r: seq<string>)
    ensures forall j :: 0 <= j < |r| ==> |r[j]| > 0
  {
    NonEmpty(Split(walk, Markers))
  }

  /** The tokens are non-empty, free of markers, and exactly the non-empty
      pieces between markers. */
  lemma TokensArePieces(walk: string)
    ensures forall t :: t in Tokens(walk) <==> t in Split(walk, Markers) && |t| > 0
    ensures forall j :: 0 <= j < |Tokens(walk)| ==> |Tokens(walk)[j]| > 0 && FreeOf(Tokens(walk)[j], Markers)
  {
    SplitPiecesFree(walk, Markers);
    NonEmptyKeeps(Split(walk, Markers));
    var r := Tokens(walk);
    forall j | 0 <= j < |r| ensures FreeOf(r[j], Markers) {
      assert r[j] in Split(walk, Markers);
    }
  }

  /** `>1>>2`: the empty piece between two markers is dropped. */
  lemma DoubleMarkerDropped()
    ensures Tokens(">1>>2") == ["1", "2"]
  {
    DoubleMarkerPieces();
    NonEmptyAppend(["", "1"], ["", "2"]);
    assert ["", "1", "", "2"] == ["", "1"] + ["", "2"];
  }

  lemma DoubleMarkerPieces()
    ensures Split(">1>>2", Markers) == ["", "1", "", "2"]
  {
    assert ">1>>2"[1..] == "1>>2" && "1>>2"[1..] == ">>2" && ">>2"[1..] == ">2";
    assert ">2"[1..] == "2" && "2"[1..] == "";
    assert ['2'] + "" == "2" && ['1'] + "" == "1";
    assert Split("2", Markers) == ["2"];
    assert Split(">2", Markers) == ["", "2"];
    assert Split(">>2", Markers) == ["", "", "2"];
    assert Split("1>>2", Markers) == ["1", "", "2"];
  }

  /** Every token parsed as a `usize`; the first token that does not parse is
      the error. */
  function ParseIds(tokens: seq<string>): (r: Result<seq<nat>>)
    ensures r.Ok? ==>
              && |r.value| == |tokens|
              && forall j :: 0 <= j < |tokens| ==> ParseUsize(tokens[j]) == Some(r.value[j])
    ensures r.Err? ==>
              exists k ::
                && 0 <= k < |tokens| && r.error == BadNumber(tokens[k])
                && ParseUsize(tokens[k]).None?
                && forall j :: 0 <= j < k ==> ParseUsize(tokens[j]).Some?
  {
    if |tokens| == 0 then Ok([])
    else match ParseUsize(tokens[0])
      case None => Err(BadNumber(tokens[0]))
      case Some(id) =>
        match ParseIds(tokens[1..])
        case Err(e) =>
          var r: Result<seq<nat>> := Err(e);
          ghost var k :| 0 <= k < |tokens| - 1 && e == BadNumber(tokens[1..][k])
            && ParseUsize(tokens[1..][k]).None?
            && forall j :: 0 <= j < k ==> ParseUsize(tokens[1..][j]).Some?;
          assert forall j :: 0 <= j < k + 1 ==> ParseUsize(tokens[j]).Some? by {
            forall j | 0 <= j < k + 1 ensures ParseUsize(tokens[j]).Some? {
              if j > 0 { assert tokens[j] == tokens[1..][j - 1]; }
            }
          }
          r
        case Ok(ids) => Ok([id] + ids)
  }

  // ---------------------------------------------------------------------------
  // Writing a walk

  datatype Orientation = Forward | Reverse

  /** One signed node reference of a walk, `>12` or `<12`. */
  datatype Traversal = Traversal(orientation: Orientation, node: nat)

  function MarkerOf(o: Orientation): char
  {
    if o == Forward then '>' else '<'
  }

  /** The path field that spells `walk`, one marker and one decimal id per step. */
  function FormatWalk(walk: seq<Traversal>): string
  {
    if |walk| == 0 then ""
    else [MarkerOf(walk[0].orientation)] + DecimalString(walk[0].node) + FormatWalk(walk[1..])
  }

  function Decimals(walk: seq<Traversal>): seq<string>
  {
    if |walk| == 0 then [] else [DecimalString(walk[0].node)] + Decimals(walk[1..])
  }

  lemma {:induction false} DecimalsFreeOfMarkers(n: nat)
    ensures FreeOf(DecimalString(n), Markers)
  {
    assert forall i :: 0 <= i < |DecimalString(n)| ==> IsDigit(DecimalString(n)[i]);
  }

  lemma {:induction false} SplitFormatWalk(walk: seq<Traversal>)
    requires |walk| > 0
    ensures Split(FormatWalk(walk), Markers) == [""] + Decimals(walk)
  {
    var d := DecimalString(walk[0].node);
    var more := FormatWalk(walk[1..]);
    var m := MarkerOf(walk[0].orientation);
    assert FormatWalk(walk) == [m] + (d + more);
    assert ([m] + (d + more))[1..] == d + more;
    DecimalsFreeOfMarkers(walk[0].node);
    SplitFreePrefix(d, more, Markers);
    if |walk| == 1 {
      assert more == "";
      assert d + "" == d;
    } else {
      SplitFormatWalk(walk[1..]);
      assert d + "" == d;
    }
  }

  lemma {:induction false} NonEmptyKeepsAll(parts: seq<string>)
    requires forall j :: 0 <= j < |parts| ==> |parts[j]| > 0
    ensures NonEmpty(parts) == parts
  {
    if |parts| > 0 {
      NonEmptyKeepsAll(parts[1..]);
    }
  }

  lemma {:induction false} DecimalsNonEmpty(walk: seq<Traversal>)
    ensures |Decimals(walk)| == |walk|
    ensures forall j :: 0 <= j < |walk| ==> Decimals(walk)[j] == DecimalString(walk[j].node)
  {
    if |walk| > 0 {
      DecimalsNonEmpty(walk[1..]);
    }
  }

  /** The tokens of a written walk are the decimal spellings of its ids. */
  lemma TokensOfFormatWalk(walk: seq<Traversal>)
    ensures Tokens(FormatWalk(walk)) == Decimals(walk)
  {
    if |walk| == 0 {
      assert FormatWalk(walk) == "";
      assert Split("", Markers) == [""];
    } else {
      SplitFormatWalk(walk);
      DecimalsNonEmpty(walk);
      NonEmptyKeepsAll(Decimals(walk));
    }
  }

  /** Decoding a written walk gives back its node ids, in path order, one per
      step; the orientations are dropped. */
  lemma DecodeFormatWalk(walk: seq<Traversal>)
    requires forall j :: 0 <= j < |walk| ==> walk[j].node <= UsizeMax
    ensures ParseIds(Tokens(FormatWalk(walk))).Ok?
    ensures |ParseIds(Tokens(FormatWalk(walk))).value| == |walk|
    ensures forall j :: 0 <= j < |walk| ==> ParseIds(Tokens(FormatWalk(walk))).value[j] == walk[j].node
  {
    TokensOfFormatWalk(walk);
    DecimalsNonEmpty(walk);
    var ds := Decimals(walk);
    forall j | 0 <= j < |walk| ensures ParseUsize(ds[j]) == Some(walk[j].node) {
      ParseDecimal(walk[j].node);
    }
  }

  /** Turning any `<` into `>` or back leaves the tokens unchanged: the
      orientation of a step is not recorded. */
  lemma OrientationIgnored(w1: string, w2: string)
    requires |w1| == |w2|
    requires forall i :: 0 <= i < |w1| ==> (w1[i] in Markers <==> w2[i] in Markers)
    requires forall i :: 0 <= i < |w1| && w1[i] !in Markers ==> w1[i] == w2[i]
    ensures Tokens(w1) == Tokens(w2)
  {
    SplitIgnoresWhichSeparator(w1, w2, Markers);
  }
}
