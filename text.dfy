/** The string operations of Rust's standard library that the projection relies
    on: `str::split`, `str::trim`, `str::len` (a UTF-8 byte count) and
    `usize::from_str`, together with their inverses. */
module Text {
  import opened Outcome

  /** Largest value of `usize` on a 64-bit target. */
  const UsizeMax: nat := 0xFFFF_FFFF_FFFF_FFFF

  const Tab: char := '\t'

  // ---------------------------------------------------------------------------
  // Splitting and joining

  /** The pieces of `s` between characters of `seps`, as `str::split` yields
      them: k separators give k + 1 pieces, empty pieces included. */
  function Split(s: string, seps: set<char>): (r: seq<string>)
    ensures |r| == Separators(s, seps) + 1
  {
    if |s| == 0 then [""]
    else
      var rest := Split(s[1..], seps);
      if s[0] in seps then [""] + rest
      else [[s[0]] + rest[0]] + rest[1..]
  }

  /** How many characters of `s` are separators. */
  function Separators(s: string, seps: set<char>): nat
  {
    if |s| == 0 then 0 else (if s[0] in seps then 1 else 0) + Separators(s[1..], seps)
  }

  /** `parts` glued together with `sep` between neighbours. */
  function Join(parts: seq<string>, sep: char): string
  {
    if |parts| == 0 then ""
    else if |parts| == 1 then parts[0]
    else parts[0] + [sep] + Join(parts[1..], sep)
  }

  predicate FreeOf(s: string, seps: set<char>)
  {
    forall i :: 0 <= i < |s| ==> s[i] !in seps
  }

  /** No piece of a split contains a separator. */
  lemma {:induction false} SplitPiecesFree(s: string, seps: set<char>)
    ensures forall j :: 0 <= j < |Split(s, seps)| ==> FreeOf(Split(s, seps)[j], seps)
  {
    if |s| > 0 {
      SplitPiecesFree(s[1..], seps);
      var rest := Split(s[1..], seps);
      if s[0] !in seps {
        assert FreeOf([s[0]] + rest[0], seps);
      }
    }
  }

  /** Joining the pieces of a split on one character gives back the text. */
  lemma {:induction false} JoinSplit(s: string, c: char)
    ensures Join(Split(s, {c}), c) == s
  {
    if |s| > 0 {
      var rest := Split(s[1..], {c});
      JoinSplit(s[1..], c);
      if s[0] == c {
        assert Split(s, {c}) == [""] + rest;
        assert ([""] + rest)[1..] == rest;
      } else {
        var parts := [[s[0]] + rest[0]] + rest[1..];
        assert Split(s, {c}) == parts;
        if |rest| == 1 {
          assert Join(parts, c) == [s[0]] + rest[0];
        } else {
          assert parts[1..] == rest[1..];
          assert Join(rest, c) == rest[0] + [c] + Join(rest[1..], c);
          assert Join(parts, c) == [s[0]] + rest[0] + [c] + Join(rest[1..], c);
        }
        assert [s[0]] + s[1..] == s;
      }
    }
  }

  /** A separator-free prefix is glued onto the first piece of what follows. */
  lemma {:induction false} SplitFreePrefix(x: string, rest: string, seps: set<char>)
    requires FreeOf(x, seps)
    ensures Split(x + rest, seps) == [x + Split(rest, seps)[0]] + Split(rest, seps)[1..]
  {
    if |x| > 0 {
      SplitFreePrefix(x[1..], rest, seps);
      assert (x + rest)[1..] == x[1..] + rest;
      assert [x[0]] + (x[1..] + Split(rest, seps)[0]) == x + Split(rest, seps)[0];
    } else {
      assert x + rest == rest;
      assert x + Split(rest, seps)[0] == Split(rest, seps)[0];
      assert Split(rest, seps) == [Split(rest, seps)[0]] + Split(rest, seps)[1..];
    }
  }

  /** Splitting a join of separator-free parts gives back the parts. */
  lemma {:induction false} SplitJoin(parts: seq<string>, c: char)
    requires |parts| >= 1
    requires forall j :: 0 <= j < |parts| ==> FreeOf(parts[j], {c})
    ensures Split(Join(parts, c), {c}) == parts
  {
    if |parts| == 1 {
      SplitFreePrefix(parts[0], "", {c});
      assert parts[0] + "" == parts[0];
    } else {
      var tail := Join(parts[1..], c);
      SplitJoin(parts[1..], c);
      assert Join(parts, c) == parts[0] + ([c] + tail);
      SplitFreePrefix(parts[0], [c] + tail, {c});
      assert ([c] + tail)[1..] == tail;
      assert Split([c] + tail, {c}) == [""] + parts[1..];
      assert parts[0] + "" == parts[0];
    }
  }

  /** The split depends only on WHERE the separators are, not on which
      separator stands at each place. */
  lemma {:induction false} SplitIgnoresWhichSeparator(s: string, t: string, seps: set<char>)
    requires |s| == |t|
    requires forall i :: 0 <= i < |s| ==> (s[i] in seps <==> t[i] in seps)
    requires forall i :: 0 <= i < |s| && s[i] !in seps ==> s[i] == t[i]
    ensures Split(s, seps) == Split(t, seps)
  {
    if |s| > 0 {
      SplitIgnoresWhichSeparator(s[1..], t[1..], seps);
    }
  }

  // ---------------------------------------------------------------------------
  // Trimming

  /** Characters with the Unicode White_Space property, which `str::trim` removes. */
  predicate IsWhitespace(c: char)
  {
    || c == ' '
    || ('\t' <= c <= '\r')
    || c == '\U{85}' || c == '\U{A0}' || c == '\U{1680}'
    || ('\U{2000}' <= c <= '\U{200A}')
    || c == '\U{2028}' || c == '\U{2029}' || c == '\U{202F}' || c == '\U{205F}'
    || c == '\U{3000}'
  }

  /** The first position at or after `i` that is not whitespace. */
  function SkipSpace(s: string, i: nat): (a: nat)
    requires i <= |s|
    ensures i <= a <= |s|
    ensures forall k :: i <= k < a ==> IsWhitespace(s[k])
    ensures a < |s| ==> !IsWhitespace(s[a])
    decreases |s| - i
  {
    if i < |s| && IsWhitespace(s[i]) then SkipSpace(s, i + 1) else i
  }

  /** The end of `s[lo..j]` once its trailing whitespace is dropped. */
  function SkipSpaceBack(s: string, lo: nat, j: nat): (b: nat)
    requires lo <= j <= |s|
    ensures lo <= b <= j
    ensures forall k :: b <= k < j ==> IsWhitespace(s[k])
    ensures b > lo ==> !IsWhitespace(s[b - 1])
  {
    if j > lo && IsWhitespace(s[j - 1]) then SkipSpaceBack(s, lo, j - 1) else j
  }

  /** Where the trimmed text starts. */
  function TrimFrom(s: string): nat
  {
    SkipSpace(s, 0)
  }

  /** Where the trimmed text ends. */
  function TrimTo(s: string): nat
  {
    SkipSpaceBack(s, TrimFrom(s), |s|)
  }

  /** `str::trim`: the part of `s` between its leading and its trailing
      whitespace; it neither starts nor ends with whitespace. */
  function Trim(s: string): (r: string)
    ensures TrimFrom(s) <= TrimTo(s) <= |s| && r == s[TrimFrom(s)..TrimTo(s)]
    ensures forall k :: 0 <= k < TrimFrom(s) ==> IsWhitespace(s[k])
    ensures forall k :: TrimTo(s) <= k < |s| ==> IsWhitespace(s[k])
    ensures |r| > 0 ==> !IsWhitespace(r[0]) && !IsWhitespace(r[|r| - 1])
  {
    s[TrimFrom(s)..TrimTo(s)]
  }

  /** Text that neither starts nor ends with whitespace is its own trim. */
  lemma NothingToTrim(s: string)
    requires |s| > 0 && !IsWhitespace(s[0]) && !IsWhitespace(s[|s| - 1])
    ensures Trim(s) == s
  {
    assert TrimFrom(s) == 0;
    assert TrimTo(s) == |s|;
  }

  // ---------------------------------------------------------------------------
  // Byte length

  /** Number of bytes of `c` in UTF-8. */
  function Utf8Width(c: char): nat
  {
    if c as int < 0x80 then 1
    else if c as int < 0x800 then 2
    else if c as int < 0x1_0000 then 3
    else 4
  }

  /** `str::len`: the length of `s` in UTF-8 bytes, between one and four per character. */
  function ByteLen(s: string): (n: nat)
    ensures |s| <= n <= 4 * |s|
  {
    if |s| == 0 then 0 else Utf8Width(s[0]) + ByteLen(s[1..])
  }

  /** For ASCII text the byte length is the number of characters. */
  lemma {:induction false} AsciiByteLen(s: string)
    requires forall i :: 0 <= i < |s| ==> s[i] as int < 0x80
    ensures ByteLen(s) == |s|
  {
    if |s| > 0 {
      AsciiByteLen(s[1..]);
    }
  }

  // ---------------------------------------------------------------------------
  // Decimal numbers

  predicate IsDigit(c: char)
  {
    '0' <= c <= '9'
  }

  predicate AllDigits(s: string)
  {
    forall i :: 0 <= i < |s| ==> IsDigit(s[i])
  }

  /** The value of a string of decimal digits, most significant first. */
  function DigitsValue(d: string): nat
    requires AllDigits(d)
  {
    if |d| == 0 then 0
    else DigitsValue(d[..|d| - 1]) * 10 + (d[|d| - 1] as int - '0' as int)
  }

  /** `usize::from_str`: an optional `+`, then at least one ASCII digit, and a
      value that fits in 64 bits; anything else is an error. */
  function ParseUsize(s: string): (r: Option<nat>)
    ensures r.Some? ==> r.value <= UsizeMax
  {
    var digits := if |s| > 1 && s[0] == '+' then s[1..] else s;
    if |digits| > 0 && AllDigits(digits) && DigitsValue(digits) <= UsizeMax
    then Some(DigitsValue(digits))
    else None
  }

  function DigitChar(d: nat): (c: char)
    requires d < 10
    ensures IsDigit(c) && c as int - '0' as int == d
  {
    ('0' as int + d) as char
  }

  /** The canonical decimal rendering of `n`, as `format!("{}", n)` writes it. */
  function DecimalString(n: nat): (s: string)
    ensures |s| > 0 && AllDigits(s)
  {
    if n < 10 then [DigitChar(n)] else DecimalString(n / 10) + [DigitChar(n % 10)]
  }

  lemma {:induction false} DigitsValueOfDecimal(n: nat)
    ensures DigitsValue(DecimalString(n)) == n
  {
    if n >= 10 {
      DigitsValueOfDecimal(n / 10);
      var s := DecimalString(n);
      assert s[..|s| - 1] == DecimalString(n / 10);
    }
  }

  /** Parsing the decimal rendering of any `usize` gives the number back. */
  lemma ParseDecimal(n: nat)
    requires n <= UsizeMax
    ensures ParseUsize(DecimalString(n)) == Some(n)
  {
    DigitsValueOfDecimal(n);
  }
}
