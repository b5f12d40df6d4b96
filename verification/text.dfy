/** String operations the cleaning steps rely on: Python's `str.strip`, whitespace and character
    removal, ASCII lower-casing, substring search, joining with " > " and integer parsing. */
module Text {
  import opened Wrappers

  /** Python's `str.isspace()` for one code point; the regex class `\s` uses the same set. */
  predicate IsSpace(c: char) {
    var n := c as int;
    || (0x09 <= n <= 0x0D) || (0x1C <= n <= 0x20)
    || n == 0x85 || n == 0xA0 || n == 0x1680
    || (0x2000 <= n <= 0x200A)
    || n == 0x2028 || n == 0x2029 || n == 0x202F || n == 0x205F || n == 0x3000
  }

  predicate AllSpace(s: string) {
    forall k :: 0 <= k < |s| ==> IsSpace(s[k])
  }

  /** Removes leading whitespace: what is dropped is whitespace, what remains does not start with it. */
  function TrimStart(s: string): (r: string)
    ensures |r| <= |s| && r == s[|s| - |r|..]
    ensures AllSpace(s[..|s| - |r|])
    ensures r == [] || !IsSpace(r[0])
    decreases |s|
  {
    if |s| > 0 && IsSpace(s[0]) then
      var r := TrimStart(s[1..]);
      assert s[..|s| - |r|] == [s[0]] + s[1..][..|s| - 1 - |r|];
      r
    else
      s
  }

  /** Removes trailing whitespace. */
  function TrimEnd(s: string): (r: string)
    ensures |r| <= |s| && r == s[..|r|]
    ensures AllSpace(s[|r|..])
    ensures r == [] || !IsSpace(r[|r| - 1])
    decreases |s|
  {
    if |s| > 0 && IsSpace(s[|s| - 1]) then
      var r := TrimEnd(s[..|s| - 1]);
      assert s[|r|..] == s[..|s| - 1][|r|..] + [s[|s| - 1]];
      r
    else
      s
  }

  /** `r` is the slice of `s` starting at `i`, and everything around it is whitespace. */
  predicate StrippedAt(s: string, i: nat, r: string) {
    && i + |r| <= |s|
    && s[i..i + |r|] == r
    && AllSpace(s[..i])
    && AllSpace(s[i + |r|..])
  }

  /** Python's `str.strip()`: the maximal whitespace prefix and suffix are removed. */
  function Strip(s: string): (r: string)
    ensures |r| <= |s|
    ensures r == [] || (!IsSpace(r[0]) && !IsSpace(r[|r| - 1]))
  {
    TrimEnd(TrimStart(s))
  }

  /** What `Strip` keeps is a slice of its input with only whitespace around it. */
  lemma StripMeaning(s: string)
    ensures exists i :: StrippedAt(s, i, Strip(s))
  {
    var t := TrimStart(s);
    var u := TrimEnd(t);
    var i := |s| - |t|;
    assert s[i..i + |u|] == u;
    assert s[i + |u|..] == t[|u|..];
    assert u == Strip(s);
    assert StrippedAt(s, i, Strip(s));
  }

  /** Stripping a string that neither starts nor ends with whitespace changes nothing. */
  lemma StripOfStripped(s: string)
    requires s == [] || (!IsSpace(s[0]) && !IsSpace(s[|s| - 1]))
    ensures Strip(s) == s
  {
  }

  /** `str.strip()` is idempotent. */
  lemma StripIdempotent(s: string)
    ensures Strip(Strip(s)) == Strip(s)
  {
    StripOfStripped(Strip(s));
  }

  lemma {:induction false} TrimStartPadded(pad: string, s: string)
    requires AllSpace(pad)
    requires s == [] || !IsSpace(s[0])
    ensures TrimStart(pad + s) == s
  {
    if pad == [] {
      assert pad + s == s;
    } else {
      assert (pad + s)[0] == pad[0] && (pad + s)[1..] == pad[1..] + s;
      TrimStartPadded(pad[1..], s);
    }
  }

  lemma {:induction false} TrimEndPadded(s: string, pad: string)
    requires AllSpace(pad)
    requires s == [] || !IsSpace(s[|s| - 1])
    ensures TrimEnd(s + pad) == s
  {
    if pad == [] {
      assert s + pad == s;
    } else {
      var n := |pad| - 1;
      assert (s + pad)[|s + pad| - 1] == pad[n] && (s + pad)[..|s + pad| - 1] == s + pad[..n];
      TrimEndPadded(s, pad[..n]);
    }
  }

  /** Whitespace around a text that neither starts nor ends with whitespace is exactly what
      `str.strip()` removes. */
  lemma StripPadded(before: string, s: string, after: string)
    requires AllSpace(before) && AllSpace(after)
    requires s == [] || (!IsSpace(s[0]) && !IsSpace(s[|s| - 1]))
    ensures Strip(before + s + after) == s
  {
    assert before + s + after == before + (s + after);
    if s == [] {
      assert before + s + after == before + after;
      assert AllSpace(before + after);
      TrimStartPadded(before + after, []);
      assert before + after + [] == before + after;
    } else {
      assert (s + after)[0] == s[0];
      TrimStartPadded(before, s + after);
      TrimEndPadded(s, after);
    }
  }

  function LowerChar(c: char): char {
    if 'A' <= c <= 'Z' then (c as int + 32) as char else c
  }

  /** `str.lower()`, restricted to ASCII letters. */
  function Lower(s: string): string {
    seq(|s|, k requires 0 <= k < |s| => LowerChar(s[k]))
  }

  predicate OccursAt(hay: string, needle: string, i: nat) {
    i + |needle| <= |hay| && hay[i..i + |needle|] == needle
  }

  lemma OccursShift(hay: string, needle: string)
    requires |hay| > 0
    ensures forall i: nat :: OccursAt(hay, needle, i + 1) <==> OccursAt(hay[1..], needle, i)
  {
    forall i: nat
      ensures OccursAt(hay, needle, i + 1) <==> OccursAt(hay[1..], needle, i)
    {
      if i + 1 + |needle| <= |hay| {
        assert hay[1..][i..i + |needle|] == hay[i + 1..i + 1 + |needle|];
      }
    }
  }

  /** Python's `needle in hay` on strings. */
  function Contains(hay: string, needle: string): (b: bool)
    ensures b <==> exists i: nat :: OccursAt(hay, needle, i)
    decreases |hay|
  {
    if OccursAt(hay, needle, 0) then true
    else if |hay| == 0 then false
    else
      OccursShift(hay, needle);
      assert forall i: nat :: OccursAt(hay, needle, i) ==> i == 0 || OccursAt(hay[1..], needle, i - 1);
      Contains(hay[1..], needle)
  }

  function TotalLength(parts: seq<string>): nat {
    if parts == [] then 0 else |parts[0]| + TotalLength(parts[1..])
  }

  /** The separator of the hover path label. */
  const PathSeparator: string := " > "

  /** `" > ".join(parts)`: the parts in order with one separator between neighbours. */
  function JoinPath(parts: seq<string>): (r: string)
    ensures |parts| == 0 ==> r == ""
    ensures |parts| > 0 ==> |r| == TotalLength(parts) + |PathSeparator| * (|parts| - 1)
    ensures |parts| > 0 ==> |parts[0]| <= |r| && r[..|parts[0]|] == parts[0]
    ensures |parts| > 0 ==> |parts[|parts| - 1]| <= |r| && r[|r| - |parts[|parts| - 1]|..] == parts[|parts| - 1]
  {
    if |parts| == 0 then ""
    else if |parts| == 1 then parts[0]
    else
      var tail := JoinPath(parts[1..]);
      assert parts[1..][|parts[1..]| - 1] == parts[|parts| - 1];
      var r := parts[0] + PathSeparator + tail;
      assert r[|r| - |tail|..] == tail;
      r
  }

  /** Joining one more part adds exactly one separator and that part at the end; with the
      definition, which peels parts off the front, this fixes the parts in order with " > "
      between neighbours. */
  lemma {:induction false} JoinPathSnoc(parts: seq<string>, x: string)
    requires |parts| > 0
    ensures JoinPath(parts + [x]) == JoinPath(parts) + PathSeparator + x
  {
    var all := parts + [x];
    assert all[0] == parts[0] && all[1..] == parts[1..] + [x];
    if |parts| == 1 {
      assert all[1..] == [x];
    } else {
      JoinPathSnoc(parts[1..], x);
    }
  }

  /** A three-level path, spelled out: "A > B > C". */
  lemma JoinPathThree(a: string, b: string, c: string)
    ensures JoinPath([a, b, c]) == a + PathSeparator + b + PathSeparator + c
  {
    var ab: seq<string> := [a, b];
    assert ab == [a] + [b];
    JoinPathSnoc([a], b);
    assert JoinPath([a]) == a;
    assert JoinPath(ab) == a + PathSeparator + b;
    assert [a, b, c] == ab + [c];
    JoinPathSnoc(ab, c);
  }

  predicate IsDigit(c: char) {
    '0' <= c <= '9'
  }

  predicate AllDigits(s: string) {
    forall k :: 0 <= k < |s| ==> IsDigit(s[k])
  }

  function DigitValue(c: char): nat
    requires IsDigit(c)
  {
    c as int - '0' as int
  }

  function DigitChar(d: nat): (c: char)
    requires d < 10
    ensures IsDigit(c) && DigitValue(c) == d
  {
    ('0' as int + d) as char
  }

  /** The value of a string of decimal digits, most significant first. */
  function DigitsValue(s: string): nat
    requires AllDigits(s)
    decreases |s|
  {
    if s == [] then 0 else DigitsValue(s[..|s| - 1]) * 10 + DigitValue(s[|s| - 1])
  }

  /** An optional sign followed by at least one decimal digit. */
  predicate IsIntegerLiteral(s: string) {
    || (|s| > 0 && AllDigits(s))
    || (|s| > 1 && (s[0] == '+' || s[0] == '-') && AllDigits(s[1..]))
  }

  /** The integer subset of `pd.to_numeric(..., errors='coerce')`: `None` stands for NaN. */
  function ParseInt(s: string): (r: Option<int>)
    ensures r.Some? <==> IsIntegerLiteral(s)
    ensures r.Some? && s[0] == '-' ==> r.value <= 0
    ensures r.Some? && s[0] != '-' ==> r.value >= 0
  {
    if |s| > 0 && AllDigits(s) then Some(DigitsValue(s))
    else if |s| > 1 && s[0] == '+' && AllDigits(s[1..]) then Some(DigitsValue(s[1..]))
    else if |s| > 1 && s[0] == '-' && AllDigits(s[1..]) then Some(-(DigitsValue(s[1..]) as int))
    else None
  }

  /** The decimal rendering of a natural number, without leading zeros. */
  function Decimal(n: nat): (r: string)
    ensures |r| > 0 && AllDigits(r)
  {
    if n < 10 then [DigitChar(n)] else Decimal(n / 10) + [DigitChar(n % 10)]
  }

  lemma {:induction false} DecimalValue(n: nat)
    ensures DigitsValue(Decimal(n)) == n
  {
    if n >= 10 {
      var r := Decimal(n);
      assert r[..|r| - 1] == Decimal(n / 10);
      DecimalValue(n / 10);
    }
  }

  /** Parsing inverts decimal rendering, with and without a minus sign. */
  lemma ParseDecimal(n: nat)
    ensures ParseInt(Decimal(n)) == Some(n)
    ensures ParseInt("-" + Decimal(n)) == Some(-(n as int))
  {
    DecimalValue(n);
    assert ("-" + Decimal(n))[1..] == Decimal(n);
  }
}
