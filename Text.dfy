/** The parts of the .NET string and integer library that the workflow graph
    builder relies on: `char.IsWhiteSpace`, `string.Trim`, `string.IndexOf`,
    `string.Split` with `RemoveEmptyEntries | TrimEntries`, `int.TryParse`,
    `int.ToString` and ordinal case-insensitive equality. Strings are
    sequences of Unicode scalar values; no rule here looks at surrogate
    pairs. */
module Text {
  import opened Wrappers

  type String = seq<char>

  const Int32Min: int := -0x8000_0000
  const Int32Max: int := 0x7fff_ffff

  predicate InInt32(n: int) {
    Int32Min <= n <= Int32Max
  }

  /** `char.IsWhiteSpace`: the Unicode space, line and paragraph separators
      and the control characters U+0009..U+000D and U+0085. */
  predicate IsWhiteSpace(c: char) {
    var u := c as int;
    (0x09 <= u <= 0x0D) || u == 0x20 || u == 0x85 || u == 0xA0 || u == 0x1680 ||
    (0x2000 <= u <= 0x200A) || u == 0x2028 || u == 0x2029 || u == 0x202F ||
    u == 0x205F || u == 0x3000
  }

  /** The white space `NumberStyles.AllowLeadingWhite/AllowTrailingWhite` skip. */
  predicate IsNumberWhite(c: char) {
    var u := c as int;
    (0x09 <= u <= 0x0D) || u == 0x20
  }

  predicate AllWhite(s: String, white: char -> bool) {
    forall k :: 0 <= k < |s| ==> white(s[k])
  }

  /** Index of the first character of `s` that is not white. */
  function SkipStart(s: String, white: char -> bool): (i: nat)
    ensures i <= |s|
    ensures AllWhite(s[..i], white)
    ensures i < |s| ==> !white(s[i])
  {
    if |s| == 0 || !white(s[0]) then 0
    else
      var i := 1 + SkipStart(s[1..], white);
      assert s[..i] == [s[0]] + s[1..][..i - 1];
      i
  }

  /** End (exclusive) of `s` once trailing white at or after `lo` is dropped. */
  function SkipEnd(s: String, lo: nat, white: char -> bool): (j: nat)
    requires lo <= |s|
    ensures lo <= j <= |s|
    ensures AllWhite(s[j..], white)
    ensures lo < j ==> !white(s[j - 1])
    decreases |s| - lo
  {
    if |s| == lo || !white(s[|s| - 1]) then |s|
    else
      var j := SkipEnd(s[..|s| - 1], lo, white);
      assert s[j..] == s[..|s| - 1][j..] + [s[|s| - 1]];
      j
  }

  /** Drops the leading and trailing characters of `s` that satisfy `white`. */
  function TrimBy(s: String, white: char -> bool): String {
    var i := SkipStart(s, white);
    s[i..SkipEnd(s, i, white)]
  }

  /** `string.Trim()`. */
  function Trim(s: String): String {
    TrimBy(s, IsWhiteSpace)
  }

  /** A trimmed string neither starts nor ends with white space, and it is
      empty exactly when the input was white space only. */
  lemma TrimmedEnds(s: String)
    ensures var r := Trim(s);
      && |r| <= |s|
      && (r == [] <==> AllWhite(s, IsWhiteSpace))
      && (r != [] ==> !IsWhiteSpace(r[0]) && !IsWhiteSpace(r[|r| - 1]))
  {
    var i := SkipStart(s, IsWhiteSpace);
    var j := SkipEnd(s, i, IsWhiteSpace);
    if i == j {
      assert s == s[..i] + s[j..];
    }
  }

  /** Trimming a string that already has no white space at either end
      changes nothing. */
  lemma TrimUnchanged(s: String)
    requires s != [] ==> !IsWhiteSpace(s[0]) && !IsWhiteSpace(s[|s| - 1])
    ensures Trim(s) == s
  {
    var i := SkipStart(s, IsWhiteSpace);
    if s != [] {
      assert i == 0;
      var j := SkipEnd(s, 0, IsWhiteSpace);
      assert j == |s|;
    }
  }

  /** `Trim` is idempotent. */
  lemma TrimIdempotent(s: String)
    ensures Trim(Trim(s)) == Trim(s)
  {
    TrimmedEnds(s);
    TrimUnchanged(Trim(s));
  }

  /** `string.IsNullOrWhiteSpace`. */
  predicate IsNullOrWhiteSpace(s: Option<String>) {
    s.None? || AllWhite(s.value, IsWhiteSpace)
  }

  /** `s.IndexOf(c)`: the first position of `c`, or -1. */
  function IndexOf(s: String, c: char): (p: int)
    ensures -1 <= p < |s|
    ensures p == -1 <==> c !in s
    ensures p >= 0 ==> s[p] == c && c !in s[..p]
  {
    if |s| == 0 then -1
    else if s[0] == c then 0
    else
      var p := IndexOf(s[1..], c);
      if p == -1 then -1
      else
        assert s[..p + 1] == [s[0]] + s[1..][..p];
        p + 1
  }

  /** `s.Split(sep)` with no options: the pieces between the separators. */
  function SplitOn(s: String, sep: char): (pieces: seq<String>)
    ensures |pieces| > 0
    ensures forall k :: 0 <= k < |pieces| ==> sep !in pieces[k]
    ensures JoinWith(pieces, sep) == s
    decreases |s|
  {
    var p := IndexOf(s, sep);
    if p == -1 then [s]
    else
      var rest := SplitOn(s[p + 1..], sep);
      var pieces := [s[..p]] + rest;
      assert pieces[1..] == rest;
      assert s == s[..p] + [sep] + s[p + 1..];
      pieces
  }

  /** `string.Join(sep, pieces)`, the inverse of `SplitOn`. */
  function JoinWith(pieces: seq<String>, sep: char): String {
    if |pieces| == 0 then []
    else if |pieces| == 1 then pieces[0]
    else pieces[0] + [sep] + JoinWith(pieces[1..], sep)
  }

  /** Splitting a join of pieces free of the separator gives the pieces back. */
  lemma {:induction false} SplitJoin(pieces: seq<String>, sep: char)
    requires |pieces| > 0
    requires forall k :: 0 <= k < |pieces| ==> sep !in pieces[k]
    ensures SplitOn(JoinWith(pieces, sep), sep) == pieces
  {
    if |pieces| > 1 {
      var s := JoinWith(pieces, sep);
      var rest := JoinWith(pieces[1..], sep);
      assert s == pieces[0] + [sep] + rest;
      assert s[..|pieces[0]|] == pieces[0];
      assert s[|pieces[0]|] == sep;
      assert IndexOf(s, sep) == |pieces[0]|;
      assert s[|pieces[0]| + 1..] == rest;
      SplitJoin(pieces[1..], sep);
    }
  }

  /** The non-empty, trimmed entries of `s`, in order:
      `s.Split(sep, RemoveEmptyEntries | TrimEntries)`. */
  function SplitEntries(s: String, sep: char): seq<String> {
    NonEmptyTrimmed(SplitOn(s, sep))
  }

  function NonEmptyTrimmed(pieces: seq<String>): seq<String> {
    if |pieces| == 0 then []
    else
      var t := Trim(pieces[0]);
      var rest := NonEmptyTrimmed(pieces[1..]);
      if t == [] then rest else [t] + rest
  }

  /** A split entry: non-empty, trimmed and free of the separator. */
  predicate IsEntry(e: String, sep: char) {
    e != [] && sep !in e && Trim(e) == e
  }

  /** Every entry `SplitEntries` returns is an entry. */
  lemma SplitEntriesShape(s: String, sep: char)
    ensures forall e :: e in SplitEntries(s, sep) ==> IsEntry(e, sep)
  {
    NonEmptyTrimmedShape(SplitOn(s, sep), sep);
  }

  lemma {:induction false} NonEmptyTrimmedShape(pieces: seq<String>, sep: char)
    requires forall k :: 0 <= k < |pieces| ==> sep !in pieces[k]
    ensures forall e :: e in NonEmptyTrimmed(pieces) ==> IsEntry(e, sep)
  {
    if |pieces| > 0 {
      NonEmptyTrimmedShape(pieces[1..], sep);
      TrimIdempotent(pieces[0]);
      TrimSlice(pieces[0]);
    }
  }

  /** The trimmed text is a slice of the original. */
  lemma TrimSlice(s: String)
    ensures forall c :: c in Trim(s) ==> c in s
  {
    var i := SkipStart(s, IsWhiteSpace);
    var j := SkipEnd(s, i, IsWhiteSpace);
    forall c | c in s[i..j] ensures c in s {
      var k :| 0 <= k < j - i && s[i..j][k] == c;
      assert s[i + k] == c;
    }
  }

  predicate IsDigit(c: char) {
    '0' <= c <= '9'
  }

  predicate AllDigits(s: String) {
    forall k :: 0 <= k < |s| ==> IsDigit(s[k])
  }

  /** The value of a string of decimal digits. */
  function DigitsValue(ds: String): (n: nat)
    requires AllDigits(ds)
  {
    if |ds| == 0 then 0
    else DigitsValue(ds[..|ds| - 1]) * 10 + (ds[|ds| - 1] - '0') as int
  }

  /** The decimal digits of `n`, without leading zeros. */
  function NatToDigits(n: nat): (ds: String)
    ensures ds != [] && AllDigits(ds)
    ensures |ds| > 1 ==> ds[0] != '0'
  {
    var d := ['0' + (n % 10) as char];
    if n < 10 then d else NatToDigits(n / 10) + d
  }

  /** The digits of `n` spell `n`. */
  lemma {:induction false} NatToDigitsValue(n: nat)
    ensures DigitsValue(NatToDigits(n)) == n
  {
    if n >= 10 {
      var front := NatToDigits(n / 10);
      var ds := NatToDigits(n);
      assert ds[..|ds| - 1] == front;
      NatToDigitsValue(n / 10);
    }
  }

  /** `n.ToString()` for an `int`. */
  function IntToString(n: int): (s: String)
    ensures s != [] && !IsWhiteSpace(s[0]) && !IsWhiteSpace(s[|s| - 1])
    ensures ':' !in s && ';' !in s && ' ' !in s
  {
    if n < 0 then "-" + NatToDigits(-n) else NatToDigits(n)
  }

  /** `int.TryParse(s, out n)` with `NumberStyles.Integer`: optional leading
      and trailing white space, an optional sign, one or more decimal digits,
      and a value that fits in 32 bits. */
  function ParseInt32(s: String): (r: Option<int>)
    ensures r.Some? ==> InInt32(r.value)
  {
    var body := TrimBy(s, IsNumberWhite);
    var negative := |body| > 0 && body[0] == '-';
    var ds := if |body| > 0 && (body[0] == '-' || body[0] == '+') then body[1..] else body;
    if ds != [] && AllDigits(ds) then
      var v: int := DigitsValue(ds);
      var n := if negative then 0 - v else v;
      if InInt32(n) then Some(n) else None
    else None
  }

  /** Parsing what `IntToString` prints gives the number back. */
  lemma ParseIntToString(n: int)
    requires InInt32(n)
    ensures ParseInt32(IntToString(n)) == Some(n)
  {
    var s := IntToString(n);
    NatToDigitsValue(if n < 0 then -n else n);
    assert SkipStart(s, IsNumberWhite) == 0;
    assert SkipEnd(s, 0, IsNumberWhite) == |s|;
    assert TrimBy(s, IsNumberWhite) == s;
    if n < 0 {
      assert s[1..] == NatToDigits(-n);
    }
  }

  /** ASCII upper-casing, the part of ordinal case folding that matters for
      comparing against an ASCII word. */
  function ToUpperAscii(c: char): char {
    if 'a' <= c <= 'z' then c - 'a' + 'A' else c
  }

  /** `a.Equals(b, StringComparison.OrdinalIgnoreCase)` on ASCII case. */
  predicate EqualsIgnoreCase(a: String, b: String) {
    |a| == |b| && forall k :: 0 <= k < |a| ==> ToUpperAscii(a[k]) == ToUpperAscii(b[k])
  }
}
