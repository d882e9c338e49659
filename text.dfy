/**
 * The Kotlin string operations the app relies on, over `seq<char>`:
 * `isBlank`/`trim` (whitespace per `Char.isWhitespace`), case-insensitive
 * `contains`, `startsWith`, `split` on one delimiter, and decimal
 * `Int.toString`/`String.toIntOrNull` over ASCII digits.
 */
module Text {
  import opened Wrappers

  const MinInt32: int := -0x8000_0000
  const MaxInt32: int := 0x7FFF_FFFF

  /** A value of Kotlin's 32-bit `Int`. */
  type Int32 = x: int | MinInt32 <= x <= MaxInt32

  // ---------------------------------------------------------------- whitespace

  /**
   * Kotlin's `Char.isWhitespace`: Java's `Character.isWhitespace` or
   * `Character.isSpaceChar` (tab to carriage return, the four separator
   * controls, space, and the Unicode space, line and paragraph separators).
   */
  predicate IsWhitespace(c: char) {
    || ('\t' <= c <= '\r')
    || ('\U{1C}' <= c <= ' ')
    || c == '\U{A0}' || c == '\U{1680}'
    || ('\U{2000}' <= c <= '\U{200A}')
    || c == '\U{2028}' || c == '\U{2029}' || c == '\U{202F}' || c == '\U{205F}' || c == '\U{3000}'
  }

  /** `CharSequence.isBlank()`: empty or whitespace only. */
  predicate IsBlank(s: string) {
    forall i :: 0 <= i < |s| ==> IsWhitespace(s[i])
  }

  /** `String?.isNullOrBlank()`. */
  predicate IsNullOrBlank(s: Option<string>) {
    s.None? || IsBlank(s.value)
  }

  /** Drops the leading whitespace. */
  function TrimStart(s: string): (r: string)
    ensures |r| <= |s| && r == s[|s| - |r|..]
    ensures r == [] || !IsWhitespace(r[0])
    ensures forall i :: 0 <= i < |s| - |r| ==> IsWhitespace(s[i])
  {
    if s != [] && IsWhitespace(s[0]) then TrimStart(s[1..]) else s
  }

  /** Drops the trailing whitespace. */
  function TrimEnd(s: string): (r: string)
    ensures |r| <= |s| && r == s[..|r|]
    ensures r == [] || !IsWhitespace(r[|r| - 1])
    ensures forall i :: |r| <= i < |s| ==> IsWhitespace(s[i])
  {
    if s != [] && IsWhitespace(s[|s| - 1]) then TrimEnd(s[..|s| - 1]) else s
  }

  /** `String.trim()`: drops whitespace at both ends. */
  function Trim(s: string): string {
    TrimEnd(TrimStart(s))
  }

  /**
   * A trimmed string neither starts nor ends with whitespace, and is the slice
   * of the input that starts after the leading whitespace.
   */
  lemma TrimShape(s: string)
    ensures Trim(s) == [] || (!IsWhitespace(Trim(s)[0]) && !IsWhitespace(Trim(s)[|Trim(s)| - 1]))
    ensures |s| - |TrimStart(s)| + |Trim(s)| <= |s|
    ensures s[|s| - |TrimStart(s)|..|s| - |TrimStart(s)| + |Trim(s)|] == Trim(s)
  {
    var u := TrimStart(s);
    var t := TrimEnd(u);
    var k := |s| - |u|;
    assert u == s[k..];
    assert t == u[..|t|];
    SliceOfSuffix(s, k, |t|);
    if t != [] {
      assert t[0] == u[0];
    }
  }

  lemma SliceOfSuffix(s: string, k: nat, n: nat)
    requires k + n <= |s|
    ensures s[k..k + n] == s[k..][..n]
  {
  }

  lemma {:induction false} TrimEndFixed(s: string)
    requires s == [] || !IsWhitespace(s[|s| - 1])
    ensures TrimEnd(s) == s
  {
  }

  /** Trimming twice is trimming once. */
  lemma TrimIdempotent(s: string)
    ensures Trim(Trim(s)) == Trim(s)
  {
    var t := Trim(s);
    TrimShape(s);
    assert TrimStart(t) == t;
    TrimEndFixed(t);
  }

  /** A string trims to nothing exactly when it is blank. */
  lemma TrimEmptyIffBlank(s: string)
    ensures Trim(s) == [] <==> IsBlank(s)
  {
    var u := TrimStart(s);
    if Trim(s) == [] {
      assert u == [];
    }
  }

  /** A string that is not blank trims to a string that is not blank. */
  lemma TrimNotBlank(s: string)
    requires !IsBlank(s)
    ensures !IsBlank(Trim(s))
  {
    TrimEmptyIffBlank(s);
    TrimShape(s);
    var t := Trim(s);
    assert !IsWhitespace(t[0]);
  }

  /** Trimming a string that is not blank gives a present, non-blank value that trims to itself. */
  lemma TrimmedIsStable(s: string)
    requires !IsBlank(s)
    ensures !IsNullOrBlank(Some(Trim(s))) && Trim(Trim(s)) == Trim(s)
  {
    TrimNotBlank(s);
    TrimIdempotent(s);
  }

  // ---------------------------------------------------------------- case

  /** Upper-casing of the ASCII letters. */
  function UpperAscii(c: char): (u: char)
    ensures 'a' <= c <= 'z' ==> 'A' <= u <= 'Z'
    ensures !('a' <= c <= 'z') ==> u == c
  {
    if 'a' <= c <= 'z' then (c as int - 32) as char else c
  }

  /** `String.uppercase()`, as far as ASCII letters go. */
  function UpperAsciiString(s: string): (r: string)
    ensures |r| == |s| && forall i :: 0 <= i < |s| ==> r[i] == UpperAscii(s[i])
  {
    if s == [] then [] else [UpperAscii(s[0])] + UpperAsciiString(s[1..])
  }

  /** `Char.equals(other, ignoreCase = true)`, as far as ASCII letters go. */
  predicate CharEqualsIgnoreCase(a: char, b: char) {
    UpperAscii(a) == UpperAscii(b)
  }

  /** `regionMatches(start, q, 0, q.length, ignoreCase = true)`. */
  predicate RegionMatchesIgnoreCase(s: string, start: nat, q: string)
    requires start + |q| <= |s|
  {
    forall j :: 0 <= j < |q| ==> CharEqualsIgnoreCase(s[start + j], q[j])
  }

  /** `s.contains(q, ignoreCase = true)`. */
  predicate ContainsIgnoreCase(s: string, q: string) {
    exists i :: 0 <= i <= |s| - |q| && RegionMatchesIgnoreCase(s, i, q)
  }

  /** A string ending with `q` contains `q`. */
  lemma ContainsOwnSuffix(p: string, q: string)
    ensures ContainsIgnoreCase(p + q, q)
  {
    assert RegionMatchesIgnoreCase(p + q, |p|, q);
  }

  // ---------------------------------------------------------------- prefixes and splitting

  /** `s.startsWith(p)`. */
  predicate StartsWith(s: string, p: string) {
    |p| <= |s| && s[..|p|] == p
  }

  /** The position of the first `c` in `s`. */
  function IndexOfChar(s: string, c: char): (i: nat)
    requires c in s
    ensures i < |s| && s[i] == c && c !in s[..i]
  {
    if s[0] == c then 0
    else
      var k := IndexOfChar(s[1..], c);
      assert s[..k + 1] == [s[0]] + s[1..][..k];
      k + 1
  }

  /** Any position holding the first `c` is the one `IndexOfChar` finds. */
  lemma IndexOfCharUnique(s: string, c: char, k: nat)
    requires k < |s| && s[k] == c && c !in s[..k]
    ensures IndexOfChar(s, c) == k
  {
    var i := IndexOfChar(s, c);
    assert forall j :: 0 <= j < k ==> s[..k][j] == s[j];
    assert forall j :: 0 <= j < i ==> s[..i][j] == s[j];
  }

  /** `s.split(sep)` for a one-character delimiter: every occurrence splits, empty parts are kept. */
  function Split(s: string, sep: char): (parts: seq<string>)
    ensures |parts| >= 1
    decreases |s|
  {
    if sep !in s then [s]
    else
      var i := IndexOfChar(s, sep);
      [s[..i]] + Split(s[i + 1..], sep)
  }

  /** Splitting `a + sep + b` where `a` has no delimiter peels off `a`. */
  lemma SplitCons(a: string, sep: char, b: string)
    requires sep !in a
    ensures Split(a + [sep] + b, sep) == [a] + Split(b, sep)
  {
    var s := a + [sep] + b;
    assert s[..|a|] == a;
    IndexOfCharUnique(s, sep, |a|);
    assert s[|a| + 1..] == b;
  }

  /** A string that splits into exactly two parts is those parts joined by the delimiter. */
  lemma SplitTwo(s: string, sep: char)
    requires |Split(s, sep)| == 2
    ensures sep !in Split(s, sep)[0] && sep !in Split(s, sep)[1]
    ensures s == Split(s, sep)[0] + [sep] + Split(s, sep)[1]
  {
    var i := IndexOfChar(s, sep);
    var rest := s[i + 1..];
    assert Split(s, sep) == [s[..i]] + Split(rest, sep);
    assert sep !in rest;
    assert s == s[..i] + [sep] + rest;
  }

  /**
   * `p` is the text of `s` that starts after position `i` and runs to the
   * next delimiter or the end, and holds no delimiter.
   */
  predicate SplitSecondShape(s: string, sep: char, i: nat, p: string) {
    && sep !in p
    && i + 1 + |p| <= |s|
    && s[i + 1..i + 1 + |p|] == p
    && (i + 1 + |p| == |s| || s[i + 1 + |p|] == sep)
  }

  /**
   * When `s` holds the delimiter, the second part of the split is the text
   * between the first delimiter and the next one (or the end of `s`).
   */
  lemma SplitSecond(s: string, sep: char)
    requires sep in s
    ensures |Split(s, sep)| >= 2
    ensures SplitSecondShape(s, sep, IndexOfChar(s, sep), Split(s, sep)[1])
  {
    var i := IndexOfChar(s, sep);
    var rest := s[i + 1..];
    SplitUnfold(s, sep);
    SplitFirst(rest, sep);
    var p := Split(rest, sep)[0];
    SliceOfSuffix(s, i + 1, |p|);
    assert Split(s, sep)[1] == p;
    if |p| < |rest| {
      assert s[i + 1 + |p|] == rest[|p|];
    }
  }

  /** A string holding the delimiter splits into the text before it and the split of the rest. */
  lemma SplitUnfold(s: string, sep: char)
    requires sep in s
    ensures Split(s, sep) == [s[..IndexOfChar(s, sep)]] + Split(s[IndexOfChar(s, sep) + 1..], sep)
  {
  }

  /** The first part of a split is the text up to the first delimiter, or all of it. */
  lemma SplitFirst(s: string, sep: char)
    ensures var p := Split(s, sep)[0];
      |p| <= |s| && p == s[..|p|] && sep !in p && (|p| == |s| || s[|p|] == sep)
  {
    if sep in s {
      var i := IndexOfChar(s, sep);
      assert Split(s, sep)[0] == s[..i];
    }
  }

  // ---------------------------------------------------------------- decimal numbers

  predicate IsDigit(c: char) {
    '0' <= c <= '9'
  }

  predicate AllDigits(s: string) {
    forall i :: 0 <= i < |s| ==> IsDigit(s[i])
  }

  function DigitChar(d: nat): (c: char)
    requires d < 10
    ensures IsDigit(c)
  {
    ('0' as int + d) as char
  }

  /** The decimal digits of `n`, most significant first, without leading zeros. */
  function NatToString(n: nat): (s: string)
    ensures s != [] && AllDigits(s)
  {
    if n < 10 then [DigitChar(n)] else NatToString(n / 10) + [DigitChar(n % 10)]
  }

  /** `Int.toString()` / `Long.toString()` and string templates: an optional minus sign then digits. */
  function IntToString(n: int): (s: string)
    ensures s != []
    ensures forall i :: 0 <= i < |s| ==> IsDigit(s[i]) || (i == 0 && s[i] == '-')
  {
    if n < 0 then "-" + NatToString(-n) else NatToString(n)
  }

  /** The value of a run of decimal digits. */
  function DigitsValue(s: string): nat
    requires AllDigits(s)
  {
    if s == [] then 0 else DigitsValue(s[..|s| - 1]) * 10 + (s[|s| - 1] as int - '0' as int)
  }

  lemma {:induction false} DigitsOfNat(n: nat)
    ensures DigitsValue(NatToString(n)) == n
  {
    if n >= 10 {
      var s := NatToString(n);
      assert s[..|s| - 1] == NatToString(n / 10);
      DigitsOfNat(n / 10);
    }
  }

  /** The digit run after an optional sign, in range for `Int`. */
  function SignedDigits(digits: string, negative: bool): Option<Int32> {
    if !AllDigits(digits) then None
    else
      var v: int := if negative then -(DigitsValue(digits) as int) else DigitsValue(digits);
      if MinInt32 <= v <= MaxInt32 then Some(v) else None
  }

  /**
   * `String.toIntOrNull()` on ASCII text: an optional `+` or `-`, then at
   * least one digit `0`-`9`, and a value that fits in `Int`; anything else
   * is `null`.
   */
  function ParseInt32(s: string): Option<Int32> {
    if s == [] then None
    else if s[0] == '-' || s[0] == '+' then
      if |s| == 1 then None else SignedDigits(s[1..], s[0] == '-')
    else SignedDigits(s, false)
  }

  /** Writing an `Int` in decimal and parsing it back gives the same `Int`. */
  lemma ParseIntToString(n: Int32)
    ensures ParseInt32(IntToString(n)) == Some(n)
  {
    var s := IntToString(n);
    if n < 0 {
      var m: nat := -(n as int);
      var d := NatToString(m);
      assert s == "-" + d && s[1..] == d;
      DigitsOfNat(m);
      assert SignedDigits(d, true) == Some(n);
    } else {
      DigitsOfNat(n);
      assert s[0] != '-' && s[0] != '+';
      assert SignedDigits(s, false) == Some(n);
    }
  }
}
