/**
 * The string operations the routes rely on, written for ASCII where Python is
 * Unicode-aware: `str.isdigit`, `int(str)`, `str.strip`, `str.split(',')`,
 * `str.lower` and the substring test behind SQL `ILIKE '%q%'`.
 */
module Text {
  import opened Wrappers

  // ---------------------------------------------------------------- digits

  predicate IsAsciiDigit(c: char) {
    '0' <= c <= '9'
  }

  /** Python's `s.isdigit()` restricted to ASCII: non-empty and digits only. */
  predicate IsDigits(s: string) {
    |s| > 0 && forall i :: 0 <= i < |s| ==> IsAsciiDigit(s[i])
  }

  /** The decimal value of a string of ASCII digits (leading zeros allowed). */
  function DigitsValue(s: string): (n: nat)
    requires forall i :: 0 <= i < |s| ==> IsAsciiDigit(s[i])
    ensures |s| == 0 ==> n == 0
  {
    if |s| == 0 then 0
    else
      assert IsAsciiDigit(s[|s| - 1]);
      DigitsValue(s[..|s| - 1]) * 10 + (s[|s| - 1] as int - '0' as int)
  }

  /** Python's `str(n)` for a natural number. */
  function Decimal(n: nat): (s: string)
    ensures IsDigits(s)
    ensures DigitsValue(s) == n
    decreases n
  {
    var last := [('0' as int + n % 10) as char];
    if n < 10 then last
    else
      var front := Decimal(n / 10);
      assert (front + last)[..|front + last| - 1] == front;
      front + last
  }

  // ------------------------------------------------------------ whitespace

  /** The characters below U+0100 for which Python's `str.isspace()` holds. */
  predicate IsSpace(c: char) {
    c == ' ' || '\t' <= c <= '\r' || '\U{1C}' <= c <= '\U{1F}' || c == '\U{85}' || c == '\U{A0}'
  }

  predicate IsTrimmed(s: string) {
    s == [] || (!IsSpace(s[0]) && !IsSpace(s[|s| - 1]))
  }

  /** The first index at or after `i` that does not hold whitespace, or `|s|`. */
  function SkipSpace(s: string, i: nat): (r: nat)
    requires i <= |s|
    ensures i <= r <= |s|
    ensures forall k :: i <= k < r ==> IsSpace(s[k])
    ensures r < |s| ==> !IsSpace(s[r])
    decreases |s| - i
  {
    if i < |s| && IsSpace(s[i]) then SkipSpace(s, i + 1) else i
  }

  /** The end of `s[lo..j]` once the whitespace before `j` is dropped. */
  function SkipSpaceBack(s: string, lo: nat, j: nat): (r: nat)
    requires lo <= j <= |s|
    ensures lo <= r <= j
    ensures forall k :: r <= k < j ==> IsSpace(s[k])
    ensures r > lo ==> !IsSpace(s[r - 1])
  {
    if j > lo && IsSpace(s[j - 1]) then SkipSpaceBack(s, lo, j - 1) else j
  }

  /**
   * Python's `s.strip()`: the slice of `s` left once the whitespace on both
   * borders is removed; it neither starts nor ends with whitespace.
   */
  function Strip(s: string): (r: string)
    ensures IsTrimmed(r)
    ensures var i := SkipSpace(s, 0);
            && i + |r| <= |s| && r == s[i..i + |r|]
            && (forall k :: 0 <= k < i ==> IsSpace(s[k]))
            && (forall k :: i + |r| <= k < |s| ==> IsSpace(s[k]))
  {
    var i := SkipSpace(s, 0);
    var j := SkipSpaceBack(s, i, |s|);
    assert j > i ==> s[i..j][0] == s[i] && s[i..j][j - i - 1] == s[j - 1];
    s[i..j]
  }

  /** Stripping never introduces a character. */
  lemma StripKeepsOut(s: string, c: char)
    requires c !in s
    ensures c !in Strip(s)
  {
  }

  lemma StripNoSpaceBorder(s: string)
    requires IsTrimmed(s)
    ensures Strip(s) == s
  {
  }

  // ------------------------------------------------------------- integers

  /**
   * Python's `int(s)` for base 10: surrounding whitespace, an optional sign and
   * at least one ASCII digit.  `None` is the `ValueError` Python raises.
   */
  function ParseInt(s: string): (r: Option<int>)
    ensures IsDigits(s) ==> r == Some(DigitsValue(s))
    ensures s == [] ==> r == None
  {
    var t := Strip(s);
    if IsDigits(s) then
      assert IsTrimmed(s);
      StripNoSpaceBorder(s);
      Some(DigitsValue(t))
    else if |t| > 1 && t[0] == '-' && IsDigits(t[1..]) then Some(-(DigitsValue(t[1..]) as int))
    else if |t| > 1 && t[0] == '+' && IsDigits(t[1..]) then Some(DigitsValue(t[1..]))
    else if IsDigits(t) then Some(DigitsValue(t))
    else None
  }

  /** Python's `str(n)` for any integer. */
  function Render(n: int): (s: string)
  {
    if n < 0 then "-" + Decimal(-n) else Decimal(n)
  }

  /** `int(str(n)) == n`. */
  lemma {:induction false} ParseRender(n: int)
    ensures ParseInt(Render(n)) == Some(n)
  {
    if n < 0 {
      var s := Render(n);
      var d := Decimal(-n);
      assert s[1..] == d;
      assert !IsSpace(s[0]) && !IsSpace(s[|s| - 1]);
      StripNoSpaceBorder(s);
      assert !IsDigits(s) by { assert !IsAsciiDigit(s[0]); }
    }
  }

  // --------------------------------------------------------------- splitting

  /** Joins pieces with `sep` between them, Python's `sep.join(pieces)`. */
  function Join(pieces: seq<string>, sep: char): string
  {
    if pieces == [] then []
    else if |pieces| == 1 then pieces[0]
    else pieces[0] + [sep] + Join(pieces[1..], sep)
  }

  /**
   * Python's `s.split(sep)` with an explicit separator: always at least one
   * piece (`"".split(",") == [""]`), no piece contains `sep`, and joining the
   * pieces back gives `s`.
   */
  function Split(s: string, sep: char): (r: seq<string>)
    ensures |r| >= 1
    ensures forall i :: 0 <= i < |r| ==> sep !in r[i]
    ensures Join(r, sep) == s
  {
    if s == [] then [[]]
    else
      var rest := Split(s[1..], sep);
      if s[0] == sep then
        assert ([[]] + rest)[1..] == rest;
        [[]] + rest
      else
        var r := [[s[0]] + rest[0]] + rest[1..];
        assert r[1..] == rest[1..];
        assert |rest| > 1 ==> Join(rest, sep) == rest[0] + [sep] + Join(rest[1..], sep);
        r
  }

  /** `[p.strip() for p in pieces]`. */
  function Trimmed(pieces: seq<string>): (r: seq<string>)
    ensures |r| == |pieces|
    ensures forall i :: 0 <= i < |r| ==> r[i] == Strip(pieces[i])
  {
    seq(|pieces|, i requires 0 <= i < |pieces| => Strip(pieces[i]))
  }

  /** `[p for p in pieces if p]`, order kept. */
  function NonEmpty(pieces: seq<string>): (r: seq<string>)
    ensures |r| <= |pieces|
    ensures forall x :: x in r <==> x in pieces && x != []
    ensures multiset(r) == multiset(pieces)[[] := 0]
  {
    if pieces == [] then []
    else
      assert pieces == [pieces[0]] + pieces[1..];
      if pieces[0] == [] then NonEmpty(pieces[1..])
      else [pieces[0]] + NonEmpty(pieces[1..])
  }

  /** The filter keeps the order of the pieces: it works piece by piece, left to right. */
  lemma {:induction false} NonEmptyAppend(a: seq<string>, b: seq<string>)
    ensures NonEmpty(a + b) == NonEmpty(a) + NonEmpty(b)
  {
    if a != [] {
      assert (a + b)[1..] == a[1..] + b;
      NonEmptyAppend(a[1..], b);
    } else {
      assert a + b == b;
    }
  }

  /**
   * `[p.strip() for p in s.split(',') if p.strip()]`: the trimmed, non-empty,
   * comma-free entries of a comma-joined cell.
   */
  function Pieces(s: string): (r: seq<string>)
    ensures forall x :: x in r ==> x != [] && IsTrimmed(x) && ',' !in x
    ensures forall x :: x in r <==> x != [] && x in Trimmed(Split(s, ','))
    ensures multiset(r) == multiset(Trimmed(Split(s, ',')))[[] := 0]
  {
    var split := Split(s, ',');
    var trimmed := Trimmed(split);
    var r := NonEmpty(trimmed);
    forall x | x in r ensures ',' !in x {
      var k :| 0 <= k < |trimmed| && trimmed[k] == x;
      StripKeepsOut(split[k], ',');
    }
    r
  }

  // ------------------------------------------------------------------ case

  function LowerChar(c: char): char {
    if 'A' <= c <= 'Z' then (c as int + 32) as char else c
  }

  /** `s.lower()` for ASCII letters. */
  function Lower(s: string): (r: string)
    ensures |r| == |s|
    ensures forall i :: 0 <= i < |s| ==> r[i] == LowerChar(s[i])
  {
    seq(|s|, i requires 0 <= i < |s| => LowerChar(s[i]))
  }

  /** Python's `needle in hay`: `needle` occurs as a contiguous slice of `hay`. */
  predicate IsInfix(needle: string, hay: string) {
    needle <= hay || (hay != [] && IsInfix(needle, hay[1..]))
  }

  /** SQL `hay ILIKE '%needle%'` with ASCII case folding. */
  predicate ContainsFold(hay: string, needle: string) {
    IsInfix(Lower(needle), Lower(hay))
  }

  /** A literal occurrence is found whatever the case of either side. */
  lemma {:induction false} InfixIsFolded(needle: string, hay: string)
    requires IsInfix(needle, hay)
    ensures ContainsFold(hay, needle)
  {
    if needle <= hay {
      assert Lower(hay)[..|needle|] == Lower(needle);
    } else {
      InfixIsFolded(needle, hay[1..]);
      assert Lower(hay)[1..] == Lower(hay[1..]);
    }
  }
}
