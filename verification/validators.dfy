/**
 * Token-level validators of the ingestion pipeline (download.py:21-93):
 * Python's `str.strip()` and `int()` on a text token, `int_validator`
 * with its inclusive range union, and the decimal-comma normalisation of
 * `float_validator`.
 */
module Validators {
  import opened Results

  /** Python's `str.isspace` for a single character: what `str.strip()` removes. */
  predicate IsSpace(c: char) {
    || ('\t' <= c <= '\r')
    || ('\U{1c}' <= c <= '\U{1f}')
    || c == ' '
    || c == '\U{85}'
    || c == '\U{a0}'
    || c == '\U{1680}'
    || ('\U{2000}' <= c <= '\U{200a}')
    || c == '\U{2028}'
    || c == '\U{2029}'
    || c == '\U{202f}'
    || c == '\U{205f}'
    || c == '\U{3000}'
  }

  /**
   * The whitespace `int()` skips around a number. CPython first maps every
   * non-ASCII `str.isspace` character to a space, then skips only ASCII
   * space and `\t`..`\r`; so the separators U+001C..U+001F, which
   * `str.isspace` accepts, are not skipped.
   */
  predicate IntSpace(c: char) {
    IsSpace(c) && !('\U{1c}' <= c <= '\U{1f}')
  }

  /** A token made only of characters `ws` calls whitespace (the empty token included). */
  predicate Blank(ws: char -> bool, s: string) {
    forall k | 0 <= k < |s| :: ws(s[k])
  }

  /** Number of whitespace characters at the start of `s`. */
  function LeadingSpaces(ws: char -> bool, s: string): (n: nat)
    ensures n <= |s|
    ensures forall k | 0 <= k < n :: ws(s[k])
    ensures n < |s| ==> !ws(s[n])
  {
    if |s| > 0 && ws(s[0]) then 1 + LeadingSpaces(ws, s[1..]) else 0
  }

  /** Number of whitespace characters at the end of `s`. */
  function TrailingSpaces(ws: char -> bool, s: string): (n: nat)
    ensures n <= |s|
    ensures forall k | |s| - n <= k < |s| :: ws(s[k])
    ensures n < |s| ==> !ws(s[|s| - n - 1])
  {
    if |s| > 0 && ws(s[|s| - 1]) then 1 + TrailingSpaces(ws, s[..|s| - 1]) else 0
  }

  /** `s` without its leading and trailing whitespace, for the whitespace test `ws`. */
  function StripWith(ws: char -> bool, s: string): (r: string)
    ensures |r| <= |s|
    ensures r == [] <==> Blank(ws, s)
    ensures r != [] ==> !ws(r[0]) && !ws(r[|r| - 1])
  {
    var rest := s[LeadingSpaces(ws, s)..];
    rest[..|rest| - TrailingSpaces(ws, rest)]
  }

  /** `s` is the stripped text between whitespace padding. */
  lemma StripLayout(ws: char -> bool, s: string)
    ensures var n, r := LeadingSpaces(ws, s), StripWith(ws, s);
            && n + |r| <= |s|
            && s == s[..n] + r + s[n + |r|..]
            && Blank(ws, s[..n]) && Blank(ws, s[n + |r|..])
  {
    StripSlice(ws, s);
    StripTailBlank(ws, s);
    var n, r := LeadingSpaces(ws, s), StripWith(ws, s);
    SplitThree(s, n, n + |r|);
    forall k | 0 <= k < n ensures ws(s[..n][k]) {
      assert s[..n][k] == s[k];
    }
  }

  /** The stripped text is the slice that follows the leading whitespace. */
  lemma StripSlice(ws: char -> bool, s: string)
    ensures LeadingSpaces(ws, s) + |StripWith(ws, s)| <= |s|
    ensures StripWith(ws, s) == s[LeadingSpaces(ws, s)..LeadingSpaces(ws, s) + |StripWith(ws, s)|]
  {
    var n := LeadingSpaces(ws, s);
    var rest := s[n..];
    var j := n + |rest| - TrailingSpaces(ws, rest);
    assert StripWith(ws, s) == s[n..j];
  }

  /** Only whitespace follows the stripped text. */
  lemma StripTailBlank(ws: char -> bool, s: string)
    ensures LeadingSpaces(ws, s) + |StripWith(ws, s)| <= |s|
    ensures Blank(ws, s[LeadingSpaces(ws, s) + |StripWith(ws, s)|..])
  {
    var n := LeadingSpaces(ws, s);
    var rest := s[n..];
    var m := TrailingSpaces(ws, rest);
    var j := n + |rest| - m;
    assert |StripWith(ws, s)| == j - n;
    forall k | 0 <= k < m ensures ws(s[j..][k]) {
      assert s[j..][k] == rest[|rest| - m + k];
    }
  }

  lemma SplitThree<T>(s: seq<T>, i: nat, j: nat)
    requires i <= j <= |s|
    ensures s == s[..i] + s[i..j] + s[j..]
  {
  }

  /** Python's `s.strip()`. */
  function Strip(s: string): (r: string)
    ensures |r| <= |s|
    ensures r == [] <==> Blank(IsSpace, s)
    ensures r != [] ==> !IsSpace(r[0]) && !IsSpace(r[|r| - 1])
  {
    StripWith(IsSpace, s)
  }

  /** A token that stripping `ws` leaves unchanged: empty, or non-blank at both ends. */
  predicate Trimmed(ws: char -> bool, t: string) {
    t == [] || (!ws(t[0]) && !ws(t[|t| - 1]))
  }

  /** Stripping undoes whitespace padding: `(a + t + b).strip() == t` for a trimmed `t`. */
  lemma StripPadded(ws: char -> bool, a: string, t: string, b: string)
    requires Blank(ws, a) && Blank(ws, b) && Trimmed(ws, t)
    ensures StripWith(ws, a + t + b) == t
  {
    var s := a + t + b;
    if t == [] {
      assert Blank(ws, s) by {
        forall k | 0 <= k < |s| ensures ws(s[k]) {
          if k < |a| { assert s[k] == a[k]; } else { assert s[k] == b[k - |a|]; }
        }
      }
    } else {
      var n := LeadingSpaces(ws, s);
      assert s[|a|] == t[0];
      assert forall k | 0 <= k < |a| :: s[k] == a[k];
      assert n == |a|;
      var rest := s[n..];
      assert rest == t + b;
      var m := TrailingSpaces(ws, rest);
      assert rest[|t| - 1] == t[|t| - 1];
      assert forall k | 0 <= k < |b| :: rest[|t| + k] == b[k];
      assert m == |b|;
      assert rest[..|rest| - m] == t;
    }
  }

  predicate IsDigit(c: char) {
    '0' <= c <= '9'
  }

  function DigitValue(c: char): nat
    requires IsDigit(c)
  {
    (c as int) - ('0' as int)
  }

  function DigitChar(d: nat): (c: char)
    requires d < 10
    ensures IsDigit(c) && DigitValue(c) == d
  {
    (('0' as int) + d) as char
  }

  /** Only digits and the `_` separators Python allows in integer literals. */
  predicate DigitsOrUnderscores(s: string) {
    forall k | 0 <= k < |s| :: IsDigit(s[k]) || s[k] == '_'
  }

  /**
   * The unsigned part `int()` accepts in base 10: at least one digit, digits
   * possibly grouped by single underscores, no underscore at either end.
   */
  predicate WellFormedDigits(s: string) {
    && |s| > 0
    && DigitsOrUnderscores(s)
    && IsDigit(s[0])
    && IsDigit(s[|s| - 1])
    && (forall k | 0 <= k < |s| - 1 :: s[k] == '_' ==> IsDigit(s[k + 1]))
  }

  /** The decimal value of the digits of `s`, underscores skipped. */
  function DigitsValue(s: string): nat
    requires DigitsOrUnderscores(s)
  {
    if |s| == 0 then 0
    else if s[|s| - 1] == '_' then DigitsValue(s[..|s| - 1])
    else 10 * DigitsValue(s[..|s| - 1]) + DigitValue(s[|s| - 1])
  }

  /** The sign-and-digits part of `int()`, on a token already stripped of whitespace. */
  function ParseStripped(t: string): Option<int> {
    var signed := |t| > 0 && (t[0] == '+' || t[0] == '-');
    var u := if signed then t[1..] else t;
    if WellFormedDigits(u) then
      var magnitude: int := DigitsValue(u);
      Some(if signed && t[0] == '-' then -magnitude else magnitude)
    else
      None
  }

  /**
   * Python's `int(val)` on a text token: whitespace `int()` skips, an optional
   * sign, then base-10 digits. `None` stands for the `ValueError` it raises.
   */
  function ParseInt(s: string): (r: Option<int>)
    ensures r.Some? ==> |StripWith(IntSpace, s)| > 0 && !IsSpace(StripWith(IntSpace, s)[0])
  {
    ParseStripped(StripWith(IntSpace, s))
  }

  /** A token `ParseStripped` accepts starts with a sign or a digit and ends with a digit, so no strip touches it. */
  lemma ParsedIsTrimmed(t: string)
    requires ParseStripped(t).Some?
    ensures |t| > 0 && (t[0] in "+-" || IsDigit(t[0])) && IsDigit(t[|t| - 1])
    ensures Trimmed(IsSpace, t) && Trimmed(IntSpace, t)
  {
    if t[0] == '+' || t[0] == '-' {
      assert t[1..][|t[1..]| - 1] == t[|t| - 1];
    }
  }

  /** `int()` raises on a token `str.strip()` empties, the U+001C..U+001F separators included. */
  lemma ParseIntBlank(s: string)
    requires Blank(IsSpace, s)
    ensures ParseInt(s) == None
  {
    var t := StripWith(IntSpace, s);
    var n := LeadingSpaces(IntSpace, s);
    assert t != [] ==> t[0] == s[n];
  }

  /**
   * When `int()` succeeds it reads the same text `str.strip()` leaves: the
   * two strips only differ on padding holding U+001C..U+001F, which `int()`
   * rejects.
   */
  lemma ParseIntAgreesWithStrip(s: string)
    requires ParseInt(s).Some?
    ensures Strip(s) == StripWith(IntSpace, s)
    ensures ParseInt(s) == ParseStripped(Strip(s))
  {
    var t := StripWith(IntSpace, s);
    ParsedIsTrimmed(t);
    StripTrimmedIntStrip(s);
  }

  /** When `int()`'s strip leaves a text `str.strip()` would not touch, both strips agree. */
  lemma StripTrimmedIntStrip(s: string)
    requires Trimmed(IsSpace, StripWith(IntSpace, s))
    ensures Strip(s) == StripWith(IntSpace, s)
  {
    StripLayout(IntSpace, s);
    var t := StripWith(IntSpace, s);
    var n := LeadingSpaces(IntSpace, s);
    var a, b := s[..n], s[n + |t|..];
    IntBlankIsBlank(a);
    IntBlankIsBlank(b);
    StripPadded(IsSpace, a, t, b);
  }

  /** Whatever `int()` skips, `str.strip()` skips too. */
  lemma IntBlankIsBlank(a: string)
    requires Blank(IntSpace, a)
    ensures Blank(IsSpace, a)
  {
    forall k | 0 <= k < |a| ensures IsSpace(a[k]) {
      assert IntSpace(a[k]);
    }
  }

  /** A file separator before the digits: `str.strip()` removes it, `int()` raises on it. */
  lemma ParseIntKeepsSeparators()
    ensures Strip("\U{1c}5") == "5" && ParseStripped("5") == Some(5)
    ensures ParseInt("\U{1c}5") == None
  {
    StripDropsSeparator();
    IntStripKeepsSeparator();
    assert DigitsValue("5") == 10 * DigitsValue("") + DigitValue('5');
  }

  lemma StripDropsSeparator()
    ensures Strip("\U{1c}5") == "5"
  {
    var s := "\U{1c}5";
    assert LeadingSpaces(IsSpace, s) == 1 by {
      assert LeadingSpaces(IsSpace, s[1..]) == 0;
    }
    assert TrailingSpaces(IsSpace, s[1..]) == 0;
  }

  lemma IntStripKeepsSeparator()
    ensures StripWith(IntSpace, "\U{1c}5") == "\U{1c}5"
  {
    var s := "\U{1c}5";
    assert LeadingSpaces(IntSpace, s) == 0;
    assert TrailingSpaces(IntSpace, s) == 0;
  }

  /** Python's `str(n)` for a natural number: its shortest decimal spelling. */
  function ShowNat(n: nat): (s: string)
    ensures |s| > 0 && forall k | 0 <= k < |s| :: IsDigit(s[k])
  {
    if n < 10 then [DigitChar(n)] else ShowNat(n / 10) + [DigitChar(n % 10)]
  }

  /** Python's `str(n)` for an integer. */
  function ShowInt(n: int): string {
    if n < 0 then "-" + ShowNat(-n) else ShowNat(n)
  }

  lemma {:induction false} DigitsValueShowNat(n: nat)
    ensures DigitsValue(ShowNat(n)) == n
  {
    var s := ShowNat(n);
    if n >= 10 {
      DigitsValueShowNat(n / 10);
      assert s[..|s| - 1] == ShowNat(n / 10);
    }
  }

  lemma ShowNatWellFormed(n: nat)
    ensures WellFormedDigits(ShowNat(n))
  {
  }

  lemma ParseShownNat(n: nat)
    ensures ParseStripped(ShowNat(n)) == Some(n)
  {
    var digits := ShowNat(n);
    assert !(digits[0] == '+' || digits[0] == '-');
    ShowNatWellFormed(n);
    DigitsValueShowNat(n);
  }

  lemma ParseShownNegative(n: nat)
    requires n > 0
    ensures ParseStripped("-" + ShowNat(n)) == Some(0 - n)
  {
    var digits := ShowNat(n);
    var t := "-" + digits;
    assert t[0] == '-';
    assert t[1..] == digits;
    ShowNatWellFormed(n);
    DigitsValueShowNat(n);
  }

  lemma ParseShown(n: int)
    ensures ParseStripped(ShowInt(n)) == Some(n)
  {
    if n < 0 {
      ParseShownNegative(-n);
    } else {
      ParseShownNat(n);
    }
  }

  /** `int()` reads back what `str()` writes, whatever whitespace `int()` skips surrounds it. */
  lemma ParseShowInt(n: int, pre: string, post: string)
    requires Blank(IntSpace, pre) && Blank(IntSpace, post)
    ensures ParseInt(pre + ShowInt(n) + post) == Some(n)
  {
    var shown := ShowInt(n);
    assert shown[0] == '-' || IsDigit(shown[0]);
    assert Trimmed(IntSpace, shown);
    StripPadded(IntSpace, pre, shown, post);
    ParseShown(n);
  }

  /** An inclusive `(left, right)` pair of `int_validator`'s `ranges`. */
  datatype Range = Range(left: int, right: int)

  predicate InRange(v: int, r: Range) {
    r.left <= v <= r.right
  }

  /** `v` lies in the union of the inclusive ranges. */
  predicate InUnion(v: int, ranges: seq<Range>) {
    exists k | 0 <= k < |ranges| :: InRange(v, ranges[k])
  }

  /** The loop at download.py:50-53: `v` if some range contains it, else the sentinel. */
  function CheckRanges(v: int, ranges: seq<Range>, invalid: int): (r: int)
    ensures InUnion(v, ranges) ==> r == v
    ensures !InUnion(v, ranges) ==> r == invalid
  {
    if |ranges| == 0 then invalid
    else if InRange(v, ranges[0]) then v
    else
      assert forall k | 1 <= k < |ranges| :: ranges[k] == ranges[1..][k - 1];
      CheckRanges(v, ranges[1..], invalid)
  }

  /**
   * `int_validator(val, ranges, invalid_value)`: the parsed integer when it
   * parses and (with a non-empty `ranges`) lies in one of the ranges,
   * `invalid` otherwise. An empty `ranges` stands for both `None` and `[]`.
   */
  function IntValidator(tok: string, ranges: seq<Range>, invalid: int): (r: int)
    ensures ParseInt(tok).None? ==> r == invalid
    ensures ParseInt(tok).Some? && ranges == [] ==> r == ParseInt(tok).value
    ensures ParseInt(tok).Some? && InUnion(ParseInt(tok).value, ranges) ==> r == ParseInt(tok).value
    ensures ParseInt(tok).Some? && ranges != [] && !InUnion(ParseInt(tok).value, ranges) ==> r == invalid
    ensures r == invalid || (ParseInt(tok) == Some(r) && (ranges == [] || InUnion(r, ranges)))
  {
    match ParseInt(tok)
    case None => invalid
    case Some(v) => if ranges == [] then v else CheckRanges(v, ranges, invalid)
  }

  /** `val.replace(',', '.')`: every decimal comma becomes a decimal point. */
  function NormalizeDecimalMark(s: string): (r: string)
    ensures |r| == |s|
    ensures forall k | 0 <= k < |s| :: r[k] == (if s[k] == ',' then '.' else s[k])
  {
    if |s| == 0 then []
    else [if s[0] == ',' then '.' else s[0]] + NormalizeDecimalMark(s[1..])
  }

  /** Two tokens that differ at most by writing a decimal mark as `,` or `.`. */
  predicate SameUpToDecimalMark(s: string, t: string) {
    && |s| == |t|
    && forall k | 0 <= k < |s| :: s[k] == t[k] || (s[k] in ",." && t[k] in ",.")
  }

  /** Comma- and period-separated spellings normalise to the same text. */
  lemma NormalizeDecimalMarkAgrees(s: string, t: string)
    requires SameUpToDecimalMark(s, t)
    ensures NormalizeDecimalMark(s) == NormalizeDecimalMark(t)
  {
    var a, b := NormalizeDecimalMark(s), NormalizeDecimalMark(t);
    assert forall k | 0 <= k < |a| :: a[k] == b[k];
  }
}
