/** Character-level text operations of the news bot: Python's `str.strip()`,
    the tab/CR/LF substitution of `crawl_and_get_article`, and the decimal
    rendering of the article index used in the placeholder texts. */
module TextOps {
  import opened Common

  /** The characters for which Python's `str.isspace()` holds. */
  const Whitespace: set<char> := {
    '\t', '\n', '\U{0B}', '\U{0C}', '\r', '\U{1C}', '\U{1D}', '\U{1E}', '\U{1F}', ' ',
    '\U{85}', '\U{A0}', '\U{1680}',
    '\U{2000}', '\U{2001}', '\U{2002}', '\U{2003}', '\U{2004}', '\U{2005}',
    '\U{2006}', '\U{2007}', '\U{2008}', '\U{2009}', '\U{200A}',
    '\U{2028}', '\U{2029}', '\U{202F}', '\U{205F}', '\U{3000}'
  }

  predicate IsWhitespace(c: char) {
    c in Whitespace
  }

  /** Python's `s.strip()`: whitespace is removed from either end until
      both ends hold something else. */
  function Strip(s: Text): (r: Text)
    ensures |r| <= |s|
    ensures r == [] || (!IsWhitespace(r[0]) && !IsWhitespace(r[|r| - 1]))
    decreases |s|
  {
    if s != [] && IsWhitespace(s[0]) then Strip(s[1..])
    else if s != [] && IsWhitespace(s[|s| - 1]) then Strip(s[..|s| - 1])
    else s
  }

  /** The length of the whitespace run at the start of `s`. */
  function LeadingWhitespace(s: Text): (n: nat)
    ensures n <= |s|
    ensures forall k :: 0 <= k < n ==> IsWhitespace(s[k])
    ensures n == |s| || !IsWhitespace(s[n])
  {
    if s != [] && IsWhitespace(s[0]) then 1 + LeadingWhitespace(s[1..]) else 0
  }

  /** `r` is the infix of `s` that starts at `i`, and everything after it
      in `s` is whitespace. */
  predicate InfixBeforeWhitespace(s: Text, i: nat, r: Text) {
    i + |r| <= |s| && r == s[i..i + |r|]
    && forall k :: i + |r| <= k < |s| ==> IsWhitespace(s[k])
  }

  /** What `strip()` keeps is the infix of `s` that starts right after the
      leading whitespace run; everything after it is whitespace too. */
  lemma {:induction false} StripIsInfix(s: Text)
    ensures InfixBeforeWhitespace(s, LeadingWhitespace(s), Strip(s))
    decreases |s|
  {
    if s != [] && IsWhitespace(s[0]) {
      var t := s[1..];
      assert Strip(s) == Strip(t) && LeadingWhitespace(s) == 1 + LeadingWhitespace(t);
      StripIsInfix(t);
      InfixAfterFirst(s, LeadingWhitespace(t), Strip(t));
    } else if s != [] && IsWhitespace(s[|s| - 1]) {
      var t := s[..|s| - 1];
      assert Strip(s) == Strip(t) && LeadingWhitespace(s) == 0;
      assert LeadingWhitespace(t) == 0 by {
        if t != [] { assert t[0] == s[0]; }
      }
      StripIsInfix(t);
      InfixBeforeLast(s, Strip(t));
    } else {
      assert InfixBeforeWhitespace(s, 0, s);
    }
  }

  lemma InfixAfterFirst(s: Text, i: nat, r: Text)
    requires s != [] && InfixBeforeWhitespace(s[1..], i, r)
    ensures InfixBeforeWhitespace(s, 1 + i, r)
  {
    var t := s[1..];
    assert r == t[i..i + |r|] == s[1 + i..1 + i + |r|];
    forall k | 1 + i + |r| <= k < |s| ensures IsWhitespace(s[k]) {
      assert s[k] == t[k - 1];
    }
  }

  lemma InfixBeforeLast(s: Text, r: Text)
    requires s != [] && IsWhitespace(s[|s| - 1]) && InfixBeforeWhitespace(s[..|s| - 1], 0, r)
    ensures InfixBeforeWhitespace(s, 0, r)
  {
    var t := s[..|s| - 1];
    assert r == t[..|r|] == s[..|r|];
    forall k | |r| <= k < |s| ensures IsWhitespace(s[k]) {
      if k < |t| { assert s[k] == t[k]; }
    }
  }

  /** The three characters `re.sub(r'[\t\r\n]', ' ', ...)` replaces. */
  predicate IsLineControl(c: char) {
    c == '\t' || c == '\r' || c == '\n'
  }

  /** Each tab, carriage return and line feed becomes exactly one space;
      every other character is kept in place. */
  function Normalize(s: Text): (r: Text)
    ensures |r| == |s|
    ensures forall i :: 0 <= i < |s| ==> r[i] == (if IsLineControl(s[i]) then ' ' else s[i])
    ensures forall i :: 0 <= i < |r| ==> !IsLineControl(r[i])
  {
    seq(|s|, i requires 0 <= i < |s| => if IsLineControl(s[i]) then ' ' else s[i])
  }

  /** Normalizing twice is normalizing once. */
  lemma NormalizeIdempotent(s: Text)
    ensures Normalize(Normalize(s)) == Normalize(s)
  {
  }

  /** Text without tab, CR or LF is left exactly as it is. */
  lemma NormalizeKeepsPlainText(s: Text)
    requires forall i :: 0 <= i < |s| ==> !IsLineControl(s[i])
    ensures Normalize(s) == s
  {
  }

  function DigitChar(d: nat): (c: char)
    requires d < 10
  {
    ['0', '1', '2', '3', '4', '5', '6', '7', '8', '9'][d]
  }

  function DigitValue(c: char): (d: nat)
    requires '0' <= c <= '9'
    ensures d < 10 && DigitChar(d) == c
  {
    (c as int - '0' as int) as nat
  }

  predicate IsDigits(s: Text) {
    forall i :: 0 <= i < |s| ==> '0' <= s[i] <= '9'
  }

  /** Python's `str(n)` for a non-negative int: decimal digits without
      leading zeros. */
  function Decimal(n: nat): (r: Text)
    ensures |r| >= 1 && IsDigits(r)
    ensures r[0] == '0' ==> n == 0 && r == "0"
  {
    if n < 10 then [DigitChar(n)] else Decimal(n / 10) + [DigitChar(n % 10)]
  }

  /** Reads a string of decimal digits back as a number. */
  function ParseDecimal(s: Text): (n: nat)
    requires IsDigits(s)
  {
    if s == [] then 0 else ParseDecimal(s[..|s| - 1]) * 10 + DigitValue(s[|s| - 1])
  }

  /** The rendering of an index can be read back: `int(str(n)) == n`. */
  lemma {:induction false} DecimalRoundTrip(n: nat)
    ensures ParseDecimal(Decimal(n)) == n
  {
    var r := Decimal(n);
    if n < 10 {
      assert r[..0] == [];
      assert DigitValue(DigitChar(n)) == n by {
        var d := DigitValue(DigitChar(n));
        assert DigitChar(d) == DigitChar(n);
      }
    } else {
      DecimalRoundTrip(n / 10);
      assert r[..|r| - 1] == Decimal(n / 10);
      var d := DigitValue(DigitChar(n % 10));
      assert DigitChar(d) == DigitChar(n % 10);
    }
  }
}
