/**
 Text helpers for the PGM writer: C's `%d` decimal formatting of an `int`,
 and, as its inverse, the whitespace-separated tokens, the newline-ended
 lines and the decimal reading that a PGM reader applies to the text.
 */
module Text {

  datatype Option<T> = None | Some(value: T)

  predicate IsDigit(ch: char)
  {
    '0' <= ch <= '9'
  }

  /** Netpbm's whitespace: blanks, TABs, CRs and LFs. */
  predicate IsSpace(ch: char)
  {
    ch == ' ' || ch == '\t' || ch == '\r' || ch == '\n'
  }

  predicate IsNewline(ch: char)
  {
    ch == '\n'
  }

  /** Non-empty and free of whitespace: a token on its own. */
  ghost predicate IsWord(w: string)
  {
    |w| >= 1 && forall m :: 0 <= m < |w| ==> !IsSpace(w[m])
  }

  function DigitChar(d: int): (ch: char)
    requires 0 <= d < 10
    ensures IsDigit(ch) && ch as int - '0' as int == d
  {
    ('0' as int + d) as char
  }

  /** The decimal digits of n, most significant first, without leading zeros. */
  function Digits(n: nat): string
    decreases n
  {
    if n < 10 then [DigitChar(n)] else Digits(n / 10) + [DigitChar(n % 10)]
  }

  /** Digits writes at least one digit, only digits, and no leading zero. */
  lemma {:induction false} DigitsWellFormed(n: nat)
    ensures |Digits(n)| >= 1
    ensures forall k :: 0 <= k < |Digits(n)| ==> IsDigit(Digits(n)[k])
    ensures Digits(n)[0] == '0' ==> n == 0
    decreases n
  {
    if n >= 10 {
      DigitsWellFormed(n / 10);
    }
  }

  /** `%d`: an optional minus sign, then the digits of the magnitude. */
  function Decimal(n: int): string
  {
    if n < 0 then "-" + Digits(-n) else Digits(n)
  }

  /** `%d` writes at least one character and no whitespace. */
  lemma DecimalIsWord(n: int)
    ensures IsWord(Decimal(n))
  {
    DigitsWellFormed(if n < 0 then -n else n);
  }

  /** The number a string of digits denotes, most significant first. */
  function DigitsValue(s: string): int
  {
    if s == [] then 0 else DigitsValue(s[..|s| - 1]) * 10 + (s[|s| - 1] as int - '0' as int)
  }

  /** Reads an optionally signed decimal number; None if s is not one. */
  function ParseInt(s: string): (r: Option<int>)
    ensures r.Some? ==> |s| >= 1 && (s[0] == '-' || IsDigit(s[0]))
  {
    if |s| >= 2 && s[0] == '-' && forall k :: 1 <= k < |s| ==> IsDigit(s[k]) then
      Some(-DigitsValue(s[1..]))
    else if |s| >= 1 && forall k :: 0 <= k < |s| ==> IsDigit(s[k]) then
      Some(DigitsValue(s))
    else
      None
  }

  lemma {:induction false} DigitsRoundTrip(n: nat)
    ensures DigitsValue(Digits(n)) == n
    decreases n
  {
    DigitsWellFormed(n);
    if n >= 10 {
      var s := Digits(n);
      DigitsWellFormed(n / 10);
      assert s[..|s| - 1] == Digits(n / 10);
      DigitsRoundTrip(n / 10);
    }
  }

  /** Reading back what `%d` printed gives the number printed. */
  lemma DecimalRoundTrip(n: int)
    ensures ParseInt(Decimal(n)) == Some(n)
  {
    if n < 0 {
      DigitsWellFormed(-n);
      DigitsRoundTrip(-n);
      assert Decimal(n)[1..] == Digits(-n);
    } else {
      DigitsWellFormed(n);
      DigitsRoundTrip(n);
    }
  }

  /** The longest prefix of s free of separators. */
  function Span(s: string, isSep: char -> bool): (w: string)
    ensures w <= s
    ensures forall k :: 0 <= k < |w| ==> !isSep(w[k])
    ensures |w| < |s| ==> isSep(s[|w|])
  {
    if s == [] || isSep(s[0]) then [] else [s[0]] + Span(s[1..], isSep)
  }

  /** The whitespace-separated tokens of s, in order. */
  function Tokens(s: string): seq<string>
    decreases |s|
  {
    if s == [] then []
    else if IsSpace(s[0]) then Tokens(s[1..])
    else
      var w := Span(s, IsSpace);
      [w] + Tokens(s[|w|..])
  }

  /** The lines of s, each without its terminating newline. */
  function Lines(s: string): seq<string>
    decreases |s|
  {
    if s == [] then []
    else
      var l := Span(s, IsNewline);
      if |l| == |s| then [l] else [l] + Lines(s[|l| + 1..])
  }

  /** A word followed by a separator, or by nothing, is the span of the whole. */
  lemma {:induction false} SpanOf(w: string, rest: string, isSep: char -> bool)
    requires forall k :: 0 <= k < |w| ==> !isSep(w[k])
    requires rest == [] || isSep(rest[0])
    ensures Span(w + rest, isSep) == w
    decreases |w|
  {
    if w != [] {
      assert (w + rest)[1..] == w[1..] + rest;
      SpanOf(w[1..], rest, isSep);
    }
  }

  /** A token followed by whitespace, or by nothing, is read as one token. */
  lemma TokensCons(w: string, rest: string)
    requires IsWord(w)
    requires rest == [] || IsSpace(rest[0])
    ensures Tokens(w + rest) == [w] + Tokens(rest)
  {
    SpanOf(w, rest, IsSpace);
    assert (w + rest)[|w|..] == rest;
  }

  /** Whitespace before the tokens is skipped. */
  lemma TokensSkip(ch: char, rest: string)
    requires IsSpace(ch)
    ensures Tokens([ch] + rest) == Tokens(rest)
  {
    assert ([ch] + rest)[1..] == rest;
  }

  /** A newline-terminated line is read as one line. */
  lemma LinesCons(l: string, rest: string)
    requires forall k :: 0 <= k < |l| ==> !IsNewline(l[k])
    ensures Lines(l + "\n" + rest) == [l] + Lines(rest)
  {
    var s := l + "\n" + rest;
    assert s == l + ("\n" + rest);
    SpanOf(l, "\n" + rest, IsNewline);
    assert s[|l| + 1..] == rest;
  }

  /** Concatenation of strings is associative. */
  lemma ConcatAssoc(a: string, b: string, c: string)
    ensures (a + b) + c == a + (b + c)
  {
  }
}
