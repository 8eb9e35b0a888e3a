/** Decimal text as std::ostream writes an int, and the whitespace-separated
    tokens std::istream's operator>> reads back. */
module Text {
  import opened Wrappers

  predicate IsDigit(c: char)
  {
    '0' <= c <= '9'
  }

  /** The characters operator>> skips before and stops after a token. */
  predicate IsSpace(c: char)
  {
    c == ' ' || c == '\n' || c == '\t' || c == '\r' || c == '\U{B}' || c == '\U{C}'
  }

  function DigitChar(d: int): (c: char)
    requires 0 <= d < 10
    ensures IsDigit(c)
  {
    ['0', '1', '2', '3', '4', '5', '6', '7', '8', '9'][d]
  }

  function DigitValue(c: char): (d: int)
    requires IsDigit(c)
    ensures 0 <= d < 10
  {
    c as int - '0' as int
  }

  /** The digits of n, most significant first, without leading zeros. */
  function NatDecimal(n: nat): (s: string)
    ensures |s| > 0 && forall i :: 0 <= i < |s| ==> IsDigit(s[i])
  {
    if n < 10 then [DigitChar(n)] else NatDecimal(n / 10) + [DigitChar(n % 10)]
  }

  /** operator<< on an int: a '-' before the digits of a negative value. */
  function Decimal(n: int): (s: string)
    ensures |s| > 0 && forall i :: 0 <= i < |s| ==> !IsSpace(s[i])
  {
    if n < 0 then "-" + NatDecimal(-n) else NatDecimal(n)
  }

  /** The value of a run of digits. */
  function ParseNat(s: string): nat
    requires forall i :: 0 <= i < |s| ==> IsDigit(s[i])
  {
    if s == [] then 0 else 10 * ParseNat(s[..|s| - 1]) + DigitValue(s[|s| - 1])
  }

  /** operator>> into an int, on a token that is an optional '-' and digits. */
  function ParseInt(s: string): Option<int>
  {
    if |s| > 0 && s[0] == '-' then
      if |s| > 1 && forall i :: 1 <= i < |s| ==> IsDigit(s[i]) then Some(0 - ParseNat(s[1..]) as int) else None
    else if |s| > 0 && forall i :: 0 <= i < |s| ==> IsDigit(s[i]) then Some(ParseNat(s))
    else None
  }

  lemma {:induction false} NatDecimalRoundTrip(n: nat)
    ensures ParseNat(NatDecimal(n)) == n
  {
    if n >= 10 {
      NatDecimalRoundTrip(n / 10);
      var s := NatDecimal(n);
      assert s[..|s| - 1] == NatDecimal(n / 10);
    }
  }

  /** A '-' and a run of digits reads as the negated value of the digits. */
  lemma ParseNegative(digits: string)
    requires |digits| > 0 && forall i :: 0 <= i < |digits| ==> IsDigit(digits[i])
    ensures ParseInt("-" + digits) == Some(0 - ParseNat(digits) as int)
  {
    assert ("-" + digits)[1..] == digits;
  }

  /** A run of digits reads as its value. */
  lemma ParseDigits(digits: string)
    requires |digits| > 0 && forall i :: 0 <= i < |digits| ==> IsDigit(digits[i])
    ensures ParseInt(digits) == Some(ParseNat(digits))
  {
    assert IsDigit(digits[0]);
  }

  /** What operator<< writes for an int, operator>> reads back. */
  lemma DecimalRoundTrip(n: int)
    ensures ParseInt(Decimal(n)) == Some(n)
  {
    var digits := if n < 0 then NatDecimal(-n) else NatDecimal(n);
    NatDecimalRoundTrip(if n < 0 then -n else n);
    if n < 0 {
      ParseNegative(digits);
      assert Decimal(n) == "-" + digits;
    } else {
      ParseDigits(digits);
      assert Decimal(n) == digits;
    }
  }

  /** The length of the token at the start of s: its non-space prefix. */
  function TokenLength(s: string): (n: nat)
    ensures n <= |s|
    ensures forall i :: 0 <= i < n ==> !IsSpace(s[i])
    ensures n < |s| ==> IsSpace(s[n])
  {
    if s == [] || IsSpace(s[0]) then 0 else 1 + TokenLength(s[1..])
  }

  /** The tokens successive operator>> calls read from s. */
  function Tokens(s: string): seq<string>
    decreases |s|
  {
    if s == [] then []
    else if IsSpace(s[0]) then Tokens(s[1..])
    else
      var n := TokenLength(s);
      [s[..n]] + Tokens(s[n..])
  }

  lemma {:induction false} TokenLengthOf(word: string, sep: char, rest: string)
    requires forall i :: 0 <= i < |word| ==> !IsSpace(word[i])
    requires IsSpace(sep)
    ensures TokenLength(word + [sep] + rest) == |word|
  {
    if word != [] {
      assert (word + [sep] + rest)[1..] == word[1..] + [sep] + rest;
      TokenLengthOf(word[1..], sep, rest);
    }
  }

  /** A word followed by a whitespace character reads as one token. */
  lemma TokensOfWord(word: string, sep: char, rest: string)
    requires |word| > 0 && forall i :: 0 <= i < |word| ==> !IsSpace(word[i])
    requires IsSpace(sep)
    ensures Tokens(word + [sep] + rest) == [word] + Tokens(rest)
  {
    var s := word + [sep] + rest;
    TokenLengthOf(word, sep, rest);
    assert s[..|word|] == word;
    assert s[|word|..][1..] == rest;
  }
}
