/** The two pieces of Rust's standard library the minesweeper command line
    relies on: splitting a line at ASCII whitespace (`split_ascii_whitespace`)
    and parsing a token as an unsigned machine word (`usize::from_str`,
    taking `usize` to be 64 bits wide). */
module TextInput {
  import opened Common

  // ---------------------------------------------------------------------
  // Splitting at ASCII whitespace

  /** A token: a non-empty run of non-whitespace characters. */
  predicate IsToken(t: string) {
    |t| > 0 && forall i :: 0 <= i < |t| ==> !IsAsciiWhitespace(t[i])
  }

  predicate AllWhitespace(s: string) {
    forall i :: 0 <= i < |s| ==> IsAsciiWhitespace(s[i])
  }

  /** The longest prefix of s without whitespace. */
  function Word(s: string): (w: string)
    ensures |w| <= |s| && w == s[..|w|]
    ensures forall i :: 0 <= i < |w| ==> !IsAsciiWhitespace(w[i])
    ensures |w| < |s| ==> IsAsciiWhitespace(s[|w|])
  {
    if s == [] || IsAsciiWhitespace(s[0]) then [] else [s[0]] + Word(s[1..])
  }

  /** The tokens of a line, in order; runs of whitespace separate them and
      leading or trailing whitespace yields nothing. */
  function Tokens(s: string): (ts: seq<string>)
    ensures forall i :: 0 <= i < |ts| ==> IsToken(ts[i])
    decreases |s|
  {
    if s == [] then []
    else if IsAsciiWhitespace(s[0]) then Tokens(s[1..])
    else
      var w := Word(s);
      [w] + Tokens(s[|w|..])
  }

  /** The tokens joined by single spaces. */
  function Join(ts: seq<string>): string {
    if ts == [] then ""
    else if |ts| == 1 then ts[0]
    else ts[0] + " " + Join(ts[1..])
  }

  /** A line has no tokens exactly when it is all whitespace (or empty). */
  lemma {:induction false} NoTokens(s: string)
    ensures Tokens(s) == [] <==> AllWhitespace(s)
    decreases |s|
  {
    if s != [] && IsAsciiWhitespace(s[0]) {
      NoTokens(s[1..]);
      if AllWhitespace(s[1..]) {
        forall i | 0 <= i < |s| ensures IsAsciiWhitespace(s[i]) {
          if i > 0 { assert s[i] == s[1..][i - 1]; }
        }
      }
    }
  }

  /** A token followed by nothing or by whitespace is read back whole. */
  lemma {:induction false} WordOfToken(t: string, rest: string)
    requires IsToken(t)
    requires rest == [] || IsAsciiWhitespace(rest[0])
    ensures Word(t + rest) == t
    decreases |t|
  {
    var s := t + rest;
    assert s[0] == t[0];
    if |t| > 1 {
      assert s[1..] == t[1..] + rest;
      WordOfToken(t[1..], rest);
    } else {
      assert s[1..] == rest;
    }
  }

  /** Splitting undoes joining: tokens joined by spaces split back into
      the same tokens. */
  lemma {:induction false} TokensOfJoin(ts: seq<string>)
    requires forall i :: 0 <= i < |ts| ==> IsToken(ts[i])
    ensures Tokens(Join(ts)) == ts
    decreases |ts|
  {
    if ts != [] {
      var t := ts[0];
      var rest := if |ts| == 1 then "" else " " + Join(ts[1..]);
      var s := Join(ts);
      assert s == t + rest;
      WordOfToken(t, rest);
      assert s[0] == t[0];
      assert s[|t|..] == rest;
      if |ts| == 1 {
        assert Tokens(s) == [t] + Tokens(rest);
      } else {
        TokensOfJoin(ts[1..]);
        assert rest[1..] == Join(ts[1..]);
        assert Tokens(rest) == Tokens(Join(ts[1..]));
      }
    }
  }

  // ---------------------------------------------------------------------
  // Parsing an unsigned number

  const USIZE_MAX: nat := 0xFFFF_FFFF_FFFF_FFFF

  predicate IsDigit(c: char) { '0' <= c <= '9' }

  predicate AllDigits(s: string) {
    forall i :: 0 <= i < |s| ==> IsDigit(s[i])
  }

  function DigitValue(c: char): (d: nat)
    requires IsDigit(c)
    ensures d < 10
  {
    c as int - '0' as int
  }

  function DigitChar(d: nat): (c: char)
    requires d < 10
    ensures IsDigit(c) && DigitValue(c) == d
  {
    ('0' as int + d) as char
  }

  /** The value of a decimal numeral, most significant digit first. */
  function DigitsValue(s: string): nat
    requires AllDigits(s)
  {
    if s == [] then 0 else DigitsValue(s[..|s| - 1]) * 10 + DigitValue(s[|s| - 1])
  }

  /** The digits after an optional leading `+`. */
  function Unsigned(s: string): string {
    if |s| > 0 && s[0] == '+' then s[1..] else s
  }

  /** `usize::from_str`: an optional `+`, then at least one decimal digit,
      denoting a value that fits in 64 bits. Anything else (an empty
      string, a bare `+`, a `-` sign, a stray character, an overflow) is
      an error. */
  function ParseUsize(s: string): (r: Option<nat>)
    ensures r.Some? ==> r.value <= USIZE_MAX
    ensures r.Some? <==> Unsigned(s) != [] && AllDigits(Unsigned(s)) && DigitsValue(Unsigned(s)) <= USIZE_MAX
  {
    var ds := Unsigned(s);
    if ds == [] || !AllDigits(ds) then None
    else
      var v := DigitsValue(ds);
      if v <= USIZE_MAX then Some(v) else None
  }

  /** The decimal numeral of n, without leading zeros. */
  function Decimal(n: nat): (s: string)
    ensures |s| > 0 && AllDigits(s)
    ensures s[0] != '+' && s[0] != '-'
  {
    if n < 10 then [DigitChar(n)] else Decimal(n / 10) + [DigitChar(n % 10)]
  }

  lemma {:induction false} DecimalValue(n: nat)
    ensures DigitsValue(Decimal(n)) == n
  {
    if n >= 10 {
      DecimalValue(n / 10);
      var s := Decimal(n);
      assert s[..|s| - 1] == Decimal(n / 10);
    }
  }

  /** Every representable number is read back from its numeral, with or
      without a `+` sign. */
  lemma ParseDecimal(n: nat)
    requires n <= USIZE_MAX
    ensures ParseUsize(Decimal(n)) == Some(n)
    ensures ParseUsize("+" + Decimal(n)) == Some(n)
  {
    DecimalValue(n);
    assert ("+" + Decimal(n))[1..] == Decimal(n);
  }

  /** A negative numeral and a numeral past 64 bits are rejected. */
  lemma ParseRejects(n: nat)
    ensures ParseUsize("-" + Decimal(n)) == None
    ensures n > USIZE_MAX ==> ParseUsize(Decimal(n)) == None
  {
    DecimalValue(n);
    assert !IsDigit(("-" + Decimal(n))[0]);
  }
}
