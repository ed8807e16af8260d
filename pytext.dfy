/**
 * The Python string built-ins the ingestion job relies on: `str.strip()`,
 * `str.split()` with no separator, and `int()` on a decimal string, together
 * with the decimal formatting that inverts `int()`.
 */
module PyText {
  import opened Wrappers

  /** `str.isspace()` for one character: the Unicode whitespace Python strips and splits on. */
  predicate IsSpace(c: char) {
    var n := c as int;
    (9 <= n <= 13) || (28 <= n <= 32) || n == 0x85 || n == 0xA0 || n == 0x1680
    || (0x2000 <= n <= 0x200A) || n == 0x2028 || n == 0x2029 || n == 0x202F
    || n == 0x205F || n == 0x3000
  }

  predicate AllSpace(s: string) {
    forall i :: 0 <= i < |s| ==> IsSpace(s[i])
  }

  predicate NoSpace(s: string) {
    forall i :: 0 <= i < |s| ==> !IsSpace(s[i])
  }

  /** Number of whitespace characters at the front of `s`. */
  function LeadingSpaces(s: string): (k: nat)
    ensures k <= |s| && AllSpace(s[..k])
    ensures k == |s| || !IsSpace(s[k])
    decreases |s|
  {
    if s == [] || !IsSpace(s[0]) then 0
    else
      var k := 1 + LeadingSpaces(s[1..]);
      assert s[..k] == [s[0]] + s[1..][..k - 1];
      k
  }

  /** Number of whitespace characters at the end of `s`. */
  function TrailingSpaces(s: string): (k: nat)
    ensures k <= |s| && AllSpace(s[|s| - k..])
    ensures k == |s| || !IsSpace(s[|s| - 1 - k])
    decreases |s|
  {
    if s == [] || !IsSpace(s[|s| - 1]) then 0
    else
      var p := s[..|s| - 1];
      var k := 1 + TrailingSpaces(p);
      assert s[|s| - k..] == p[|p| - (k - 1)..] + [s[|s| - 1]];
      k
  }

  /** `str.strip()`: `s` without its leading and trailing whitespace. */
  function Strip(s: string): (r: string)
    ensures r == [] <==> AllSpace(s)
    ensures r != [] ==> !IsSpace(r[0]) && !IsSpace(r[|r| - 1])
  {
    var a := LeadingSpaces(s);
    var t := s[a..];
    var n := TrailingSpaces(t);
    var b := a + |t| - n;
    assert t[..|t| - n] == s[a..b] && t[|t| - n..] == s[b..];
    assert t[..|t| - n] == [] ==> AllSpace(s) by {
      if t[..|t| - n] == [] {
        forall i | 0 <= i < |s| ensures IsSpace(s[i]) {
          if i < a { assert s[i] == s[..a][i]; }
        }
      }
    }
    t[..|t| - n]
  }

  /**
   * `strip()` removes only outer whitespace: its result is a slice of the input
   * with nothing but whitespace before and after it. With the clauses on `Strip`
   * (empty exactly for all-whitespace input, otherwise non-whitespace at both
   * ends) this pins the result down.
   */
  lemma StripSlice(s: string)
    ensures exists a, b :: 0 <= a <= b <= |s| && AllSpace(s[..a]) && AllSpace(s[b..]) && Strip(s) == s[a..b]
  {
    var a := LeadingSpaces(s);
    var t := s[a..];
    var n := TrailingSpaces(t);
    var b := a + |t| - n;
    assert t[..|t| - n] == s[a..b] && t[|t| - n..] == s[b..];
    assert AllSpace(s[..a]) && AllSpace(s[b..]) && Strip(s) == s[a..b];
  }

  /** Length of the run of non-whitespace characters that starts `s`. */
  function TokenLength(s: string): (k: nat)
    ensures k <= |s| && NoSpace(s[..k])
    ensures k == |s| || IsSpace(s[k])
    decreases |s|
  {
    if s == [] || IsSpace(s[0]) then 0
    else
      var k := 1 + TokenLength(s[1..]);
      assert s[..k] == [s[0]] + s[1..][..k - 1];
      k
  }

  /** `str.split()` with no separator: the maximal runs of non-whitespace characters, in order. */
  function Split(s: string): seq<string>
    decreases |s|
  {
    var t := s[LeadingSpaces(s)..];
    if t == [] then []
    else
      var n := TokenLength(t);
      [t[..n]] + Split(t[n..])
  }

  /** `split()` yields no token exactly for an all-whitespace string. */
  lemma SplitEmpty(s: string)
    ensures Split(s) == [] <==> AllSpace(s)
  {
    var a := LeadingSpaces(s);
    if a == |s| {
      assert s == s[..a];
    } else {
      assert !IsSpace(s[a]);
    }
  }

  /** Each part is a non-empty run of non-whitespace characters. */
  predicate AreTokens(parts: seq<string>) {
    forall i :: 0 <= i < |parts| ==> parts[i] != [] && NoSpace(parts[i])
  }

  lemma ConsTokens(token: string, rest: seq<string>)
    requires token != [] && NoSpace(token) && AreTokens(rest)
    ensures AreTokens([token] + rest)
  {
    var parts := [token] + rest;
    forall i | 0 < i < |parts| ensures parts[i] != [] && NoSpace(parts[i]) {
      assert parts[i] == rest[i - 1];
    }
  }

  lemma TailTokens(parts: seq<string>)
    requires parts != [] && AreTokens(parts)
    ensures parts[0] != [] && NoSpace(parts[0]) && AreTokens(parts[1..])
  {
    var tail := parts[1..];
    forall i | 0 <= i < |tail| ensures tail[i] != [] && NoSpace(tail[i]) {
      assert tail[i] == parts[i + 1];
    }
  }

  /** Every token `split()` yields is a non-empty run of non-whitespace characters. */
  lemma {:induction false} SplitTokens(s: string)
    ensures AreTokens(Split(s))
    decreases |s|
  {
    var t := s[LeadingSpaces(s)..];
    if t != [] {
      var n := TokenLength(t);
      assert t[..n] != [] by { assert !IsSpace(t[0]); }
      SplitTokens(t[n..]);
      ConsTokens(t[..n], Split(t[n..]));
    }
  }

  /** The tokens written out with one space between neighbours. */
  function JoinWithSpaces(tokens: seq<string>): string {
    if |tokens| <= 1 then (if tokens == [] then "" else tokens[0])
    else tokens[0] + " " + JoinWithSpaces(tokens[1..])
  }

  lemma SplitSkipsLeadingSpace(s: string)
    requires s != [] && IsSpace(s[0])
    ensures Split(s) == Split(s[1..])
  {
    var k := LeadingSpaces(s);
    var k' := LeadingSpaces(s[1..]);
    assert k == 1 + k';
    assert s[k..] == s[1..][k'..];
  }

  lemma {:induction false} TokenLengthOfToken(a: string, rest: string)
    requires NoSpace(a)
    requires rest == [] || IsSpace(rest[0])
    ensures TokenLength(a + rest) == |a|
    decreases |a|
  {
    if a == [] {
      assert a + rest == rest;
    } else {
      var s := a + rest;
      assert s[0] == a[0];
      assert s[1..] == a[1..] + rest;
      TokenLengthOfToken(a[1..], rest);
    }
  }

  lemma SplitToken(a: string, rest: string)
    requires a != [] && NoSpace(a)
    requires rest == [] || IsSpace(rest[0])
    ensures Split(a + rest) == [a] + Split(rest)
  {
    var s := a + rest;
    assert s[0] == a[0];
    assert LeadingSpaces(s) == 0;
    TokenLengthOfToken(a, rest);
    assert s[..|a|] == a && s[|a|..] == rest;
  }

  /** A token followed by a space and more text splits off as the first part. */
  lemma SplitSpacedToken(a: string, rest: string)
    requires a != [] && NoSpace(a)
    ensures Split(a + (" " + rest)) == [a] + Split(rest)
  {
    SplitToken(a, " " + rest);
    SplitSkipsLeadingSpace(" " + rest);
    assert (" " + rest)[1..] == rest;
  }

  lemma JoinFirst(tokens: seq<string>)
    requires |tokens| > 1
    ensures JoinWithSpaces(tokens) == tokens[0] + (" " + JoinWithSpaces(tokens[1..]))
  {
  }

  /** Splitting undoes joining, for tokens that could have come out of a split. */
  lemma {:induction false} SplitJoin(tokens: seq<string>)
    requires AreTokens(tokens)
    ensures Split(JoinWithSpaces(tokens)) == tokens
    decreases |tokens|
  {
    if tokens == [] {
    } else if |tokens| == 1 {
      SplitToken(tokens[0], "");
      assert tokens[0] + "" == tokens[0];
      assert Split("") == [];
    } else {
      var a, tail := tokens[0], tokens[1..];
      var rest := JoinWithSpaces(tail);
      JoinFirst(tokens);
      TailTokens(tokens);
      SplitSpacedToken(a, rest);
      SplitJoin(tail);
      assert tokens == [a] + tail;
    }
  }

  /** Joined tokens start with the first token's first character and end with the last token's last character. */
  lemma {:induction false} JoinEnds(tokens: seq<string>)
    requires tokens != [] && AreTokens(tokens)
    ensures JoinWithSpaces(tokens) != []
    ensures JoinWithSpaces(tokens)[0] == tokens[0][0]
    ensures JoinWithSpaces(tokens)[|JoinWithSpaces(tokens)| - 1] == tokens[|tokens| - 1][|tokens[|tokens| - 1]| - 1]
    decreases |tokens|
  {
    TailTokens(tokens);
    if |tokens| > 1 {
      JoinEnds(tokens[1..]);
      var s, rest := JoinWithSpaces(tokens), JoinWithSpaces(tokens[1..]);
      JoinFirst(tokens);
      assert s[|s| - 1] == rest[|rest| - 1];
    }
  }

  /** Joined tokens neither start nor end with whitespace, so stripping leaves them alone. */
  lemma StripJoin(tokens: seq<string>)
    requires tokens != [] && AreTokens(tokens)
    ensures Strip(JoinWithSpaces(tokens)) == JoinWithSpaces(tokens)
  {
    JoinEnds(tokens);
    TailTokens(tokens);
    var last := tokens[|tokens| - 1];
    assert last != [] && NoSpace(last);
    StripUnchanged(JoinWithSpaces(tokens));
  }

  predicate IsDigit(c: char) {
    '0' <= c <= '9'
  }

  predicate AllDigits(s: string) {
    forall i :: 0 <= i < |s| ==> IsDigit(s[i])
  }

  function DigitValue(c: char): (d: nat)
    requires IsDigit(c)
    ensures d < 10
  {
    c as int - '0' as int
  }

  function DigitChar(d: nat): (c: char)
    requires d < 10
    ensures IsDigit(c) && DigitValue(c) == d
  {
    (d + '0' as int) as char
  }

  /** The value of a string of ASCII decimal digits, most significant first. */
  function DecimalValue(s: string): nat
    requires AllDigits(s)
    decreases |s|
  {
    if s == [] then 0 else DecimalValue(s[..|s| - 1]) * 10 + DigitValue(s[|s| - 1])
  }

  function Pow10(n: nat): (p: nat)
    ensures p >= 1
  {
    if n == 0 then 1 else 10 * Pow10(n - 1)
  }

  /** `n` written with exactly `width` digits, zero-padded on the left. */
  function FormatFixed(n: nat, width: nat): (s: string)
    requires n < Pow10(width)
    ensures |s| == width && AllDigits(s) && DecimalValue(s) == n
    decreases width
  {
    if width == 0 then ""
    else
      var s := FormatFixed(n / 10, width - 1) + [DigitChar(n % 10)];
      assert s[..|s| - 1] == FormatFixed(n / 10, width - 1);
      s
  }

  /** The last digit and the rest of a numeral are determined by its value. */
  lemma LastDigitUnique(x: nat, a: nat, y: nat, b: nat)
    requires a < 10 && b < 10 && x * 10 + a == y * 10 + b
    ensures x == y && a == b
  {
  }

  /** A digit string is less than ten to the power of its length. */
  lemma {:induction false} DecimalValueBound(s: string)
    requires AllDigits(s)
    ensures DecimalValue(s) < Pow10(|s|)
    decreases |s|
  {
    if s != [] {
      var p := s[..|s| - 1];
      assert AllDigits(p);
      DecimalValueBound(p);
    }
  }

  /** Two digit strings of the same length with the same value are the same string. */
  lemma {:induction false} DecimalValueInjective(s: string, t: string)
    requires AllDigits(s) && AllDigits(t) && |s| == |t|
    requires DecimalValue(s) == DecimalValue(t)
    ensures s == t
    decreases |s|
  {
    if s != [] {
      var p, q := s[..|s| - 1], t[..|t| - 1];
      assert AllDigits(p) && AllDigits(q);
      LastDigitUnique(DecimalValue(p), DigitValue(s[|s| - 1]), DecimalValue(q), DigitValue(t[|t| - 1]));
      DecimalValueInjective(p, q);
      assert s == p + [s[|s| - 1]] && t == q + [t[|t| - 1]];
    }
  }

  /** Reading a fixed-width digit string and writing it back at the same width gives it back. */
  lemma FormatFixedOfValue(s: string)
    requires AllDigits(s)
    ensures DecimalValue(s) < Pow10(|s|)
    ensures FormatFixed(DecimalValue(s), |s|) == s
  {
    DecimalValueBound(s);
    DecimalValueInjective(FormatFixed(DecimalValue(s), |s|), s);
  }

  /** `str(n)` for a natural number: its shortest decimal form. */
  function FormatNat(n: nat): (s: string)
    ensures s != [] && AllDigits(s) && DecimalValue(s) == n
    decreases n
  {
    if n < 10 then [DigitChar(n)]
    else
      var s := FormatNat(n / 10) + [DigitChar(n % 10)];
      assert s[..|s| - 1] == FormatNat(n / 10);
      s
  }

  /** `str(v)` for an integer. */
  function FormatInt(v: int): string {
    if v < 0 then "-" + FormatNat(-v) else FormatNat(v)
  }

  /**
   * The digit part `int()` accepts: ASCII digits, with single underscores
   * allowed between two digits (PEP 515).
   */
  predicate IsDigitGroups(s: string) {
    && s != [] && IsDigit(s[0]) && IsDigit(s[|s| - 1])
    && DigitsOrUnderscores(s)
    && forall i :: 0 <= i < |s| - 1 && s[i] == '_' ==> IsDigit(s[i + 1])
  }

  predicate DigitsOrUnderscores(s: string) {
    forall i :: 0 <= i < |s| ==> IsDigit(s[i]) || s[i] == '_'
  }

  /** The digits of `s` with the underscores left out. */
  function DropUnderscores(s: string): (r: string)
    ensures DigitsOrUnderscores(s) ==> AllDigits(r)
    ensures AllDigits(s) ==> r == s
    ensures |r| <= |s|
    decreases |s|
  {
    if s == [] then ""
    else if s[0] == '_' then DropUnderscores(s[1..])
    else [s[0]] + DropUnderscores(s[1..])
  }

  /** Removing underscores works character by character: a `_` is dropped and every other character is kept. */
  lemma DropUnderscoresChar(c: char)
    ensures DropUnderscores([c]) == if c == '_' then "" else [c]
  {
    assert [c][1..] == "";
  }

  /** Removing underscores from two pieces of text and joining them is the same as removing them from the joined text. */
  lemma {:induction false} DropUnderscoresAppend(a: string, b: string)
    ensures DropUnderscores(a + b) == DropUnderscores(a) + DropUnderscores(b)
    decreases |a|
  {
    if a == [] {
      assert a + b == b;
    } else {
      assert (a + b)[0] == a[0] && (a + b)[1..] == a[1..] + b;
      DropUnderscoresAppend(a[1..], b);
    }
  }

  /** `int(s)` on a string without surrounding whitespace: `None` where Python raises ValueError. */
  function IntLiteral(s: string): Option<int> {
    if s != [] && (s[0] == '-' || s[0] == '+') then
      var body := s[1..];
      if IsDigitGroups(body) then
        var n: int := DecimalValue(DropUnderscores(body));
        Some(if s[0] == '-' then -n else n)
      else None
    else if IsDigitGroups(s) then
      Some(DecimalValue(DropUnderscores(s)))
    else None
  }

  /** Python's `int(s)`: surrounding whitespace is ignored; `None` stands for ValueError. */
  function PyInt(s: string): Option<int> {
    IntLiteral(Strip(s))
  }

  lemma StripUnchanged(s: string)
    requires s != [] && !IsSpace(s[0]) && !IsSpace(s[|s| - 1])
    ensures Strip(s) == s
  {
  }

  lemma DigitsAreGroups(s: string)
    requires s != [] && AllDigits(s)
    ensures IsDigitGroups(s) && NoSpace(s) && DropUnderscores(s) == s
  {
  }

  /** `int(str(v)) == v`. */
  lemma PyIntOfFormatInt(v: int)
    ensures NoSpace(FormatInt(v)) && FormatInt(v) != []
    ensures PyInt(FormatInt(v)) == Some(v)
  {
    var digits := FormatNat(if v < 0 then -v else v);
    DigitsAreGroups(digits);
    if v < 0 {
      var s := "-" + digits;
      assert s[1..] == digits && s[0] == '-';
      assert NoSpace(s) by {
        forall i | 0 <= i < |s| ensures !IsSpace(s[i]) {
          if i > 0 { assert s[i] == digits[i - 1]; }
        }
      }
      StripUnchanged(s);
      assert IntLiteral(s) == Some(v);
    } else {
      StripUnchanged(digits);
      assert !(digits[0] == '-' || digits[0] == '+');
    }
  }
}
