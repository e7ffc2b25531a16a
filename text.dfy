/** Character classes and small string functions shared by the lexer, the
    parser's diagnostics and the properties proved about them. */
module Text {

  // The lexer's `symbols` string: plus, minus, slash, star, both parentheses, equals.
  predicate IsSymbol(c: char) {
    c == '+' || c == '-' || c == '/' || c == '*' || c == '(' || c == ')' || c == '='
  }

  /** Membership in the lexer's `alphanumerals` string: the ASCII upper-case
      letters, the lower-case letters and the ten digits. */
  predicate IsAlphanumeral(c: char) {
    'A' <= c <= 'Z' || 'a' <= c <= 'z' || '0' <= c <= '9'
  }

  /** The characters the lexer skips: `" \t"` and the newline. */
  predicate IsWhitespace(c: char) {
    c == ' ' || c == '\t' || c == '\n'
  }

  predicate IsDigit(c: char) {
    '0' <= c <= '9'
  }

  /** A character the lexer accepts; any other one is an invalid character. */
  predicate IsValidChar(c: char) {
    IsWhitespace(c) || IsSymbol(c) || IsAlphanumeral(c)
  }

  /** Python's `str.isdigit` on a string of ASCII characters. */
  predicate IsDigits(s: string) {
    |s| > 0 && forall k :: 0 <= k < |s| ==> IsDigit(s[k])
  }

  predicate AllAlphanumeral(s: string) {
    forall k :: 0 <= k < |s| ==> IsAlphanumeral(s[k])
  }

  /** The source with its spaces, tabs and newlines taken out. */
  function Compact(s: string): (r: string)
    ensures |r| <= |s|
    ensures forall k :: 0 <= k < |r| ==> !IsWhitespace(r[k])
  {
    if s == [] then []
    else (if IsWhitespace(s[0]) then [] else [s[0]]) + Compact(s[1..])
  }

  /** Number of occurrences of `c` in `s`. */
  function Occurrences(s: string, c: char): nat {
    if s == [] then 0 else (if s[0] == c then 1 else 0) + Occurrences(s[1..], c)
  }

  function CountNewlines(s: string): nat {
    Occurrences(s, '\n')
  }

  lemma {:induction false} OccurrencesAppend(a: string, b: string, c: char)
    ensures Occurrences(a + b, c) == Occurrences(a, c) + Occurrences(b, c)
  {
    if a == [] {
      assert a + b == b;
    } else {
      assert (a + b)[0] == a[0] && (a + b)[1..] == a[1..] + b;
      OccurrencesAppend(a[1..], b, c);
    }
  }

  lemma {:induction false} NoOccurrences(s: string, c: char)
    requires forall k :: 0 <= k < |s| ==> s[k] != c
    ensures Occurrences(s, c) == 0
  {
    if s != [] {
      NoOccurrences(s[1..], c);
    }
  }

  /** Extending a slice by one character adds that character's newline. */
  lemma NewlinesSnoc(s: string, a: nat, b: nat)
    requires a <= b < |s|
    ensures CountNewlines(s[a..b + 1]) == CountNewlines(s[a..b]) + if s[b] == '\n' then 1 else 0
  {
    assert s[a..b + 1] == s[a..b] + [s[b]];
    OccurrencesAppend(s[a..b], [s[b]], '\n');
    OccurrencesSingleton(s[b], '\n');
  }

  lemma OccurrencesSingleton(c: char, d: char)
    ensures Occurrences([c], d) == if c == d then 1 else 0
  {
    assert [c][0] == c && [c][1..] == [];
  }

  lemma {:induction false} CompactAppend(a: string, b: string)
    ensures Compact(a + b) == Compact(a) + Compact(b)
  {
    if a == [] {
      assert a + b == b;
    } else {
      assert (a + b)[0] == a[0] && (a + b)[1..] == a[1..] + b;
      CompactAppend(a[1..], b);
    }
  }

  lemma CompactSingleton(c: char)
    ensures Compact([c]) == if IsWhitespace(c) then [] else [c]
  {
    assert [c][1..] == [];
  }

  lemma AppendAssoc(a: string, b: string, c: string)
    ensures (a + b) + c == a + (b + c)
  {
  }

  /** Where the line holding index `i` of `text` starts: just after the last
      newline in `text[..i]`, or 0 if there is none. */
  function LineStart(text: string, i: nat): (r: nat)
    requires i <= |text|
    ensures r <= i
    ensures r == 0 || text[r - 1] == '\n'
    ensures forall k :: r <= k < i ==> text[k] != '\n'
  {
    if i == 0 then 0
    else if text[i - 1] == '\n' then i
    else LineStart(text, i - 1)
  }

  /** Python's `text.split("\n")[-1]`: the text after the last newline. */
  function LastLine(text: string): (r: string)
    ensures '\n' !in r
    ensures |r| <= |text| && r == text[|text| - |r|..]
    ensures |r| == |text| || text[|text| - |r| - 1] == '\n'
  {
    var start := LineStart(text, |text|);
    assert forall k :: 0 <= k < |text[start..]| ==> text[start..][k] == text[start + k];
    text[start..]
  }

  function DigitChar(d: nat): (c: char)
    requires d < 10
    ensures IsDigit(c)
  {
    ['0', '1', '2', '3', '4', '5', '6', '7', '8', '9'][d]
  }

  function DigitValue(c: char): (d: nat)
    requires IsDigit(c)
    ensures d < 10
  {
    (c as int - '0' as int) as nat
  }

  /** The decimal numeral of `n`, as Python's `str(n)` writes it. */
  function NatString(n: nat): (s: string)
    ensures IsDigits(s)
    ensures n > 0 ==> s[0] != '0'
  {
    if n < 10 then [DigitChar(n)] else NatString(n / 10) + [DigitChar(n % 10)]
  }

  /** Python's `str(n)` (and an f-string's `{n}`) on an integer. */
  function IntString(n: int): (s: string)
    ensures |s| > 0
    ensures n >= 0 ==> IsDigits(s)
    ensures n < 0 ==> s[0] == '-' && IsDigits(s[1..])
  {
    if n < 0 then "-" + NatString(-n) else NatString(n)
  }

  /** The value of a decimal numeral, the inverse of `NatString`. */
  function DecimalValue(s: string): nat
    requires forall k :: 0 <= k < |s| ==> IsDigit(s[k])
  {
    if s == [] then 0 else 10 * DecimalValue(s[..|s| - 1]) + DigitValue(s[|s| - 1])
  }

  lemma DigitRoundTrip(d: nat)
    requires d < 10
    ensures DigitValue(DigitChar(d)) == d
  {
    assert DigitChar(d) as int == '0' as int + d;
  }

  /** Reading back a numeral gives the number that was written. */
  lemma {:induction false} NatStringRoundTrip(n: nat)
    ensures DecimalValue(NatString(n)) == n
  {
    if n < 10 {
      DigitRoundTrip(n);
    } else {
      var s := NatString(n);
      assert s[..|s| - 1] == NatString(n / 10);
      NatStringRoundTrip(n / 10);
      DigitRoundTrip(n % 10);
    }
  }

  /** The numeral of a non-negative line number reads back as that number. */
  lemma {:induction false} IntStringValue(n: int)
    ensures n >= 0 ==> DecimalValue(IntString(n)) == n
  {
    if n >= 0 {
      NatStringRoundTrip(n);
    }
  }
}
