/** The behaviour of the few Java library routines on strings and lists that the
    file format relies on: String.format("%d"), Integer.parseInt,
    Boolean.parseBoolean, String.trim, String.split with a one-character
    pattern, String.startsWith/endsWith and List.indexOf. Characters are
    UTF-16 code units, as in Java. */
module JavaStrings {
  import opened Wrappers

  const INT_MIN: int := -0x8000_0000
  const INT_MAX: int := 0x7fff_ffff

  /** Values a Java `int` can hold. */
  predicate IsInt32(x: int) {
    INT_MIN <= x <= INT_MAX
  }

  predicate IsDigit(c: char) {
    '0' <= c <= '9'
  }

  predicate AllDigits(s: string) {
    forall i :: 0 <= i < |s| ==> IsDigit(s[i])
  }

  function DigitChar(d: nat): (c: char)
    requires d < 10
    ensures IsDigit(c)
  {
    ('0' as int + d) as char
  }

  /** The decimal digits of `n`, most significant first, without leading zeros. */
  function NatToString(n: nat): (s: string)
    ensures |s| > 0 && AllDigits(s)
    decreases n
  {
    if n < 10 then [DigitChar(n)] else NatToString(n / 10) + [DigitChar(n % 10)]
  }

  /** String.format("%d", x): an optional minus sign followed by the decimal digits. */
  function IntToString(x: int): (s: string)
    ensures |s| > 0 && (s[0] == '-' || IsDigit(s[0]))
    ensures forall i :: 1 <= i < |s| ==> IsDigit(s[i])
  {
    if x < 0 then "-" + NatToString(-x) else NatToString(x)
  }

  /** The number a non-empty string of decimal digits stands for. */
  function DigitsValue(s: string): nat
    requires AllDigits(s)
  {
    if s == [] then 0
    else DigitsValue(s[..|s| - 1]) * 10 + (s[|s| - 1] as int - '0' as int)
  }

  /** Integer.parseInt(s): an optional sign '-' or '+', at least one decimal
      digit and nothing else, with a value inside the range of an int;
      None stands for the NumberFormatException. */
  function ParseInt(s: string): (r: Option<int>)
    ensures r.Some? ==> IsInt32(r.value)
  {
    if |s| == 0 then None
    else
      var negative := s[0] == '-';
      var digits := if s[0] == '-' || s[0] == '+' then s[1..] else s;
      if |digits| == 0 || !AllDigits(digits) then None
      else
        var v: int := if negative then 0 - DigitsValue(digits) else DigitsValue(digits);
        if IsInt32(v) then Some(v) else None
  }

  /** Boolean.parseBoolean(s): true exactly for "true" in any mix of upper and lower case. */
  predicate ParseBoolean(s: string) {
    |s| == 4 && LowerAscii(s[0]) == 't' && LowerAscii(s[1]) == 'r'
    && LowerAscii(s[2]) == 'u' && LowerAscii(s[3]) == 'e'
  }

  function LowerAscii(c: char): char {
    if 'A' <= c <= 'Z' then (c as int + 32) as char else c
  }

  /** Boolean's String.valueOf. */
  function BoolToString(b: bool): string {
    if b then "true" else "false"
  }

  /** String.trim: drops every leading and trailing character up to U+0020. */
  function Trim(s: string): string {
    TrimRight(TrimLeft(s))
  }

  function TrimLeft(s: string): (r: string)
    ensures |r| <= |s|
  {
    if |s| > 0 && s[0] <= ' ' then TrimLeft(s[1..]) else s
  }

  function TrimRight(s: string): (r: string)
    ensures |r| <= |s|
  {
    if |s| > 0 && s[|s| - 1] <= ' ' then TrimRight(s[..|s| - 1]) else s
  }

  /** The pieces of `s` between the occurrences of `c`, empty pieces included:
      one more piece than there are occurrences. */
  function SplitAll(s: string, c: char): (parts: seq<string>)
    ensures |parts| > 0
  {
    if |s| == 0 then [""]
    else
      var rest := SplitAll(s[1..], c);
      if s[0] == c then [""] + rest else [[s[0]] + rest[0]] + rest[1..]
  }

  function DropTrailingEmpty(parts: seq<string>): (r: seq<string>)
    ensures |r| <= |parts| && r == parts[..|r|]
  {
    if |parts| > 0 && parts[|parts| - 1] == "" then DropTrailingEmpty(parts[..|parts| - 1]) else parts
  }

  /** s.split(p) for a pattern that matches the single character `c`: the whole
      string when `c` does not occur, and otherwise the pieces between the
      occurrences with the trailing empty pieces removed. */
  function Split(s: string, c: char): seq<string> {
    if c !in s then [s] else DropTrailingEmpty(SplitAll(s, c))
  }

  predicate StartsWith(s: string, prefix: string) {
    |prefix| <= |s| && s[..|prefix|] == prefix
  }

  predicate EndsWith(s: string, suffix: string) {
    |suffix| <= |s| && s[|s| - |suffix|..] == suffix
  }

  /** List.indexOf: the first position of `x`, or -1. */
  function IndexOf<T(==)>(xs: seq<T>, x: T): (r: int)
    ensures -1 <= r < |xs|
    ensures r == -1 <==> x !in xs
    ensures r >= 0 ==> xs[r] == x && x !in xs[..r]
  {
    if |xs| == 0 then -1
    else if xs[0] == x then 0
    else
      var k := IndexOf(xs[1..], x);
      assert xs == [xs[0]] + xs[1..];
      if k == -1 then -1 else k + 1
  }

  // ----- the formatting routines undone by the parsing routines -----

  lemma {:induction false} DigitsValueOfNatToString(n: nat)
    ensures DigitsValue(NatToString(n)) == n
    decreases n
  {
    if n >= 10 {
      var s := NatToString(n / 10);
      DigitsValueOfNatToString(n / 10);
      assert (s + [DigitChar(n % 10)])[..|s|] == s;
    }
  }

  /** Integer.parseInt reads back what String.format("%d") writes, for every int. */
  lemma ParseIntOfIntToString(x: int)
    requires IsInt32(x)
    ensures ParseInt(IntToString(x)) == Some(x)
  {
    if x < 0 {
      assert IntToString(x)[1..] == NatToString(-x);
      DigitsValueOfNatToString(-x);
    } else {
      DigitsValueOfNatToString(x);
    }
  }

  /** A decimal number holds no character other than a sign and digits. */
  lemma NoOtherCharInIntToString(x: int, c: char)
    requires c != '-' && !IsDigit(c)
    ensures c !in IntToString(x)
  {
  }

  /** String.trim leaves a string alone that starts and ends with a visible character. */
  lemma TrimOfVisible(x: string)
    requires |x| > 0 && x[0] > ' ' && x[|x| - 1] > ' '
    ensures Trim(x) == x && Trim(" " + x) == x && Trim(x + " ") == x && Trim(" " + x + " ") == x
  {
    assert (" " + x)[1..] == x;
    assert (" " + x + " ")[1..] == x + " ";
    assert (x + " ")[..|x|] == x;
  }

  /** A number written by String.format("%d") starts and ends with a visible character. */
  lemma IntToStringIsVisible(x: int)
    ensures var s := IntToString(x); |s| > 0 && s[0] > ' ' && s[|s| - 1] > ' '
  {
  }

  /** Splitting at c a string whose first piece is a splits off a. */
  lemma {:induction false} SplitAllFirst(a: string, b: string, c: char)
    requires c !in a
    ensures SplitAll(a + [c] + b, c) == [a] + SplitAll(b, c)
  {
    if a != [] {
      SplitAllFirst(a[1..], b, c);
      assert (a + [c] + b)[1..] == a[1..] + [c] + b;
      assert (a + [c] + b)[0] == a[0] && a[0] != c;
      assert [a[0]] + a[1..] == a;
    } else {
      assert (a + [c] + b)[1..] == b;
    }
  }

  /** A string without c is a single piece. */
  lemma {:induction false} SplitAllNone(a: string, c: char)
    requires c !in a
    ensures SplitAll(a, c) == [a]
  {
    if a != [] {
      SplitAllNone(a[1..], c);
      assert a == [a[0]] + a[1..];
    }
  }

  /** Splitting at c a string made of two pieces without c, the last one not empty. */
  lemma SplitTwo(a: string, b: string, c: char)
    requires c !in a && c !in b && b != []
    ensures Split(a + [c] + b, c) == [a, b]
  {
    SplitAllFirst(a, b, c);
    SplitAllNone(b, c);
    assert (a + [c] + b)[|a|] == c;
  }
}
