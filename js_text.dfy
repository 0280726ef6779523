/**
 * The JavaScript built-ins the library relies on, on strings of characters:
 * `String.prototype.indexOf`, `String.prototype.trim`, `Array.prototype.indexOf`,
 * reading a character past the end, and `String(n)` for an integer `n`.
 */
module JsText {
  import opened Wrappers

  /** `s[k]`: a character, or undefined past either end. */
  function CharAt(s: string, k: int): (r: Option<char>)
    ensures r.Some? <==> 0 <= k < |s|
    ensures r.Some? ==> r.value == s[k]
  {
    if 0 <= k < |s| then Some(s[k]) else None
  }

  /** `q` occurs in `s` starting at position `k`. */
  predicate OccursAt(s: string, q: string, k: int) {
    0 <= k && k + |q| <= |s| && s[k..k + |q|] == q
  }

  /** `s.indexOf(q, from)`: the first occurrence at or after `from`, or -1. */
  function IndexOfFrom(s: string, q: string, from: nat): (k: int)
    ensures k == -1 || (from <= k && OccursAt(s, q, k))
    ensures forall j :: from <= j && (k == -1 || j < k) ==> !OccursAt(s, q, j)
    decreases |s| - from
  {
    if from + |q| > |s| then -1
    else if s[from..from + |q|] == q then from
    else IndexOfFrom(s, q, from + 1)
  }

  /** `s.indexOf(q)`: the first occurrence of `q` in `s`, or -1 when there is none. */
  function IndexOf(s: string, q: string): (k: int)
    ensures k == -1 || OccursAt(s, q, k)
    ensures forall j :: 0 <= j && (k == -1 || j < k) ==> !OccursAt(s, q, j)
  {
    IndexOfFrom(s, q, 0)
  }

  /** `a.indexOf(x)` on an array: the first position holding `x`, or -1. */
  function FirstIndex<T(==)>(a: seq<T>, x: T): (k: int)
    ensures k == -1 <==> x !in a
    ensures k != -1 ==> 0 <= k < |a| && a[k] == x && x !in a[..k]
  {
    if a == [] then -1
    else if a[0] == x then 0
    else
      var k := FirstIndex(a[1..], x);
      if k == -1 then -1
      else
        assert a[..k + 1] == [a[0]] + a[1..][..k];
        k + 1
  }

  /** The characters `trim` removes: white space and line terminators. */
  predicate IsJsWhitespace(c: char) {
    || c == '\t' || c == '\n' || c == '\U{000B}' || c == '\U{000C}' || c == '\r' || c == ' '
    || c == '\U{00A0}' || c == '\U{1680}' || ('\U{2000}' <= c <= '\U{200A}')
    || c == '\U{2028}' || c == '\U{2029}' || c == '\U{202F}' || c == '\U{205F}'
    || c == '\U{3000}' || c == '\U{FEFF}'
  }

  /** `s` with its leading white space removed. */
  function TrimStart(s: string): (t: string)
    ensures |t| <= |s| && t == s[|s| - |t|..]
    ensures forall k :: 0 <= k < |s| - |t| ==> IsJsWhitespace(s[k])
    ensures t != [] ==> !IsJsWhitespace(t[0])
  {
    if s != [] && IsJsWhitespace(s[0]) then TrimStart(s[1..]) else s
  }

  /** `s` with its trailing white space removed. */
  function TrimEnd(s: string): (t: string)
    ensures |t| <= |s| && t == s[..|t|]
    ensures forall k :: |t| <= k < |s| ==> IsJsWhitespace(s[k])
    ensures t != [] ==> !IsJsWhitespace(t[|t| - 1])
  {
    if s != [] && IsJsWhitespace(s[|s| - 1]) then TrimEnd(s[..|s| - 1]) else s
  }

  /** `s.trim()`: no longer than `s`, and neither starting nor ending with white space. */
  function Trim(s: string): (t: string)
    ensures |t| <= |s|
    ensures t != [] ==> !IsJsWhitespace(t[0]) && !IsJsWhitespace(t[|t| - 1])
  {
    var a := TrimStart(s);
    var t := TrimEnd(a);
    assert t != [] ==> t[0] == a[0];
    t
  }

  /** Trimming keeps a contiguous run of `s` with only white space outside it. */
  lemma TrimSlice(s: string)
    ensures var t, i := Trim(s), |s| - |TrimStart(s)|;
      && i + |t| <= |s| && t == s[i..i + |t|]
      && (forall k :: 0 <= k < i ==> IsJsWhitespace(s[k]))
      && (forall k :: i + |t| <= k < |s| ==> IsJsWhitespace(s[k]))
  {
    var a := TrimStart(s);
    var t := TrimEnd(a);
    var i := |s| - |a|;
    assert a == s[i..];
    assert t == s[i..i + |t|] by {
      assert t == a[..|t|];
    }
    forall k | i + |t| <= k < |s| ensures IsJsWhitespace(s[k]) {
      assert s[k] == a[k - i];
    }
  }

  /** The decimal digit for `d`. */
  function DigitChar(d: nat): (c: char)
    requires d < 10
    ensures '0' <= c <= '9'
    ensures c as int - '0' as int == d
  {
    (48 + d) as char
  }

  /** Every character of `s` is a decimal digit. */
  predicate AllDigits(s: string) {
    forall k :: 0 <= k < |s| ==> '0' <= s[k] <= '9'
  }

  /** The number a string of decimal digits denotes, most significant digit first. */
  function DigitsValue(s: string): nat
    requires AllDigits(s)
  {
    if s == [] then 0
    else DigitsValue(s[..|s| - 1]) * 10 + (s[|s| - 1] as int - '0' as int)
  }

  /** A numeral as `String` writes a non-negative integer: digits, with no leading zero. */
  predicate IsNatNumeral(s: string) {
    |s| >= 1 && AllDigits(s) && (|s| > 1 ==> s[0] != '0')
  }

  /** The decimal numeral of `n`, without leading zeros. */
  function NatString(n: nat): (s: string)
    ensures IsNatNumeral(s) && DigitsValue(s) == n
    ensures n < 10 <==> |s| == 1
  {
    if n < 10 then [DigitChar(n)]
    else
      var t := NatString(n / 10);
      var s := t + [DigitChar(n % 10)];
      assert s[..|s| - 1] == t;
      s
  }

  /** `String(n)` for an integer `n`: the numeral of its magnitude, after '-' when it is negative. */
  function DecimalString(n: int): (s: string)
    ensures |s| >= 1
    ensures n < 0 <==> s[0] == '-'
    ensures n >= 0 ==> IsNatNumeral(s) && DigitsValue(s) == n
    ensures n < 0 ==> IsNatNumeral(s[1..]) && DigitsValue(s[1..]) == -n
  {
    if n < 0 then
      var s := "-" + NatString(-n);
      assert s[1..] == NatString(-n);
      s
    else NatString(n)
  }

  /** Reading a numeral and writing the number back gives the same numeral. */
  lemma {:induction false} NatStringOfValue(s: string)
    requires IsNatNumeral(s)
    ensures NatString(DigitsValue(s)) == s
    decreases |s|
  {
    var last := s[|s| - 1] as int - '0' as int;
    if |s| == 1 {
      assert s[..0] == [];
      assert [DigitChar(last)] == s;
    } else {
      var t := s[..|s| - 1];
      assert t[0] == s[0];
      PositiveValue(t);
      NatStringOfValue(t);
      var n := DigitsValue(s);
      assert n == DigitsValue(t) * 10 + last;
      assert n / 10 == DigitsValue(t) && n % 10 == last;
      assert s == t + [DigitChar(last)];
    }
  }

  /** A numeral that does not start with '0' denotes a positive number. */
  lemma {:induction false} PositiveValue(s: string)
    requires |s| >= 1 && AllDigits(s) && s[0] != '0'
    ensures DigitsValue(s) >= 1
    decreases |s|
  {
    if |s| > 1 {
      var t := s[..|s| - 1];
      assert t[0] == s[0];
      PositiveValue(t);
    }
  }

  lemma {:induction false} NatStringInjective(a: nat, b: nat)
    requires NatString(a) == NatString(b)
    ensures a == b
  {
    if a >= 10 && b >= 10 {
      var sa, sb := NatString(a / 10), NatString(b / 10);
      assert NatString(a)[..|sa|] == sa;
      assert NatString(b)[..|sb|] == sb;
      assert DigitChar(a % 10) == NatString(a)[|sa|] == DigitChar(b % 10);
      NatStringInjective(a / 10, b / 10);
    }
  }

  /** Distinct integers have distinct decimal strings. */
  lemma DecimalStringInjective(a: int, b: int)
    requires DecimalString(a) == DecimalString(b)
    ensures a == b
  {
    if a < 0 && b < 0 {
      assert NatString(-a) == DecimalString(a)[1..] == DecimalString(b)[1..] == NatString(-b);
      NatStringInjective(-a, -b);
    } else if a >= 0 && b >= 0 {
      NatStringInjective(a, b);
    }
  }
}
