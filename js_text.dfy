/**
 * The JavaScript built-ins the timer's text handling rests on:
 * `String.prototype.trim`, the global `parseInt` with no radix, the `||`
 * fallback on numbers, and `%` on integers. Numbers are modelled as
 * unbounded integers; `NaN` is `None`.
 */
module JsText {
  import opened Wrappers
  import opened Decimal

  /**
   * The characters `trim` and `parseInt` skip: the WhiteSpace and
   * LineTerminator productions of section 12.2 and 12.3 of ECMA-262.
   */
  predicate IsSpace(c: char) {
    var n := c as int;
    n == 0x09 || n == 0x0A || n == 0x0B || n == 0x0C || n == 0x0D || n == 0x20 ||
    n == 0xA0 || n == 0x1680 || (0x2000 <= n <= 0x200A) || n == 0x2028 || n == 0x2029 ||
    n == 0x202F || n == 0x205F || n == 0x3000 || n == 0xFEFF
  }

  /** `s` without its leading white space. */
  function TrimStart(s: string): (r: string)
    ensures |r| <= |s|
  {
    if s != [] && IsSpace(s[0]) then TrimStart(s[1..]) else s
  }

  /** `TrimStart` drops a run of white space and stops at the first other character. */
  lemma {:induction false} TrimStartParts(s: string)
    ensures TrimStart(s) == s[|s| - |TrimStart(s)|..]
    ensures TrimStart(s) == [] || !IsSpace(TrimStart(s)[0])
    ensures forall i :: 0 <= i < |s| - |TrimStart(s)| ==> IsSpace(s[i])
  {
    if s != [] && IsSpace(s[0]) {
      TrimStartParts(s[1..]);
    }
  }

  /** `s` without its trailing white space. */
  function TrimEnd(s: string): (r: string)
    ensures |r| <= |s|
  {
    if s != [] && IsSpace(s[|s| - 1]) then TrimEnd(s[..|s| - 1]) else s
  }

  /** `TrimEnd` drops a run of white space at the end and stops at the last other character. */
  lemma {:induction false} TrimEndParts(s: string)
    ensures TrimEnd(s) == s[..|TrimEnd(s)|]
    ensures TrimEnd(s) == [] || !IsSpace(TrimEnd(s)[|TrimEnd(s)| - 1])
    ensures forall i :: |TrimEnd(s)| <= i < |s| ==> IsSpace(s[i])
  {
    if s != [] && IsSpace(s[|s| - 1]) {
      TrimEndParts(s[..|s| - 1]);
    }
  }

  /** `s.trim()`. */
  function Trim(s: string): string {
    TrimEnd(TrimStart(s))
  }

  /** Text with no white space in it is its own trimmed form. */
  lemma TrimNoSpace(s: string)
    requires forall i :: 0 <= i < |s| ==> !IsSpace(s[i])
    ensures Trim(s) == s
  {
    if s != [] {
      assert !IsSpace(s[0]) && !IsSpace(s[|s| - 1]);
    }
  }

  /** The value of `c` as a digit of radix 10 or 16, if it is one. */
  function RadixDigit(c: char, radix: nat): Option<nat> {
    if '0' <= c <= '9' && (c as int) - ('0' as int) < radix then Some((c as int) - ('0' as int))
    else if radix == 16 && 'a' <= c <= 'f' then Some((c as int) - ('a' as int) + 10)
    else if radix == 16 && 'A' <= c <= 'F' then Some((c as int) - ('A' as int) + 10)
    else None
  }

  /** The longest prefix of `s` made of radix digits. */
  function DigitPrefix(s: string, radix: nat): (p: string)
    ensures |p| <= |s|
    ensures forall i :: 0 <= i < |p| ==> RadixDigit(p[i], radix).Some?
  {
    if s != [] && RadixDigit(s[0], radix).Some? then [s[0]] + DigitPrefix(s[1..], radix) else []
  }

  /** The prefix is the longest one: the character after it, if any, is not a digit. */
  lemma {:induction false} DigitPrefixLongest(s: string, radix: nat)
    ensures DigitPrefix(s, radix) == s[..|DigitPrefix(s, radix)|]
    ensures |DigitPrefix(s, radix)| < |s| ==> RadixDigit(s[|DigitPrefix(s, radix)|], radix).None?
  {
    if s != [] && RadixDigit(s[0], radix).Some? {
      DigitPrefixLongest(s[1..], radix);
    }
  }

  /** The number a string of radix digits denotes. */
  function RadixValue(s: string, radix: nat): nat
    requires forall i :: 0 <= i < |s| ==> RadixDigit(s[i], radix).Some?
  {
    if s == [] then 0
    else radix * RadixValue(s[..|s| - 1], radix) + RadixDigit(s[|s| - 1], radix).value
  }

  /** The digits after the optional sign, read as `parseInt` does without a radix argument. */
  function Magnitude(u: string): (r: Option<int>)
    ensures r.Some? ==> r.value >= 0
  {
    if |u| >= 2 && u[0] == '0' && (u[1] == 'x' || u[1] == 'X') then
      var h := DigitPrefix(u[2..], 16);
      if h == [] then None else Some(RadixValue(h, 16))
    else
      var d := DigitPrefix(u, 10);
      if d == [] then None else Some(RadixValue(d, 10))
  }

  /**
   * `parseInt(s)` (section 19.2.5 of ECMA-262): leading white space and one
   * sign are skipped, `0x` selects hexadecimal, and the longest run of digits
   * that follows is read; no digit at all gives `NaN`.
   */
  function ParseInt(s: string): Option<int> {
    var t := TrimStart(s);
    if |t| > 0 && t[0] == '-' then
      match Magnitude(t[1..])
      case None => None
      case Some(m) => Some(-m)
    else
      Magnitude(if |t| > 0 && t[0] == '+' then t[1..] else t)
  }

  /** `x || d` for a number `x`: `NaN` and zero are falsy. */
  function OrElse(x: Option<int>, d: int): (r: int)
    ensures r == d || (x.Some? && r == x.value)
    ensures r == 0 ==> d == 0
  {
    if x.Some? && x.value != 0 then x.value else d
  }

  /** `x % y` in JavaScript for `y > 0`: the remainder takes the sign of `x`. */
  function Rem(x: int, y: int): (r: int)
    requires y > 0
    ensures -y < r < y
    ensures x >= 0 ==> r >= 0
    ensures x <= 0 ==> r <= 0
  {
    if x >= 0 then x % y else -((-x) % y)
  }

  /** The remainder differs from `x` by a multiple of `y`; with its sign and bound, that makes the quotient `x / y` truncated toward zero. */
  lemma RemMultiple(x: int, y: int)
    requires y > 0
    ensures exists q :: x == q * y + Rem(x, y)
  {
    if x >= 0 {
      var q := x / y;
      assert x == q * y + Rem(x, y);
    } else {
      var q := (-x) / y;
      assert -x == q * y + (-x) % y;
      assert x == (-q) * y + Rem(x, y) by {
        assert (-q) * y == -(q * y);
      }
    }
  }

  lemma {:induction false} DecimalPrefix(s: string)
    requires AllDigits(s)
    ensures DigitPrefix(s, 10) == s
    ensures forall i :: 0 <= i < |s| ==> RadixDigit(s[i], 10).Some?
    ensures RadixValue(s, 10) == Value(s)
  {
    if s != [] {
      DecimalPrefix(s[1..]);
      assert s == [s[0]] + s[1..];
      DecimalValue(s);
    }
  }

  lemma {:induction false} DecimalValue(s: string)
    requires AllDigits(s)
    ensures forall i :: 0 <= i < |s| ==> RadixDigit(s[i], 10).Some?
    ensures RadixValue(s, 10) == Value(s)
  {
    if s != [] {
      DecimalValue(s[..|s| - 1]);
    }
  }

  lemma MagnitudeDigits(s: string)
    requires s != [] && AllDigits(s)
    ensures Magnitude(s) == Some(Value(s))
  {
    DecimalPrefix(s);
  }

  /** `parseInt` reads a plain run of decimal digits as its value. */
  lemma ParseIntDigits(s: string)
    requires s != [] && AllDigits(s)
    ensures ParseInt(s) == Some(Value(s))
  {
    assert !IsSpace(s[0]);
    MagnitudeDigits(s);
  }

  /** `parseInt(String(n)) === n`: reading back the decimal text of an integer. */
  lemma ParseIntOfText(n: int)
    ensures ParseInt(IntText(n)) == Some(n)
  {
    var a := if n < 0 then -n else n;
    ValueOfDigits(a);
    DigitsAreDigits(a);
    if n < 0 {
      var t := "-" + Digits(a);
      assert t[1..] == Digits(a);
      assert !IsSpace(t[0]);
      assert TrimStart(t) == t;
      MagnitudeDigits(Digits(a));
    } else {
      ParseIntDigits(Digits(a));
    }
  }
}
