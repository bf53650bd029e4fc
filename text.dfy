/**
 * Text primitives the program relies on from Rust's standard library, on
 * `string` (a `seq<char>`): `str::trim` and friends, `str::find`, decimal
 * formatting of integers and `i32::from_str`. Whitespace and digits are the
 * ASCII ones.
 */
module Text {
  import opened Results

  const I32_MIN: int := -0x8000_0000
  const I32_MAX: int := 0x7fff_ffff

  /** ASCII whitespace, as matched by `char::is_whitespace` and the regex class `\s`. */
  predicate IsSpace(c: char) {
    c == ' ' || c == '\t' || c == '\n' || c == '\r' || c == '\U{000B}' || c == '\U{000C}'
  }

  predicate IsDigit(c: char) {
    '0' <= c <= '9'
  }

  predicate AllSpaces(s: string) {
    forall i :: 0 <= i < |s| ==> IsSpace(s[i])
  }

  predicate AllDigits(s: string) {
    forall i :: 0 <= i < |s| ==> IsDigit(s[i])
  }

  /** `str::trim_start`: `s` without its leading whitespace. */
  function TrimStart(s: string): (r: string)
    ensures |r| <= |s|
  {
    if s != [] && IsSpace(s[0]) then TrimStart(s[1..]) else s
  }

  /** TrimStart removes the longest all-whitespace prefix, and nothing else. */
  lemma {:induction false} TrimStartRemovesLeadingSpaces(s: string)
    ensures var r := TrimStart(s);
      && r == s[|s| - |r|..]
      && AllSpaces(s[..|s| - |r|])
      && (r == [] || !IsSpace(r[0]))
  {
    if s != [] && IsSpace(s[0]) {
      TrimStartRemovesLeadingSpaces(s[1..]);
      var r := TrimStart(s);
      assert s[1..][|s| - 1 - |r|..] == s[|s| - |r|..];
      assert s[..|s| - |r|] == [s[0]] + s[1..][..|s| - 1 - |r|];
    }
  }

  /** `str::trim_end`: `s` without its trailing whitespace. */
  function TrimEnd(s: string): (r: string)
    ensures |r| <= |s|
  {
    if s != [] && IsSpace(s[|s| - 1]) then TrimEnd(s[..|s| - 1]) else s
  }

  /** TrimEnd removes the longest all-whitespace suffix, and nothing else. */
  lemma {:induction false} TrimEndRemovesTrailingSpaces(s: string)
    ensures var r := TrimEnd(s);
      && r == s[..|r|]
      && AllSpaces(s[|r|..])
      && (r == [] || !IsSpace(r[|r| - 1]))
  {
    if s != [] && IsSpace(s[|s| - 1]) {
      TrimEndRemovesTrailingSpaces(s[..|s| - 1]);
      var r := TrimEnd(s);
      assert s[..|s| - 1][..|r|] == s[..|r|];
      assert s[|r|..] == s[..|s| - 1][|r|..] + [s[|s| - 1]];
    }
  }

  /** `str::trim`: `s` without leading and trailing whitespace. */
  function Trim(s: string): (r: string)
    ensures |r| <= |s|
  {
    TrimEnd(TrimStart(s))
  }

  /**
   * Trim leaves a string that neither starts nor ends with whitespace, and
   * leaves nothing exactly when the whole string is whitespace.
   */
  lemma TrimProperties(s: string)
    ensures var r := Trim(s);
      && (r == [] || (!IsSpace(r[0]) && !IsSpace(r[|r| - 1])))
      && (r == [] <==> AllSpaces(s))
  {
    var t := TrimStart(s);
    var r := TrimEnd(t);
    TrimStartRemovesLeadingSpaces(s);
    TrimEndRemovesTrailingSpaces(t);
    if r == [] {
      // t starts with a non-space, so it can only be all spaces when it is empty
      assert t[|r|..] == t;
      assert s[..|s| - |t|] == s;
    } else {
      assert r[0] == t[0];
      assert s[|s| - |t|] == t[0];
    }
  }

  /** `str::trim_end_matches(c)` for one character: drops every trailing `c`. */
  function TrimEndMatches(s: string, c: char): (r: string)
    ensures |r| <= |s| && r == s[..|r|]
    ensures forall i :: |r| <= i < |s| ==> s[i] == c
    ensures r == [] || r[|r| - 1] != c
  {
    if s != [] && s[|s| - 1] == c then TrimEndMatches(s[..|s| - 1], c) else s
  }

  /** `str::find(c)`: the index of the first occurrence of `c`, if any. */
  function FindChar(s: string, c: char): (r: Option<nat>)
    ensures r.None? <==> c !in s
    ensures r.Some? ==> r.value < |s| && s[r.value] == c && c !in s[..r.value]
  {
    if s == [] then None
    else if s[0] == c then Some(0)
    else match FindChar(s[1..], c)
      case None => None
      case Some(i) => assert s[..i + 1] == [s[0]] + s[1..][..i]; Some(i + 1)
  }

  function DigitValue(c: char): (d: nat)
    requires IsDigit(c)
    ensures d < 10
  {
    c as int - '0' as int
  }

  function DigitChar(d: nat): (c: char)
    requires d < 10
    ensures IsDigit(c) && DigitValue(c) == d
  {
    ('0' as int + d) as char
  }

  /** The number a run of ASCII digits denotes (leading zeros allowed, no bound). */
  function DigitsValue(s: string): nat
    requires AllDigits(s)
  {
    if s == [] then 0 else DigitsValue(s[..|s| - 1]) * 10 + DigitValue(s[|s| - 1])
  }

  /** Decimal rendering of a natural number, as `format!("{}", n)` prints it. */
  function NatToString(n: nat): (r: string)
    ensures r != [] && AllDigits(r)
  {
    if n < 10 then [DigitChar(n)] else NatToString(n / 10) + [DigitChar(n % 10)]
  }

  /** Decimal rendering of an integer, with a leading `-` when it is negative. */
  function IntToString(n: int): (r: string)
    ensures r != []
    ensures n < 0 <==> r[0] == '-'
    ensures n >= 0 ==> AllDigits(r)
    ensures n < 0 ==> AllDigits(r[1..])
  {
    if n < 0 then "-" + NatToString(-n) else NatToString(n)
  }

  /** Reading back what NatToString printed gives the number. */
  lemma {:induction false} NatToStringRoundTrip(n: nat)
    ensures DigitsValue(NatToString(n)) == n
  {
    if n >= 10 {
      var s := NatToString(n);
      NatToStringRoundTrip(n / 10);
      assert s[..|s| - 1] == NatToString(n / 10);
    }
  }

  /** The rendering is canonical: it starts with `0` only for zero itself, so it never has a leading zero. */
  lemma {:induction false} NatToStringCanonical(n: nat)
    ensures var r := NatToString(n);
      && (r[0] == '0' <==> n == 0)
      && (|r| > 1 ==> r[0] != '0')
  {
    if n >= 10 {
      NatToStringCanonical(n / 10);
      assert NatToString(n)[0] == NatToString(n / 10)[0];
    } else {
      assert DigitValue(NatToString(n)[0]) == n;
    }
  }

  /** No leading zero either, after the `-` of a negative number, and never `-0`. */
  lemma IntToStringCanonical(n: int)
    ensures var r := IntToString(n);
      && (n >= 0 && |r| > 1 ==> r[0] != '0')
      && (n < 0 ==> |r| > 1 && r[1] != '0')
  {
    if n < 0 {
      NatToStringCanonical(-n);
      assert IntToString(n)[1..] == NatToString(-n);
    } else {
      NatToStringCanonical(n);
    }
  }

  lemma NatToStringInjective(a: nat, b: nat)
    ensures NatToString(a) == NatToString(b) ==> a == b
  {
    NatToStringRoundTrip(a);
    NatToStringRoundTrip(b);
  }

  lemma IntToStringInjective(a: int, b: int)
    ensures IntToString(a) == IntToString(b) ==> a == b
  {
    if IntToString(a) == IntToString(b) {
      if a < 0 {
        assert NatToString(-a) == IntToString(a)[1..] && NatToString(-b) == IntToString(b)[1..];
        NatToStringInjective(-a, -b);
      } else {
        NatToStringInjective(a, b);
      }
    }
  }

  /**
   * `s.parse::<i32>()`: an optional `+` or `-`, then one or more ASCII digits,
   * and the value must lie in the range of `i32`.
   */
  function ParseI32(s: string): (r: Option<int>)
    ensures r.Some? ==> I32_MIN <= r.value <= I32_MAX
  {
    if s == [] then None
    else
      var digits := if s[0] == '+' || s[0] == '-' then s[1..] else s;
      if digits == [] || !AllDigits(digits) then None
      else
        var v: int := if s[0] == '-' then -(DigitsValue(digits) as int) else DigitsValue(digits);
        if I32_MIN <= v <= I32_MAX then Some(v) else None
  }

  /**
   * `parse::<i32>` succeeds exactly on a non-empty run of ASCII digits,
   * optionally preceded by one `+` or `-`, that denotes a value in range,
   * and then returns that value.
   */
  lemma ParseI32Exactly(s: string, v: int)
    ensures ParseI32(s) == Some(v) <==>
      && I32_MIN <= v <= I32_MAX
      && (|| (s != [] && AllDigits(s) && v == DigitsValue(s))
          || (|s| > 1 && s[0] == '+' && AllDigits(s[1..]) && v == DigitsValue(s[1..]))
          || (|s| > 1 && s[0] == '-' && AllDigits(s[1..]) && v == -(DigitsValue(s[1..]) as int)))
  {
    if s != [] {
      var digits := s[1..];
      if s[0] == '+' {
        assert !AllDigits(s) by { assert !IsDigit(s[0]); }
        assert ParseI32(s) == if digits == [] || !AllDigits(digits) || DigitsValue(digits) > I32_MAX then None
          else Some(DigitsValue(digits) as int);
      } else if s[0] == '-' {
        assert !AllDigits(s) by { assert !IsDigit(s[0]); }
        assert ParseI32(s) == if digits == [] || !AllDigits(digits) || -(DigitsValue(digits) as int) < I32_MIN then None
          else Some(-(DigitsValue(digits) as int));
      } else {
        assert ParseI32(s) == if !AllDigits(s) || DigitsValue(s) > I32_MAX then None else Some(DigitsValue(s) as int);
      }
    }
  }

  /** Strings `parse::<i32>` refuses or accepts, among them the empty string, a bare sign and a padded number. */
  lemma ParseI32Examples()
    ensures ParseI32("") == None && ParseI32("-") == None && ParseI32("+") == None
    ensures ParseI32(" 7") == None && ParseI32("7x") == None && ParseI32("+-7") == None
    ensures ParseI32("+7") == Some(7) && ParseI32("-0") == Some(0) && ParseI32("007") == Some(7)
  {
    assert !IsDigit(' ') && !IsDigit('x') && !IsDigit('-');
    assert "7x"[1] == 'x' && "+-7"[1..][0] == '-';
    assert "007"[..2] == "00" && "00"[..1] == "0";
    assert DigitsValue("7") == 7 && DigitsValue("0") == 0;
  }

  /** A number outside the `i32` range, written in decimal, is refused. */
  lemma ParseI32RefusesOutOfRange(n: int)
    requires n < I32_MIN || n > I32_MAX
    ensures ParseI32(IntToString(n)) == None
  {
    var s := IntToString(n);
    if n < 0 {
      assert s[1..] == NatToString(-n);
      NatToStringRoundTrip(-n);
    } else {
      NatToStringRoundTrip(n);
    }
  }

  /** Every `i32` survives printing and parsing back. */
  lemma ParseI32RoundTrip(n: int)
    requires I32_MIN <= n <= I32_MAX
    ensures ParseI32(IntToString(n)) == Some(n)
  {
    var s := IntToString(n);
    if n < 0 {
      assert s[1..] == NatToString(-n);
      NatToStringRoundTrip(-n);
    } else {
      NatToStringRoundTrip(n);
    }
  }
}
