/** JavaScript's `parseInt(string)` with no radix argument: leading white
    space is skipped, one `+` or `-` is taken as the sign, a `0x`/`0X`
    prefix switches to base 16, and the longest run of digits that follows
    is the value; with no digit at all the result is NaN, written `None`. */
module JsNumber {
  import opened Wrappers
  import opened Text

  /** The value of `c` as a digit in bases up to 36, or 36 when it is not
      a digit in any base. */
  function DigitValue(c: char): (v: nat)
    ensures v <= 36
  {
    if '0' <= c <= '9' then (c as int) - ('0' as int)
    else if 'a' <= c <= 'z' then (c as int) - ('a' as int) + 10
    else if 'A' <= c <= 'Z' then (c as int) - ('A' as int) + 10
    else 36
  }

  /** Length of the longest prefix of `s` made of digits of `radix`. */
  function DigitRun(s: string, radix: nat): (k: nat)
    ensures k <= |s|
    ensures forall i :: 0 <= i < k ==> DigitValue(s[i]) < radix
    ensures k < |s| ==> DigitValue(s[k]) >= radix
  {
    if s == [] || DigitValue(s[0]) >= radix then 0 else 1 + DigitRun(s[1..], radix)
  }

  /** The number the digits of `s` spell in base `radix`. */
  function ValueOf(s: string, radix: nat): nat
  {
    if s == [] then 0
    else ValueOf(s[..|s| - 1], radix) * radix + DigitValue(s[|s| - 1])
  }

  /** The number an unsigned numeral starts with: a `0x`/`0X` prefix
      selects base 16, and the longest run of digits is read; `None` when
      there is no digit. */
  function ParseMagnitude(unsigned: string): (r: Option<nat>)
    ensures r == None <==>
      var hex := |unsigned| >= 2 && unsigned[0] == '0' && (unsigned[1] == 'x' || unsigned[1] == 'X');
      DigitRun(if hex then unsigned[2..] else unsigned, if hex then 16 else 10) == 0
  {
    var hex := |unsigned| >= 2 && unsigned[0] == '0' && (unsigned[1] == 'x' || unsigned[1] == 'X');
    var digits := if hex then unsigned[2..] else unsigned;
    var radix := if hex then 16 else 10;
    var n := DigitRun(digits, radix);
    if n == 0 then None else Some(ValueOf(digits[..n], radix))
  }

  /** `parseInt` after the leading white space: one `+` or `-`, then the
      magnitude. Only a `-` makes the result negative. */
  function ParseSigned(u: string): (r: Option<int>)
    ensures u == [] ==> r.None?
    ensures r.Some? && r.value < 0 ==> u[0] == '-'
  {
    if u != [] && u[0] == '-' then
      match ParseMagnitude(u[1..])
      case None => None
      case Some(magnitude) => Some(-(magnitude as int))
    else
      var unsigned := if u != [] && u[0] == '+' then u[1..] else u;
      match ParseMagnitude(unsigned)
      case None => None
      case Some(magnitude) => Some(magnitude as int)
  }

  /** `parseInt(s)`; `parseInt(undefined)` reads the text `undefined` and
      is NaN, and so is an empty or all white-space string. A negative
      result needs a `-` as the first character after the white space. */
  function ParseInt(s: Option<string>): (r: Option<int>)
    ensures s.None? ==> r.None?
    ensures s.Some? && TrimStart(s.value) == [] ==> r.None?
    ensures r.Some? && r.value < 0 ==> s.Some? && TrimStart(s.value)[0] == '-'
  {
    if s.None? then None else ParseSigned(TrimStart(s.value))
  }

  /** The decimal numeral of `n`, as `String(n)` writes it. */
  function Decimal(n: nat): (s: string)
    ensures |s| >= 1
    ensures forall i :: 0 <= i < |s| ==> '0' <= s[i] <= '9'
  {
    if n < 10 then [('0' as int + n) as char]
    else Decimal(n / 10) + [('0' as int + n % 10) as char]
  }

  // ----- properties -----

  /** Reading back a decimal numeral gives its number. */
  lemma {:induction false} DecimalValue(n: nat)
    ensures ValueOf(Decimal(n), 10) == n
    ensures DigitRun(Decimal(n), 10) == |Decimal(n)|
    decreases n
  {
    var s := Decimal(n);
    if n >= 10 {
      DecimalValue(n / 10);
      assert s[..|s| - 1] == Decimal(n / 10);
    }
  }

  /** A decimal numeral reads back as its number. */
  lemma DecimalMagnitude(n: nat)
    ensures ParseMagnitude(Decimal(n)) == Some(n)
  {
    var s := Decimal(n);
    DecimalValue(n);
    assert !(|s| >= 2 && (s[1] == 'x' || s[1] == 'X'));
    assert s[..|s|] == s;
  }

  /** `DigitRun` is the only length with its three properties. */
  lemma DigitRunUnique(s: string, radix: nat, m: nat)
    requires m <= |s|
    requires forall i :: 0 <= i < m ==> DigitValue(s[i]) < radix
    requires m < |s| ==> DigitValue(s[m]) >= radix
    ensures DigitRun(s, radix) == m
  {
  }

  /** A run of decimal digits followed by text that does not go on with a
      digit reads back as the digits' value, leading zeros included; the
      one exception is a lone `0` followed by `x`, a hexadecimal prefix. */
  lemma DecimalDigitsMagnitude(digits: string, t: string)
    requires digits != [] && forall i :: 0 <= i < |digits| ==> '0' <= digits[i] <= '9'
    requires t == [] || DigitValue(t[0]) >= 10
    requires |digits| == 1 && digits[0] == '0' ==> t == [] || (t[0] != 'x' && t[0] != 'X')
    ensures ParseMagnitude(digits + t) == Some(ValueOf(digits, 10))
  {
    var s := digits + t;
    assert s[..|digits|] == digits;
    assert DigitRun(s, 10) == |digits| by {
      forall i | 0 <= i < |digits| ensures DigitValue(s[i]) < 10 { assert s[i] == digits[i]; }
      if t != [] { assert s[|digits|] == t[0]; }
      DigitRunUnique(s, 10, |digits|);
    }
    assert !(|s| >= 2 && s[0] == '0' && (s[1] == 'x' || s[1] == 'X')) by {
      if |s| >= 2 && s[0] == '0' {
        if |digits| >= 2 {
          assert s[1] == digits[1];
        } else {
          assert s[1] == t[0];
        }
      }
    }
  }

  /** A decimal numeral followed by text that does not go on with a digit
      reads back as its number: what comes after the digits is ignored,
      unless the numeral is `0` and the text starts with `x`, which makes
      a hexadecimal prefix. */
  lemma DecimalPrefixMagnitude(n: nat, t: string)
    requires t == [] || DigitValue(t[0]) >= 10
    requires n == 0 ==> t == [] || (t[0] != 'x' && t[0] != 'X')
    ensures ParseMagnitude(Decimal(n) + t) == Some(n)
  {
    DecimalValue(n);
    var d := Decimal(n);
    if |d| == 1 && d[0] == '0' {
      assert ValueOf(d, 10) == 0;
    }
    DecimalDigitsMagnitude(d, t);
  }

  /** Leading zeros add nothing to a numeral's value, in any base. */
  lemma {:induction false} LeadingZeros(zeros: string, d: string, radix: nat)
    requires forall i :: 0 <= i < |zeros| ==> zeros[i] == '0'
    ensures ValueOf(zeros + d, radix) == ValueOf(d, radix)
    decreases |d|
  {
    if d == [] {
      assert zeros + d == zeros;
      AllZeros(zeros, radix);
    } else {
      var s := zeros + d;
      assert s[..|s| - 1] == zeros + d[..|d| - 1];
      assert s[|s| - 1] == d[|d| - 1];
      LeadingZeros(zeros, d[..|d| - 1], radix);
    }
  }

  /** A numeral of zeros only is worth nothing. */
  lemma {:induction false} AllZeros(zeros: string, radix: nat)
    requires forall i :: 0 <= i < |zeros| ==> zeros[i] == '0'
    ensures ValueOf(zeros, radix) == 0
    decreases |zeros|
  {
    if zeros != [] {
      AllZeros(zeros[..|zeros| - 1], radix);
    }
  }

  /** `parseInt` of the decimal numeral of `n` written with leading zeros
      (`08080`), before text that does not go on with a digit, is `n`. */
  lemma ZeroPaddedNumeral(zeros: string, n: nat, t: string)
    requires zeros != [] && forall i :: 0 <= i < |zeros| ==> zeros[i] == '0'
    requires t == [] || DigitValue(t[0]) >= 10
    ensures ParseMagnitude(zeros + Decimal(n) + t) == Some(n)
    ensures ParseInt(Some(zeros + Decimal(n) + t)) == Some(n as int)
  {
    var d := Decimal(n);
    var digits := zeros + d;
    var u := digits + t;
    assert ParseMagnitude(u) == Some(n) by {
      assert forall i :: 0 <= i < |digits| ==> '0' <= digits[i] <= '9' by {
        forall i | 0 <= i < |digits| ensures '0' <= digits[i] <= '9' {
          if i < |zeros| { assert digits[i] == zeros[i]; } else { assert digits[i] == d[i - |zeros|]; }
        }
      }
      DecimalDigitsMagnitude(digits, t);
      LeadingZeros(zeros, d, 10);
      DecimalValue(n);
    }
    assert u[0] == '0' by { assert u[0] == digits[0] == zeros[0]; }
    assert TrimStart(u) == u by {
      TrimStartPadded([], u);
      assert [] + u == u;
    }
    SignedDigits(u, n);
  }

  /** A `0x` or `0X` prefix and hexadecimal digits, before text that does
      not go on with one, read back as the digits' value in base 16. */
  lemma HexMagnitude(x: char, digits: string, t: string)
    requires x == 'x' || x == 'X'
    requires digits != [] && forall i :: 0 <= i < |digits| ==> DigitValue(digits[i]) < 16
    requires t == [] || DigitValue(t[0]) >= 16
    ensures ParseMagnitude(['0', x] + digits + t) == Some(ValueOf(digits, 16))
  {
    var rest := digits + t;
    var s := ['0', x] + digits + t;
    assert s == ['0', x] + rest;
    assert s[0] == '0' && s[1] == x && s[2..] == rest;
    assert rest[..|digits|] == digits;
    assert DigitRun(rest, 16) == |digits| by {
      forall i | 0 <= i < |digits| ensures DigitValue(rest[i]) < 16 { assert rest[i] == digits[i]; }
      if t != [] { assert rest[|digits|] == t[0]; }
      DigitRunUnique(rest, 16, |digits|);
    }
  }

  /** `parseInt` of a hexadecimal numeral after any white space, before
      text that does not go on with a hexadecimal digit, is the digits'
      value in base 16. */
  lemma HexNumeral(lead: string, x: char, digits: string, t: string)
    requires forall j :: 0 <= j < |lead| ==> IsSpace(lead[j])
    requires x == 'x' || x == 'X'
    requires digits != [] && forall i :: 0 <= i < |digits| ==> DigitValue(digits[i]) < 16
    requires t == [] || DigitValue(t[0]) >= 16
    ensures ParseInt(Some(lead + ['0', x] + digits + t)) == Some(ValueOf(digits, 16) as int)
  {
    var p := ['0', x] + digits;
    var u := p + t;
    ConcatAssoc(lead, ['0', x], digits);
    ConcatAssoc(lead, p, t);
    assert u[0] == '0' && !IsSpace(u[0]) by { assert u[0] == p[0]; }
    TrimStartPadded(lead, u);
    HexMagnitude(x, digits, t);
    SignedDigits(u, ValueOf(digits, 16));
  }

  /** `0x1F90`, as a configuration file may give a port, is 8080. */
  lemma HexPort()
    ensures ParseInt(Some("0x1F90")) == Some(8080)
  {
    HexNumeral([], 'x', "1F90", []);
    HexDigitsValue();
    assert [] + ['0', 'x'] + "1F90" + [] == "0x1F90";
  }

  /** The digits `1F90` are worth 8080 in base 16. */
  lemma HexDigitsValue()
    ensures ValueOf("1F90", 16) == 8080
  {
    assert ValueOf("1", 16) == 1 by { assert "1"[..0] == ""; }
    assert ValueOf("1F", 16) == 31 by { assert "1F"[..1] == "1"; }
    assert ValueOf("1F9", 16) == 505 by { assert "1F9"[..2] == "1F"; }
    assert "1F90"[..3] == "1F9";
  }

  /** A `+` sign in front of an unsigned numeral changes nothing. */
  lemma PlusSign(u: string)
    requires u == [] || (u[0] != '+' && u[0] != '-')
    ensures ParseSigned(['+'] + u) == ParseSigned(u)
  {
    var w := ['+'] + u;
    assert w[0] == '+' && w[1..] == u;
  }

  /** White space is skipped only at the start: what follows the leading
      white space is read as it is. */
  lemma TrimStartPadded(lead: string, x: string)
    requires forall j :: 0 <= j < |lead| ==> IsSpace(lead[j])
    requires x == [] || !IsSpace(x[0])
    ensures TrimStart(lead + x) == x
  {
    var s := lead + x;
    assert s[|lead|..] == x;
    forall j | 0 <= j < |lead| ensures IsSpace(s[j]) { assert s[j] == lead[j]; }
    if x != [] { assert s[|lead|] == x[0]; }
    SpaceLenUnique(s, |lead|);
  }

  /** `parseInt` of a decimal numeral, after any white space and before
      any text that does not go on with a digit, is the numeral's number,
      negated after a `-`; this is how a port such as `8080` or `8080abc`
      is read. */
  lemma ParseIntNumeral(lead: string, n: nat, t: string)
    requires forall j :: 0 <= j < |lead| ==> IsSpace(lead[j])
    requires t == [] || DigitValue(t[0]) >= 10
    requires n == 0 ==> t == [] || (t[0] != 'x' && t[0] != 'X')
    ensures ParseInt(Some(lead + Decimal(n) + t)) == Some(n as int)
    ensures ParseInt(Some(lead + "-" + Decimal(n) + t)) == Some(-(n as int))
  {
    var d := Decimal(n);
    SignedNumeral(n, t);
    ConcatAssoc(lead, d, t);
    ConcatAssoc(lead + "-", d, t);
    ConcatAssoc(lead, ['-'], d + t);
    TrimStartPadded(lead, d + t);
    TrimStartPadded(lead, ['-'] + (d + t));
  }

  /** The sign and magnitude step on a decimal numeral with or without a
      `-` in front. */
  lemma SignedNumeral(n: nat, t: string)
    requires t == [] || DigitValue(t[0]) >= 10
    requires n == 0 ==> t == [] || (t[0] != 'x' && t[0] != 'X')
    ensures Decimal(n) + t != [] && !IsSpace((Decimal(n) + t)[0])
    ensures ParseSigned(Decimal(n) + t) == Some(n as int)
    ensures ParseSigned(['-'] + (Decimal(n) + t)) == Some(-(n as int))
  {
    var u := Decimal(n) + t;
    assert u[0] == Decimal(n)[0];
    DecimalPrefixMagnitude(n, t);
    SignedDigits(u, n);
  }

  /** With no sign, the magnitude is the value; a `-` negates it. */
  lemma SignedDigits(u: string, m: nat)
    requires u != [] && '0' <= u[0] <= '9'
    requires ParseMagnitude(u) == Some(m)
    ensures ParseSigned(u) == Some(m as int)
    ensures ParseSigned(['-'] + u) == Some(-(m as int))
  {
    var w := ['-'] + u;
    assert w[0] == '-' && w[1..] == u;
  }

  lemma ConcatAssoc(a: string, b: string, c: string)
    ensures a + b + c == a + (b + c)
  {
  }

  /** A token with no leading digit, sign or white space (`undefined`,
      `abc`) is NaN. */
  lemma NoDigitIsNaN(s: string)
    requires s != [] && DigitValue(s[0]) >= 10 && !IsSpace(s[0]) && s[0] != '-' && s[0] != '+'
    ensures ParseInt(Some(s)) == None
  {
    assert SpaceLen(s) == 0;
  }
}
