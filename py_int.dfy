/**
  Python's `int(text)` in base 10, as `add_student` applies it to the roll number:
  surrounding whitespace is ignored, an optional sign may lead, and the digits may be
  grouped by single underscores. Anything else raises ValueError, modelled as None.
*/
module PyInt {
  import opened Wrappers

  /** The characters `int()` strips from both ends: the ASCII whitespace `\t \n \v \f \r`
      and space, and the non-ASCII characters that `str.isspace` accepts (which `int()` first
      turns into spaces). The ASCII separators U+001C..U+001F pass `str.isspace` but are
      not stripped. */
  predicate IsSpace(c: char) {
    var n := c as int;
    || 9 <= n <= 13 || n == 32 || n == 0x85 || n == 0xA0 || n == 0x1680
    || 0x2000 <= n <= 0x200A || n == 0x2028 || n == 0x2029 || n == 0x202F
    || n == 0x205F || n == 0x3000
  }

  predicate IsDigit(c: char) {
    '0' <= c <= '9'
  }

  predicate AllSpace(s: string) {
    forall i :: 0 <= i < |s| ==> IsSpace(s[i])
  }

  /** Drops leading whitespace: what is left is a suffix of `s` that does not start with a space. */
  function StripStart(s: string): (r: string)
    ensures |r| <= |s| && r == s[|s| - |r|..]
    ensures AllSpace(s[..|s| - |r|])
    ensures r == [] || !IsSpace(r[0])
  {
    if s != [] && IsSpace(s[0]) then
      var tail := s[1..];
      var r := StripStart(tail);
      var cut := |s| - |r|;
      assert r == s[cut..] by {
        assert tail[cut - 1..] == s[cut..];
      }
      assert AllSpace(s[..cut]) by {
        forall i | 0 <= i < cut
          ensures IsSpace(s[..cut][i])
        {
          if i > 0 {
            assert s[..cut][i] == tail[..cut - 1][i - 1];
          }
        }
      }
      r
    else
      assert s[..0] == [];
      s
  }

  /** Drops trailing whitespace: what is left is a prefix of `s` that does not end with a space. */
  function StripEnd(s: string): (r: string)
    ensures |r| <= |s| && r == s[..|r|]
    ensures AllSpace(s[|r|..])
    ensures r == [] || !IsSpace(r[|r| - 1])
  {
    if s != [] && IsSpace(s[|s| - 1]) then
      var init := s[..|s| - 1];
      var r := StripEnd(init);
      assert r == s[..|r|] by {
        assert s[..|r|] == init[..|r|];
      }
      assert AllSpace(s[|r|..]) by {
        forall i | 0 <= i < |s| - |r|
          ensures IsSpace(s[|r|..][i])
        {
          if i < |init| - |r| {
            assert s[|r|..][i] == init[|r|..][i];
          }
        }
      }
      r
    else
      assert s[|s|..] == [];
      s
  }

  function Strip(s: string): string {
    StripEnd(StripStart(s))
  }

  /** Decimal digits in which an underscore may stand only between two digits. */
  predicate IsDigitGroups(d: string) {
    && |d| > 0
    && IsDigit(d[0])
    && IsDigit(d[|d| - 1])
    && forall i {:trigger d[i]} :: 0 <= i < |d| ==>
         IsDigit(d[i]) || (d[i] == '_' && 0 < i < |d| - 1 && IsDigit(d[i - 1]) && IsDigit(d[i + 1]))
  }

  /** The number the digits of `d` spell, underscores skipped. */
  function DigitsValue(d: string): nat {
    if d == [] then 0
    else
      var c := d[|d| - 1];
      var v := DigitsValue(d[..|d| - 1]);
      if IsDigit(c) then 10 * v + (c as int - '0' as int) else v
  }

  predicate IsSign(c: char) {
    c == '-' || c == '+'
  }

  /** Text that may be read as an integer: an optional sign, then digits, with single
      underscores allowed between two digits. */
  predicate IntegerShape(t: string) {
    && |t| > 0 && IsDigit(t[|t| - 1])
    && forall i {:trigger t[i]} :: 0 <= i < |t| ==>
         || IsDigit(t[i])
         || (i == 0 && IsSign(t[i]))
         || (t[i] == '_' && 0 < i < |t| - 1 && IsDigit(t[i - 1]) && IsDigit(t[i + 1]))
  }

  lemma UnsignedShape(d: string)
    requires |d| > 0 && !IsSign(d[0])
    ensures IntegerShape(d) <==> IsDigitGroups(d)
  {
  }

  lemma SignedShape(t: string)
    requires |t| > 0 && IsSign(t[0])
    ensures IntegerShape(t) <==> IsDigitGroups(t[1..])
  {
    var d := t[1..];
    if IsDigitGroups(d) {
      forall i | 0 < i < |t|
        ensures IsDigit(t[i]) || (t[i] == '_' && 0 < i < |t| - 1 && IsDigit(t[i - 1]) && IsDigit(t[i + 1]))
      {
        assert t[i] == d[i - 1];
        if !IsDigit(d[i - 1]) {
          assert d[i - 2] == t[i - 1] && d[i] == t[i + 1];
        }
      }
      assert t[|t| - 1] == d[|d| - 1];
    }
    if IntegerShape(t) {
      assert |t| > 1;
      forall j | 0 <= j < |d|
        ensures IsDigit(d[j]) || (d[j] == '_' && 0 < j < |d| - 1 && IsDigit(d[j - 1]) && IsDigit(d[j + 1]))
      {
        assert d[j] == t[j + 1];
        if !IsDigit(t[j + 1]) {
          assert t[j] == d[j - 1] && t[j + 2] == d[j + 1];
        }
      }
      assert d[0] == t[1] && d[|d| - 1] == t[|t| - 1];
    }
  }

  /** `int(s)`: Some(n) when Python returns n, None when it raises ValueError. The parse
      succeeds exactly when the text, once whitespace is stripped, has the shape of an
      integer, and a negative result was written with a minus sign. */
  function ParseInt(s: string): (r: Option<int>)
    ensures r.Some? <==> IntegerShape(Strip(s))
    ensures r.Some? && r.value < 0 ==> Strip(s)[0] == '-'
  {
    var t := Strip(s);
    if |t| > 0 && IsSign(t[0]) then
      SignedShape(t);
      if IsDigitGroups(t[1..]) then
        var v: int := DigitsValue(t[1..]);
        Some(if t[0] == '-' then -v else v)
      else None
    else if t == [] then None
    else
      UnsignedShape(t);
      if IsDigitGroups(t) then Some(DigitsValue(t)) else None
  }

  /** The text after an optional leading sign. */
  function Magnitude(t: string): (r: string)
    ensures |r| <= |t|
  {
    if |t| > 0 && IsSign(t[0]) then t[1..] else t
  }

  predicate AllDigits(e: string) {
    forall i :: 0 <= i < |e| ==> IsDigit(e[i])
  }

  /** `d` with every character that is not a digit (every underscore, in an integer's
      text) removed. */
  function Digits(d: string): (r: string)
    ensures AllDigits(r)
    ensures |d| > 0 && IsDigit(d[|d| - 1]) ==> |r| > 0
  {
    if d == [] then []
    else
      var c := d[|d| - 1];
      Digits(d[..|d| - 1]) + (if IsDigit(c) then [c] else [])
  }

  /** `e` without its leading zeros, keeping the last character. */
  function DropZeros(e: string): (r: string)
    ensures |r| <= |e|
    ensures r == e[|e| - |r|..]
    ensures |e| > 0 ==> |r| > 0 && (|r| == 1 || r[0] != '0')
  {
    if |e| > 1 && e[0] == '0' then DropZeros(e[1..]) else e
  }

  /** The decimal spelling Python prints for the integer that `t` spells: a plus sign,
      underscores and leading zeros dropped, and the sign of a zero dropped. */
  function Canonical(t: string): string {
    var m := DropZeros(Digits(Magnitude(t)));
    if |t| > 0 && t[0] == '-' && m != "0" then "-" + m else m
  }

  function DigitChar(d: nat): (c: char)
    requires d < 10
    ensures IsDigit(c) && c as int - '0' as int == d
  {
    ('0' as int + d) as char
  }

  /** Python's `str(n)` for a natural number: its shortest decimal spelling. */
  function ShowNat(n: nat): (r: string)
    ensures |r| > 0
    ensures forall i :: 0 <= i < |r| ==> IsDigit(r[i])
  {
    if n < 10 then [DigitChar(n)] else ShowNat(n / 10) + [DigitChar(n % 10)]
  }

  /** Python's `str(n)` for an integer. */
  function ShowInt(n: int): string {
    if n < 0 then "-" + ShowNat(-n) else ShowNat(n)
  }

  lemma {:induction false} ShowNatValue(n: nat)
    ensures DigitsValue(ShowNat(n)) == n
  {
    if n >= 10 {
      var p := ShowNat(n / 10);
      ShowNatValue(n / 10);
      assert (p + [DigitChar(n % 10)])[..|p|] == p;
    } else {
      assert [DigitChar(n)][..0] == [];
    }
  }

  lemma {:induction false} DigitsKeepValue(d: string)
    ensures DigitsValue(Digits(d)) == DigitsValue(d)
  {
    if d != [] {
      var c := d[|d| - 1];
      var e := Digits(d[..|d| - 1]);
      DigitsKeepValue(d[..|d| - 1]);
      if IsDigit(c) {
        assert (e + [c])[..|e|] == e;
      } else {
        assert e + [] == e;
      }
    }
  }

  lemma {:induction false} LeadingZeroValue(e: string)
    requires |e| > 0 && e[0] == '0'
    ensures DigitsValue(e) == DigitsValue(e[1..])
  {
    if |e| == 1 {
      assert e[..0] == [];
    } else {
      var init := e[..|e| - 1];
      LeadingZeroValue(init);
      assert e[1..][..|e| - 2] == init[1..];
      assert e[1..][|e| - 2] == e[|e| - 1];
    }
  }

  lemma {:induction false} DropZerosValue(e: string)
    ensures DigitsValue(DropZeros(e)) == DigitsValue(e)
  {
    if |e| > 1 && e[0] == '0' {
      LeadingZeroValue(e);
      DropZerosValue(e[1..]);
    }
  }

  lemma {:induction false} PositiveValue(e: string)
    requires |e| > 0 && AllDigits(e) && e[0] != '0'
    ensures DigitsValue(e) >= 1
  {
    if |e| == 1 {
      assert e[..0] == [];
    } else {
      PositiveValue(e[..|e| - 1]);
    }
  }

  /** A digit string without leading zeros is the spelling of its own value. */
  lemma {:induction false} ShowDigitsValue(e: string)
    requires |e| > 0 && AllDigits(e) && (|e| == 1 || e[0] != '0')
    ensures ShowNat(DigitsValue(e)) == e
  {
    var c := e[|e| - 1];
    var init := e[..|e| - 1];
    var d := c as int - '0' as int;
    if |e| == 1 {
      assert init == [];
      assert DigitChar(d) == c;
      assert [c] == e;
    } else {
      PositiveValue(init);
      ShowDigitsValue(init);
      var v := DigitsValue(init);
      assert DigitsValue(e) == 10 * v + d;
      assert (10 * v + d) / 10 == v && (10 * v + d) % 10 == d;
      assert DigitChar(d) == c;
      assert init + [c] == e;
    }
  }

  /** The integer `int()` reads from a text is the one whose decimal spelling is that text
      without its sign of `+`, its underscores and its leading zeros: "+007" and "0_7" are
      7, "-0" is 0. Together with `ParseInt`'s own contract this says exactly which texts
      read as which integer. */
  lemma {:induction false} ParseIntValue(s: string, n: int)
    ensures ParseInt(s) == Some(n) <==> IntegerShape(Strip(s)) && Canonical(Strip(s)) == ShowInt(n)
  {
    var t := Strip(s);
    if IntegerShape(t) {
      var p := ParseInt(s).value;
      ParsedCanonical(s);
      ParseShowRoundTrip(n);
      ParseShowRoundTrip(p);
    }
  }

  lemma {:induction false} ParsedCanonical(s: string)
    requires IntegerShape(Strip(s))
    ensures Canonical(Strip(s)) == ShowInt(ParseInt(s).value)
  {
    var t := Strip(s);
    var p := ParseInt(s).value;
    var v: int := DigitsValue(Magnitude(t));
    var m := DropZeros(Digits(Magnitude(t)));
    ParsedMagnitude(s);
    CanonicalMagnitude(Magnitude(t));
    assert ShowNat(v) == m;
    if t[0] == '-' && m != "0" {
      assert v != 0;
    } else if t[0] == '-' {
      assert v == 0 by {
        ShowNatValue(v);
      }
    }
  }

  /** An accepted text reads as the value of its digits, negated after a minus sign. */
  lemma {:induction false} ParsedMagnitude(s: string)
    requires IntegerShape(Strip(s))
    ensures var t := Strip(s); var v: int := DigitsValue(Magnitude(t));
      ParseInt(s) == Some(if t[0] == '-' then -v else v)
  {
    var t := Strip(s);
    if IsSign(t[0]) {
      SignedShape(t);
    } else {
      UnsignedShape(t);
    }
  }

  /** The digits of a magnitude, underscores and leading zeros dropped, spell its value. */
  lemma {:induction false} CanonicalMagnitude(d: string)
    requires |d| > 0 && IsDigit(d[|d| - 1])
    ensures ShowNat(DigitsValue(d)) == DropZeros(Digits(d))
  {
    var e := Digits(d);
    DigitsKeepValue(d);
    DropZerosValue(e);
    ShowDigitsValue(DropZeros(e));
  }

  lemma StripKeepsTrimmed(s: string)
    requires s != [] && !IsSpace(s[0]) && !IsSpace(s[|s| - 1])
    ensures Strip(s) == s
  {
  }

  /** Every integer's decimal spelling is read back by `int()` as that integer. */
  lemma {:induction false} ParseShowRoundTrip(n: int)
    ensures ParseInt(ShowInt(n)) == Some(n)
  {
    var s := ShowInt(n);
    var digits := ShowNat(if n < 0 then -n else n);
    ShowNatValue(if n < 0 then -n else n);
    StripKeepsTrimmed(s);
    if n < 0 {
      assert s[1..] == digits;
    } else {
      assert !(s[0] == '-' || s[0] == '+');
    }
  }

  lemma {:induction false} StripStartPadded(w: string, s: string)
    requires AllSpace(w)
    requires s != [] && !IsSpace(s[0])
    ensures StripStart(w + s) == s
  {
    if w != [] {
      assert (w + s)[1..] == w[1..] + s;
      StripStartPadded(w[1..], s);
    } else {
      assert w + s == s;
    }
  }

  lemma {:induction false} StripEndPadded(s: string, w: string)
    requires AllSpace(w)
    requires s != [] && !IsSpace(s[|s| - 1])
    ensures StripEnd(s + w) == s
  {
    if w != [] {
      assert (s + w)[..|s + w| - 1] == s + w[..|w| - 1];
      StripEndPadded(s, w[..|w| - 1]);
    } else {
      assert s + w == s;
    }
  }

  /** Whitespace around a roll number does not change what `int()` reads: " 42 " is 42. */
  lemma {:induction false} ParsePaddedRoundTrip(left: string, n: int, right: string)
    requires AllSpace(left) && AllSpace(right)
    ensures ParseInt(left + ShowInt(n) + right) == Some(n)
  {
    var s := ShowInt(n);
    assert !IsSpace(s[0]) && !IsSpace(s[|s| - 1]);
    assert (s + right)[0] == s[0];
    assert left + s + right == left + (s + right);
    StripStartPadded(left, s + right);
    StripEndPadded(s, right);
    assert Strip(left + s + right) == s;
    StripKeepsTrimmed(s);
    ParseDependsOnStrip(left + s + right, s);
    ParseShowRoundTrip(n);
  }

  lemma ParseDependsOnStrip(a: string, b: string)
    requires Strip(a) == Strip(b)
    ensures ParseInt(a) == ParseInt(b)
  {
  }

  /** A file separator before the digits is not whitespace to `int()`: "\x1c5" is refused. */
  lemma ParseRejectsSeparator()
    ensures ParseInt([28 as char, '5']) == None
  {
    var s := [28 as char, '5'];
    assert !IsSpace(s[0]) && !IsSpace(s[1]);
    assert Strip(s) == s;
    assert !IsDigitGroups(s);
  }

  /** A field of whitespace only passes the "required" check but is not an integer. */
  lemma {:induction false} ParseRejectsBlank(s: string)
    requires AllSpace(s)
    ensures ParseInt(s) == None
  {
    var t := StripStart(s);
    assert AllSpace(s[|s| - |t|..]);
    assert Strip(s) == [];
  }
}
