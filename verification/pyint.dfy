/** Python's `int(s)` on a string, base 10: surrounding whitespace is
    ignored, one optional sign is allowed, and the digits may be grouped with
    single underscores (`int(" -1_000 ") == -1000`). Anything else raises
    `ValueError`, modelled here as `None`. */
module PyInt {
  import opened Wrappers
  import opened Text

  /** The whitespace `int()` ignores around its digits: the six ASCII
      characters C's `isspace` accepts (tab, line feed, vertical tab, form
      feed, carriage return, space), and every non-ASCII character for which
      `str.isspace()` holds. The ASCII separators U+001C..U+001F satisfy
      `str.isspace()` but are not ignored by `int()`. */
  predicate IsSpace(c: char) {
    var u := c as int;
    || 0x09 <= u <= 0x0D
    || u == 0x20
    || u == 0x85 || u == 0xA0 || u == 0x1680
    || 0x2000 <= u <= 0x200A
    || u == 0x2028 || u == 0x2029 || u == 0x202F || u == 0x205F || u == 0x3000
  }

  function TrimStart(s: string): (r: string)
    ensures |r| <= |s| && r == s[|s| - |r|..]
    ensures |r| == 0 || !IsSpace(r[0])
  {
    if |s| > 0 && IsSpace(s[0]) then TrimStart(s[1..]) else s
  }

  function TrimEnd(s: string): (r: string)
    ensures r <= s
    ensures |r| == 0 || !IsSpace(r[|r| - 1])
  {
    if |s| > 0 && IsSpace(s[|s| - 1]) then TrimEnd(s[..|s| - 1]) else s
  }

  /** The text `int()` reads: `s` without the whitespace at either end. */
  function Strip(s: string): string {
    TrimEnd(TrimStart(s))
  }

  /** A digit run as `int()` accepts it: digits, with single underscores
      strictly between digits. */
  predicate DigitGroups(b: string) {
    && |b| > 0
    && IsDigit(b[0])
    && IsDigit(b[|b| - 1])
    && (forall i :: 0 <= i < |b| ==> IsDigit(b[i]) || b[i] == '_')
    && (forall i :: 0 <= i < |b| - 1 ==> IsDigit(b[i]) || IsDigit(b[i + 1]))
  }

  function SignedValue(t: string): Option<int> {
    if |t| > 0 && (t[0] == '-' || t[0] == '+') then
      var body := t[1..];
      if DigitGroups(body) then
        Some(if t[0] == '-' then 0 - DigitsValue(body) else DigitsValue(body))
      else None
    else if DigitGroups(t) then Some(DigitsValue(t))
    else None
  }

  /** `int(s)`: `Some(v)` when Python returns `v`, `None` when it raises. */
  function ParseInt(s: string): (r: Option<int>)
    ensures r.Some? ==> exists i :: 0 <= i < |s| && IsDigit(s[i])
  {
    var t := Strip(s);
    var r := SignedValue(t);
    if r.Some? then
      assert exists i :: 0 <= i < |t| && IsDigit(t[i]) by {
        if DigitGroups(t) {
          assert IsDigit(t[0]);
        } else {
          assert IsDigit(t[1..][0]);
        }
      }
      StripSubstring(s);
      r
    else r
  }

  lemma StripSubstring(s: string)
    ensures forall i :: 0 <= i < |Strip(s)| ==> Strip(s)[i] in s
  {
    var a := TrimStart(s);
    assert forall i :: 0 <= i < |a| ==> a[i] in s;
    var b := TrimEnd(a);
    assert forall i :: 0 <= i < |b| ==> b[i] == a[i];
  }

  /** A string with no whitespace at either end is its own strip. */
  lemma StripUnpadded(s: string)
    requires |s| > 0 && !IsSpace(s[0]) && !IsSpace(s[|s| - 1])
    ensures Strip(s) == s
    ensures ParseInt(s) == SignedValue(s)
  {
    assert TrimStart(s) == s;
  }

  lemma DigitGroupsOfNat(n: nat)
    ensures DigitGroups(NatToString(n))
  {
    var d := NatToString(n);
    assert forall i :: 0 <= i < |d| ==> IsDigit(d[i]);
  }

  /** `int(str(n)) == n` for every integer `n`. */
  lemma ParseIntRoundTrip(n: int)
    ensures ParseInt(IntToString(n)) == Some(n)
  {
    var m: nat := if n < 0 then -n else n;
    var d := NatToString(m);
    NatToStringRoundTrip(m);
    DigitsParse(d, m, n);
  }

  lemma DigitsParse(d: string, m: nat, n: int)
    requires |d| > 0 && AllDigits(d) && DigitsValue(d) == m
    requires if n < 0 then n + m == 0 else n == m
    ensures ParseInt(if n < 0 then "-" + d else d) == Some(n)
  {
    ParseDigits(d);
  }

  /** A plain digit run reads as its value, with or without a minus sign. */
  lemma ParseDigits(d: string)
    requires |d| > 0 && AllDigits(d)
    ensures ParseInt(d) == Some(DigitsValue(d))
    ensures ParseInt("-" + d) == Some(0 - DigitsValue(d))
  {
    var s := "-" + d;
    assert s[0] == '-' && s[|s| - 1] == d[|d| - 1];
    StripsToItself(d);
    StripsToItself(s);
    ParseIsSignedOfStrip(d);
    ParseIsSignedOfStrip(s);
    SignedDigits(d);
  }

  lemma StripsToItself(s: string)
    requires |s| > 0 && !IsSpace(s[0]) && !IsSpace(s[|s| - 1])
    ensures Strip(s) == s
  {
    assert TrimStart(s) == s;
  }

  lemma ParseIsSignedOfStrip(s: string)
    ensures ParseInt(s) == SignedValue(Strip(s))
  {
  }

  lemma SignedDigits(d: string)
    requires |d| > 0 && AllDigits(d)
    ensures SignedValue(d) == Some(DigitsValue(d))
    ensures SignedValue("-" + d) == Some(0 - DigitsValue(d))
  {
    assert DigitGroups(d);
    assert ("-" + d)[1..] == d;
  }

  /** Leading zeros are accepted and ignored: `int("007") == 7`. */
  lemma ParseIntZeroPadded(n: nat)
    ensures ParseInt("0" + NatToString(n)) == Some(n)
  {
    var d := NatToString(n);
    var s := "0" + d;
    assert IsDigit(s[0]) && IsDigit(s[|s| - 1]);
    StripUnpadded(s);
    assert forall i :: 0 <= i < |s| ==> IsDigit(s[i]);
    assert DigitGroups(s);
    LeadingZeroIgnored(d);
    NatToStringRoundTrip(n);
    assert SignedValue(s) == Some(n);
  }

  /** The ASCII separators U+001C..U+001F are not whitespace to `int()`:
      `int("\x1f5")` raises even though `"\x1f".isspace()`. */
  lemma ParseIntSeparatorNotIgnored(c: char, d: string)
    requires 0x1C <= c as int <= 0x1F
    requires |d| > 0 && AllDigits(d)
    ensures ParseInt([c] + d) == None
  {
    var u := [c] + d;
    assert u[|u| - 1] == d[|d| - 1];
    StripsToItself(u);
    ParseIsSignedOfStrip(u);
    assert u[0] == c && !IsDigit(c) && c != '-' && c != '+';
    assert !DigitGroups(u);
  }

  /** Whitespace on either side is ignored, ASCII or not:
      `int("\t5\u3000") == 5`. */
  lemma ParseIntSpaced(a: char, d: string, b: char)
    requires IsSpace(a) && IsSpace(b)
    requires |d| > 0 && AllDigits(d)
    ensures ParseInt([a] + d + [b]) == Some(DigitsValue(d))
  {
    assert IsDigit(d[0]) && IsDigit(d[|d| - 1]);
    StripAround(a, d, b);
    ParseIsSignedOfStrip([a] + d + [b]);
    SignedDigits(d);
  }

  lemma StripAround(a: char, x: string, b: char)
    requires IsSpace(a) && IsSpace(b)
    requires |x| > 0 && !IsSpace(x[0]) && !IsSpace(x[|x| - 1])
    ensures Strip([a] + x + [b]) == x
  {
    TrimOne(a, x + [b]);
    assert [a] + x + [b] == [a] + (x + [b]);
    TrimOneEnd(x, b);
  }

  lemma TrimOne(a: char, x: string)
    requires IsSpace(a) && |x| > 0 && !IsSpace(x[0])
    ensures TrimStart([a] + x) == x
  {
    assert ([a] + x)[1..] == x;
  }

  lemma TrimOneEnd(x: string, b: char)
    requires IsSpace(b) && |x| > 0 && !IsSpace(x[|x| - 1])
    ensures TrimEnd(x + [b]) == x
  {
    assert (x + [b])[..|x|] == x;
  }

  /** Text that is empty after stripping is not a number. */
  lemma ParseIntBlank(s: string)
    requires forall i :: 0 <= i < |s| ==> IsSpace(s[i])
    ensures ParseInt(s) == None
  {
  }
}
