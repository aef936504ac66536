/** The timestamp decoder `parse_time_to_seconds`: `"MM:SS:mmm"` to seconds.
    A string that does not split into exactly three colon fields decodes to
    `0.0`; three fields that `int()` rejects raise `ValueError`, which the
    pipeline turns into a failed job. Seconds are exact reals here. */
module TimeCodec {
  import opened Wrappers
  import opened Text
  import opened PyInt

  /** The value the source computes from three integer fields:
      `minutes * 60 + seconds + milliseconds / 1000.0`. */
  function Seconds(minutes: int, seconds: int, millis: int): real {
    (minutes * 60 + seconds) as real + (millis as real) / 1000.0
  }

  /** The exception `int(field)` raises. Python quotes the field with
      `repr`; plain single quotes are used here. */
  function InvalidLiteral(field: string): Raised {
    ValueError("invalid literal for int() with base 10: '" + field + "'")
  }

  /** `int(field)`, raising as Python does. */
  function IntField(field: string): (r: Result<int, Raised>)
    ensures r.Success? <==> ParseInt(field).Some?
    ensures r.Success? ==> r.value == ParseInt(field).value
    ensures r.Failure? ==> r.error == InvalidLiteral(field)
  {
    match ParseInt(field)
    case Some(v) => Success(v)
    case None => Failure(InvalidLiteral(field))
  }

  /** `parse_time_to_seconds(t)`. The fields are converted left to right, so
      the first field `int()` rejects is the one reported. */
  function ParseTimeToSeconds(t: string): (r: Result<real, Raised>)
    ensures |Split(t, ':')| != 3 ==> r == Success(0.0)
    ensures |Split(t, ':')| == 3 ==>
              var p := Split(t, ':');
              && (r.Success? <==> ParseInt(p[0]).Some? && ParseInt(p[1]).Some? && ParseInt(p[2]).Some?)
              && (r.Success? ==> r.value == Seconds(ParseInt(p[0]).value, ParseInt(p[1]).value, ParseInt(p[2]).value))
              && (r.Failure? ==> r.error == InvalidLiteral(
                                    if ParseInt(p[0]).None? then p[0]
                                    else if ParseInt(p[1]).None? then p[1]
                                    else p[2]))
  {
    var parts := Split(t, ':');
    if |parts| == 3 then
      var minutes :- IntField(parts[0]);
      var seconds :- IntField(parts[1]);
      var millis :- IntField(parts[2]);
      Success(Seconds(minutes, seconds, millis))
    else
      Success(0.0)
  }

  /** The `"MM:SS:mmm"` text of three integers, as the captions carry it. */
  function FormatTimestamp(minutes: int, seconds: int, millis: int): string {
    IntToString(minutes) + ":" + IntToString(seconds) + ":" + IntToString(millis)
  }

  lemma NoColonInInt(n: int)
    ensures ':' !in IntToString(n)
  {
    var d := NatToString(if n < 0 then -n else n);
    assert AllDigits(d);
    assert ':' !in d;
    if n < 0 {
      assert IntToString(n) == "-" + d;
    }
  }

  /** Decoding a formatted timestamp gives back its value in seconds. */
  lemma DecodeFormatted(minutes: int, seconds: int, millis: int)
    ensures ParseTimeToSeconds(FormatTimestamp(minutes, seconds, millis))
              == Success(Seconds(minutes, seconds, millis))
  {
    var a, b, c := IntToString(minutes), IntToString(seconds), IntToString(millis);
    NoColonInInt(minutes);
    NoColonInInt(seconds);
    NoColonInInt(millis);
    var parts := [a, b, c];
    assert Join(parts, ':') == a + ":" + b + ":" + c by {
      assert parts[1..] == [b, c];
      assert parts[1..][1..] == [c];
      assert Join([c], ':') == c;
      assert Join([b, c], ':') == b + [':'] + c;
      assert Join(parts, ':') == a + [':'] + (b + [':'] + c);
    }
    SplitJoin(parts, ':');
    ParseIntRoundTrip(minutes);
    ParseIntRoundTrip(seconds);
    ParseIntRoundTrip(millis);
  }

  /** With seconds below 60 and milliseconds below 1000, the decoded value
      is strictly increasing in the lexicographic order of the fields. */
  lemma SecondsMonotone(m1: int, s1: int, ms1: int, m2: int, s2: int, ms2: int)
    requires 0 <= s1 < 60 && 0 <= s2 < 60
    requires 0 <= ms1 < 1000 && 0 <= ms2 < 1000
    requires m1 < m2 || (m1 == m2 && s1 < s2) || (m1 == m2 && s1 == s2 && ms1 < ms2)
    ensures Seconds(m1, s1, ms1) < Seconds(m2, s2, ms2)
  {
    assert Seconds(m1, s1, ms1) == ((m1 * 60 + s1) * 1000 + ms1) as real / 1000.0;
    assert Seconds(m2, s2, ms2) == ((m2 * 60 + s2) * 1000 + ms2) as real / 1000.0;
  }

  /** Without those bounds the order breaks: `"00:60:000"` and `"01:00:000"`
      decode to the same value, and so do `"00:00:1000"` and `"00:01:000"`. */
  lemma SecondsNotMonotoneUnbounded()
    ensures Seconds(0, 60, 0) == Seconds(1, 0, 0)
    ensures Seconds(0, 0, 1000) == Seconds(0, 1, 0)
  {
  }

  /** Decoding a string that splits into three given fields. */
  lemma DecodeFields(t: string, a: string, b: string, c: string)
    requires Split(t, ':') == [a, b, c]
    ensures ParseInt(a).Some? && ParseInt(b).Some? && ParseInt(c).Some? ==>
              ParseTimeToSeconds(t) == Success(Seconds(ParseInt(a).value, ParseInt(b).value, ParseInt(c).value))
    ensures ParseInt(a).None? ==> ParseTimeToSeconds(t) == Failure(InvalidLiteral(a))
  {
  }

  lemma SplitThree(a: string, b: string, c: string)
    requires ':' !in a && ':' !in b && ':' !in c
    ensures Split(a + ":" + b + ":" + c, ':') == [a, b, c]
  {
    var parts := [a, b, c];
    assert parts[1..] == [b, c];
    assert parts[1..][1..] == [c];
    assert Join([c], ':') == c;
    assert Join([b, c], ':') == b + [':'] + c;
    assert Join(parts, ':') == a + [':'] + (b + [':'] + c);
    assert a + [':'] + (b + [':'] + c) == a + ":" + b + ":" + c;
    SplitJoin(parts, ':');
  }

  lemma DigitRunParses(d: string, v: nat)
    requires |d| > 0 && AllDigits(d) && DigitsValue(d) == v
    ensures ParseInt(d) == Some(v)
  {
    ParseDigits(d);
  }

  lemma Parse01And02()
    ensures ParseInt("01") == Some(1)
    ensures ParseInt("02") == Some(2)
  {
    DigitRunParses("01", 1);
    DigitRunParses("02", 2);
  }

  lemma Parse500()
    ensures ParseInt("500") == Some(500)
  {
    assert "500"[..2] == "50" && "50"[..1] == "5" && "5"[..0] == "";
    DigitRunParses("500", 500);
  }

  /** `"01:02:500"` decodes to 62.5 seconds (leading zeros are accepted). */
  lemma DecodeExample()
    ensures ParseTimeToSeconds("01:02:500") == Success(62.5)
  {
    SplitThree("01", "02", "500");
    assert "01" + ":" + "02" + ":" + "500" == "01:02:500";
    Parse01And02();
    Parse500();
    DecodeFields("01:02:500", "01", "02", "500");
    assert Seconds(1, 2, 500) == 62.5;
  }

  /** Strings without exactly three fields fall back to 0.0. */
  lemma DecodeFallbackExamples()
    ensures ParseTimeToSeconds("") == Success(0.0)
    ensures ParseTimeToSeconds("bad") == Success(0.0)
    ensures ParseTimeToSeconds("01:02") == Success(0.0)
  {
    assert Split("bad", ':') == ["bad"];
    assert Split("", ':') == [""];
    var two := ["01", "02"];
    assert Join(two, ':') == "01:02" by {
      assert two[1..] == ["02"];
    }
    SplitJoin(two, ':');
  }

  lemma XxIsNotAnInt()
    ensures ParseInt("xx") == None
  {
    assert TrimStart("xx") == "xx";
    assert TrimEnd("xx") == "xx";
    assert !IsDigit('x');
  }

  /** Three fields of which the first is not an integer raise on that field. */
  lemma DecodeRejectExample()
    ensures ParseTimeToSeconds("xx:00:000") == Failure(InvalidLiteral("xx"))
  {
    SplitThree("xx", "00", "000");
    assert "xx" + ":" + "00" + ":" + "000" == "xx:00:000";
    XxIsNotAnInt();
    DecodeFields("xx:00:000", "xx", "00", "000");
  }

  /** A minutes field that starts with an ASCII separator (U+001C..U+001F)
      is rejected, as `int("\x1c0")` is: the timestamp raises on that field
      instead of decoding. */
  lemma SeparatorFieldRejected(c: char, a: string, b: string, d: string)
    requires 0x1C <= c as int <= 0x1F
    requires |a| > 0 && AllDigits(a)
    requires ':' !in b && ':' !in d
    ensures ParseTimeToSeconds([c] + a + ":" + b + ":" + d) == Failure(InvalidLiteral([c] + a))
  {
    var m := [c] + a;
    assert ':' !in m by {
      assert forall k :: 0 <= k < |a| ==> IsDigit(a[k]);
    }
    SplitThree(m, b, d);
    ParseIntSeparatorNotIgnored(c, a);
    DecodeFields(m + ":" + b + ":" + d, m, b, d);
  }
}
