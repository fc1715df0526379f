/** Rendering of chunk times as `[MM:SS - MM:SS]` labels, with the parser
    that reads such a label back. Times are whole seconds. */
module Timestamp {
  import opened Wrappers

  predicate IsDigit(c: char)
  {
    '0' <= c <= '9'
  }

  predicate AllDigits(s: string)
  {
    forall k :: 0 <= k < |s| ==> IsDigit(s[k])
  }

  function DigitChar(d: nat): (c: char)
    requires d < 10
    ensures IsDigit(c) && c as int - '0' as int == d
  {
    (('0' as int) + d) as char
  }

  function DigitValue(c: char): nat
    requires IsDigit(c)
  {
    c as int - '0' as int
  }

  /** Python's `str(n)` for a non-negative integer. */
  function Decimal(n: nat): (r: string)
    ensures r != [] && AllDigits(r)
    ensures |r| == 1 <==> n < 10
    ensures r[0] == '0' ==> n == 0
    decreases n
  {
    if n < 10 then [DigitChar(n)] else Decimal(n / 10) + [DigitChar(n % 10)]
  }

  /** The number a string of decimal digits denotes (Python's `int(s)`). */
  function Value(s: string): nat
    requires AllDigits(s)
    decreases |s|
  {
    if s == [] then 0 else Value(s[..|s| - 1]) * 10 + DigitValue(s[|s| - 1])
  }

  /** A digit string as `str` writes it: no leading zero unless it is `0`. */
  predicate Canonical(s: string)
  {
    s != [] && AllDigits(s) && (|s| == 1 || s[0] != '0')
  }

  /** Reading back what `str` wrote gives the number. */
  lemma {:induction false} ValueOfDecimal(n: nat)
    ensures Value(Decimal(n)) == n
    decreases n
  {
    if n >= 10 {
      ValueOfDecimal(n / 10);
      var r := Decimal(n);
      assert r[..|r| - 1] == Decimal(n / 10);
    }
  }

  lemma {:induction false} PositiveValue(s: string)
    requires s != [] && AllDigits(s) && s[0] != '0'
    ensures Value(s) > 0
    decreases |s|
  {
    if |s| > 1 {
      PositiveValue(s[..|s| - 1]);
    }
  }

  /** Writing out the value of a canonical digit string gives the string back. */
  lemma {:induction false} DecimalOfValue(s: string)
    requires Canonical(s)
    ensures Decimal(Value(s)) == s
    decreases |s|
  {
    if |s| > 1 {
      var p := s[..|s| - 1];
      PositiveValue(p);
      DecimalOfValue(p);
      var n := Value(s);
      assert n / 10 == Value(p) && n % 10 == DigitValue(s[|s| - 1]);
      assert s == p + [s[|s| - 1]];
    }
  }

  /** `f"{n:02d}"`: at least two digits, zero-padded on the left. */
  function Pad2(n: nat): (r: string)
    ensures |r| >= 2 && AllDigits(r)
    ensures |r| == 2 <==> n < 100
  {
    if n < 10 then "0" + Decimal(n) else Decimal(n)
  }

  /** The strings `Pad2` produces. */
  predicate Padded(s: string)
  {
    |s| >= 2 && AllDigits(s) && (|s| == 2 || s[0] != '0')
  }

  lemma Pad2Padded(n: nat)
    ensures Padded(Pad2(n)) && Value(Pad2(n)) == n
  {
    ValueOfDecimal(n);
    if n < 10 {
      assert Pad2(n)[1..] == Decimal(n);
    }
  }

  lemma PaddedPad2(s: string)
    requires Padded(s)
    ensures Pad2(Value(s)) == s
  {
    if s[0] == '0' {
      var d := s[1..];
      DecimalOfValue(d);
      assert Value(s) == Value(d) by {
        assert s[..1] == "0";
        assert s[..|s| - 1][1..] == d[..|d| - 1];
      }
      assert s == "0" + d;
    } else {
      DecimalOfValue(s);
    }
  }

  /** `MM:SS` for a time in seconds: minutes `t // 60` and seconds `t % 60`,
      each written with `Pad2`. */
  function Clock(t: nat): (r: string)
    ensures |r| >= 5 && r[|r| - 3] == ':'
    ensures |r| == 5 <==> t < 6000
  {
    Pad2(t / 60) + ":" + Pad2(t % 60)
  }

  /** `TranscriptChunk.get_timestamp_range`. */
  function TimestampRange(start: nat, end: nat): (r: string)
    ensures |r| >= 15 && r[0] == '[' && r[|r| - 1] == ']'
  {
    "[" + Clock(start) + " - " + Clock(end) + "]"
  }

  /** The first index of `c` in `s`. */
  function Find(s: string, c: char): (r: Option<nat>)
    ensures r.Some? ==> r.value < |s| && s[r.value] == c && c !in s[..r.value]
    ensures r.None? ==> c !in s
    decreases |s|
  {
    if s == [] then None
    else if s[0] == c then Some(0)
    else match Find(s[1..], c)
      case None => None
      case Some(i) =>
        assert s[..i + 1] == [s[0]] + s[1..][..i];
        Some(i + 1)
  }

  /** Reads a clock written by `Clock` back into seconds; `None` for any
      string `Clock` cannot produce. */
  function ParseClock(s: string): Option<nat>
  {
    match Find(s, ':')
    case None => None
    case Some(i) =>
      var m, sec := s[..i], s[i + 1..];
      if Padded(m) && |sec| == 2 && AllDigits(sec) && Value(sec) < 60
      then Some(Value(m) * 60 + Value(sec))
      else None
  }

  lemma DigitsNoColon(s: string)
    requires AllDigits(s)
    ensures ':' !in s
  {
  }

  /** Clock labels and parsed times correspond one to one. */
  lemma ClockRoundTrip(s: string, t: nat)
    ensures ParseClock(s) == Some(t) <==> Clock(t) == s
  {
    if Clock(t) == s {
      ClockParses(t);
    }
    if ParseClock(s) == Some(t) {
      ParsedIsClock(s);
    }
  }

  lemma ClockParses(t: nat)
    ensures ParseClock(Clock(t)) == Some(t)
  {
    var m, sec := Pad2(t / 60), Pad2(t % 60);
    var s := Clock(t);
    DigitsNoColon(m);
    Pad2Padded(t / 60);
    Pad2Padded(t % 60);
    assert s == m + ":" + sec;
    assert s[|m|] == ':' && s[..|m|] == m;
    assert Find(s, ':') == Some(|m|);
    assert s[|m| + 1..] == sec;
  }

  lemma ParsedIsClock(s: string)
    requires ParseClock(s).Some?
    ensures Clock(ParseClock(s).value) == s
  {
    var m, sec := ClockParts(s);
    ClockOf(m, sec, ParseClock(s).value);
  }

  /** A string `ParseClock` accepts is minutes and seconds around a colon. */
  lemma ClockParts(s: string) returns (m: string, sec: string)
    requires ParseClock(s).Some?
    ensures s == m + ":" + sec
    ensures Padded(m) && |sec| == 2 && AllDigits(sec) && Value(sec) < 60
    ensures ParseClock(s).value == Value(m) * 60 + Value(sec)
  {
    var i := Find(s, ':').value;
    m, sec := s[..i], s[i + 1..];
    assert s == m + s[i..i + 1] + sec;
  }

  /** Minutes and seconds under 60 come back out of `t // 60` and `t % 60`. */
  lemma MinutesSeconds(q: nat, r: nat, t: nat)
    requires r < 60 && t == q * 60 + r
    ensures t / 60 == q && t % 60 == r
  {
  }

  /** The clock of minutes `m` and seconds `sec` is written `m:sec`. */
  lemma ClockOf(m: string, sec: string, t: nat)
    requires Padded(m) && |sec| == 2 && AllDigits(sec) && Value(sec) < 60
    requires t == Value(m) * 60 + Value(sec)
    ensures Clock(t) == m + ":" + sec
  {
    PaddedPad2(m);
    PaddedPad2(sec);
    ClockFrom(Value(m), Value(sec), t);
  }

  lemma ClockFrom(q: nat, r: nat, t: nat)
    requires r < 60 && t == q * 60 + r
    ensures Clock(t) == Pad2(q) + ":" + Pad2(r)
  {
    MinutesSeconds(q, r, t);
  }

  /** Splits `a - b` at its first space, which must open the ` - ` separator. */
  function SplitDash(inner: string): Option<(string, string)>
  {
    match Find(inner, ' ')
    case None => None
    case Some(i) =>
      if i + 3 <= |inner| && inner[i..i + 3] == " - "
      then Some((inner[..i], inner[i + 3..]))
      else None
  }

  lemma SplitDashJoins(inner: string)
    requires SplitDash(inner).Some?
    ensures var (a, b) := SplitDash(inner).value; inner == a + " - " + b
  {
  }

  lemma SplitDashSplits(a: string, b: string)
    requires ' ' !in a
    ensures SplitDash(a + " - " + b) == Some((a, b))
  {
    var inner := a + " - " + b;
    assert inner[|a|] == ' ' && inner[..|a|] == a;
    assert Find(inner, ' ') == Some(|a|);
    assert inner[|a|..|a| + 3] == " - ";
    assert inner[|a| + 3..] == b;
  }

  /** Reads a label written by `TimestampRange` back into its two times. */
  function ParseRange(s: string): Option<(nat, nat)>
  {
    if |s| < 2 || s[0] != '[' || s[|s| - 1] != ']' then None
    else match SplitDash(s[1..|s| - 1])
      case None => None
      case Some((a, b)) =>
        match (ParseClock(a), ParseClock(b))
        case (Some(x), Some(y)) => Some((x, y))
        case _ => None
  }

  lemma ClockNoSpace(t: nat)
    ensures ' ' !in Clock(t)
  {
    var m, sec := Pad2(t / 60), Pad2(t % 60);
    DigitsNoColon(m);
    DigitsNoColon(sec);
    assert Clock(t) == m + ":" + sec;
  }

  /** Timestamp labels and parsed pairs of times correspond one to one. */
  lemma RangeRoundTrip(s: string, start: nat, end: nat)
    ensures ParseRange(s) == Some((start, end)) <==> TimestampRange(start, end) == s
  {
    if TimestampRange(start, end) == s {
      RangeParses(start, end);
    }
    if ParseRange(s) == Some((start, end)) {
      ParsedIsRange(s);
    }
  }

  lemma RangeParses(start: nat, end: nat)
    ensures ParseRange(TimestampRange(start, end)) == Some((start, end))
  {
    ClockNoSpace(start);
    ClockParses(start);
    ClockParses(end);
    ParseRangeOf(Clock(start), Clock(end));
  }

  /** Parsing a bracketed pair of strings parses each string. */
  lemma ParseRangeOf(a: string, b: string)
    requires ' ' !in a
    ensures ParseRange("[" + a + " - " + b + "]") ==
      if ParseClock(a).Some? && ParseClock(b).Some? then Some((ParseClock(a).value, ParseClock(b).value)) else None
  {
    var s := "[" + a + " - " + b + "]";
    assert s[1..|s| - 1] == a + " - " + b;
    SplitDashSplits(a, b);
  }

  lemma Bracketed(s: string)
    requires |s| >= 2 && s[0] == '[' && s[|s| - 1] == ']'
    ensures s == "[" + s[1..|s| - 1] + "]"
  {
  }

  lemma RangeParts(s: string) returns (a: string, b: string)
    requires ParseRange(s).Some?
    ensures s == "[" + a + " - " + b + "]"
    ensures ParseClock(a) == Some(ParseRange(s).value.0)
    ensures ParseClock(b) == Some(ParseRange(s).value.1)
  {
    var inner := s[1..|s| - 1];
    Bracketed(s);
    SplitDashJoins(inner);
    a, b := SplitDash(inner).value.0, SplitDash(inner).value.1;
  }

  lemma ParsedIsRange(s: string)
    requires ParseRange(s).Some?
    ensures TimestampRange(ParseRange(s).value.0, ParseRange(s).value.1) == s
  {
    var a, b := RangeParts(s);
    ParsedIsClock(a);
    ParsedIsClock(b);
  }

  /** 63 s and 125 s are labelled `[01:03 - 02:05]`. */
  lemma RangeExample()
    ensures TimestampRange(63, 125) == "[01:03 - 02:05]"
  {
  }

  /** Minutes are padded to two digits but not capped. */
  lemma UncappedExample()
    ensures Clock(6000) == "100:00"
  {
  }
}
