/** What main prints in each mode, before the final newline. */
module Format {
  import opened CStrings
  import opened Icon
  import opened Metrics

  /** A piece of output: characters; printf("%.2f") of a real, whose
      rounding to two decimals is not modelled; or printf("%.2f") of the
      infinity or NaN that a division by a zero rate gives. */
  datatype Piece = Chars(s: seq<char>) | TwoDecimals(x: real) | NonFinite

  /** Percent mode: with `-i` the icon, a space, the number and '%';
      without it the number alone. */
  function PercentLine(percent: int, showIcon: bool, charging: bool): (line: seq<char>)
    ensures showIcon ==> |line| > 2 && line[..2] == [GlyphChar(SelectIcon(percent, charging)), ' ']
    ensures showIcon ==> line[|line| - 1] == '%'
    ensures !showIcon ==> line == IntDigits(percent)
  {
    if showIcon then [GlyphChar(SelectIcon(percent, charging)), ' '] + IntDigits(percent) + ['%']
    else IntDigits(percent)
  }

  /** The number printed in percent mode reads back as the percentage, and
      '%' appears exactly when `-i` was given. */
  lemma PercentLineReadsBack(percent: int, showIcon: bool, charging: bool)
    ensures LeadingInteger(if showIcon then PercentLine(percent, showIcon, charging)[2..]
                           else PercentLine(percent, showIcon, charging)) == percent
    ensures '%' in PercentLine(percent, showIcon, charging) <==> showIcon
  {
    var line := PercentLine(percent, showIcon, charging);
    IntDigitsShape(percent);
    if showIcon {
      assert line[2..] == IntDigits(percent) + ['%'];
      IntDigitsRoundTrip(percent, ['%']);
    } else {
      assert IntDigits(percent) + [] == IntDigits(percent);
      IntDigitsRoundTrip(percent, []);
    }
  }

  /** Discharge mode: the rate with two decimals, then " W" with `-i`. */
  function DischargeLine(watts: real, showIcon: bool): (line: seq<Piece>)
    ensures |line| >= 1 && line[0] == TwoDecimals(watts)
    ensures |line| == 2 <==> showIcon
    ensures showIcon ==> line[1] == Chars(" W")
  {
    [TwoDecimals(watts)] + if showIcon then [Chars(" W")] else []
  }

  /** Time-remaining mode: with `-i` the wording in hours and minutes,
      otherwise the hours with two decimals. */
  function TimeLine(hours: real, showIcon: bool): (line: seq<Piece>)
    ensures |line| == 1
    ensures showIcon ==> line[0].Chars? && ParseWording(line[0].s) == Some(HoursMinutes(hours))
    ensures !showIcon ==> line[0] == TwoDecimals(hours)
  {
    if showIcon then
      var hm := HoursMinutes(hours);
      ParseWordingRoundTrip(hm.0, hm.1);
      [Chars(Wording(hm.0, hm.1))]
    else [TwoDecimals(hours)]
  }

  /** With `-i` the time line reads back as the whole hours and the minutes
      of the time: the time in whole minutes, rounded down, and for a time
      that is not negative whole hours and 0..59 minutes. */
  lemma TimeLineReadsBack(hours: real, h: int, m: int)
    requires ParseWording(TimeLine(hours, true)[0].s) == Some((h, m))
    ensures h * 60 + m == (hours * 60.0).Floor
    ensures 0.0 <= hours ==> h == hours.Floor && 0 <= m < 60
  {
  }

  /** The unit word of a count: the plural only above one. */
  function UnitWord(n: int, unit: seq<char>): seq<char> {
    unit + (if n > 1 then ['s'] else [])
  }

  /** `printf("%d <unit>", n)`, then 's' when n is more than one; nothing
      when n is 0. */
  function Clause(n: int, unit: seq<char>): (r: seq<char>)
    requires |unit| > 0 && unit[|unit| - 1] != 's'
    ensures r == [] <==> n == 0
    ensures n != 0 ==> (r[|r| - 1] == 's' <==> n > 1)
  {
    if n == 0 then [] else IntDigits(n) + [' '] + UnitWord(n, unit)
  }

  /** The time wording: the hours clause, a space only when both clauses
      are there, and the minutes clause. */
  function Wording(hours: int, minutes: int): (r: seq<char>)
    ensures r == [] <==> hours == 0 && minutes == 0
    ensures hours == 0 ==> r == Clause(minutes, "minute")
    ensures minutes == 0 ==> r == Clause(hours, "hour")
  {
    Clause(hours, "hour") + (if hours != 0 && minutes != 0 then [' '] else []) + Clause(minutes, "minute")
  }

  /** The words of `s` between single spaces. */
  function Words(s: seq<char>): (ws: seq<seq<char>>)
    ensures |ws| > 0
    decreases |s|
  {
    match IndexOf(s, ' ', 0)
    case None => [s]
    case Some(i) => [s[..i]] + Words(s[i + 1..])
  }

  predicate IsUnit(word: seq<char>, unit: seq<char>) {
    word == unit || word == unit + ['s']
  }

  /** Reads a wording back: one or two clauses, each a number and its unit
      in the singular or the plural. */
  function ParseWording(s: seq<char>): (r: Option<(int, int)>)
  {
    if s == [] then Some((0, 0))
    else
      var w := Words(s);
      if |w| == 2 && IsUnit(w[1], "hour") then Some((LeadingInteger(w[0]), 0))
      else if |w| == 2 && IsUnit(w[1], "minute") then Some((0, LeadingInteger(w[0])))
      else if |w| == 4 && IsUnit(w[1], "hour") && IsUnit(w[3], "minute") then
        Some((LeadingInteger(w[0]), LeadingInteger(w[2])))
      else None
  }

  /** %d prints a minus sign and digits: no space, no '%'. */
  lemma IntDigitsShape(n: int)
    ensures ' ' !in IntDigits(n) && '%' !in IntDigits(n)
  {
    var ds := NatDigits(if n < 0 then -n else n);
    assert forall k :: 0 <= k < |ds| ==> ds[k] != ' ' && ds[k] != '%';
    if n < 0 {
      assert IntDigits(n) == ['-'] + ds;
    }
  }

  lemma WordsOfWord(a: seq<char>)
    requires ' ' !in a
    ensures Words(a) == [a]
  {
    IndexOfNone(a, ' ', 0);
  }

  lemma WordsJoin(a: seq<char>, b: seq<char>)
    requires ' ' !in a
    ensures Words(a + [' '] + b) == [a] + Words(b)
  {
    var s := a + [' '] + b;
    IndexOfIs(s, ' ', 0, |a|);
    assert s[..|a|] == a && s[|a| + 1..] == b;
  }

  /** The unit word of a clause holds no space and names its unit. */
  lemma UnitWordIs(n: int, unit: seq<char>)
    requires ' ' !in unit
    ensures ' ' !in UnitWord(n, unit) && IsUnit(UnitWord(n, unit), unit)
  {
  }

  /** A clause is two words, the number and the unit. */
  lemma ClauseWords(n: int, unit: seq<char>)
    requires n != 0 && |unit| > 0 && unit[|unit| - 1] != 's' && ' ' !in unit
    ensures Words(Clause(n, unit)) == [IntDigits(n), UnitWord(n, unit)]
  {
    var u := UnitWord(n, unit);
    IntDigitsShape(n);
    UnitWordIs(n, unit);
    WordsJoin(IntDigits(n), u);
    WordsOfWord(u);
  }

  /** A clause, a space and more text: the clause's two words, then the
      words of the rest. */
  lemma ClauseWordsThen(n: int, unit: seq<char>, rest: seq<char>)
    requires n != 0 && |unit| > 0 && unit[|unit| - 1] != 's' && ' ' !in unit
    ensures Words(Clause(n, unit) + [' '] + rest) == [IntDigits(n), UnitWord(n, unit)] + Words(rest)
  {
    var u := UnitWord(n, unit);
    IntDigitsShape(n);
    UnitWordIs(n, unit);
    assert Clause(n, unit) + [' '] + rest == IntDigits(n) + [' '] + (u + [' '] + rest);
    WordsJoin(IntDigits(n), u + [' '] + rest);
    WordsJoin(u, rest);
  }

  lemma ReadsDigits(n: int, v: int)
    requires v == LeadingInteger(IntDigits(n))
    ensures v == n
  {
    assert IntDigits(n) + [] == IntDigits(n);
    IntDigitsRoundTrip(n, []);
  }

  /** How ParseWording reads a text of two words. */
  lemma ParseTwoWords(s: seq<char>, a: seq<char>, u: seq<char>, v: int)
    requires s != [] && Words(s) == [a, u] && v == LeadingInteger(a)
    ensures IsUnit(u, "hour") ==> ParseWording(s) == Some((v, 0))
    ensures !IsUnit(u, "hour") && IsUnit(u, "minute") ==> ParseWording(s) == Some((0, v))
  {
  }

  /** How ParseWording reads a text of four words. */
  lemma ParseFourWords(s: seq<char>, a: seq<char>, u: seq<char>, b: seq<char>, w: seq<char>, v1: int, v2: int)
    requires s != [] && Words(s) == [a, u, b, w] && v1 == LeadingInteger(a) && v2 == LeadingInteger(b)
    requires IsUnit(u, "hour") && IsUnit(w, "minute")
    ensures ParseWording(s) == Some((v1, v2))
  {
  }

  lemma HoursOnly(h: int)
    requires h != 0
    ensures ParseWording(Wording(h, 0)) == Some((h, 0))
  {
    var s := Wording(h, 0);
    assert s == Clause(h, "hour");
    ClauseWords(h, "hour");
    UnitWordIs(h, "hour");
    var v := LeadingInteger(IntDigits(h));
    ReadsDigits(h, v);
    ParseTwoWords(s, IntDigits(h), UnitWord(h, "hour"), v);
  }

  /** A minutes word is never read as an hours word. */
  lemma MinuteIsNotHour(n: int)
    ensures !IsUnit(UnitWord(n, "minute"), "hour")
  {
    assert UnitWord(n, "minute")[0] == 'm';
  }

  /** With no hours the wording is the minutes clause's two words. */
  lemma MinutesOnlyWords(m: int)
    requires m != 0
    ensures Words(Wording(0, m)) == [IntDigits(m), UnitWord(m, "minute")]
  {
    assert Wording(0, m) == Clause(m, "minute") by {
      assert Clause(0, "hour") == [];
    }
    ClauseWords(m, "minute");
  }

  lemma MinutesOnly(m: int)
    requires m != 0
    ensures ParseWording(Wording(0, m)) == Some((0, m))
  {
    var u := UnitWord(m, "minute");
    MinutesOnlyWords(m);
    MinuteIsNotHour(m);
    UnitWordIs(m, "minute");
    var v := LeadingInteger(IntDigits(m));
    ReadsDigits(m, v);
    ParseTwoWords(Wording(0, m), IntDigits(m), u, v);
  }

  lemma HoursAndMinutes(h: int, m: int)
    requires h != 0 && m != 0
    ensures ParseWording(Wording(h, m)) == Some((h, m))
  {
    var s := Wording(h, m);
    var u := UnitWord(h, "hour");
    var w := UnitWord(m, "minute");
    assert Words(s) == [IntDigits(h), u, IntDigits(m), w] by {
      assert s == Clause(h, "hour") + [' '] + Clause(m, "minute");
      ClauseWordsThen(h, "hour", Clause(m, "minute"));
      ClauseWords(m, "minute");
    }
    assert IsUnit(u, "hour") && IsUnit(w, "minute") by {
      UnitWordIs(h, "hour");
      UnitWordIs(m, "minute");
    }
    var v1 := LeadingInteger(IntDigits(h));
    var v2 := LeadingInteger(IntDigits(m));
    assert v1 == h && v2 == m by {
      ReadsDigits(h, v1);
      ReadsDigits(m, v2);
    }
    ParseFourWords(s, IntDigits(h), u, IntDigits(m), w, v1, v2);
  }

  /** The wording reads back as the hours and minutes it was made from. */
  lemma ParseWordingRoundTrip(hours: int, minutes: int)
    ensures ParseWording(Wording(hours, minutes)) == Some((hours, minutes))
  {
    if hours != 0 && minutes != 0 {
      HoursAndMinutes(hours, minutes);
    } else if hours != 0 {
      HoursOnly(hours);
    } else if minutes != 0 {
      MinutesOnly(minutes);
    }
  }

  /** Two clauses, both plural, one space between them. */
  lemma WordingTwoPlurals()
    ensures Wording(2, 30) == "2 hours 30 minutes"
  {
    var h := Clause(2, "hour");
    var m := Clause(30, "minute");
    assert h == "2 hours" by {
      ClauseExample(2, "2", "hour", "2 hours");
    }
    assert m == "30 minutes" by {
      TwoDigits(30, '3', '0');
      ClauseExample(30, "30", "minute", "30 minutes");
    }
    assert Wording(2, 30) == h + [' '] + m;
  }

  /** A count of one takes the singular. */
  lemma WordingTwoSingulars()
    ensures Wording(1, 1) == "1 hour 1 minute"
  {
    var h := Clause(1, "hour");
    var m := Clause(1, "minute");
    assert h == "1 hour" by {
      ClauseExample(1, "1", "hour", "1 hour");
    }
    assert m == "1 minute" by {
      ClauseExample(1, "1", "minute", "1 minute");
    }
    assert Wording(1, 1) == h + [' '] + m;
  }

  /** No hours: the minutes clause alone, with no space before it. */
  lemma WordingMinutesOnly()
    ensures Wording(0, 45) == "45 minutes"
  {
    var m := Clause(45, "minute");
    assert m == "45 minutes" by {
      TwoDigits(45, '4', '5');
      ClauseExample(45, "45", "minute", "45 minutes");
    }
    assert Wording(0, 45) == [] + [] + m;
  }

  /** No minutes: the hours clause alone, with no space after it. */
  lemma WordingHoursOnly()
    ensures Wording(3, 0) == "3 hours"
  {
    var h := Clause(3, "hour");
    assert h == "3 hours" by {
      ClauseExample(3, "3", "hour", "3 hours");
    }
    assert Wording(3, 0) == h + [] + [];
  }

  lemma ClauseExample(n: nat, digits: seq<char>, unit: seq<char>, clause: seq<char>)
    requires n > 0 && |unit| > 0 && unit[|unit| - 1] != 's'
    requires NatDigits(n) == digits && clause == digits + " " + UnitWord(n, unit)
    ensures Clause(n, unit) == clause
  {
  }

  lemma TwoDigits(n: nat, tens: char, ones: char)
    requires 10 <= n < 100
    requires tens == DigitChar(n / 10) && ones == DigitChar(n % 10)
    ensures NatDigits(n) == [tens, ones]
  {
    assert NatDigits(n / 10) == [tens];
  }
}
