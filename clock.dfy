/** The sort key of a slot: the start time `time.strptime(text, "%I:%M %p")`
    reads from a title such as "7:00 PM".

    `strptime` is a library routine; this module models the part of it that the
    format "%I:%M %p" uses, under these assumptions:
    - `%I` matches `1[0-2]|0[1-9]|[1-9]`, `%M` matches `[0-5]\d|\d`, the space
      in the format matches one or more whitespace characters, and `%p` matches
      "am" or "pm" in any letter case (the English locale);
    - the whole text must match, or `strptime` raises `ValueError`;
    - digits and whitespace are ASCII only;
    - of the `struct_time` result only hour and minute differ between two
      parses of this format (the date fields are always 1 January 1900), so
      comparing two results compares (hour, minute), which is the order of
      the minutes since midnight returned here. */
module Clock {
  import opened Text

  const MinutesPerDay: nat := 24 * 60

  predicate IsDigit(c: char) {
    '0' <= c <= '9'
  }

  function DigitValue(c: char): (d: nat)
    requires IsDigit(c)
    ensures d < 10
  {
    c as int - '0' as int
  }

  function Digit(d: nat): (c: char)
    requires d < 10
    ensures IsDigit(c) && DigitValue(c) == d
  {
    ('0' as int + d) as char
  }

  /** A number read from the front of a text, and the text after it. */
  datatype Lexed = Lexed(value: nat, rest: string)

  /** `%I` and the colon after it. With the colon required next, the pattern
      `1[0-2]|0[1-9]|[1-9]` accepts exactly one non-zero digit, or two digits
      reading 01 to 12. */
  function LexHour(s: string): (r: Option<Lexed>)
    ensures r.Some? ==> 1 <= r.value.value <= 12
  {
    if 2 <= |s| && IsDigit(s[0]) && s[0] != '0' && s[1] == ':' then
      Some(Lexed(DigitValue(s[0]), s[2..]))
    else if 3 <= |s| && s[2] == ':'
      && ((s[0] == '0' && IsDigit(s[1]) && s[1] != '0') || (s[0] == '1' && '0' <= s[1] <= '2'))
    then
      Some(Lexed(10 * DigitValue(s[0]) + DigitValue(s[1]), s[3..]))
    else
      None
  }

  /** `%M`, which must be followed by the whitespace that the format's space
      requires: two digits reading 00 to 59, or a single digit. */
  function LexMinute(s: string): (r: Option<Lexed>)
    ensures r.Some? ==> r.value.value < 60 && r.value.rest != [] && IsSpace(r.value.rest[0])
  {
    if 3 <= |s| && '0' <= s[0] <= '5' && IsDigit(s[1]) && IsSpace(s[2]) then
      Some(Lexed(10 * DigitValue(s[0]) + DigitValue(s[1]), s[2..]))
    else if 2 <= |s| && IsDigit(s[0]) && IsSpace(s[1]) then
      Some(Lexed(DigitValue(s[0]), s[1..]))
    else
      None
  }

  /** The format's space and `%p` up to the end of the text: whitespace, then
      "am" or "pm" in any case, then nothing. `Some(true)` stands for PM. */
  function LexMeridiem(s: string): (r: Option<bool>)
    ensures r.Some? ==> 3 <= |s| && IsSpace(s[0])
  {
    var n := StripStart(s);
    var t := s[n..];
    if n == 0 || |t| != 2 || !(t[1] == 'M' || t[1] == 'm') then None
    else if t[0] == 'A' || t[0] == 'a' then Some(false)
    else if t[0] == 'P' || t[0] == 'p' then Some(true)
    else None
  }

  /** `strptime`'s conversion of a 12-hour reading to a 24-hour one: 12 AM is
      hour 0, 12 PM is hour 12, any other PM hour gains twelve. */
  function To24(hour12: nat, pm: bool): (h: nat)
    requires 1 <= hour12 <= 12
    ensures h < 24
    ensures pm <==> h >= 12
    ensures h % 12 == hour12 % 12
  {
    if !pm then (if hour12 == 12 then 0 else hour12)
    else (if hour12 == 12 then 12 else hour12 + 12)
  }

  /** `time.strptime(s, "%I:%M %p")` as minutes since midnight; `None` where
      `strptime` raises `ValueError`. */
  function ParseClock(s: string): (r: Option<nat>)
    ensures r.Some? ==> r.value < MinutesPerDay
  {
    match LexHour(s)
    case None => None
    case Some(h) =>
      match LexMinute(h.rest)
      case None => None
      case Some(m) =>
        match LexMeridiem(m.rest)
        case None => None
        case Some(pm) => Some(60 * To24(h.value, pm) + m.value)
  }

  /** The hour as the booking site prints it: no leading zero. */
  function HourText(hour12: nat): (s: string)
    requires 1 <= hour12 <= 12
  {
    if hour12 < 10 then [Digit(hour12)] else ['1', Digit(hour12 - 10)]
  }

  /** The minute as two digits. */
  function MinuteText(minute: nat): (s: string)
    requires minute < 60
  {
    [Digit(minute / 10), Digit(minute % 10)]
  }

  /** A start time written the way the site writes it, "7:00 PM" for 1140. */
  function FormatClock(m: nat): (s: string)
    requires m < MinutesPerDay
    ensures '-' !in s
    ensures s != [] && !IsSpace(s[0]) && !IsSpace(s[|s| - 1])
  {
    var h := m / 60;
    var hour12 := if h % 12 == 0 then 12 else h % 12;
    HourText(hour12) + ":" + MinuteText(m % 60) + " " + (if h < 12 then "AM" else "PM")
  }

  lemma LexHourText(hour12: nat, tail: string)
    requires 1 <= hour12 <= 12
    ensures LexHour(HourText(hour12) + ":" + tail) == Some(Lexed(hour12, tail))
  {
    var s := HourText(hour12) + ":" + tail;
    if hour12 < 10 {
      assert s[1] == ':' && s[2..] == tail;
    } else {
      assert s[2] == ':' && s[3..] == tail;
      assert 10 * DigitValue(s[0]) + DigitValue(s[1]) == hour12;
    }
  }

  lemma LexMinuteText(minute: nat, tail: string)
    requires minute < 60 && tail != [] && IsSpace(tail[0])
    ensures LexMinute(MinuteText(minute) + tail) == Some(Lexed(minute, tail))
  {
    var s := MinuteText(minute) + tail;
    assert s[2..] == tail;
  }

  lemma LexMeridiemText(pm: bool)
    ensures LexMeridiem(" " + (if pm then "PM" else "AM")) == Some(pm)
  {
    var s := " " + (if pm then "PM" else "AM");
    assert StripStart(s[1..]) == 0;
    assert s[1..] == s[StripStart(s)..];
  }

  lemma HourOfDay(m: nat)
    requires m < MinutesPerDay
    ensures var h := m / 60;
      h < 24 && 60 * h + m % 60 == m
      && To24(if h % 12 == 0 then 12 else h % 12, h >= 12) == h
  {
  }

  /** A time written in the site's form parses to its hour and minute. */
  lemma ParsePieces(hour12: nat, minute: nat, pm: bool)
    requires 1 <= hour12 <= 12 && minute < 60
    ensures ParseClock(HourText(hour12) + ":" + MinuteText(minute) + " " + (if pm then "PM" else "AM"))
         == Some(60 * To24(hour12, pm) + minute)
  {
    var mer := " " + (if pm then "PM" else "AM");
    var tail := MinuteText(minute) + mer;
    assert HourText(hour12) + ":" + MinuteText(minute) + " " + (if pm then "PM" else "AM")
        == HourText(hour12) + ":" + tail;
    LexHourText(hour12, tail);
    LexMinuteText(minute, mer);
    LexMeridiemText(pm);
    ParseOfLexed(HourText(hour12) + ":" + tail, hour12, tail, minute, mer, pm);
  }

  /** Reading back a formatted start time gives that time. */
  lemma {:induction false} ParseFormat(m: nat)
    requires m < MinutesPerDay
    ensures ParseClock(FormatClock(m)) == Some(m)
  {
    var h := m / 60;
    var hour12, minute, pm := if h % 12 == 0 then 12 else h % 12, m % 60, h >= 12;
    HourOfDay(m);
    assert FormatClock(m) == HourText(hour12) + ":" + MinuteText(minute) + " " + (if pm then "PM" else "AM");
    ParsePieces(hour12, minute, pm);
    assert 60 * To24(hour12, pm) + minute == m;
  }

  /** The spellings `%I` accepts for hour `h` when a colon follows: the
      site's own, and for a single-digit hour the one with a leading zero. */
  predicate HourSpelling(p: string, h: nat) {
    1 <= h <= 12 && (p == HourText(h) || (h < 10 && p == "0" + HourText(h)))
  }

  /** The spellings `%M` accepts for minute `m` when whitespace follows: two
      digits, or a single digit for a minute below ten. */
  predicate MinuteSpelling(p: string, m: nat) {
    m < 60 && (p == MinuteText(m) || (m < 10 && p == [Digit(m)]))
  }

  /** The texts that the format's space and `%p` accept to the end of the
      input: one or more whitespace characters, then "am" (`pm` false) or
      "pm" (`pm` true) in any letter case. */
  predicate MeridiemSpelling(p: string, pm: bool) {
    |p| >= 3
    && (forall k :: 0 <= k < |p| - 2 ==> IsSpace(p[k]))
    && (p[|p| - 1] == 'M' || p[|p| - 1] == 'm')
    && (if pm then p[|p| - 2] == 'P' || p[|p| - 2] == 'p' else p[|p| - 2] == 'A' || p[|p| - 2] == 'a')
  }

  lemma DigitOfValue(c: char)
    requires IsDigit(c)
    ensures Digit(DigitValue(c)) == c
  {
  }

  /** `LexHour` reads hour `h` and leaves `t` exactly when the text is a
      spelling of `h`, a colon, then `t`. */
  lemma LexHourIff(s: string, h: nat, t: string)
    ensures LexHour(s) == Some(Lexed(h, t)) <==> exists p :: HourSpelling(p, h) && s == p + ":" + t
  {
    if LexHour(s) == Some(Lexed(h, t)) {
      if 2 <= |s| && IsDigit(s[0]) && s[0] != '0' && s[1] == ':' {
        DigitOfValue(s[0]);
        assert s == [s[0]] + ":" + t;
        assert HourSpelling([s[0]], h);
      } else {
        DigitOfValue(s[1]);
        assert s == [s[0], s[1]] + ":" + t;
        if s[0] == '0' {
          assert HourSpelling([s[0], s[1]], h);
        } else {
          assert HourSpelling([s[0], s[1]], h);
        }
      }
    }
    if p :| HourSpelling(p, h) && s == p + ":" + t {
      if p == HourText(h) {
        LexHourText(h, t);
      } else {
        assert s[0] == '0' && s[1] == Digit(h) && s[2] == ':' && s[3..] == t;
      }
    }
  }

  /** `LexMinute` reads minute `m` and leaves `t` exactly when the text is a
      spelling of `m` followed by `t`, and `t` starts with whitespace. */
  lemma LexMinuteIff(s: string, m: nat, t: string)
    ensures LexMinute(s) == Some(Lexed(m, t)) <==>
      t != [] && IsSpace(t[0]) && exists p :: MinuteSpelling(p, m) && s == p + t
  {
    if LexMinute(s) == Some(Lexed(m, t)) {
      if 3 <= |s| && '0' <= s[0] <= '5' && IsDigit(s[1]) && IsSpace(s[2]) {
        DigitOfValue(s[0]);
        DigitOfValue(s[1]);
        assert s == [s[0], s[1]] + t;
        assert MinuteSpelling([s[0], s[1]], m);
      } else {
        DigitOfValue(s[0]);
        assert s == [s[0]] + t;
        assert MinuteSpelling([s[0]], m);
      }
    }
    if t != [] && IsSpace(t[0]) && exists p :: MinuteSpelling(p, m) && s == p + t {
      var p :| MinuteSpelling(p, m) && s == p + t;
      if p == MinuteText(m) {
        LexMinuteText(m, t);
      } else {
        assert s[0] == Digit(m) && s[1] == t[0] && s[1..] == t;
      }
    }
  }

  /** `LexMeridiem` accepts exactly the spellings of AM and PM. */
  lemma LexMeridiemIff(s: string, pm: bool)
    ensures LexMeridiem(s) == Some(pm) <==> MeridiemSpelling(s, pm)
  {
    var n := StripStart(s);
    if MeridiemSpelling(s, pm) {
      var k := |s| - 2;
      assert !IsSpace(s[k]);
      assert n == k;
      assert s[n..][0] == s[k] && s[n..][1] == s[k + 1];
    }
    if LexMeridiem(s) == Some(pm) {
      assert n == |s| - 2;
      assert s[n..][0] == s[|s| - 2] && s[n..][1] == s[|s| - 1];
    }
  }

  lemma ParseOfLexed(s: string, h: nat, r1: string, m: nat, r2: string, pm: bool)
    requires LexHour(s) == Some(Lexed(h, r1)) && LexMinute(r1) == Some(Lexed(m, r2))
    requires LexMeridiem(r2) == Some(pm)
    ensures ParseClock(s) == Some(60 * To24(h, pm) + m)
  {
  }

  lemma LexedOfParse(s: string)
    requires ParseClock(s).Some?
    ensures LexHour(s).Some? && LexMinute(LexHour(s).value.rest).Some?
    ensures LexMeridiem(LexMinute(LexHour(s).value.rest).value.rest).Some?
    ensures ParseClock(s).value == 60 * To24(LexHour(s).value.value,
      LexMeridiem(LexMinute(LexHour(s).value.rest).value.rest).value)
      + LexMinute(LexHour(s).value.rest).value.value
  {
  }

  /** Every accepted spelling of a time parses to that time. */
  lemma ParseClockAccepts(hp: string, h: nat, mp: string, m: nat, mer: string, pm: bool)
    requires HourSpelling(hp, h) && MinuteSpelling(mp, m) && MeridiemSpelling(mer, pm)
    ensures ParseClock(hp + ":" + mp + mer) == Some(60 * To24(h, pm) + m)
  {
    var s := hp + ":" + mp + mer;
    assert s == hp + ":" + (mp + mer);
    LexHourIff(s, h, mp + mer);
    assert LexHour(s) == Some(Lexed(h, mp + mer));
    assert mer[0] in mer;
    LexMinuteIff(mp + mer, m, mer);
    assert LexMinute(mp + mer) == Some(Lexed(m, mer));
    LexMeridiemIff(mer, pm);
    ParseOfLexed(s, h, mp + mer, m, mer, pm);
  }

  /** Only such spellings parse: a text that parses is an hour spelling, a
      colon, a minute spelling and a meridiem spelling, and it parses to the
      time they spell. */
  lemma ParseClockOnlySpellings(s: string)
    requires ParseClock(s).Some?
    ensures exists hp, h, mp, m, mer, pm ::
      (s == hp + ":" + mp + mer
       && HourSpelling(hp, h) && MinuteSpelling(mp, m) && MeridiemSpelling(mer, pm)
       && ParseClock(s).value == 60 * To24(h, pm) + m)
  {
    LexedOfParse(s);
    var hl := LexHour(s).value;
    var ml := LexMinute(hl.rest).value;
    var pm := LexMeridiem(ml.rest).value;
    SpellingsOfLexed(s, hl.value, hl.rest, ml.value, ml.rest, pm);
    var hp, mp :| s == hp + ":" + mp + ml.rest
      && HourSpelling(hp, hl.value) && MinuteSpelling(mp, ml.value) && MeridiemSpelling(ml.rest, pm);
    assert s == hp + ":" + mp + ml.rest
      && HourSpelling(hp, hl.value) && MinuteSpelling(mp, ml.value) && MeridiemSpelling(ml.rest, pm)
      && ParseClock(s).value == 60 * To24(hl.value, pm) + ml.value;
  }

  lemma SpellingsOfLexed(s: string, h: nat, r1: string, m: nat, r2: string, pm: bool)
    requires LexHour(s) == Some(Lexed(h, r1)) && LexMinute(r1) == Some(Lexed(m, r2))
    requires LexMeridiem(r2) == Some(pm)
    ensures exists hp, mp ::
      (s == hp + ":" + mp + r2
       && HourSpelling(hp, h) && MinuteSpelling(mp, m) && MeridiemSpelling(r2, pm))
  {
    LexHourIff(s, h, r1);
    var hp :| HourSpelling(hp, h) && s == hp + ":" + r1;
    LexMinuteIff(r1, m, r2);
    var mp :| MinuteSpelling(mp, m) && r1 == mp + r2;
    LexMeridiemIff(r2, pm);
    Assoc(hp + ":", mp, r2);
  }

  /** A time in the twelfth hour of the clock face, written as the site does. */
  lemma TwelveOClock(s: string, minute: nat, pm: bool)
    requires minute < 60 && s == "12:" + MinuteText(minute) + (if pm then " PM" else " AM")
    ensures ParseClock(s) == Some(if pm then 720 + minute else minute)
  {
    var mt, mer := MinuteText(minute), if pm then "PM" else "AM";
    ParsePieces(12, minute, pm);
    assert HourText(12) + ":" == "12:";
    Assoc("12:" + mt, " ", mer);
    assert " " + mer == (if pm then " PM" else " AM");
    assert s == HourText(12) + ":" + mt + " " + mer;
  }

  /** "12:mm AM" is the first hour of the day and "12:mm PM" is noon. */
  lemma TwelveIsMidnightAndNoon(minute: nat)
    requires minute < 60
    ensures ParseClock("12:" + MinuteText(minute) + " AM") == Some(minute)
    ensures ParseClock("12:" + MinuteText(minute) + " PM") == Some(720 + minute)
  {
    TwelveOClock("12:" + MinuteText(minute) + " AM", minute, false);
    TwelveOClock("12:" + MinuteText(minute) + " PM", minute, true);
  }
}
