/**
 * The one-line rendering of a reservation used by the settings page
 * (src/common/menu_time_esm.js): "MM/DD(<weekday>) • 코트 <court> • <clock><hour>[+<clock><hour>][ • <user>]".
 */
module MenuTime {
  import opened Wrappers
  import opened Text
  import opened Calendar
  import opened Domain
  import Scripts

  /** `hour_emoji`, the hours 6..23 in order: a clock face and the two-digit hour. */
  const HourEmojiTable: seq<string> := [
    "\U{1F555}06", "\U{1F556}07", "\U{1F557}08", "\U{1F558}09", "\U{1F559}10", "\U{1F55A}11",
    "\U{1F55B}12", "\U{1F550}13", "\U{1F551}14", "\U{1F552}15", "\U{1F553}16", "\U{1F554}17",
    "\U{1F555}18", "\U{1F556}19", "\U{1F557}20", "\U{1F558}21", "\U{1F559}22", "\U{1F55A}23"]

  /** `hour_emoji[h]`: the entry for hours 6..23, no entry (None) for any other key. */
  function HourEmoji(h: int): (e: Option<string>)
    ensures e.Some? <==> 6 <= h <= 23
  {
    if 6 <= h <= 23 then Some(HourEmojiTable[h - 6]) else None
  }

  /** `hour_emoji[h]` as text: the entry, or "undefined" for a missing key or NaN (None). */
  function EmojiText(h: Option<int>): (s: string)
    ensures h.Some? && 6 <= h.value <= 23 ==> s == HourEmoji(h.value).value
    ensures !(h.Some? && 6 <= h.value <= 23) ==> s == "undefined"
  {
    if h.Some? && HourEmoji(h.value).Some? then HourEmoji(h.value).value else "undefined"
  }

  /** The clock face showing hour `h` of a 12-hour dial: U+1F550 is one o'clock, U+1F55B
      twelve o'clock. */
  function ClockFace(h: int): char
    requires 1 <= h <= 24
  {
    (0x1F550 + (if h <= 12 then h - 1 else h - 13)) as char
  }

  /** Every entry is the clock face of its hour followed by the hour in two digits. */
  lemma HourEmojiShape(h: int)
    requires 6 <= h <= 23
    ensures HourEmoji(h).value == [ClockFace(h)] + Pad2(h)
  {
    if h < 12 {
      MorningEntries(h);
    } else if h < 18 {
      AfternoonEntries(h);
    } else {
      EveningEntries(h);
    }
    var tens, ones := DigitChar(h / 10), DigitChar(h % 10);
    Pad2Digits(h);
    assert [ClockFace(h), tens, ones] == [ClockFace(h)] + [tens, ones];
  }

  /** The entries for 6..11. */
  lemma MorningEntries(h: int)
    requires 6 <= h < 12
    ensures HourEmojiTable[h - 6] == [ClockFace(h), DigitChar(h / 10), DigitChar(h % 10)]
  {
    if h == 6 {
      assert HourEmojiTable[0] == "\U{1F555}06";
    } else if h == 7 {
      assert HourEmojiTable[1] == "\U{1F556}07";
    } else if h == 8 {
      assert HourEmojiTable[2] == "\U{1F557}08";
    } else if h == 9 {
      assert HourEmojiTable[3] == "\U{1F558}09";
    } else if h == 10 {
      assert HourEmojiTable[4] == "\U{1F559}10";
    } else {
      assert HourEmojiTable[5] == "\U{1F55A}11";
    }
  }

  /** The entries for 12..17, on both sides of noon. */
  lemma AfternoonEntries(h: int)
    requires 12 <= h < 18
    ensures HourEmojiTable[h - 6] == [ClockFace(h), DigitChar(h / 10), DigitChar(h % 10)]
  {
    if h == 12 {
      assert HourEmojiTable[6] == "\U{1F55B}12";
    } else if h == 13 {
      assert HourEmojiTable[7] == "\U{1F550}13";
    } else if h == 14 {
      assert HourEmojiTable[8] == "\U{1F551}14";
    } else if h == 15 {
      assert HourEmojiTable[9] == "\U{1F552}15";
    } else if h == 16 {
      assert HourEmojiTable[10] == "\U{1F553}16";
    } else {
      assert HourEmojiTable[11] == "\U{1F554}17";
    }
  }

  /** The entries for 18..23. */
  lemma EveningEntries(h: int)
    requires 18 <= h <= 23
    ensures HourEmojiTable[h - 6] == [ClockFace(h), DigitChar(h / 10), DigitChar(h % 10)]
  {
    if h == 18 {
      assert HourEmojiTable[12] == "\U{1F555}18";
    } else if h == 19 {
      assert HourEmojiTable[13] == "\U{1F556}19";
    } else if h == 20 {
      assert HourEmojiTable[14] == "\U{1F557}20";
    } else if h == 21 {
      assert HourEmojiTable[15] == "\U{1F558}21";
    } else if h == 22 {
      assert HourEmojiTable[16] == "\U{1F559}22";
    } else {
      assert HourEmojiTable[17] == "\U{1F55A}23";
    }
  }

  /** So every entry reads back, after its clock face, as its own hour. */
  lemma HourEmojiDigits(h: int)
    requires 6 <= h <= 23
    ensures |HourEmoji(h).value| == 3
    ensures AllDigits(HourEmoji(h).value[1..]) && DigitsValue(HourEmoji(h).value[1..]) == h
  {
    HourEmojiShape(h);
    Pad2RoundTrip(h);
    assert HourEmoji(h).value[1..] == Pad2(h);
  }

  /** `['일', '월', '화', '수', '목', '금', '토']`, indexed by `getDay()`. */
  const Weekdays: string := "일월화수목금토"

  /** What `new Date("YYYY-MM-DD")` accepts: four, two and two digits naming a real date. */
  predicate IsoDate(y: string, m: string, d: string)
  {
    |y| == 4 && |m| == 2 && |d| == 2 && AllDigits(y) && AllDigits(m) && AllDigits(d)
    && 1 <= DigitsValue(m) <= 12 && 1 <= DigitsValue(d) <= DaysInMonth(DigitsValue(y), DigitsValue(m))
  }

  /**
   * `fmtDate(yyyymmdd)`: "MM/DD(<weekday>)". The string is parsed as midnight UTC and its
   * weekday read in local time, so west of UTC (`utcOffsetMin < 0`) it is the previous
   * day's weekday; an unparsable date gives "undefined".
   */
  function FmtDateWeekday(ymd: string, utcOffsetMin: int): string
  {
    var y, m, d := Slice(ymd, 0, 4), Slice(ymd, 4, 6), Slice(ymd, 6, 8);
    var weekday :=
      if !IsoDate(y, m, d) then "undefined"
      else
        var date := Date(DigitsValue(y), DigitsValue(m), DigitsValue(d));
        var local := if utcOffsetMin < 0 then PrevDay(date) else date;
        [Weekdays[Weekday(local)]];
    m + "/" + d + "(" + weekday + ")"
  }

  lemma ExampleDigits()
    ensures DigitsValue("2025") == 2025 && DigitsValue("08") == 8 && DigitsValue("14") == 14
  {
    assert "2025"[..3] == "202" && "202"[..2] == "20" && "20"[..1] == "2" && "2"[..0] == "";
    assert "08"[..1] == "0" && "14"[..1] == "1" && "0"[..0] == "" && "1"[..0] == "";
  }

  /** East of UTC the weekday is the date's own: 14 August 2025 shows as Thursday. */
  lemma FmtDateExample()
    ensures FmtDateWeekday("20250814", 540) == "08/14(목)"
  {
    var y, m, d := Slice("20250814", 0, 4), Slice("20250814", 4, 6), Slice("20250814", 6, 8);
    assert y == "2025" && m == "08" && d == "14";
    ExampleDigits();
    ThursdayCheck();
  }

  /** A date the application writes as yyyymmdd shows its own month and day, with its own
      weekday east of UTC and the previous day's weekday west of it. */
  lemma FmtDateOfDate(dt: Date, utcOffsetMin: int)
    requires ValidDate(dt) && 1000 <= dt.year <= 9999
    ensures var local := if utcOffsetMin < 0 then PrevDay(dt) else dt;
      FmtDateWeekday(IntToString(dt.year) + Pad2(dt.month) + Pad2(dt.day), utcOffsetMin)
        == Pad2(dt.month) + "/" + Pad2(dt.day) + "(" + [Weekdays[Weekday(local)]] + ")"
  {
    var ys, ms, ds := IntToString(dt.year), Pad2(dt.month), Pad2(dt.day);
    var s := ys + ms + ds;
    NatToStringLength4(dt.year);
    DigitsValueOfNatToString(dt.year);
    Pad2RoundTrip(dt.month);
    Pad2RoundTrip(dt.day);
    assert s[0..4] == ys && s[4..6] == ms && s[6..8] == ds;
    assert IsoDate(ys, ms, ds);
  }

  /** The start hour as written: `Number(r.start) ?? ...`. `Number` never yields null or
      undefined, so the fallback never runs and a missing `start` gives NaN (None). */
  function StartAsWritten(r: Reservation): Option<int>
  {
    r.start
  }

  /** The start hour as evidently intended: `r.start`, or else the hour of `r.time`. */
  function Start(r: Reservation): (h: Option<int>)
    ensures r.start.Some? ==> h == r.start
    ensures r.start.None? && Scripts.IsHourTime(r.time) ==> h == Some(Scripts.HourOf(r.time))
  {
    if r.start.Some? then r.start
    else
      HourSlice(r.time);
      JsNumber(Slice(r.time, 0, 2))
  }

  /** `Number(time.substring(0, 2))` is the hour of an "HH:00" time. */
  lemma HourSlice(time: string)
    ensures Scripts.IsHourTime(time) ==> JsNumber(Slice(time, 0, 2)) == Some(Scripts.HourOf(time))
  {
    if Scripts.IsHourTime(time) {
      Scripts.TwoDigitValue(time[..2]);
    }
  }

  /** The time part: the start hour's emoji, and for more than one hour "+" and the next. */
  function ItemTime(start: Option<int>, hours: int): string
  {
    var next := if start.Some? then Some(start.value + 1) else None;
    EmojiText(start) + (if hours > 1 then "+" + EmojiText(next) else "")
  }

  /** `reservationItemToString(r)`, with the intended start hour. */
  function ReservationItemToString(r: Reservation, utcOffsetMin: int): string
  {
    FmtDateWeekday(r.date, utcOffsetMin) + " • 코트 " + IntToString(r.court) + " • "
      + ItemTime(Start(r), r.hours) + (if r.userId != "" then " • " + r.userId else "")
  }

  /** `reservationItemToString(r)` as written. */
  function ReservationItemToStringAsWritten(r: Reservation, utcOffsetMin: int): string
  {
    FmtDateWeekday(r.date, utcOffsetMin) + " • 코트 " + IntToString(r.court) + " • "
      + ItemTime(StartAsWritten(r), r.hours) + (if r.userId != "" then " • " + r.userId else "")
  }

  /** A reservation without `start` (as the configuration file holds them) is shown with
      "undefined" hours as written. */
  lemma MissingStartShowsUndefined(r: Reservation)
    requires r.start.None? && r.hours > 1
    ensures ItemTime(StartAsWritten(r), r.hours) == "undefined+undefined"
  {
  }

  /** With the fallback, every reservation at a bookable hour shows its hour's emoji, and
      for two hours the next hour's, whether or not it carries `start`. */
  lemma ItemTimeShowsHours(r: Reservation)
    requires Scripts.IsHourTime(r.time) && 6 <= Scripts.HourOf(r.time) <= 23
    requires r.start.None? || r.start == Some(Scripts.HourOf(r.time))
    ensures var h := Scripts.HourOf(r.time);
      ItemTime(Start(r), r.hours) ==
        HourEmoji(h).value + (if r.hours > 1 then "+" + EmojiText(Some(h + 1)) else "")
  {
  }

  /** The configured entry court 5, 14 August 2025, 08:00, two hours, without `start`:
      as written its hours show as "undefined", with the fallback as 08 and 09. */
  lemma ConfiguredEntryExample()
    ensures var r := Reservation(5, "20250814", "08:00", 2, None, "");
      ItemTime(StartAsWritten(r), r.hours) == "undefined+undefined"
      && ItemTime(Start(r), r.hours) == "\U{1F557}08+\U{1F558}09"
  {
    var r := Reservation(5, "20250814", "08:00", 2, None, "");
    assert Scripts.IsHourTime(r.time) && Scripts.HourOf(r.time) == 8;
  }
}
