/**
 * The scripts injected into the booking site's pages (src/scripts.js): filling the
 * login form, the password confirmation form, and the reservation form. A script is
 * modelled by the values it writes into the page's fields; the surrounding JavaScript
 * text is fixed.
 */
module Scripts {
  import opened Wrappers
  import opened Text
  import opened Domain
  import SchedulesCache

  /** The values the reservation script assigns: room, hour radio button, number of
      hours, date, first and second hour, team name and team size. */
  datatype Payload = Payload(
    room: string,
    hourRadio: string,
    timers: int,
    dateYmd: string,
    dateTime: string,
    dateTime2: string,
    teamName: string,
    teamCnt: int)

  datatype Script =
    | LoginScript(uid: string, pw: string)
    | ConfirmScript(pw: string)
    | ReservationScript(payload: Payload)

  /** `login(uid, upw)`: fills `#login_id`, `#login_pw` and submits. */
  function Login(uid: string, pw: string): (s: Script)
    ensures s.LoginScript? && s.uid == uid && s.pw == pw
  {
    LoginScript(uid, pw)
  }

  /** `confirm(upw)`: fills `#confirm_mb_password` and submits. */
  function Confirm(pw: string): (s: Script)
    ensures s.ConfirmScript? && s.pw == pw
  {
    ConfirmScript(pw)
  }

  /** The site's room names, indexed by court; index 0 is the empty name. */
  const RoomNames: seq<string> := ["", "A\U{AD00}", "B\U{AD00}", "C\U{AD00}", "D\U{AD00}",
    "E\U{AD00}", "F\U{AD00}", "G\U{AD00}", "H\U{AD00}"]

  /** `names[r.court] ?? names[1]`: courts outside 0..8 fall back to the first room;
      court 0 gives the empty name, which is not nullish. */
  function RoomName(court: int): (name: string)
    ensures 1 <= court <= 8 ==> name == [(('A' as int) + court - 1) as char, '\U{AD00}']
    ensures court == 0 ==> name == ""
    ensures (court < 0 || court > 8) ==> name == RoomNames[1]
  {
    if 0 <= court < |RoomNames| then RoomNames[court] else RoomNames[1]
  }

  /** `/^\d{8}$/`. */
  predicate IsDate8(s: string)
  {
    |s| == 8 && AllDigits(s)
  }

  /** `/^(\d{2}):00$/`. */
  predicate IsHourTime(s: string)
  {
    |s| == 5 && IsDigit(s[0]) && IsDigit(s[1]) && s[2..] == ":00"
  }

  /** The hour of an "HH:00" time. */
  function HourOf(s: string): nat
    requires IsHourTime(s)
  {
    DigitValue(s[0]) * 10 + DigitValue(s[1])
  }

  lemma TwoDigitValue(d: string)
    requires |d| == 2 && AllDigits(d)
    ensures DigitsValue(d) == DigitValue(d[0]) * 10 + DigitValue(d[1])
  {
    assert d[..|d| - 1] == [d[0]];
    assert DigitsValue(d) == DigitsValue([d[0]]) * 10 + DigitValue(d[1]);
    assert [d[0]][..0] == [];
    assert DigitsValue([d[0]]) == DigitValue(d[0]);
  }

  /** `Number(time.split(':')[0])` is the hour of an "HH:00" time. */
  lemma HourOfIsNumber(s: string)
    requires IsHourTime(s)
    ensures JsNumber(Split(s, ':')[0]) == Some(HourOf(s))
  {
    assert s == s[..2] + [':'] + s[3..];
    SplitHead(s[..2], ':', s[3..]);
    TwoDigitValue(s[..2]);
  }

  /**
   * `reservation(r)`: None (the script is `undefined`) when the date is not eight digits,
   * the time is not "HH:00", or a request for more than one hour starts at 23:00 or
   * later. A request for more than one hour books exactly two.
   */
  function Reservation(r: Domain.Reservation, groupName: string, groupCount: int): (p: Option<Payload>)
    ensures p.Some? <==> IsDate8(r.date) && IsHourTime(r.time) && (r.hours > 1 ==> HourOf(r.time) + 1 <= 23)
    ensures p.Some? ==> p.value.room == RoomName(r.court)
    ensures p.Some? ==> p.value.dateYmd == r.date && p.value.dateTime == r.time
    ensures p.Some? ==> p.value.teamName == groupName && p.value.teamCnt == groupCount
    ensures p.Some? && r.hours > 1 ==>
      p.value.timers == 2 && p.value.hourRadio == "selectTim02" && IsHourTime(p.value.dateTime2)
      && HourOf(p.value.dateTime2) == HourOf(r.time) + 1
    ensures p.Some? && r.hours <= 1 ==>
      p.value.timers == 1 && p.value.hourRadio == "selectTim01" && p.value.dateTime2 == ""
  {
    var room := RoomName(r.court);
    var hourRadio := if r.hours > 1 then "selectTim02" else "selectTim01";
    var hours := if r.hours > 1 then 2 else 1;
    if !IsDate8(r.date) then None
    else if !IsHourTime(r.time) then None
    else
      HourOfIsNumber(r.time);
      var hh := JsNumber(Split(r.time, ':')[0]).value;
      if hours > 1 && hh + 1 > 23 then None
      else if hours > 1 then
        HourLabelTime(hh + 1);
        Some(Payload(room, hourRadio, hours, r.date, r.time, HourLabel(hh + 1), groupName, groupCount))
      else
        Some(Payload(room, hourRadio, hours, r.date, r.time, "", groupName, groupCount))
  }

  lemma HourLabelTime(n: int)
    requires 0 <= n < 100
    ensures IsHourTime(HourLabel(n)) && HourOf(HourLabel(n)) == n
  {
    HourLabelShape(n);
    var s := HourLabel(n);
    TwoDigitValue(s[..2]);
  }

  /** The second hour the script books is the cell the slot cache checks for a
      two-hour request, so the commit books exactly the hours the cache vetted. */
  lemma CommitBooksCheckedHours(r: Domain.Reservation, groupName: string, groupCount: int)
    requires Reservation(r, groupName, groupCount).Some? && r.hours > 1
    ensures Reservation(r, groupName, groupCount).value.dateTime2 == SchedulesCache.NextHourLabel(r.time)
  {
    HourOfIsNumber(r.time);
  }

  /** A two-hour request at 23:00 produces no script, and neither does a time like "08:30". */
  lemma RejectedExamples(c: int, g: string, n: int)
    ensures Reservation(Domain.Reservation(c, "20250814", "23:00", 2, None, ""), g, n).None?
    ensures Reservation(Domain.Reservation(c, "20250814", "08:30", 1, None, ""), g, n).None?
    ensures Reservation(Domain.Reservation(c, "2025-08-14", "08:00", 1, None, ""), g, n).None?
  {
    assert HourOf("23:00") == 23;
  }

  /** The worked example: court 5, 14 August 2025, 08:00 for two hours. */
  lemma AcceptedExample(g: string, n: int)
    ensures Reservation(Domain.Reservation(5, "20250814", "08:00", 2, None, ""), g, n)
      == Some(Payload("E\U{AD00}", "selectTim02", 2, "20250814", "08:00", "09:00", g, n))
  {
    assert IsDate8("20250814");
    assert IsHourTime("08:00") && HourOf("08:00") == 8;
    HourOfIsNumber("08:00");
    assert HourLabel(9) == "09:00" by {
      assert NatToString(9) == "9";
    }
    assert RoomName(5) == RoomNames[5];
  }
}
