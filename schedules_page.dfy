/**
 * The court schedule page (src/ui/schedules.js): a grid of 8 courts by the hours 6..23 for
 * one day. Each cell shows whether its hour is available, reserved, not available or booked
 * (then with the masked name and the team of the booker). The page keeps the schedules it
 * has fetched per "YYYYMMDD" key and only asks the site again when forced. Clicking
 * available cells selects one hour, or two adjacent hours of one court, and clicking a
 * selected cell asks for that reservation.
 */
module SchedulesPage {
  import opened Wrappers
  import opened Text
  import opened Calendar
  import opened Domain
  import C = SchedulesCache
  import Scripts

  // ---------------------------------------------------------------------------------
  // Date keys

  /** `formatYmd(date)`: the year as a number followed by the month and the day, each
      padded to two digits. */
  function FormatYmd(d: Date): string
  {
    IntToString(d.year) + Pad2(d.month) + Pad2(d.day)
  }

  /** For years from 1 on the key is the decimal form of yyyymmdd, the number
      `makeReservation` sends as `String(ymd)`; for a four-digit year it is eight digits. */
  lemma FormatYmdIsYmdNumber(d: Date)
    requires d.year >= 1 && 1 <= d.month <= 12 && 1 <= d.day <= 31
    ensures FormatYmd(d) == IntToString(YmdNumber(d))
    ensures 1000 <= d.year <= 9999 ==> Scripts.IsDate8(FormatYmd(d))
  {
    var ym := d.year * 100 + d.month;
    var n := YmdNumber(d);
    assert n == ym * 100 + d.day;
    NatToStringAppend2(d.year, d.month);
    NatToStringAppend2(ym, d.day);
    assert NatToString(n) == NatToString(d.year) + Pad2(d.month) + Pad2(d.day);
    if 1000 <= d.year <= 9999 {
      YmdNumberLength(d);
    }
  }

  lemma YmdNumberLength(d: Date)
    requires 1000 <= d.year <= 9999 && 1 <= d.month <= 12 && 1 <= d.day <= 31
    ensures |NatToString(YmdNumber(d))| == 8
  {
    assert Pow10(7) == 10000000 && Pow10(8) == 100000000;
    NatToStringLength(YmdNumber(d), 7);
  }

  /** Different days have different keys, so the page's schedules never mix two days. */
  lemma FormatYmdInjective(a: Date, b: Date)
    requires a.year >= 1 && 1 <= a.month <= 12 && 1 <= a.day <= 31
    requires b.year >= 1 && 1 <= b.month <= 12 && 1 <= b.day <= 31
    requires FormatYmd(a) == FormatYmd(b)
    ensures a == b
  {
    FormatYmdIsYmdNumber(a);
    FormatYmdIsYmdNumber(b);
    IntToStringInjective(YmdNumber(a), YmdNumber(b));
    YmdNumberParts(a);
    YmdNumberParts(b);
  }

  lemma YmdNumberParts(d: Date)
    requires 1 <= d.month <= 12 && 1 <= d.day <= 31
    ensures YmdNumber(d) % 100 == d.day
    ensures (YmdNumber(d) / 100) % 100 == d.month
    ensures YmdNumber(d) / 10000 == d.year
  {
    var ym := d.year * 100 + d.month;
    assert YmdNumber(d) == ym * 100 + d.day;
    assert YmdNumber(d) / 100 == ym;
    assert ym / 100 == d.year;
  }

  // ---------------------------------------------------------------------------------
  // Masked names

  function Stars(n: nat): (s: string)
    ensures |s| == n && forall i :: 0 <= i < n ==> s[i] == '*'
  {
    if n == 0 then "" else "*" + Stars(n - 1)
  }

  /**
   * `maskName(str)`: a booker's name with everything but its first and last characters
   * starred; a name of one or two characters keeps only its first, followed by one star.
   */
  function MaskName(s: string): (m: string)
    ensures m == "" <==> s == ""
    ensures s != "" ==> |m| == (if |s| < 2 then 2 else |s|) && m[0] == s[0]
    ensures |s| >= 3 ==> m[|m| - 1] == s[|s| - 1]
    ensures forall i :: 1 <= i < |m| - 1 ==> m[i] == '*'
    ensures 1 <= |s| <= 2 ==> m[1] == '*'
  {
    if s == "" then ""
    else if |s| <= 2 then [s[0], '*']
    else [s[0]] + Stars(|s| - 2) + [s[|s| - 1]]
  }

  // ---------------------------------------------------------------------------------
  // Cells and their ids

  /** A cell of the grid: a court and an hour. */
  datatype Pos = Pos(court: int, hour: int)

  /** The cells `fillHours` creates: courts 1..8 at hours 6..23. */
  predicate InGrid(p: Pos)
  {
    1 <= p.court <= 8 && 6 <= p.hour <= 23
  }

  predicate GridSet(s: set<Pos>)
  {
    forall p :: p in s ==> InGrid(p)
  }

  /** `court * 100 + hour`. */
  function CellNumber(p: Pos): int
  {
    p.court * 100 + p.hour
  }

  /** The element id `h_<court * 100 + hour>`. */
  function CellId(p: Pos): string
  {
    "h_" + IntToString(CellNumber(p))
  }

  /** `court_and_hour_from_cell`: the number after the first '_' of the id, split into
      hundreds (the court) and the rest (the hour); None when that is not a number. */
  function CourtAndHour(id: string): Option<Pos>
  {
    var parts := Split(id, '_');
    var num := if |parts| >= 2 then JsNumber(parts[1]) else None;
    if num.None? then None else Some(Pos(num.value / 100, num.value % 100))
  }

  /** Every cell of the grid reads back its own court and hour from its id. */
  lemma CellIdRoundTrip(p: Pos)
    requires InGrid(p)
    ensures CourtAndHour(CellId(p)) == Some(p)
  {
    var n := CellNumber(p);
    var digits := NatToString(n);
    assert '_' !in digits by {
      forall i | 0 <= i < |digits| ensures digits[i] != '_' {
        assert IsDigit(digits[i]);
      }
    }
    assert CellId(p) == "h" + ['_'] + digits;
    SplitCons("h", '_', digits);
    SplitNoSep(digits, '_');
    assert Split(CellId(p), '_')[1] == digits;
    DigitsValueOfNatToString(n);
    assert JsNumber(digits) == Some(n);
    assert n / 100 == p.court && n % 100 == p.hour;
  }

  /** So no two cells of the grid share an id. */
  lemma CellIdsDistinct(p: Pos, q: Pos)
    requires InGrid(p) && InGrid(q) && CellId(p) == CellId(q)
    ensures p == q
  {
    CellIdRoundTrip(p);
    CellIdRoundTrip(q);
  }

  // ---------------------------------------------------------------------------------
  // Document order

  /** The position of a cell in the document: hour by hour, and court by court within an
      hour, as `fillHours` writes them. */
  function GridIndex(p: Pos): int
  {
    (p.hour - 6) * 8 + (p.court - 1)
  }

  function PosAt(i: int): Pos
  {
    Pos(i % 8 + 1, i / 8 + 6)
  }

  lemma GridIndexRoundTrip(p: Pos)
    requires InGrid(p)
    ensures 0 <= GridIndex(p) < 144 && PosAt(GridIndex(p)) == p
  {
    var i := GridIndex(p);
    assert i == (p.hour - 6) * 8 + (p.court - 1);
    assert i / 8 == p.hour - 6 && i % 8 == p.court - 1;
  }

  /** The first cell of `s` in document order at or after position `i`. */
  function FirstFrom(s: set<Pos>, i: nat): (r: Option<Pos>)
    requires i <= 144
    ensures r.Some? ==> r.value in s && InGrid(r.value) && i <= GridIndex(r.value)
    decreases 144 - i
  {
    if i == 144 then None
    else if PosAt(i) in s then
      assert GridIndex(PosAt(i)) == i;
      Some(PosAt(i))
    else FirstFrom(s, i + 1)
  }

  /** `$set.eq(0)`: the first cell of the set in document order. */
  function FirstInDocument(s: set<Pos>): (r: Option<Pos>)
    ensures r.Some? ==> r.value in s && InGrid(r.value)
  {
    FirstFrom(s, 0)
  }

  lemma {:induction false} FirstFromIsFirst(s: set<Pos>, i: nat, q: Pos)
    requires i <= 144 && q in s && InGrid(q) && i <= GridIndex(q)
    ensures FirstFrom(s, i).Some? && GridIndex(FirstFrom(s, i).value) <= GridIndex(q)
    decreases 144 - i
  {
    GridIndexRoundTrip(q);
    if PosAt(i) !in s {
      assert i != GridIndex(q);
      FirstFromIsFirst(s, i + 1, q);
    }
  }

  /** A grid cell of the set is found, and nothing found comes after it in the document. */
  lemma FirstInDocumentIsFirst(s: set<Pos>, q: Pos)
    requires q in s && InGrid(q)
    ensures FirstInDocument(s).Some? && GridIndex(FirstInDocument(s).value) <= GridIndex(q)
  {
    GridIndexRoundTrip(q);
    FirstFromIsFirst(s, 0, q);
  }

  // ---------------------------------------------------------------------------------
  // Selection

  /** Two cells of one court one hour apart. */
  predicate Adjacent(a: Pos, b: Pos)
  {
    a.court == b.court && (a.hour - b.hour == 1 || b.hour - a.hour == 1)
  }

  /** A selection the page can book: grid cells, at most two, and two only when adjacent. */
  predicate WellFormed(s: set<Pos>)
  {
    GridSet(s) && |s| <= 2 && forall a, b :: a in s && b in s && a != b ==> Adjacent(a, b)
  }

  /** What a click leaves selected, and whether it asks for the reservation. */
  datatype Click = Click(selected: set<Pos>, reserve: bool)

  /**
   * `onAvailableCell` on the cell `p`, with `avail` the cells marked available: a cell that
   * is not available clears every selection; a selected one asks for the reservation; an
   * available one joins the one available selected cell when that is on the same court an
   * hour away, and otherwise replaces the available selected cells.
   */
  function OnCell(avail: set<Pos>, selected: set<Pos>, p: Pos): Click
  {
    if p !in avail then Click({}, false)
    else if p in selected then Click(selected, true)
    else
      var sa := selected * avail;
      var prev := FirstInDocument(sa);
      if |sa| == 1 && prev.Some? && Adjacent(prev.value, p) then Click(selected + {p}, false)
      else Click(selected - sa + {p}, false)
  }

  /** While every selected cell is available, a click keeps the selection bookable and
      available, and asks for a reservation only on a selected cell. */
  lemma OnCellKeepsSelection(avail: set<Pos>, selected: set<Pos>, p: Pos)
    requires GridSet(avail) && selected <= avail && WellFormed(selected)
    ensures var c := OnCell(avail, selected, p);
      c.selected <= avail && WellFormed(c.selected)
      && (c.reserve <==> p in avail && p in selected)
      && (c.reserve ==> c.selected == selected)
      && (p in avail && !c.reserve ==> p in c.selected)
  {
    if p in avail && p !in selected {
      var sa := selected * avail;
      assert sa == selected;
      var prev := FirstInDocument(sa);
      if |sa| == 1 && prev.Some? && Adjacent(prev.value, p) {
        SingletonSet(selected, prev.value);
        var s' := selected + {p};
        assert s' == {prev.value, p};
      } else {
        assert selected - sa + {p} == {p};
      }
    }
  }

  lemma SingletonSet(s: set<Pos>, x: Pos)
    requires x in s && |s| == 1
    ensures s == {x}
  {
    assert |s - {x}| == 0;
    assert s == (s - {x}) + {x};
  }

  lemma PairSet(s: set<Pos>, x: Pos) returns (y: Pos)
    requires x in s && |s| == 2
    ensures y in s && y != x && s == {x, y}
  {
    var rest := s - {x};
    assert |rest| == 1;
    y :| y in rest;
    SingletonSet(rest, y);
    assert s == rest + {x};
  }

  /** The cells a reservation covers: its start hour, and the next one for two hours. */
  function Cells(r: Reservation): set<Pos>
  {
    if r.start.None? then {}
    else if r.hours == 2 then {Pos(r.court, r.start.value), Pos(r.court, r.start.value + 1)}
    else {Pos(r.court, r.start.value)}
  }

  /**
   * `makeReservation()` over the cells `cells` on day `d`: the court and hour of the first
   * cell in the document, as many hours as there are cells, and the day as the number
   * yyyymmdd; no account. None when there is no cell (the lookup of its id throws).
   */
  function MakeReservation(cells: set<Pos>, d: Date): Option<Reservation>
  {
    match FirstInDocument(cells)
    case None => None
    case Some(p) =>
      Some(Reservation(p.court, IntToString(YmdNumber(d)), HourLabel(p.hour), |cells|, Some(p.hour), ""))
  }

  /** A bookable selection is asked for exactly: the reservation covers the selected cells
      and no other. */
  lemma ReservationCoversSelection(sel: set<Pos>, d: Date)
    requires WellFormed(sel) && sel != {}
    ensures MakeReservation(sel, d).Some?
    ensures var r := MakeReservation(sel, d).value;
      Cells(r) == sel && r.hours == |sel| && r.date == IntToString(YmdNumber(d))
  {
    var q :| q in sel;
    FirstInDocumentIsFirst(sel, q);
    var p := FirstInDocument(sel).value;
    if |sel| == 2 {
      var o := PairSet(sel, p);
      assert Adjacent(p, o);
      FirstInDocumentIsFirst(sel, o);
      assert o == Pos(p.court, p.hour + 1);
    } else {
      SingletonSet(sel, p);
    }
  }

  /** On a day of a four-digit year, the script accepts every reservation a bookable
      selection produces. */
  lemma SelectionIsBookable(sel: set<Pos>, d: Date, groupName: string, groupCount: int)
    requires WellFormed(sel) && sel != {}
    requires 1000 <= d.year <= 9999 && 1 <= d.month <= 12 && 1 <= d.day <= 31
    ensures MakeReservation(sel, d).Some?
      && Scripts.Reservation(MakeReservation(sel, d).value, groupName, groupCount).Some?
  {
    ReservationCoversSelection(sel, d);
    var r := MakeReservation(sel, d).value;
    FormatYmdIsYmdNumber(d);
    Scripts.HourLabelTime(r.start.value);
    if r.hours > 1 {
      assert Pos(r.court, r.start.value + 1) in sel;
    }
  }

  // ---------------------------------------------------------------------------------
  // Selection across days

  /** What the user does on the page: a schedule is shown for a day, or a cell is clicked. */
  datatype UiEvent = ShowDay(day: Date, avail: set<Pos>) | ClickAt(p: Pos)

  /** A reservation asked for, with the cells available on the page when it was asked. */
  datatype Sent = Sent(resv: Reservation, avail: set<Pos>)

  /** The reservations a sequence of events asks for, as written: drawing a schedule
      removes the status classes but not `selected`, and `makeReservation` takes every
      selected cell. */
  function RunAsWritten(events: seq<UiEvent>, day: Date, avail: set<Pos>, sel: set<Pos>): seq<Sent>
    decreases |events|
  {
    if events == [] then []
    else match events[0]
      case ShowDay(d, a) => RunAsWritten(events[1..], d, a, sel)
      case ClickAt(p) =>
        var c := OnCell(avail, sel, p);
        var r := MakeReservation(sel, day);
        (if c.reserve && r.Some? then [Sent(r.value, avail)] else [])
          + RunAsWritten(events[1..], day, avail, c.selected)
  }

  /** The same with the selection cleared whenever a schedule is drawn. */
  function Run(events: seq<UiEvent>, day: Date, avail: set<Pos>, sel: set<Pos>): seq<Sent>
    decreases |events|
  {
    if events == [] then []
    else match events[0]
      case ShowDay(d, a) => Run(events[1..], d, a, {})
      case ClickAt(p) =>
        var c := OnCell(avail, sel, p);
        var r := MakeReservation(sel, day);
        (if c.reserve && r.Some? then [Sent(r.value, avail)] else [])
          + Run(events[1..], day, avail, c.selected)
  }

  /** Every schedule shown marks only grid cells available. */
  predicate GridEvents(events: seq<UiEvent>)
  {
    forall k :: 0 <= k < |events| && events[k].ShowDay? ==> GridSet(events[k].avail)
  }

  /** A reservation covering one or two adjacent cells, all available when it was asked. */
  predicate SentShown(x: Sent)
  {
    Cells(x.resv) != {} && Cells(x.resv) <= x.avail && WellFormed(Cells(x.resv))
  }

  predicate AllShown(out: seq<Sent>)
  {
    forall k :: 0 <= k < |out| ==> SentShown(out[k])
  }

  lemma AllShownAppend(a: seq<Sent>, b: seq<Sent>)
    requires AllShown(a) && AllShown(b)
    ensures AllShown(a + b)
  {
    forall k | 0 <= k < |a + b| ensures SentShown((a + b)[k]) {
      if k >= |a| {
        assert (a + b)[k] == b[k - |a|];
      }
    }
  }

  lemma GridEventsTail(events: seq<UiEvent>)
    requires events != [] && GridEvents(events)
    ensures GridEvents(events[1..])
    ensures events[0].ShowDay? ==> GridSet(events[0].avail)
  {
    forall k | 0 <= k < |events[1..]| && events[1..][k].ShowDay?
      ensures GridSet(events[1..][k].avail)
    {
      assert events[1..][k] == events[k + 1];
    }
  }

  /** With the selection cleared on every new schedule, every reservation asked for covers
      one or two adjacent cells, all available on the schedule shown at that moment. */
  lemma {:induction false} RunAsksOnlyForShownCells(events: seq<UiEvent>, day: Date, avail: set<Pos>, sel: set<Pos>)
    requires GridEvents(events) && GridSet(avail) && sel <= avail && WellFormed(sel)
    ensures AllShown(Run(events, day, avail, sel))
    decreases |events|
  {
    if events != [] {
      GridEventsTail(events);
      var e := events[0];
      if e.ShowDay? {
        RunAsksOnlyForShownCells(events[1..], e.day, e.avail, {});
      } else {
        var c := OnCell(avail, sel, e.p);
        var r := MakeReservation(sel, day);
        var head := if c.reserve && r.Some? then [Sent(r.value, avail)] else [];
        OnCellKeepsSelection(avail, sel, e.p);
        if c.reserve {
          ReservationCoversSelection(sel, day);
        }
        assert AllShown(head);
        RunAsksOnlyForShownCells(events[1..], day, avail, c.selected);
        AllShownAppend(head, Run(events[1..], day, avail, c.selected));
      }
    }
  }

  /** The clicks of the example below: select court 5 at 06:00, move to another day, and
      click court 1 at 07:00 twice. */
  function StaleEvents(day2: Date): seq<UiEvent>
  {
    [ClickAt(Pos(5, 6)), ShowDay(day2, {Pos(1, 7)}), ClickAt(Pos(1, 7)), ClickAt(Pos(1, 7))]
  }

  /** As written, a cell selected on one day stays selected after moving to a day where it
      is not available, and is booked along with the cell clicked there: the request is
      court 5 at 06:00 for two hours, on a day that offers only court 1 at 07:00. */
  lemma StaleSelectionAsWritten(day1: Date, day2: Date)
    ensures var out := RunAsWritten(StaleEvents(day2), day1, {Pos(5, 6)}, {});
      out == [Sent(Reservation(5, IntToString(YmdNumber(day2)), HourLabel(6), 2, Some(6), ""), {Pos(1, 7)})]
      && !SentShown(out[0])
  {
    var e := StaleEvents(day2);
    var a1: set<Pos> := {Pos(5, 6)};
    var a2: set<Pos> := {Pos(1, 7)};
    var stale: set<Pos> := {Pos(5, 6), Pos(1, 7)};
    var sent := Sent(Reservation(5, IntToString(YmdNumber(day2)), HourLabel(6), 2, Some(6), ""), a2);
    // the first click selects court 5 at 06:00
    assert OnCell(a1, {}, Pos(5, 6)) == Click(a1, false);
    assert RunAsWritten(e, day1, a1, {}) == RunAsWritten(e[1..], day1, a1, a1);
    // the new day keeps it selected
    assert e[1..][1..] == e[2..];
    assert RunAsWritten(e[1..], day1, a1, a1) == RunAsWritten(e[2..], day2, a2, a1);
    // clicking court 1 at 07:00 adds that cell beside it
    assert a1 * a2 == {};
    assert OnCell(a2, a1, Pos(1, 7)) == Click(stale, false);
    assert e[2..][1..] == e[3..];
    assert RunAsWritten(e[2..], day2, a2, a1) == RunAsWritten(e[3..], day2, a2, stale);
    // clicking it again asks for both, starting with court 5 at 06:00
    FirstInDocumentIsFirst(stale, Pos(5, 6));
    assert FirstInDocument(stale) == Some(Pos(5, 6));
    assert |stale| == 2;
    assert MakeReservation(stale, day2) == Some(sent.resv);
    assert OnCell(a2, stale, Pos(1, 7)).reserve;
    assert e[3..][1..] == [];
    assert RunAsWritten(e[3..], day2, a2, stale) == [sent];
    assert Pos(5, 6) in Cells(sent.resv);
  }

  /** With the selection cleared when the day changes, the same clicks ask for court 1 at
      07:00 for one hour. */
  lemma StaleSelectionCleared(day1: Date, day2: Date)
    ensures Run(StaleEvents(day2), day1, {Pos(5, 6)}, {})
      == [Sent(Reservation(1, IntToString(YmdNumber(day2)), HourLabel(7), 1, Some(7), ""), {Pos(1, 7)})]
  {
    var e := StaleEvents(day2);
    var a1: set<Pos> := {Pos(5, 6)};
    var a2: set<Pos> := {Pos(1, 7)};
    var sent := Sent(Reservation(1, IntToString(YmdNumber(day2)), HourLabel(7), 1, Some(7), ""), a2);
    assert OnCell(a1, {}, Pos(5, 6)) == Click(a1, false);
    assert Run(e, day1, a1, {}) == Run(e[1..], day1, a1, a1);
    assert e[1..][1..] == e[2..];
    assert Run(e[1..], day1, a1, a1) == Run(e[2..], day2, a2, {});
    assert OnCell(a2, {}, Pos(1, 7)) == Click(a2, false);
    assert e[2..][1..] == e[3..];
    assert Run(e[2..], day2, a2, {}) == Run(e[3..], day2, a2, a2);
    FirstInDocumentIsFirst(a2, Pos(1, 7));
    assert MakeReservation(a2, day2) == Some(sent.resv);
    assert OnCell(a2, a2, Pos(1, 7)).reserve;
    assert e[3..][1..] == [];
    assert Run(e[3..], day2, a2, a2) == [sent];
  }

  // ---------------------------------------------------------------------------------
  // Drawing a schedule

  /** `hour_classes`. */
  const HourClasses: seq<string> := ["available", "reserved", "not-available", "booked"]

  /** What a cell shows: its hour, or the masked name and the team of its booker. */
  datatype CellText = HourText | Owner(name: string, team: string)

  /** A cell's text and its status class (None: no class). */
  datatype CellView = CellView(text: CellText, cls: Option<string>)

  /** A cell as `fillHours` leaves it: its hour and no class. */
  const Blank: CellView := CellView(HourText, None)

  /** `hour_classes[n]`: the class of 0..3, none for any other number. */
  function ClassAt(n: int): (cls: Option<string>)
    ensures cls.Some? <==> 0 <= n < 4
    ensures cls == Some("available") <==> n == 0
    ensures cls == Some("booked") <==> n == 3
  {
    if 0 <= n < 4 then Some(HourClasses[n]) else None
  }

  /** `hour_classes[value]`: a number picks its class, and so does an array holding one
      one-digit string (an array used as a key reads as its text); anything else picks none. */
  function ClassOf(v: Option<C.Cell>): (cls: Option<string>)
    ensures cls.Some? ==> cls.value in HourClasses
    ensures cls == Some("available") <==> v == Some(C.Num(0)) || v == Some(C.Arr(["0"]))
    ensures cls == Some("booked") <==> v == Some(C.Num(3)) || v == Some(C.Arr(["3"]))
  {
    if v.None? then None
    else if v.value.Num? then ClassAt(v.value.n)
    else
      var items := v.value.items;
      if |items| == 1 && |items[0]| == 1 && IsDigit(items[0][0]) then
        assert items[0] == [items[0][0]];
        assert items == [[items[0][0]]];
        ClassAt(DigitValue(items[0][0]))
      else None
  }

  /** The view of a cell holding `v`: an array of at least two entries is a booking shown
      with the masked name and the team; any other value shows the hour with its class. */
  function Display(v: Option<C.Cell>): (view: CellView)
    ensures view.cls == Some("booked") <==>
      (v.Some? && v.value.Arr? && |v.value.items| >= 2) || v == Some(C.Num(3)) || v == Some(C.Arr(["3"]))
    ensures view.cls == Some("available") <==> v == Some(C.Num(0)) || v == Some(C.Arr(["0"]))
    ensures view.text.Owner? <==> v.Some? && v.value.Arr? && |v.value.items| >= 2
    ensures view.text.Owner? ==>
      view.text.name == MaskName(v.value.items[0]) && view.text.team == v.value.items[1]
  {
    if v.Some? && v.value.Arr? && |v.value.items| >= 2 then
      CellView(Owner(MaskName(v.value.items[0]), v.value.items[1]), Some("booked"))
    else
      CellView(HourText, ClassOf(v))
  }

  /** The view of cell `p` under a possibly partial view map. */
  function ViewOf(view: map<Pos, CellView>, p: Pos): CellView
  {
    if p in view then view[p] else Blank
  }

  /** The cells the view marks available. */
  function Available(view: map<Pos, CellView>): set<Pos>
  {
    set p | p in view && view[p].cls == Some("available")
  }

  /** The number of the last court `updateSchedule` draws from `court` on: the one before
      the first court the data lacks, or 8. */
  function CourtsDrawn(data: C.CourtData, court: int): (k: int)
    requires 1 <= court <= 9
    ensures court - 1 <= k <= 8
    ensures forall c :: court <= c <= k ==> c in data
    ensures k < 8 ==> k + 1 !in data
    decreases 9 - court
  {
    if court == 9 then 8 else if court !in data then court - 1 else CourtsDrawn(data, court + 1)
  }

  /** The cells of the first `k` courts. */
  predicate Drawn(p: Pos, k: int)
  {
    1 <= p.court <= k && 6 <= p.hour <= 23
  }

  /** The view of `p` after the data for its court was drawn. */
  function DrawnView(data: C.CourtData, p: Pos): CellView
    requires p.court in data
  {
    Display(C.CellAt(data[p.court], HourLabel(p.hour)))
  }

  /**
   * The view of cell `p` after `updateSchedule` with `data`: the courts up to the first
   * missing one are drawn from the data; at the missing court, reading the 06:00 slot
   * throws after that cell has lost its class, and every later cell is left as it was.
   */
  function Redrawn(view: map<Pos, CellView>, data: C.CourtData, p: Pos): CellView
  {
    var k := CourtsDrawn(data, 1);
    if Drawn(p, k) then DrawnView(data, p)
    else if k < 8 && p == Pos(k + 1, 6) then ViewOf(view, p).(cls := None)
    else ViewOf(view, p)
  }

  /** With data for all eight courts every cell of the grid is drawn from its slot, and a
      cell is available exactly when its slot holds 0. */
  lemma RedrawnComplete(view: map<Pos, CellView>, data: C.CourtData, p: Pos)
    requires forall c :: 1 <= c <= 8 ==> c in data
    requires InGrid(p)
    ensures Redrawn(view, data, p) == DrawnView(data, p)
    ensures Redrawn(view, data, p).cls == Some("available") <==>
      C.CellAt(data[p.court], HourLabel(p.hour)) in {Some(C.Num(0)), Some(C.Arr(["0"]))}
  {
    assert CourtsDrawn(data, 1) == 8;
  }

  /** The inner loop of `updateSchedule`: draws the hours 6..23 of `court`. */
  method DrawCourt(view0: map<Pos, CellView>, data: C.CourtData, court: int) returns (view: map<Pos, CellView>)
    requires 1 <= court <= 8 && court in data
    ensures GridSet(view0.Keys) ==> GridSet(view.Keys)
    ensures forall p ::
      ViewOf(view, p) == (if p.court == court && 6 <= p.hour <= 23 then DrawnView(data, p) else ViewOf(view0, p))
  {
    view := view0;
    var hour := 6;
    while hour <= 23
      invariant 6 <= hour <= 24
      invariant view.Keys <= view0.Keys + set h | 6 <= h < hour :: Pos(court, h)
      invariant forall p ::
        ViewOf(view, p) == (if p.court == court && 6 <= p.hour < hour then DrawnView(data, p) else ViewOf(view0, p))
    {
      var p := Pos(court, hour);
      DrawCell(view0, view, data, court, hour);
      view := view[p := DrawnView(data, p)];
      hour := hour + 1;
    }
  }

  /** One step of the inner loop: drawing the cell of `hour` extends the drawn hours by one. */
  lemma DrawCell(view0: map<Pos, CellView>, view: map<Pos, CellView>, data: C.CourtData, court: int, hour: int)
    requires 1 <= court <= 8 && court in data && 6 <= hour <= 23
    requires forall p ::
      ViewOf(view, p) == (if p.court == court && 6 <= p.hour < hour then DrawnView(data, p) else ViewOf(view0, p))
    ensures var next := view[Pos(court, hour) := DrawnView(data, Pos(court, hour))];
      forall p ::
        ViewOf(next, p) == (if p.court == court && 6 <= p.hour < hour + 1 then DrawnView(data, p) else ViewOf(view0, p))
  {
    var next := view[Pos(court, hour) := DrawnView(data, Pos(court, hour))];
    forall p
      ensures ViewOf(next, p) == (if p.court == court && 6 <= p.hour < hour + 1 then DrawnView(data, p) else ViewOf(view0, p))
    {
      if p != Pos(court, hour) {
        assert ViewOf(next, p) == ViewOf(view, p);
      }
    }
  }

  /** The view after the first `k` courts were drawn. */
  function DrawnUpTo(view0: map<Pos, CellView>, data: C.CourtData, k: int, p: Pos): CellView
    requires forall c :: 1 <= c <= k ==> c in data
  {
    if Drawn(p, k) then DrawnView(data, p) else ViewOf(view0, p)
  }

  lemma DrawStep(view0: map<Pos, CellView>, v1: map<Pos, CellView>, v2: map<Pos, CellView>, data: C.CourtData, court: int)
    requires 1 <= court <= 8 && forall c :: 1 <= c <= court ==> c in data
    requires forall p :: ViewOf(v1, p) == DrawnUpTo(view0, data, court - 1, p)
    requires forall p ::
      ViewOf(v2, p) == (if p.court == court && 6 <= p.hour <= 23 then DrawnView(data, p) else ViewOf(v1, p))
    ensures forall p :: ViewOf(v2, p) == DrawnUpTo(view0, data, court, p)
  {
    forall p ensures ViewOf(v2, p) == DrawnUpTo(view0, data, court, p) {
      assert ViewOf(v1, p) == DrawnUpTo(view0, data, court - 1, p);
    }
  }

  /** Every court had data: the view is the one Redrawn describes. */
  lemma DrawnAll(view0: map<Pos, CellView>, v1: map<Pos, CellView>, data: C.CourtData)
    requires forall c :: 1 <= c <= 8 ==> c in data
    requires forall p :: ViewOf(v1, p) == DrawnUpTo(view0, data, 8, p)
    ensures forall p :: ViewOf(v1, p) == Redrawn(view0, data, p)
  {
    CourtsDrawnFrom(data, 9, 1);
    forall p ensures ViewOf(v1, p) == Redrawn(view0, data, p) {
      assert ViewOf(v1, p) == DrawnUpTo(view0, data, 8, p);
    }
  }

  /** Court `court` had no data: the view after its first cell lost its class is the one
      Redrawn describes. */
  lemma DrawnUntilMissing(view0: map<Pos, CellView>, v1: map<Pos, CellView>, data: C.CourtData, court: int)
    requires 1 <= court <= 8 && court !in data && forall c :: 1 <= c < court ==> c in data
    requires forall p :: ViewOf(v1, p) == DrawnUpTo(view0, data, court - 1, p)
    ensures var q := Pos(court, 6);
      forall p :: ViewOf(v1[q := ViewOf(v1, q).(cls := None)], p) == Redrawn(view0, data, p)
  {
    CourtsDrawnFrom(data, court, 1);
    var q := Pos(court, 6);
    var v2 := v1[q := ViewOf(v1, q).(cls := None)];
    forall p ensures ViewOf(v2, p) == Redrawn(view0, data, p) {
      if p == q {
        assert ViewOf(v1, q) == ViewOf(view0, q) by {
          assert ViewOf(v1, q) == DrawnUpTo(view0, data, court - 1, q);
        }
      } else {
        assert ViewOf(v2, p) == ViewOf(v1, p);
        assert ViewOf(v1, p) == DrawnUpTo(view0, data, court - 1, p);
      }
    }
  }

  lemma {:induction false} CourtsDrawnFrom(data: C.CourtData, court: int, c: int)
    requires 1 <= c <= court <= 9 && forall c' :: 1 <= c' < court ==> c' in data
    requires court <= 8 ==> court !in data
    ensures CourtsDrawn(data, c) == court - 1
    decreases court - c
  {
    if c < court {
      CourtsDrawnFrom(data, court, c + 1);
    }
  }

  /** The loops of `updateSchedule`: court after court, until a court is missing. */
  method Redraw(view0: map<Pos, CellView>, data: C.CourtData) returns (view: map<Pos, CellView>)
    ensures GridSet(view0.Keys) ==> GridSet(view.Keys)
    ensures forall p :: ViewOf(view, p) == Redrawn(view0, data, p)
  {
    view := view0;
    var court := 1;
    while court <= 8 && court in data
      invariant 1 <= court <= 9
      invariant GridSet(view0.Keys) ==> GridSet(view.Keys)
      invariant forall c :: 1 <= c < court ==> c in data
      invariant forall p :: ViewOf(view, p) == DrawnUpTo(view0, data, court - 1, p)
    {
      var next := DrawCourt(view, data, court);
      DrawStep(view0, view, next, data, court);
      view := next;
      court := court + 1;
    }
    if court <= 8 {
      // `slots[hour_str]` throws for the first hour of the missing court, after its classes
      // were removed
      DrawnUntilMissing(view0, view, data, court);
      var p := Pos(court, 6);
      view := view[p := ViewOf(view, p).(cls := None)];
    } else {
      DrawnAll(view0, view, data);
    }
  }

  // ---------------------------------------------------------------------------------
  // The page

  class SchedulePage {
    /** The day shown. */
    var currentDate: Date
    /** The schedules fetched so far, by "YYYYMMDD" key. */
    var schedules: map<string, C.ScheduleData>
    /** The cells drawn so far; a cell missing from the map is as `fillHours` left it. */
    var view: map<Pos, CellView>
    /** The cells with the class `selected`. */
    var selected: set<Pos>

    /** The day is a calendar day, only grid cells are drawn, and the selection is made of
        available cells and bookable. */
    predicate Valid()
      reads this
    {
      ValidDate(currentDate) && GridSet(view.Keys) && selected <= Available(view) && WellFormed(selected)
    }

    /** The page as `onLoad` sets it up before any schedule: the grid drawn by `fillHours`
        and today as the day shown. */
    constructor (today: Date)
      requires ValidDate(today)
      ensures Valid()
      ensures currentDate == today && schedules == map[] && view == map[] && selected == {}
    {
      currentDate := today;
      schedules := map[];
      view := map[];
      selected := {};
    }

    /**
     * `updateSchedule(ymd)`: draws court after court and hour after hour from the schedule
     * for `ymd` (see Redrawn) and clears the selection.
     */
    method UpdateSchedule(ymd: string)
      requires Valid() && ymd in schedules
      modifies this
      ensures Valid()
      ensures currentDate == old(currentDate) && schedules == old(schedules) && selected == {}
      ensures forall p :: ViewOf(view, p) == Redrawn(old(view), schedules[ymd].data, p)
    {
      selected := {};
      view := Redraw(view, schedules[ymd].data);
    }

    /**
     * `loadDate(date, dayDiff, forced)`: with no date, moves the day shown by `dayDiff`
     * days. A schedule already held for the day is drawn without asking the site unless
     * `forced`. Otherwise the site's answer (`response`, None when the request fails) is
     * stored with the time `now`, sent on to the application cache (`sent`) and drawn.
     */
    method LoadDate(date: Option<Date>, dayDiff: int, forced: bool, now: int, response: Option<C.CourtData>)
      returns (sent: Option<(string, C.ScheduleData)>)
      requires Valid()
      requires date.Some? ==> ValidDate(date.value)
      modifies this
      ensures Valid()
      ensures date.None? ==> currentDate == AddDays(old(currentDate), dayDiff)
      ensures date.Some? ==> currentDate == old(currentDate)
      ensures var ymd := FormatYmd(if date.Some? then date.value else currentDate);
        && (sent.Some? <==> (forced || ymd !in old(schedules)) && response.Some?)
        && (sent.Some? ==> sent.value == (ymd, C.ScheduleData(now, response.value)))
        && schedules == (if sent.Some? then old(schedules)[ymd := sent.value.1] else old(schedules))
        && (ymd in schedules && (sent.Some? || !forced) ==>
              selected == {} && forall p :: ViewOf(view, p) == Redrawn(old(view), schedules[ymd].data, p))
        && (!(ymd in schedules && (sent.Some? || !forced)) ==> view == old(view) && selected == old(selected))
    {
      var day: Date;
      if date.None? {
        currentDate := AddDays(currentDate, dayDiff);
        day := currentDate;
      } else {
        day := date.value;
      }
      var ymd := FormatYmd(day);
      if !forced && ymd in schedules {
        UpdateSchedule(ymd);
        return None;
      }
      if response.None? {
        return None;
      }
      var sched := C.ScheduleData(now, response.value);
      schedules := schedules[ymd := sched];
      sent := Some((ymd, sched));
      UpdateSchedule(ymd);
    }

    /** The rest of `onLoad`: the cached schedules are added (replacing held ones) and
        today's schedule is drawn, from the cache when it has one and otherwise fetched;
        when the fetch fails nothing is drawn and the selection stays. */
    method OnLoad(cached: map<string, C.ScheduleData>, now: int, response: Option<C.CourtData>)
      returns (sent: Option<(string, C.ScheduleData)>)
      requires Valid()
      modifies this
      ensures Valid() && currentDate == old(currentDate)
      ensures var ymd := FormatYmd(currentDate);
        && (sent.Some? <==> ymd !in old(schedules) + cached && response.Some?)
        && (sent.Some? ==> schedules == (old(schedules) + cached)[ymd := C.ScheduleData(now, response.value)])
        && (sent.None? ==> schedules == old(schedules) + cached)
        && (ymd in schedules ==>
              selected == {} && forall p :: ViewOf(view, p) == Redrawn(old(view), schedules[ymd].data, p))
        && (ymd !in schedules ==> view == old(view) && selected == old(selected))
    {
      var ymd := FormatYmd(currentDate);
      if |cached| > 0 {
        schedules := schedules + cached;
        if ymd in schedules {
          UpdateSchedule(ymd);
          return None;
        }
      } else {
        assert cached == map[];
        assert schedules + cached == schedules;
      }
      sent := LoadDate(Some(currentDate), 0, false, now, response);
    }

    /**
     * `onAvailableCell` for a click on cell `p` (a position off the grid stands for the
     * hour headers, which are never available): updates the selection and, on a selected
     * cell, returns the reservation asked for, which covers exactly the selected cells.
     */
    method OnAvailableCell(p: Pos) returns (resv: Option<Reservation>)
      requires Valid()
      modifies this
      ensures Valid()
      ensures currentDate == old(currentDate) && schedules == old(schedules) && view == old(view)
      ensures selected == OnCell(Available(view), old(selected), p).selected
      ensures resv.Some? <==> OnCell(Available(view), old(selected), p).reserve
      ensures resv.Some? ==>
        (resv == MakeReservation(selected, currentDate)
         && Cells(resv.value) == selected && resv.value.hours == |selected|)
    {
      var avail := Available(view);
      OnCellKeepsSelection(avail, selected, p);
      if p !in avail {
        selected := {};
        return None;
      }
      if p in selected {
        ReservationCoversSelection(selected, currentDate);
        return MakeReservation(selected, currentDate);
      }
      var sa := selected * avail;
      var prev := FirstInDocument(sa);
      if |sa| == 1 && prev.Some? && Adjacent(prev.value, p) {
        selected := selected + {p};
        return None;
      }
      selected := selected - sa + {p};
      return None;
    }
  }
}
