/**
 * The slot cache shared by every account window (src/schedules_cache.js): a map from a
 * date "YYYYMMDD" to `{time, data, cachedAt}`, where `data` maps a court to its slots and
 * the slots map a time label "HH:MM" to a cell. An entry can be read for 30 minutes after
 * `cachedAt`. Single-court probe results are merged in with an asymmetric rule: an
 * observed opening (`0`) always wins, any other observation wins only over an opening.
 * The clock is a parameter `now` (milliseconds).
 */
module SchedulesCache {
  import opened Wrappers
  import opened Text
  import opened Domain

  const CacheTtlMs: int := 30 * 60 * 1000
  const OneHourMs: int := 60 * 60 * 1000

  /** A slot cell: a number (`0` is "available", other numbers index the page's CSS
      classes) or an array (`[name, team]` for a booking with detail). */
  datatype Cell = Num(n: int) | Arr(items: seq<string>)

  /** The "open" cell the merge rule compares against with `=== 0`. */
  const Open: Cell := Num(0)

  /** The cell a probe writes for a label it saw as taken. */
  const Unknown: Cell := Arr(["???", "???"])

  /** Time label -> cell, for one court of one date. */
  type Slots = map<string, Cell>

  /** Court -> slots, the `data` of an entry. */
  type CourtData = map<int, Slots>

  datatype Entry = Entry(time: int, data: CourtData, cachedAt: int)

  /** What `setForDate` / `setAll` are given for one date: `{time, data}`. */
  datatype ScheduleData = ScheduleData(time: int, data: CourtData)

  /** `courtData[label]`, `undefined` (None) when the label is missing. */
  function CellAt(slots: Slots, lbl: string): Option<Cell>
  {
    if lbl in slots then Some(slots[lbl]) else None
  }

  /** JavaScript truthiness of a cell: every array, every non-zero number. */
  predicate Truthy(c: Option<Cell>)
  {
    c.Some? && c.value != Open
  }

  // ---------------------------------------------------------------- validity

  /** `isValidForDate`: the date has an entry and fewer than 30 minutes passed since `cachedAt`. */
  predicate IsFresh(s: map<string, Entry>, ymd: string, now: int)
  {
    ymd in s && now - s[ymd].cachedAt < CacheTtlMs
  }

  /** `getForDate`: the entry while it is fresh, `null` (None) otherwise. */
  function Lookup(s: map<string, Entry>, ymd: string, now: int): (r: Option<Entry>)
    ensures r.None? <==> ymd !in s || now - s[ymd].cachedAt >= CacheTtlMs
    ensures r.Some? ==> r.value == s[ymd]
  {
    if IsFresh(s, ymd, now) then Some(s[ymd]) else None
  }

  /** The fresh part of the cache, which `getAll` returns and `cleanup` keeps. */
  function ValidEntries(s: map<string, Entry>, now: int): (r: map<string, Entry>)
    ensures forall ymd :: ymd in r <==> IsFresh(s, ymd, now)
    ensures forall ymd :: ymd in r ==> ymd in s && r[ymd] == s[ymd]
  {
    map ymd | ymd in s && now - s[ymd].cachedAt < CacheTtlMs :: s[ymd]
  }

  /** What `setAll` writes: each given date stamped with `cachedAt = now`. */
  function Stamped(incoming: map<string, ScheduleData>, now: int): (r: map<string, Entry>)
    ensures r.Keys == incoming.Keys
    ensures forall ymd :: ymd in r ==>
      r[ymd].time == incoming[ymd].time && r[ymd].data == incoming[ymd].data && r[ymd].cachedAt == now
  {
    map ymd | ymd in incoming :: Entry(incoming[ymd].time, incoming[ymd].data, now)
  }

  /** Storing the dates one by one, in any order, is storing them at once. */
  lemma StampOneMore(base: map<string, Entry>, incoming: map<string, ScheduleData>, pending: set<string>, ymd: string, now: int)
    requires ymd in pending && pending <= incoming.Keys
    ensures base + Stamped(incoming - (pending - {ymd}), now)
      == (base + Stamped(incoming - pending, now))[ymd := Entry(incoming[ymd].time, incoming[ymd].data, now)]
  {
    assert Stamped(incoming - (pending - {ymd}), now)
      == Stamped(incoming - pending, now)[ymd := Entry(incoming[ymd].time, incoming[ymd].data, now)];
  }

  /** An entry stored at time `t` can be read up to `t + TTL - 1` and not from `t + TTL` on. */
  lemma TtlBoundary(s: map<string, Entry>, ymd: string, time: int, data: CourtData, t: int)
    ensures Lookup(s[ymd := Entry(time, data, t)], ymd, t + CacheTtlMs - 1) == Some(Entry(time, data, t))
    ensures Lookup(s[ymd := Entry(time, data, t)], ymd, t + CacheTtlMs).None?
    ensures Lookup(s[ymd := Entry(time, data, t)], ymd, t + CacheTtlMs + 1).None?
  {
  }

  /** Dropping the expired dates changes nothing a reader at the same instant can see. */
  lemma CleanupInvisible(s: map<string, Entry>, now: int, ymd: string)
    ensures Lookup(ValidEntries(s, now), ymd, now) == Lookup(s, ymd, now)
  {
  }

  // ---------------------------------------------------------------- merging

  /**
   * The per-label merge of `setTimeBoard` when the court already has slots: an incoming
   * `0` always overwrites; any other incoming value overwrites only a cell that is `0`;
   * a label the court has never seen is written only when the incoming value is `0`;
   * labels absent from `incoming` are untouched.
   */
  function MergeSlots(cur: Slots, incoming: Slots): (r: Slots)
    ensures r.Keys == cur.Keys + (set t | t in incoming && incoming[t] == Open)
  {
    map t | t in cur.Keys + incoming.Keys && (t in cur || incoming[t] == Open) ::
      if t in incoming && (incoming[t] == Open || cur[t] == Open) then incoming[t] else cur[t]
  }

  /** The merge rule, cell by cell. */
  lemma MergeRules(cur: Slots, incoming: Slots, t: string)
    ensures t in incoming && incoming[t] == Open ==> CellAt(MergeSlots(cur, incoming), t) == Some(Open)
    ensures t in incoming && incoming[t] != Open && CellAt(cur, t) == Some(Open) ==>
      CellAt(MergeSlots(cur, incoming), t) == Some(incoming[t])
    ensures t in cur && cur[t] != Open && !(t in incoming && incoming[t] == Open) ==>
      CellAt(MergeSlots(cur, incoming), t) == Some(cur[t])
    ensures t !in cur && !(t in incoming && incoming[t] == Open) ==> CellAt(MergeSlots(cur, incoming), t).None?
    ensures t !in incoming ==> CellAt(MergeSlots(cur, incoming), t) == CellAt(cur, t)
  {
  }

  /** One step of the merge loop: label `t` observed as `v`. */
  function MergeCell(m: Slots, t: string, v: Cell): (r: Slots)
    ensures v == Open ==> r == m[t := Open]
    ensures v != Open && t in m && m[t] == Open ==> r == m[t := v]
    ensures v != Open && !(t in m && m[t] == Open) ==> r == m
  {
    if v == Open then m[t := Open] else if t in m && m[t] == Open then m[t := v] else m
  }

  /** Merging the observations label by label, in any order, is merging them at once. */
  lemma MergeOneMore(cur: Slots, slots: Slots, pending: set<string>, t: string)
    requires t in pending && pending <= slots.Keys
    ensures MergeSlots(cur, slots - (pending - {t})) == MergeCell(MergeSlots(cur, slots - pending), t, slots[t])
  {
    var before := slots - pending;
    var after := slots - (pending - {t});
    assert after == before[t := slots[t]];
    var m := MergeCell(MergeSlots(cur, before), t, slots[t]);
    var merged := MergeSlots(cur, after);
    forall u | u in m || u in merged
      ensures u in m && u in merged && m[u] == merged[u]
    {
      MergeRules(cur, before, u);
      MergeRules(cur, after, u);
    }
  }

  /** Merging the same observation twice changes nothing the first merge did not. */
  lemma MergeIdempotent(cur: Slots, incoming: Slots)
    ensures MergeSlots(MergeSlots(cur, incoming), incoming) == MergeSlots(cur, incoming)
  {
    var once := MergeSlots(cur, incoming);
    var twice := MergeSlots(once, incoming);
    forall t | t in twice ensures t in once && twice[t] == once[t] {
      MergeRules(cur, incoming, t);
      MergeRules(once, incoming, t);
    }
    forall t | t in once ensures t in twice {
      MergeRules(once, incoming, t);
    }
  }

  /** A sequence of single-court observations merged one after another. */
  function MergeAll(cur: Slots, observations: seq<Slots>): Slots
    decreases |observations|
  {
    if observations == [] then cur
    else MergeAll(MergeSlots(cur, observations[0]), observations[1..])
  }

  /** Stability of detail: a taken cell keeps its value through any run of observations
      none of which reports the label open. */
  lemma {:induction false} TakenCellIsStable(cur: Slots, observations: seq<Slots>, t: string)
    requires t in cur && cur[t] != Open
    requires forall k :: 0 <= k < |observations| ==> CellAt(observations[k], t) != Some(Open)
    ensures CellAt(MergeAll(cur, observations), t) == Some(cur[t])
    decreases |observations|
  {
    if observations != [] {
      var next := MergeSlots(cur, observations[0]);
      MergeRules(cur, observations[0], t);
      assert CellAt(observations[0], t) != Some(Open);
      forall k | 0 <= k < |observations[1..]|
        ensures CellAt(observations[1..][k], t) != Some(Open)
      {
        assert observations[1..][k] == observations[k + 1];
      }
      TakenCellIsStable(next, observations[1..], t);
    }
  }

  /** Monotonic opening: after an observation that reports the label open, the cell is open. */
  lemma OpenObservationWins(cur: Slots, observations: seq<Slots>, t: string)
    requires observations != [] && CellAt(observations[|observations| - 1], t) == Some(Open)
    ensures CellAt(MergeAll(cur, observations), t) == Some(Open)
    decreases |observations|
  {
    if |observations| == 1 {
      MergeRules(cur, observations[0], t);
      assert MergeAll(MergeSlots(cur, observations[0]), []) == MergeSlots(cur, observations[0]);
    } else {
      assert observations[1..][|observations[1..]| - 1] == observations[|observations| - 1];
      OpenObservationWins(MergeSlots(cur, observations[0]), observations[1..], t);
    }
  }

  /** The worked example: open, then booked with detail, then a coarse "booked" marker. */
  lemma DetailSurvivesCoarseMarker()
    ensures var detail := Arr(["Kim", "TeamA"]);
      CellAt(MergeAll(map[], [map["14:00" := Open], map["14:00" := detail], map["14:00" := Num(1)]]), "14:00") == Some(detail)
  {
    var detail := Arr(["Kim", "TeamA"]);
    var obs := [map["14:00" := Open], map["14:00" := detail], map["14:00" := Num(1)]];
    var s1 := MergeSlots(map[], obs[0]);
    assert s1 == map["14:00" := Open];
    var s2 := MergeSlots(s1, obs[1]);
    assert s2 == map["14:00" := detail];
    var s3 := MergeSlots(s2, obs[2]);
    assert s3 == map["14:00" := detail];
    assert obs[1..][1..][1..] == [];
    assert MergeAll(map[], obs) == MergeAll(s1, obs[1..]) == MergeAll(s2, obs[1..][1..]) == MergeAll(s3, []);
  }

  /**
   * The entry `setTimeBoard` leaves for a date: a new entry when the date is absent (its
   * `time` backdated by one hour, `cachedAt` now); the slots added verbatim when the court
   * is absent (`time` and `cachedAt` untouched); otherwise the per-label merge.
   */
  function TimeBoardEntry(prev: Option<Entry>, court: int, slots: Slots, now: int): (e: Entry)
    ensures prev.None? ==> e == Entry(now - OneHourMs, map[court := slots], now)
    ensures prev.Some? ==> e.time == prev.value.time && e.cachedAt == prev.value.cachedAt
    ensures prev.Some? ==> e.data.Keys == prev.value.data.Keys + {court}
    ensures prev.Some? ==> forall c :: c in prev.value.data && c != court ==> e.data[c] == prev.value.data[c]
    ensures prev.Some? && court !in prev.value.data ==> e.data[court] == slots
    ensures prev.Some? && court in prev.value.data ==> e.data[court] == MergeSlots(prev.value.data[court], slots)
  {
    match prev
    case None => Entry(now - OneHourMs, map[court := slots], now)
    case Some(p) =>
      if court !in p.data then p.(data := p.data[court := slots])
      else p.(data := p.data[court := MergeSlots(p.data[court], slots)])
  }

  function ApplyTimeBoard(s: map<string, Entry>, ymd: string, court: int, slots: Slots, now: int): map<string, Entry>
  {
    s[ymd := TimeBoardEntry(if ymd in s then Some(s[ymd]) else None, court, slots, now)]
  }

  /** A probe merged into an entry that has already expired does not make it readable again. */
  lemma ProbeDoesNotRefreshExpired(s: map<string, Entry>, ymd: string, court: int, slots: Slots, now: int)
    requires ymd in s && !IsFresh(s, ymd, now)
    ensures !IsFresh(ApplyTimeBoard(s, ymd, court, slots, now), ymd, now)
  {
  }

  // ---------------------------------------------------------------- parsing

  const LabelOpen: string := "<label class=\""
  const LabelMid: string := " labelDate\" data=\""

  /** "HH:MM" as `\d{2}:\d{2}` matches it. */
  predicate IsTimeLabel(s: string)
  {
    |s| == 5 && IsDigit(s[0]) && IsDigit(s[1]) && s[2] == ':' && IsDigit(s[3]) && IsDigit(s[4])
  }

  /**
   * `line.match(/^\s*<label class="(on|no) labelDate" data="(\d{2}:\d{2})"/)`: the marker
   * (true for `on`) and the time label, or None when the line does not match.
   */
  function MatchLabel(line: string): (m: Option<(bool, string)>)
    ensures m.Some? ==> IsTimeLabel(m.value.1)
  {
    MatchTag(TrimStartBy(line, IsJsSpace))
  }

  /** `<label class="` followed by the attributes. */
  function MatchTag(rest: string): (m: Option<(bool, string)>)
    ensures m.Some? ==> IsTimeLabel(m.value.1)
  {
    if LabelOpen <= rest then MatchAttrs(rest[|LabelOpen|..]) else None
  }

  /** `(on|no) labelDate" data="` followed by the time. */
  function MatchAttrs(r1: string): (m: Option<(bool, string)>)
    ensures m.Some? ==> IsTimeLabel(m.value.1)
  {
    if |r1| < 2 || (r1[..2] != "on" && r1[..2] != "no") then None
    else
      var r2 := r1[2..];
      if !(LabelMid <= r2) then None
      else
        match MatchTime(r2[|LabelMid|..])
        case Some(t) => Some((r1[..2] == "on", t))
        case None => None
  }

  /** `\d{2}:\d{2}"`. */
  function MatchTime(r3: string): (m: Option<string>)
    ensures m.Some? ==> IsTimeLabel(m.value)
  {
    if |r3| < 6 || !IsTimeLabel(r3[..5]) || r3[5] != '"' then None else Some(r3[..5])
  }

  /** A line of the slot fragment: indentation, the label tag, anything after the `data` attribute. */
  function LabelLine(indent: string, on: bool, lbl: string, tail: string): string
  {
    indent + (LabelOpen + ((if on then "on" else "no") + (LabelMid + (lbl + ("\"" + tail)))))
  }

  lemma {:induction false} TrimStartOfIndent(indent: string, x: string)
    requires forall i :: 0 <= i < |indent| ==> IsJsSpace(indent[i])
    requires x != [] && !IsJsSpace(x[0])
    ensures TrimStartBy(indent + x, IsJsSpace) == x
    decreases |indent|
  {
    if indent != [] {
      assert (indent + x)[1..] == indent[1..] + x;
      TrimStartOfIndent(indent[1..], x);
    } else {
      assert indent + x == x;
    }
  }

  lemma DropPrefix(p: string, r: string)
    ensures p <= p + r && (p + r)[|p|..] == r
  {
  }

  /** The tag itself, without indentation, is recognised. */
  lemma MatchLabelTag(on: bool, lbl: string, tail: string)
    requires IsTimeLabel(lbl)
    ensures MatchTag(LabelLine("", on, lbl, tail)) == Some((on, lbl))
  {
    var marker := if on then "on" else "no";
    var r3 := lbl + ("\"" + tail);
    var r2 := LabelMid + r3;
    var r1 := marker + r2;
    assert MatchTime(r3) == Some(lbl) by {
      assert r3[..5] == lbl;
    }
    assert MatchAttrs(r1) == Some((on, lbl)) by {
      DropPrefix(marker, r2);
      assert r1[..2] == marker;
      DropPrefix(LabelMid, r3);
    }
    DropPrefix(LabelOpen, r1);
    assert LabelLine("", on, lbl, tail) == LabelOpen + r1;
  }

  /** Every well-formed label line is recognised, with its marker and its time label. */
  lemma MatchLabelLine(indent: string, on: bool, lbl: string, tail: string)
    requires forall i :: 0 <= i < |indent| ==> IsJsSpace(indent[i])
    requires IsTimeLabel(lbl)
    ensures MatchLabel(LabelLine(indent, on, lbl, tail)) == Some((on, lbl))
  {
    var x := LabelLine("", on, lbl, tail);
    var line := LabelLine(indent, on, lbl, tail);
    assert line == indent + x;
    assert x[0] == LabelOpen[0] == '<';
    TrimStartOfIndent(indent, x);
    assert TrimStartBy(line, IsJsSpace) == x;
    MatchLabelTag(on, lbl, tail);
    assert MatchLabel(line) == MatchTag(x);
  }

  /** The cell `parseTimeBoard` records: `0` for `on`, `["???", "???"]` for `no`. */
  function SlotValue(on: bool): Cell
  {
    if on then Open else Unknown
  }

  /** One loop step of the parser: a matching line sets its label's cell. */
  function Record(slots: Slots, m: Option<(bool, string)>): (r: Slots)
    ensures forall t :: (t in r <==> t in slots || (m.Some? && m.value.1 == t))
    ensures m.Some? ==> r[m.value.1] == SlotValue(m.value.0)
    ensures forall t :: t in slots && !(m.Some? && m.value.1 == t) ==> r[t] == slots[t]
  {
    match m
    case Some(p) => slots[p.1 := SlotValue(p.0)]
    case None => slots
  }

  /** The slots parsed from the lines by a line matcher: a later line overrides an earlier
      one with the same label. */
  function ParseSlotsWith(lines: seq<string>, matcher: string -> Option<(bool, string)>): Slots
  {
    if lines == [] then map[]
    else Record(ParseSlotsWith(lines[..|lines| - 1], matcher), matcher(lines[|lines| - 1]))
  }

  /** What `parseTimeBoard` collects from the lines of the fragment. */
  function ParseSlots(lines: seq<string>): Slots
  {
    ParseSlotsWith(lines, MatchLabel)
  }

  /** The line matches and carries the time label `t`. */
  predicate LabelOf(m: Option<(bool, string)>, t: string)
  {
    m.Some? && m.value.1 == t
  }

  /** Exactly the labels of matching lines are parsed. */
  lemma {:induction false} ParsedLabels(lines: seq<string>, matcher: string -> Option<(bool, string)>, t: string)
    ensures t in ParseSlotsWith(lines, matcher) <==> exists i :: 0 <= i < |lines| && LabelOf(matcher(lines[i]), t)
    decreases |lines|
  {
    if lines != [] {
      var n := |lines| - 1;
      var init := lines[..n];
      ParsedLabels(init, matcher, t);
      if t in ParseSlotsWith(lines, matcher) && !LabelOf(matcher(lines[n]), t) {
        var i :| 0 <= i < |init| && LabelOf(matcher(init[i]), t);
        assert lines[i] == init[i];
      }
      if exists i :: 0 <= i < |lines| && LabelOf(matcher(lines[i]), t) {
        var i :| 0 <= i < |lines| && LabelOf(matcher(lines[i]), t);
        if i < n {
          assert init[i] == lines[i];
        }
      }
    }
  }

  /** A label takes the value of the last line that carries it. */
  lemma {:induction false} ParsedValue(lines: seq<string>, matcher: string -> Option<(bool, string)>, i: nat, t: string)
    requires i < |lines| && LabelOf(matcher(lines[i]), t)
    requires forall j :: i < j < |lines| ==> !LabelOf(matcher(lines[j]), t)
    ensures t in ParseSlotsWith(lines, matcher)
    ensures ParseSlotsWith(lines, matcher)[t] == SlotValue(matcher(lines[i]).value.0)
    decreases |lines|
  {
    var n := |lines| - 1;
    if i < n {
      var init := lines[..n];
      assert init[i] == lines[i];
      forall j | i < j < |init| ensures !LabelOf(matcher(init[j]), t) {
        assert init[j] == lines[j];
      }
      ParsedValue(init, matcher, i, t);
    }
  }

  /** The line loop of `parseTimeBoard`. */
  method CollectSlots(lines: seq<string>) returns (slots: Slots)
    ensures slots == ParseSlots(lines)
  {
    slots := map[];
    var i := 0;
    while i < |lines|
      invariant 0 <= i <= |lines|
      invariant slots == ParseSlotsWith(lines[..i], MatchLabel)
    {
      ghost var upto := lines[..i + 1];
      assert upto[..|upto| - 1] == lines[..i] && upto[|upto| - 1] == lines[i];
      slots := Record(slots, MatchLabel(lines[i]));
      i := i + 1;
    }
    assert lines[..|lines|] == lines;
  }

  // ---------------------------------------------------------------- booked check

  /** The label of the hour after `time`: `Number(time.split(':')[0]) + 1`, padded, plus ":00". */
  function NextHourLabel(time: string): string
  {
    match JsNumber(Split(time, ':')[0])
    case Some(h) => HourLabel(h + 1)
    case None => "NaN:00"
  }

  /** For an "HH:MM" time, the next-hour label is the hour after HH. */
  lemma NextHourOfTime(time: string)
    requires |time| >= 3 && IsDigit(time[0]) && IsDigit(time[1]) && time[2] == ':'
    ensures NextHourLabel(time) == HourLabel(DigitsValue(time[..2]) + 1)
  {
    assert time == time[..2] + [':'] + time[3..];
    SplitHead(time[..2], ':', time[3..]);
  }

  /**
   * `alreadyBooked`: false without a fresh entry for the date or without slots for the
   * court; otherwise true when the cell at `time` is truthy, or the request is for more
   * than one hour and the next hour's cell is truthy. Missing cells count as open.
   */
  function BookedIn(s: map<string, Entry>, r: Reservation, now: int): (b: bool)
    ensures !IsFresh(s, r.date, now) ==> !b
    ensures b ==> r.court in s[r.date].data
  {
    match Lookup(s, r.date, now)
    case None => false
    case Some(e) =>
      if r.court !in e.data then false
      else
        var cd := e.data[r.court];
        if Truthy(CellAt(cd, r.time)) then true
        else r.hours > 1 && Truthy(CellAt(cd, NextHourLabel(r.time)))
  }

  /** Fast path: a fresh entry holding a taken cell at the requested hour blocks the request. */
  lemma TakenCellBlocks(s: map<string, Entry>, r: Reservation, now: int)
    requires IsFresh(s, r.date, now) && r.court in s[r.date].data
    requires Truthy(CellAt(s[r.date].data[r.court], r.time))
    ensures BookedIn(s, r, now)
  {
  }

  /** A two-hour request is blocked by a taken cell at the following hour. */
  lemma TakenNextHourBlocks(s: map<string, Entry>, r: Reservation, now: int)
    requires IsFresh(s, r.date, now) && r.court in s[r.date].data && r.hours > 1
    requires Truthy(CellAt(s[r.date].data[r.court], NextHourLabel(r.time)))
    ensures BookedIn(s, r, now)
  {
  }

  /** The converse: a request is booked only through a taken cell of a fresh entry, at the
      requested hour or, for more than one hour, at the next; a missing or open cell at
      both never blocks. */
  lemma BookedOnlyByTakenCell(s: map<string, Entry>, r: Reservation, now: int)
    ensures BookedIn(s, r, now) <==>
      IsFresh(s, r.date, now) && r.court in s[r.date].data
      && (Truthy(CellAt(s[r.date].data[r.court], r.time))
          || (r.hours > 1 && Truthy(CellAt(s[r.date].data[r.court], NextHourLabel(r.time)))))
  {
  }

  /**
   * After a probe that reports every requested hour open is merged in, the booked check
   * passes, whatever the cache held before: on a new date, on a new court, or over any
   * earlier cells.
   */
  lemma OpenProbeClearsBooking(s: map<string, Entry>, r: Reservation, slots: Slots, now: int)
    requires CellAt(slots, r.time) == Some(Open)
    requires r.hours > 1 ==> CellAt(slots, NextHourLabel(r.time)) == Some(Open)
    ensures !BookedIn(ApplyTimeBoard(s, r.date, r.court, slots, now), r, now)
  {
    var s' := ApplyTimeBoard(s, r.date, r.court, slots, now);
    if IsFresh(s', r.date, now) {
      var e := s'[r.date];
      assert r.court in e.data;
      var cd := e.data[r.court];
      if r.date in s && r.court in s[r.date].data {
        MergeRules(s[r.date].data[r.court], slots, r.time);
        MergeRules(s[r.date].data[r.court], slots, NextHourLabel(r.time));
      }
      assert CellAt(cd, r.time) == Some(Open);
    }
  }

  // ---------------------------------------------------------------- the cache object

  /** The module-level `cache.schedules`, as an object with the operations the module exports. */
  class ScheduleCache {
    var schedules: map<string, Entry>

    constructor ()
      ensures schedules == map[]
    {
      schedules := map[];
    }

    predicate IsValidForDate(ymd: string, now: int)
      reads this
    {
      IsFresh(schedules, ymd, now)
    }

    function GetForDate(ymd: string, now: int): (r: Option<Entry>)
      reads this
      ensures r == Lookup(schedules, ymd, now)
    {
      if IsValidForDate(ymd, now) then Some(schedules[ymd]) else None
    }

    /** `getAll`: exactly the fresh dates, each with its entry. */
    method GetAll(now: int) returns (result: map<string, Entry>)
      ensures forall ymd :: ymd in result <==> IsFresh(schedules, ymd, now)
      ensures forall ymd :: ymd in result ==> ymd in schedules && result[ymd] == schedules[ymd]
    {
      result := map[];
      var pending := schedules.Keys;
      while pending != {}
        invariant pending <= schedules.Keys
        invariant forall ymd :: ymd in result <==> ymd !in pending && IsFresh(schedules, ymd, now)
        invariant forall ymd :: ymd in result ==> ymd in schedules && result[ymd] == schedules[ymd]
        decreases pending
      {
        var ymd :| ymd in pending;
        if IsValidForDate(ymd, now) {
          result := result[ymd := schedules[ymd]];
        }
        pending := pending - {ymd};
      }
    }

    /** `setForDate`: stores `time` and `data` with `cachedAt = now`; other dates are untouched. */
    method SetForDate(ymd: string, sched: ScheduleData, now: int)
      modifies this
      ensures schedules == old(schedules)[ymd := Entry(sched.time, sched.data, now)]
    {
      schedules := schedules[ymd := Entry(sched.time, sched.data, now)];
    }

    /** `setAll`: every given date stored with `cachedAt = now`; dates not given are untouched. */
    method SetAll(incoming: map<string, ScheduleData>, now: int)
      modifies this
      ensures schedules == old(schedules) + Stamped(incoming, now)
    {
      var pending := incoming.Keys;
      while pending != {}
        invariant pending <= incoming.Keys
        invariant schedules == old(schedules) + Stamped(incoming - pending, now)
        decreases pending
      {
        var ymd :| ymd in pending;
        StampOneMore(old(schedules), incoming, pending, ymd, now);
        schedules := schedules[ymd := Entry(incoming[ymd].time, incoming[ymd].data, now)];
        pending := pending - {ymd};
      }
      assert incoming - {} == incoming;
    }

    /** `clear`: the cache is empty. */
    method Clear()
      modifies this
      ensures schedules == map[]
    {
      schedules := map[];
    }

    /** `clearForDate`: removes that date only. */
    method ClearForDate(ymd: string)
      modifies this
      ensures schedules == old(schedules) - {ymd}
    {
      schedules := schedules - {ymd};
    }

    /** `cleanup`: deletes exactly the expired dates. */
    method Cleanup(now: int)
      modifies this
      ensures schedules == ValidEntries(old(schedules), now)
    {
      var pending := schedules.Keys;
      while pending != {}
        invariant pending <= schedules.Keys <= old(schedules).Keys
        invariant forall ymd :: ymd in schedules ==> schedules[ymd] == old(schedules)[ymd]
        invariant forall ymd :: ymd in old(schedules) && ymd !in pending ==>
          (ymd in schedules <==> IsFresh(old(schedules), ymd, now))
        decreases pending
      {
        var ymd :| ymd in pending;
        if !IsValidForDate(ymd, now) {
          schedules := schedules - {ymd};
        }
        pending := pending - {ymd};
      }
    }

    /** `setTimeBoard`: records one court's probed slots for a date. */
    method SetTimeBoard(ymd: string, court: int, slots: Slots, now: int)
      modifies this
      ensures schedules == ApplyTimeBoard(old(schedules), ymd, court, slots, now)
    {
      if ymd !in schedules {
        schedules := schedules[ymd := Entry(now - OneHourMs, map[court := slots], now)];
        return;
      }
      var e := schedules[ymd];
      if court !in e.data {
        schedules := schedules[ymd := e.(data := e.data[court := slots])];
        return;
      }
      var courtData := e.data[court];
      var pending := slots.Keys;
      while pending != {}
        invariant schedules == old(schedules) && ymd in schedules && e == schedules[ymd] && court in e.data
        invariant pending <= slots.Keys
        invariant courtData == MergeSlots(e.data[court], slots - pending)
        decreases pending
      {
        var t :| t in pending;
        MergeOneMore(e.data[court], slots, pending, t);
        if slots[t] == Open {
          courtData := courtData[t := Open];
        } else if t in courtData && courtData[t] == Open {
          courtData := courtData[t := slots[t]];
        }
        pending := pending - {t};
      }
      assert slots - {} == slots;
      schedules := schedules[ymd := e.(data := e.data[court := courtData])];
    }

    /**
     * `parseTimeBoard(resv, html)` (the second, effective declaration): collects the
     * slots of the matching lines and records them for `resv.date` / `resv.court` when
     * at least one line matched.
     */
    method ParseTimeBoard(resv: Reservation, html: string, now: int)
      modifies this
      ensures ParseSlots(Split(html, '\n')) != map[] ==>
        schedules == ApplyTimeBoard(old(schedules), resv.date, resv.court, ParseSlots(Split(html, '\n')), now)
      ensures ParseSlots(Split(html, '\n')) == map[] ==> schedules == old(schedules)
    {
      var slots := CollectSlots(Split(html, '\n'));
      if slots != map[] {
        SetTimeBoard(resv.date, resv.court, slots, now);
      }
    }

    function AlreadyBooked(r: Reservation, now: int): (b: bool)
      reads this
      ensures b == BookedIn(schedules, r, now)
    {
      BookedIn(schedules, r, now)
    }
  }
}
