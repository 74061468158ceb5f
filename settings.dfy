/**
 * The settings page (src/ui/settings.js): the list of reservation targets and the list of
 * accounts as the page edits them, the pending entries built from the calendar, court and
 * hour pickers, and the calendar rules that decide which dates can be picked. "Today" is a
 * parameter; the pickers' state is passed in as the values the page reads from them.
 */
module Settings {
  import opened Wrappers
  import opened Text
  import opened Calendar
  import opened Domain
  import opened Dedup
  import Scripts

  // ---------------------------------------------------------------------------------
  // Calendar rules

  /**
   * `getTargetDate()`: the last date that can be booked from `today`. Up to the 4th it is
   * the 15th of this month, up to the 19th the last day of this month, after that the 15th
   * of next month.
   */
  function TargetDate(today: Date): (t: Date)
    requires ValidDate(today)
    ensures ValidDate(t)
  {
    if today.day <= 4 then Date(today.year, today.month, 15)
    else if today.day <= 19 then LastDayOfMonth(today.year, today.month)
    else
      var next := NextMonth(today.year, today.month);
      Date(next.0, next.1, 15)
  }

  /** The first day of the month after `d`'s is the day after that month's last day. */
  lemma FirstOfNextMonth(y: int, m: int)
    requires 1 <= m <= 12
    ensures var next := NextMonth(y, m);
      NextDay(LastDayOfMonth(y, m)) == Date(next.0, next.1, 1)
  {
  }

  /** The target date is never before today and at most 26 days ahead; it is a 15th or the
      last day of its month. */
  lemma TargetWithinReach(today: Date)
    requires ValidDate(today)
    ensures var t := TargetDate(today);
      0 <= DayNumber(t) - DayNumber(today) <= 26
      && (t.day == 15 || t == LastDayOfMonth(t.year, t.month))
  {
    var t := TargetDate(today);
    var last := LastDayOfMonth(today.year, today.month);
    if today.day <= 4 {
      SameMonthOffset(today, t);
    } else if today.day <= 19 {
      SameMonthOffset(today, last);
    } else {
      var next := NextMonth(today.year, today.month);
      FirstOfNextMonth(today.year, today.month);
      NextDayNumber(last);
      SameMonthOffset(today, last);
      SameMonthOffset(Date(next.0, next.1, 1), t);
    }
  }

  /**
   * `getNextCutoffDate(target)`: the last date the calendar shows. For a 15th it is the
   * last day of that month; otherwise the Saturday of the week holding next month's 15th.
   */
  function CutoffDate(target: Date): (c: Date)
    requires ValidDate(target)
    ensures ValidDate(c)
  {
    if target.day == 15 then LastDayOfMonth(target.year, target.month)
    else
      var next := NextMonth(target.year, target.month);
      var fifteenth := Date(next.0, next.1, 15);
      AddDays(fifteenth, 6 - Weekday(fifteenth))
  }

  /** Apart from a 15th, the cutoff is a Saturday between the 15th and the 21st of the next
      month; for a 15th it is the last day of the same month. */
  lemma CutoffIsSaturday(target: Date)
    requires ValidDate(target)
    ensures var c := CutoffDate(target); var next := NextMonth(target.year, target.month);
      (target.day == 15 ==> c == LastDayOfMonth(target.year, target.month))
      && (target.day != 15 ==>
            Weekday(c) == 6 && c.year == next.0 && c.month == next.1 && 15 <= c.day <= 21)
  {
    if target.day != 15 {
      var next := NextMonth(target.year, target.month);
      var fifteenth := Date(next.0, next.1, 15);
      AddDaysWithinMonth(fifteenth, 6 - Weekday(fifteenth));
      ToSaturday(DayNumber(fifteenth));
    }
  }

  /** Adding 6 minus the weekday lands on a Saturday. */
  lemma ToSaturday(n: int)
    ensures (n + (6 - n % 7)) % 7 == 6
  {
    assert n + (6 - n % 7) == 7 * (n / 7) + 6;
  }

  /** The calendar always runs at least to the date it was computed from. */
  lemma CutoffNotBefore(target: Date)
    requires ValidDate(target)
    ensures DayNumber(CutoffDate(target)) >= DayNumber(target)
  {
    var last := LastDayOfMonth(target.year, target.month);
    SameMonthOffset(target, last);
    if target.day != 15 {
      var next := NextMonth(target.year, target.month);
      CutoffIsSaturday(target);
      FirstOfNextMonth(target.year, target.month);
      SameMonthOffset(Date(next.0, next.1, 1), CutoffDate(target));
    }
  }

  // ---------------------------------------------------------------------------------
  // Pending entries

  /** A picker value is set when it is a number other than 0: `undefined`, NaN (None) and 0
      are falsy. */
  predicate IsSet(v: Option<int>)
  {
    v.Some? && v.value != 0
  }

  /** The pending entry for one picked date: the date as text, the start hour as "HH:00". */
  function PendingEntry(court: int, hours: int, start: int, date: int): (r: Reservation)
    ensures r.court == court && r.hours == hours && r.start == Some(start) && r.userId == ""
    ensures r.date == IntToString(date) && r.time == HourLabel(start)
  {
    Reservation(court, IntToString(date), HourLabel(start), hours, Some(start), "")
  }

  /** The hours a pending entry books: one when it starts at 23:00, else as picked. */
  function PendingHours(hours: int, start: int): (h: int)
    ensures start == 23 ==> h == 1
    ensures start != 23 ==> h == hours
  {
    if start == 23 then 1 else hours
  }

  /** The entry reads back as what was picked: `Number(r.date)` is the picked date, which
      is what `removePastReservations` compares, and the time is the start hour. */
  lemma PendingEntryReadsBack(court: int, hours: int, start: int, date: int)
    requires 0 <= start < 100 && date >= 0
    ensures var r := PendingEntry(court, hours, start, date);
      JsNumber(r.date) == Some(date) && Scripts.IsHourTime(r.time) && Scripts.HourOf(r.time) == start
  {
    JsNumberOfNatToString(date);
    Scripts.HourLabelTime(start);
  }

  /** With the picker's hours (one or two) and start (1..23), the pending entry books at
      least one hour, no more than picked, and ends by midnight. */
  lemma PendingHoursWithinDay(hours: int, start: int)
    requires 1 <= hours <= 2 && 1 <= start <= 23
    ensures 1 <= PendingHours(hours, start) <= hours
    ensures start + PendingHours(hours, start) <= 24
  {
  }

  /** A pending entry for an eight-digit date and an hour of the picker (0..23) always gives
      a reservation script: a start at 23:00 is cut to one hour, the only length the
      script accepts there. */
  lemma PendingEntryIsBookable(court: int, hours: int, start: int, date: int, g: string, n: int)
    requires 10000000 <= date < 100000000 && 0 <= start <= 23
    ensures Scripts.Reservation(PendingEntry(court, PendingHours(hours, start), start, date), g, n).Some?
  {
    var r := PendingEntry(court, PendingHours(hours, start), start, date);
    assert Pow10(7) == 10000000 && Pow10(8) == 100000000;
    NatToStringLength(date, 7);
    assert Scripts.IsDate8(r.date);
    Scripts.HourLabelTime(start);
    assert Scripts.IsHourTime(r.time) && Scripts.HourOf(r.time) == start;
  }

  // ---------------------------------------------------------------------------------
  // The reservation list

  /** `${date}-${time}-${court}`: entries with the same date, time and court are duplicates,
      whatever their hours or account. */
  function SettingsKey(r: Reservation): string
  {
    r.date + "-" + r.time + "-" + IntToString(r.court)
  }

  /** `${user_id}-${date}`: the key the daily hour cap counts under. */
  function UserDateKey(r: Reservation): string
  {
    r.userId + "-" + r.date
  }

  /** `tempOutput.map(r => ({...r, user_id}))`. */
  function Tagged(pending: seq<Reservation>, uid: string): (r: seq<Reservation>)
    ensures |r| == |pending|
    ensures forall i :: 0 <= i < |r| ==> r[i] == pending[i].(userId := uid)
  {
    if pending == [] then [] else [pending[0].(userId := uid)] + Tagged(pending[1..], uid)
  }

  /** The list `addToMenu` would save: existing entries then the tagged pending ones, with
      later duplicates dropped. */
  function Merged(existing: seq<Reservation>, pending: seq<Reservation>, uid: string): seq<Reservation>
  {
    Dedup.Dedup(existing + Tagged(pending, uid), SettingsKey)
  }

  /** The hours counted under `key` over the first `k` entries: entries without an account
      are not counted. */
  function Total(rs: seq<Reservation>, k: nat, key: string): int
    requires k <= |rs|
  {
    if k == 0 then 0
    else Total(rs, k - 1, key) + (if rs[k - 1].userId != "" && UserDateKey(rs[k - 1]) == key then rs[k - 1].hours else 0)
  }

  /** Entry `j` pushes its account's total for its date past two hours. */
  predicate OverCapAt(rs: seq<Reservation>, j: nat)
    requires j < |rs|
  {
    rs[j].userId != "" && Total(rs, j + 1, UserDateKey(rs[j])) > 2
  }

  /** The first entry at or after `i` that breaks the cap. */
  function FirstOverCap(rs: seq<Reservation>, i: nat): (r: Option<nat>)
    requires i <= |rs|
    ensures r.Some? ==> i <= r.value < |rs| && OverCapAt(rs, r.value)
    ensures r.Some? ==> forall j :: i <= j < r.value ==> !OverCapAt(rs, j)
    ensures r.None? ==> forall j :: i <= j < |rs| ==> !OverCapAt(rs, j)
    decreases |rs| - i
  {
    if i == |rs| then None
    else if OverCapAt(rs, i) then Some(i)
    else FirstOverCap(rs, i + 1)
  }

  /** The alert `addToMenu` shows: "<total> hours for <account>". */
  function CapMessage(rs: seq<Reservation>, j: nat): string
    requires j < |rs|
  {
    IntToString(Total(rs, j + 1, UserDateKey(rs[j]))) + " hours for " + rs[j].userId
  }

  /** The alert for a list, if any: the message for its first entry that breaks the cap. */
  function CapAlert(rs: seq<Reservation>): Option<string>
  {
    match FirstOverCap(rs, 0)
    case None => None
    case Some(j) => Some(CapMessage(rs, j))
  }

  /**
   * The hour cap of `addToMenu`: runs through the list keeping a total per account and
   * date, and stops at the first entry that takes a total past two hours, with the alert
   * text for it. Entries without an account are skipped.
   */
  method CheckCap(rs: seq<Reservation>) returns (alert: Option<string>)
    ensures alert == CapAlert(rs)
  {
    var hoursByKey: map<string, int> := map[];
    var i := 0;
    while i < |rs|
      invariant 0 <= i <= |rs|
      invariant forall key :: Lookup(hoursByKey, key) == Total(rs, i, key)
      invariant FirstOverCap(rs, 0) == FirstOverCap(rs, i)
    {
      var item := rs[i];
      if item.userId != "" {
        var key := UserDateKey(item);
        var before := Lookup(hoursByKey, key);
        hoursByKey := hoursByKey[key := before + item.hours];
        if before + item.hours > 2 {
          assert OverCapAt(rs, i);
          return Some(IntToString(before + item.hours) + " hours for " + item.userId);
        }
      }
      assert !OverCapAt(rs, i);
      i := i + 1;
    }
    return None;
  }

  datatype AddOutcome =
    | NoAccount           // the active account index names no account: the handler throws
    | OverCap(message: string)
    | Added

  /** A list that passes the cap check books at most two hours per account and date, when
      no entry has a negative number of hours. */
  lemma {:induction false} CapHolds(rs: seq<Reservation>, k: nat, key: string)
    requires k <= |rs|
    requires FirstOverCap(rs, 0).None?
    requires forall j :: 0 <= j < |rs| ==> rs[j].hours >= 0
    ensures Total(rs, k, key) <= 2
  {
    if k > 0 {
      CapHolds(rs, k - 1, key);
      if rs[k - 1].userId != "" && UserDateKey(rs[k - 1]) == key {
        assert !OverCapAt(rs, k - 1);
      }
    }
  }

  /** Dropping duplicates of a concatenation: the second part is filtered against the keys
      the first part already showed. */
  lemma {:induction false} DedupFromAppend<T>(a: seq<T>, b: seq<T>, key: T -> string, seen: set<string>)
    ensures DedupFrom(a + b, key, seen) == DedupFrom(a, key, seen) + DedupFrom(b, key, seen + KeySet(a, key))
    decreases |a|
  {
    if a == [] {
      assert a + b == b;
      assert KeySet(a, key) == {};
      assert seen + KeySet(a, key) == seen;
    } else {
      assert (a + b)[1..] == a[1..] + b;
      var k0 := key(a[0]);
      assert KeySet(a, key) == {k0} + KeySet(a[1..], key) by {
        forall k | k in KeySet(a, key) ensures k in {k0} + KeySet(a[1..], key) {
          var i :| 0 <= i < |a| && key(a[i]) == k;
          if i > 0 { assert key(a[1..][i - 1]) == k; }
        }
        forall k | k in KeySet(a[1..], key) ensures k in KeySet(a, key) {
          var i :| 0 <= i < |a[1..]| && key(a[1..][i]) == k;
          assert key(a[i + 1]) == k;
        }
      }
      if k0 in seen {
        DedupFromAppend(a[1..], b, key, seen);
        assert seen + KeySet(a, key) == seen + KeySet(a[1..], key);
      } else {
        DedupFromAppend(a[1..], b, key, seen + {k0});
        assert seen + {k0} + KeySet(a[1..], key) == seen + KeySet(a, key);
      }
    }
  }

  /** When the saved list has no duplicates, adding keeps it in front, unchanged, and only
      appends the tagged pending entries whose date, time and court are new. */
  lemma MergedKeepsExisting(existing: seq<Reservation>, pending: seq<Reservation>, uid: string)
    requires DistinctKeys(existing, SettingsKey)
    ensures Merged(existing, pending, uid)
      == existing + DedupFrom(Tagged(pending, uid), SettingsKey, KeySet(existing, SettingsKey))
  {
    DedupFromAppend(existing, Tagged(pending, uid), SettingsKey, {});
    DedupOfDistinct(existing, SettingsKey, {});
    assert {} + KeySet(existing, SettingsKey) == KeySet(existing, SettingsKey);
  }

  /** The saved list is drawn in order from the existing and tagged entries, holds each
      date-time-court once, and covers every date-time-court that was there. */
  lemma MergedIsDeduplicated(existing: seq<Reservation>, pending: seq<Reservation>, uid: string)
    ensures var all := existing + Tagged(pending, uid); var m := Merged(existing, pending, uid);
      IsSubsequence(m, all) && DistinctKeys(m, SettingsKey)
      && KeySet(m, SettingsKey) == KeySet(all, SettingsKey)
  {
    var all := existing + Tagged(pending, uid);
    DedupIsSubsequence(all, SettingsKey, {});
    DedupKeySet(all, SettingsKey, {});
    assert KeySet(all, SettingsKey) - {} == KeySet(all, SettingsKey);
  }

  // ---------------------------------------------------------------------------------
  // Pruning, removing and moving

  /** `Number(item.date) >= now_ymd`: a date that is not a number (NaN) is never kept. */
  predicate IsUpcoming(r: Reservation, todayYmd: int)
  {
    var n := JsNumber(r.date);
    n.Some? && n.value >= todayYmd
  }

  /** `removePastReservations`: the entries dated today or later, in order. */
  function Upcoming(rs: seq<Reservation>, todayYmd: int): (r: seq<Reservation>)
    ensures forall x :: x in r <==> x in rs && IsUpcoming(x, todayYmd)
    ensures |r| <= |rs|
  {
    if rs == [] then []
    else (if IsUpcoming(rs[0], todayYmd) then [rs[0]] else []) + Upcoming(rs[1..], todayYmd)
  }

  /** Every upcoming entry is kept as often as it occurs, duplicates included; every past
      one is dropped. */
  lemma {:induction false} UpcomingCounts(rs: seq<Reservation>, todayYmd: int)
    ensures forall x :: multiset(Upcoming(rs, todayYmd))[x] == if IsUpcoming(x, todayYmd) then multiset(rs)[x] else 0
  {
    if rs != [] {
      UpcomingCounts(rs[1..], todayYmd);
      var head := if IsUpcoming(rs[0], todayYmd) then [rs[0]] else [];
      assert Upcoming(rs, todayYmd) == head + Upcoming(rs[1..], todayYmd);
      assert rs == [rs[0]] + rs[1..];
      assert multiset(rs) == multiset([rs[0]]) + multiset(rs[1..]);
    }
  }

  lemma {:induction false} UpcomingKeepsOrder(rs: seq<Reservation>, todayYmd: int)
    ensures IsSubsequence(Upcoming(rs, todayYmd), rs)
  {
    if rs != [] {
      UpcomingKeepsOrder(rs[1..], todayYmd);
      if IsUpcoming(rs[0], todayYmd) {
        assert Upcoming(rs, todayYmd)[1..] == Upcoming(rs[1..], todayYmd);
      } else {
        assert Upcoming(rs, todayYmd) == Upcoming(rs[1..], todayYmd);
      }
    }
  }

  /** Pruning twice is pruning once. */
  lemma {:induction false} UpcomingIdempotent(rs: seq<Reservation>, todayYmd: int)
    ensures Upcoming(Upcoming(rs, todayYmd), todayYmd) == Upcoming(rs, todayYmd)
  {
    if rs != [] {
      UpcomingIdempotent(rs[1..], todayYmd);
      var u := Upcoming(rs, todayYmd);
      if IsUpcoming(rs[0], todayYmd) {
        assert u[0] == rs[0] && u[1..] == Upcoming(rs[1..], todayYmd);
      } else {
        assert u == Upcoming(rs[1..], todayYmd);
      }
    }
  }

  /** `list.splice(i, 1)` for an index inside the list. */
  function RemoveAt<T>(s: seq<T>, i: nat): (r: seq<T>)
    requires i < |s|
    ensures |r| == |s| - 1
    ensures forall j :: 0 <= j < i ==> r[j] == s[j]
    ensures forall j :: i <= j < |r| ==> r[j] == s[j + 1]
    ensures multiset(r) + multiset{s[i]} == multiset(s)
  {
    assert s == s[..i] + [s[i]] + s[i + 1..];
    s[..i] + s[i + 1..]
  }

  /** `list.splice(i, 0, x)` for a position inside the list or at its end. */
  function InsertAt<T>(s: seq<T>, i: nat, x: T): (r: seq<T>)
    requires i <= |s|
    ensures |r| == |s| + 1 && r[i] == x
    ensures forall j :: 0 <= j < i ==> r[j] == s[j]
    ensures forall j :: i < j < |r| ==> r[j] == s[j - 1]
    ensures multiset(r) == multiset(s) + multiset{x}
  {
    assert s == s[..i] + s[i..];
    s[..i] + [x] + s[i..]
  }

  /** The Sortable `onEnd` handler: the entry at `from` is taken out and put back at `to`. */
  function Move<T>(s: seq<T>, from: nat, to: nat): (r: seq<T>)
    requires from < |s| && to < |s|
    ensures |r| == |s| && r[to] == s[from]
    ensures multiset(r) == multiset(s)
  {
    InsertAt(RemoveAt(s, from), to, s[from])
  }

  /** Dragging an entry back to where it came from restores the list. */
  lemma MoveBack<T>(s: seq<T>, from: nat, to: nat)
    requires from < |s| && to < |s|
    ensures Move(Move(s, from, to), to, from) == s
  {
    var t := RemoveAt(s, from);
    RemoveInserted(t, to, s[from]);
    InsertRemoved(s, from);
  }

  /** Removing what was just inserted gives the list back. */
  lemma RemoveInserted<T>(t: seq<T>, i: nat, x: T)
    requires i <= |t|
    ensures RemoveAt(InsertAt(t, i, x), i) == t
  {
    var r := RemoveAt(InsertAt(t, i, x), i);
    assert forall j :: 0 <= j < |t| ==> r[j] == t[j];
  }

  /** Putting back what was just removed gives the list back. */
  lemma InsertRemoved<T>(s: seq<T>, i: nat)
    requires i < |s|
    ensures InsertAt(RemoveAt(s, i), i, s[i]) == s
  {
    var r := InsertAt(RemoveAt(s, i), i, s[i]);
    assert forall j :: 0 <= j < |s| ==> r[j] == s[j];
  }

  /** Entries on the far side of both positions keep their place. */
  lemma MoveKeepsOutside<T>(s: seq<T>, from: nat, to: nat, j: nat)
    requires from < |s| && to < |s| && j < |s|
    requires (j < from && j < to) || (j > from && j > to)
    ensures Move(s, from, to)[j] == s[j]
  {
  }

  // ---------------------------------------------------------------------------------
  // Accounts

  /** An account form row as read: the id and password fields' values. */
  datatype AccountInput = AccountInput(id: string, pw: string)

  /** The accounts `saveSettings` keeps: trimmed id and password, both non-empty, in order. */
  function ValidAccounts(inputs: seq<AccountInput>): (r: seq<Session>)
    ensures |r| <= |inputs|
    ensures forall i :: 0 <= i < |r| ==> r[i].userId != "" && r[i].userPw != ""
  {
    if inputs == [] then []
    else ValidAccounts(inputs[..|inputs| - 1]) + AccountOf(inputs[|inputs| - 1])
  }

  /** One form row as `saveSettings` keeps it: nothing when the trimmed id or the password
      is empty. */
  function AccountOf(input: AccountInput): (r: seq<Session>)
    ensures |r| <= 1
    ensures r != [] <==> JsTrim(input.id) != "" && input.pw != ""
    ensures r != [] ==> r[0] == Session(JsTrim(input.id), input.pw)
  {
    var id := JsTrim(input.id);
    if id != "" && input.pw != "" then [Session(id, input.pw)] else []
  }

  /** Every kept account comes from a row, as that row's trimmed id and password. */
  lemma {:induction false} ValidAccountsSound(inputs: seq<AccountInput>, j: nat)
    requires j < |ValidAccounts(inputs)|
    ensures exists i :: 0 <= i < |inputs| && AccountOf(inputs[i]) == [ValidAccounts(inputs)[j]]
  {
    var init := inputs[..|inputs| - 1];
    var last := inputs[|inputs| - 1];
    if j < |ValidAccounts(init)| {
      ValidAccountsSound(init, j);
      var i :| 0 <= i < |init| && AccountOf(init[i]) == [ValidAccounts(init)[j]];
      assert inputs[i] == init[i];
    } else {
      assert AccountOf(last) == [ValidAccounts(inputs)[j]];
    }
  }

  /** Every row with a non-blank id and a password is kept. */
  lemma {:induction false} ValidAccountsComplete(inputs: seq<AccountInput>, i: nat)
    requires i < |inputs| && AccountOf(inputs[i]) != []
    ensures AccountOf(inputs[i])[0] in ValidAccounts(inputs)
  {
    var init := inputs[..|inputs| - 1];
    var last := AccountOf(inputs[|inputs| - 1]);
    if i < |init| {
      assert inputs[i] == init[i];
      ValidAccountsComplete(init, i);
      InFront(AccountOf(inputs[i])[0], ValidAccounts(init), last);
    } else {
      InBack(ValidAccounts(init), last);
    }
  }

  /** The rows are read independently and in order: the accounts of two runs of rows are
      the accounts of the first followed by those of the second. */
  lemma {:induction false} ValidAccountsAppend(a: seq<AccountInput>, b: seq<AccountInput>)
    ensures ValidAccounts(a + b) == ValidAccounts(a) + ValidAccounts(b)
    decreases |b|
  {
    if b == [] {
      assert a + b == a;
    } else {
      var init := b[..|b| - 1];
      assert (a + b)[..|a + b| - 1] == a + init && (a + b)[|a + b| - 1] == b[|b| - 1];
      ValidAccountsAppend(a, init);
    }
  }

  /** A saved account, shown again in its row, is read back as itself: its id is already
      trimmed and both fields are non-empty. */
  lemma AccountReadsBack(input: AccountInput)
    ensures var r := AccountOf(input);
      r != [] ==> AccountOf(AccountInput(r[0].userId, r[0].userPw)) == r
  {
    TrimIdempotent(input.id, IsJsSpace);
  }

  /** The form rows `updateAccounts` shows for a list of accounts. */
  function RowsOf(sessions: seq<Session>): (rows: seq<AccountInput>)
    ensures |rows| == |sessions|
  {
    if sessions == [] then []
    else RowsOf(sessions[..|sessions| - 1]) + [AccountInput(sessions[|sessions| - 1].userId, sessions[|sessions| - 1].userPw)]
  }

  /** Saving the settings again without editing the form keeps the accounts: reading the
      rows of the saved accounts gives the same accounts, in the same order. */
  lemma {:induction false} ValidAccountsIdempotent(inputs: seq<AccountInput>)
    ensures ValidAccounts(RowsOf(ValidAccounts(inputs))) == ValidAccounts(inputs)
    decreases |inputs|
  {
    if inputs != [] {
      var init := inputs[..|inputs| - 1];
      var last := inputs[|inputs| - 1];
      var kept := ValidAccounts(init);
      ValidAccountsIdempotent(init);
      AccountReadsBack(last);
      if AccountOf(last) == [] {
        assert ValidAccounts(inputs) == kept;
      } else {
        var x := AccountOf(last)[0];
        assert ValidAccounts(inputs) == kept + [x];
        assert (kept + [x])[..|kept + [x]| - 1] == kept;
        var row := AccountInput(x.userId, x.userPw);
        assert RowsOf(kept + [x]) == RowsOf(kept) + [row];
        ValidAccountsAppend(RowsOf(kept), [row]);
        assert [row][..0] == [];
        assert ValidAccounts([row]) == ValidAccounts([]) + AccountOf(row);
      }
    }
  }

  lemma InFront(x: Session, a: seq<Session>, b: seq<Session>)
    requires x in a
    ensures x in a + b
  {
  }

  lemma InBack(a: seq<Session>, b: seq<Session>)
    requires b != []
    ensures b[0] in a + b
  {
    assert (a + b)[|a|] == b[0];
  }

  lemma ValidAccountsStep(rows: seq<AccountInput>, index: nat)
    requires index < |rows|
    ensures ValidAccounts(rows[..index + 1]) == ValidAccounts(rows[..index]) + AccountOf(rows[index])
  {
    assert rows[..index + 1][..index] == rows[..index] && rows[..index + 1][index] == rows[index];
  }

  /** The loop of `saveSettings` over the account form's rows: a row is kept, as its trimmed
      id and its password, when both are non-empty. */
  method KeepFilledAccounts(rows: seq<AccountInput>) returns (kept: seq<Session>)
    ensures kept == ValidAccounts(rows)
  {
    kept := [];
    var index := 0;
    while index < |rows|
      invariant 0 <= index <= |rows|
      invariant kept == ValidAccounts(rows[..index])
    {
      var id := JsTrim(rows[index].id);
      var pw := rows[index].pw;
      ghost var before := kept;
      if id != "" && pw != "" {
        kept := kept + [Session(id, pw)];
      }
      assert kept == before + AccountOf(rows[index]);
      ValidAccountsStep(rows, index);
      index := index + 1;
    }
    assert rows[..index] == rows;
  }

  /** `groupName`: a name that trims to nothing becomes "Tennis"; otherwise kept as typed. */
  function GroupNameOrDefault(name: string): (r: string)
    ensures JsTrim(name) == "" ==> r == "Tennis"
    ensures JsTrim(name) != "" ==> r == name
  {
    if JsTrim(name) == "" then "Tennis" else name
  }

  /** `groupCount`: a team size outside 1..4, zero or not a number (None) becomes 4. */
  function ClampCount(n: Option<int>): (c: int)
    ensures 1 <= c <= 4
    ensures n.Some? && 1 <= n.value <= 4 ==> c == n.value
    ensures !(n.Some? && 1 <= n.value <= 4) ==> c == 4
  {
    if !IsSet(n) || n.value < 1 || n.value > 4 then 4 else n.value
  }

  /** Saving the group settings a second time changes neither: the stored name is never
      blank and the stored count is already in 1..4. */
  lemma GroupSettingsStable(name: string, count: Option<int>)
    ensures JsTrim(GroupNameOrDefault(name)) != ""
    ensures GroupNameOrDefault(GroupNameOrDefault(name)) == GroupNameOrDefault(name)
    ensures ClampCount(Some(ClampCount(count))) == ClampCount(count)
  {
    if JsTrim(name) == "" {
      TrimEmptyIffAllSpace("Tennis", IsJsSpace);
      assert !IsJsSpace("Tennis"[0]);
    }
  }

  // ---------------------------------------------------------------------------------
  // The page

  /** The page's `config` (reservations, sessions, team name and size) and `tempOutput`. */
  class SettingsPage {
    var reservations: seq<Reservation>
    var sessions: seq<Session>
    var groupName: string
    var groupCount: int
    var tempOutput: seq<Reservation>

    /** `fillConfig(cfg)`: takes the configuration and prunes the past reservations. */
    constructor (reservations: seq<Reservation>, sessions: seq<Session>, groupName: string,
                 groupCount: int, today: Date)
      ensures this.reservations == Upcoming(reservations, YmdNumber(today))
      ensures this.sessions == sessions && this.groupName == groupName && this.groupCount == groupCount
      ensures tempOutput == []
    {
      this.reservations := Upcoming(reservations, YmdNumber(today));
      this.sessions := sessions;
      this.groupName := groupName;
      this.groupCount := groupCount;
      tempOutput := [];
    }

    /** `removePastReservations()`. */
    method RemovePastReservations(today: Date)
      modifies this
      ensures reservations == Upcoming(old(reservations), YmdNumber(today))
      ensures sessions == old(sessions) && groupName == old(groupName)
      ensures groupCount == old(groupCount) && tempOutput == old(tempOutput)
    {
      reservations := Upcoming(reservations, YmdNumber(today));
    }

    /**
     * `updateTempOutput()`: with the picked court, number of hours, start hour and dates,
     * one pending entry per date; nothing unless court, hours and start are all set.
     */
    method UpdateTempOutput(court: Option<int>, hours: Option<int>, start: Option<int>, dates: seq<int>)
      modifies this
      ensures reservations == old(reservations) && sessions == old(sessions)
      ensures groupName == old(groupName) && groupCount == old(groupCount)
      ensures !(IsSet(court) && IsSet(hours) && IsSet(start)) ==> tempOutput == []
      ensures IsSet(court) && IsSet(hours) && IsSet(start) ==>
        |tempOutput| == |dates|
        && forall i :: 0 <= i < |dates| ==>
             tempOutput[i] == PendingEntry(court.value, PendingHours(hours.value, start.value), start.value, dates[i])
    {
      tempOutput := [];
      if !IsSet(court) || !IsSet(hours) || !IsSet(start) {
        return;
      }
      var h := hours.value;
      if start.value == 23 {
        h := 1;
      }
      var i := 0;
      while i < |dates|
        invariant 0 <= i <= |dates|
        invariant reservations == old(reservations) && sessions == old(sessions)
        invariant groupName == old(groupName) && groupCount == old(groupCount)
        invariant |tempOutput| == i
        invariant forall j :: 0 <= j < i ==>
          tempOutput[j] == PendingEntry(court.value, PendingHours(hours.value, start.value), start.value, dates[j])
      {
        tempOutput := tempOutput + [Reservation(court.value, IntToString(dates[i]), HourLabel(start.value), h, Some(start.value), "")];
        i := i + 1;
      }
    }

    /**
     * `addToMenu()` for the active account `accountIndex`: the pending entries, tagged with
     * the account's id, are merged into the list unless some account would book more than
     * two hours on one date, in which case the list is left as it was and the alert's text
     * is returned.
     */
    method AddToMenu(accountIndex: int) returns (outcome: AddOutcome)
      modifies this
      ensures sessions == old(sessions) && groupName == old(groupName)
      ensures groupCount == old(groupCount) && tempOutput == old(tempOutput)
      ensures !(0 <= accountIndex < |sessions|) ==> outcome == NoAccount && reservations == old(reservations)
      ensures 0 <= accountIndex < |sessions| ==>
        var merged := Merged(old(reservations), tempOutput, sessions[accountIndex].userId);
        var alert := CapAlert(merged);
        (alert.None? ==> outcome == Added && reservations == merged)
        && (alert.Some? ==> outcome == OverCap(alert.value) && reservations == old(reservations))
    {
      if !(0 <= accountIndex < |sessions|) {
        return NoAccount;
      }
      var uid := sessions[accountIndex].userId;
      var rs := Merged(reservations, tempOutput, uid);
      var alert := CheckCap(rs);
      if alert.Some? {
        return OverCap(alert.value);
      }
      reservations := rs;
      return Added;
    }

    /** `removeReservationAt(i)`: an index outside the list changes nothing. */
    method RemoveReservationAt(i: int)
      modifies this
      ensures 0 <= i < |old(reservations)| ==> reservations == RemoveAt(old(reservations), i)
      ensures !(0 <= i < |old(reservations)|) ==> reservations == old(reservations)
      ensures sessions == old(sessions) && groupName == old(groupName)
      ensures groupCount == old(groupCount) && tempOutput == old(tempOutput)
    {
      if 0 <= i < |reservations| {
        reservations := RemoveAt(reservations, i);
      }
    }

    /** The Sortable `onEnd(evt)` handler, with the old and new positions of the dragged entry. */
    method MoveReservation(oldIndex: nat, newIndex: nat)
      requires oldIndex < |reservations| && newIndex < |reservations|
      modifies this
      ensures reservations == Move(old(reservations), oldIndex, newIndex)
      ensures sessions == old(sessions) && groupName == old(groupName)
      ensures groupCount == old(groupCount) && tempOutput == old(tempOutput)
    {
      var moved := reservations[oldIndex];
      reservations := RemoveAt(reservations, oldIndex);
      reservations := InsertAt(reservations, newIndex, moved);
    }

    /** `removeAccountAt(i)`: an index outside the list changes nothing. */
    method RemoveAccountAt(i: int)
      modifies this
      ensures 0 <= i < |old(sessions)| ==> sessions == RemoveAt(old(sessions), i)
      ensures !(0 <= i < |old(sessions)|) ==> sessions == old(sessions)
      ensures reservations == old(reservations) && groupName == old(groupName)
      ensures groupCount == old(groupCount) && tempOutput == old(tempOutput)
    {
      if 0 <= i < |sessions| {
        sessions := RemoveAt(sessions, i);
      }
    }

    /** `addAccount()`: appends an empty account for the user to fill in. */
    method AddAccount()
      modifies this
      ensures sessions == old(sessions) + [Session("", "")]
      ensures reservations == old(reservations) && groupName == old(groupName)
      ensures groupCount == old(groupCount) && tempOutput == old(tempOutput)
    {
      sessions := sessions + [Session("", "")];
    }

    /**
     * `saveSettings()` over the account form's rows: keeps the filled-in accounts. Outside
     * the application (`hasApi` false) nothing else changes and nothing is saved; inside it
     * the team name and size are read, defaulted and clamped, and the configuration is
     * saved (`saved`).
     */
    method SaveSettings(rows: seq<AccountInput>, hasApi: bool, nameInput: string, countInput: string)
      returns (saved: bool)
      modifies this
      ensures sessions == ValidAccounts(rows)
      ensures saved == hasApi
      ensures reservations == old(reservations) && tempOutput == old(tempOutput)
      ensures !hasApi ==> groupName == old(groupName) && groupCount == old(groupCount)
      ensures hasApi ==> groupName == GroupNameOrDefault(nameInput) && groupCount == ClampCount(JsNumber(countInput))
    {
      var kept := KeepFilledAccounts(rows);
      sessions := kept;
      if !hasApi {
        return false;
      }
      groupName := GroupNameOrDefault(nameInput);
      groupCount := ClampCount(JsNumber(countInput));
      return true;
    }
  }

  /** `hours[key]`, with a missing key read as 0 (`if (!hours[key]) hours[key] = 0`). */
  function Lookup(m: map<string, int>, key: string): int
  {
    if key in m then m[key] else 0
  }
}
