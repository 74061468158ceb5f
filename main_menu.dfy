/**
 * The main process's menu and window registry (src/main.js): one `WebApi` per account
 * kept in `webApiMap` under its user id, the "reserve-<i>" menu items built from the
 * configured reservations after dropping duplicates, the lookup from a focused window
 * back to its `WebApi`, and the `navigate` IPC handler.
 */
module MainMenu {
  import opened Wrappers
  import opened Text
  import opened Domain
  import opened Dedup
  import WebApi

  /** `fmtDate(yyyymmdd)`: "YYYY-MM-DD" from the slices of the string. */
  function FmtDate(ymd: string): string
  {
    Slice(ymd, 0, 4) + "-" + Slice(ymd, 4, 6) + "-" + Slice(ymd, 6, 8)
  }

  /** An eight-character date comes back from its dashed form by dropping the dashes. */
  lemma FmtDateRoundTrip(ymd: string)
    requires |ymd| == 8
    ensures var f := FmtDate(ymd);
      |f| == 10 && f[4] == '-' && f[7] == '-' && f[..4] + f[5..7] + f[8..] == ymd
  {
    var f := FmtDate(ymd);
    assert f == ymd[..4] + "-" + ymd[4..6] + "-" + ymd[6..8];
    assert f[..4] == ymd[..4] && f[5..7] == ymd[4..6] && f[8..] == ymd[6..];
    assert ymd[..4] + ymd[4..6] + ymd[6..] == ymd;
  }

  /** The duplicate key of the menu: `${court}|${date}|${time}|${hours}`. */
  function MenuKey(r: Reservation): string
  {
    IntToString(r.court) + "|" + r.date + "|" + r.time + "|" + IntToString(r.hours)
  }

  lemma NoBarInNumber(i: int)
    ensures '|' !in IntToString(i)
  {
    if i < 0 {
      assert IntToString(i) == "-" + NatToString(-i);
    }
  }

  lemma SplitMenuKey(r: Reservation)
    requires '|' !in r.date && '|' !in r.time
    ensures Split(MenuKey(r), '|') == [IntToString(r.court), r.date, r.time, IntToString(r.hours)]
  {
    NoBarInNumber(r.court);
    NoBarInNumber(r.hours);
    var c, h := IntToString(r.court), IntToString(r.hours);
    var tail3 := r.time + ['|'] + h;
    var tail2 := r.date + ['|'] + tail3;
    assert MenuKey(r) == c + ['|'] + tail2;
    SplitNoSep(h, '|');
    SplitCons(r.time, '|', h);
    assert Split(tail3, '|') == [r.time, h];
    SplitCons(r.date, '|', tail3);
    assert Split(tail2, '|') == [r.date, r.time, h];
    SplitCons(c, '|', tail2);
  }

  /** Two reservations whose date and time hold no '|' share a menu key exactly when they
      agree on court, date, time and hours. */
  lemma MenuKeyIdentifies(a: Reservation, b: Reservation)
    requires '|' !in a.date && '|' !in a.time && '|' !in b.date && '|' !in b.time
    ensures MenuKey(a) == MenuKey(b) <==>
      a.court == b.court && a.date == b.date && a.time == b.time && a.hours == b.hours
  {
    if MenuKey(a) == MenuKey(b) {
      SplitMenuKey(a);
      SplitMenuKey(b);
      IntToStringInjective(a.court, b.court);
      IntToStringInjective(a.hours, b.hours);
    }
  }

  /** A menu item: its id, its caption and the reservation its click runs. */
  datatype MenuItem = MenuItem(id: string, caption: string, target: Reservation)

  /** `reserve-${idx}`. */
  function MenuId(i: nat): string
  {
    "reserve-" + NatToString(i)
  }

  /** `${fmtDate(r.date)} • 코트 ${r.court} • ${r.time} • ${r.hours}시간`. */
  function MenuLabel(r: Reservation): string
  {
    FmtDate(r.date) + " • 코트 " + IntToString(r.court) + " • " + r.time
      + " • " + IntToString(r.hours) + "시간"
  }

  /** `rs.map((r, idx) => ...)`: the menu entry of each reservation, numbered by its index. */
  function Items(rs: seq<Reservation>): seq<MenuItem>
  {
    seq(|rs|, i requires 0 <= i < |rs| => MenuItem(MenuId(i), MenuLabel(rs[i]), rs[i]))
  }

  /** `buildMenuFromReservations`: one item per reservation left after de-duplication. */
  function BuildMenu(rs: seq<Reservation>): seq<MenuItem>
  {
    Items(Dedup.Dedup(rs, MenuKey))
  }

  /** `menu.getMenuItemById(id)`: the first item with that id. */
  function FindItem(menu: seq<MenuItem>, id: string): (r: Option<MenuItem>)
    ensures r.Some? ==> r.value in menu && r.value.id == id
    ensures r.None? ==> forall i :: 0 <= i < |menu| ==> menu[i].id != id
  {
    if menu == [] then None
    else if menu[0].id == id then Some(menu[0])
    else FindItem(menu[1..], id)
  }

  /** Items numbered "reserve-0", "reserve-1", ... in order. */
  predicate Numbered(menu: seq<MenuItem>)
  {
    forall i :: 0 <= i < |menu| ==> menu[i].id == MenuId(i)
  }

  lemma BuiltMenuIsNumbered(rs: seq<Reservation>)
    ensures Numbered(BuildMenu(rs))
  {
  }

  /** In a numbered menu the item with id "reserve-<i>" is the i-th, and exists exactly
      for i below the number of items. */
  lemma NumberedLookup(menu: seq<MenuItem>, i: nat)
    requires Numbered(menu)
    ensures FindItem(menu, MenuId(i)) == if i < |menu| then Some(menu[i]) else None
  {
    forall j | 0 <= j < |menu| && menu[j].id == MenuId(i) ensures j == i {
      assert NatToString(j) == MenuId(i)[|"reserve-"|..];
      NatToStringInjective(j, i);
    }
    if i < |menu| {
      FindFirst(menu, MenuId(i), i);
    }
  }

  /** The item with id "reserve-<i>" is the i-th surviving reservation's. */
  lemma MenuLookup(rs: seq<Reservation>, i: nat)
    ensures var menu := BuildMenu(rs);
      FindItem(menu, MenuId(i)) == if i < |menu| then Some(menu[i]) else None
  {
    BuiltMenuIsNumbered(rs);
    NumberedLookup(BuildMenu(rs), i);
  }

  lemma {:induction false} FindFirst(menu: seq<MenuItem>, id: string, i: nat)
    requires i < |menu| && menu[i].id == id
    requires forall j :: 0 <= j < i ==> menu[j].id != id
    ensures FindItem(menu, id) == Some(menu[i])
    decreases i
  {
    if i > 0 {
      FindFirst(menu[1..], id, i - 1);
    }
  }

  /** The menu never shows two entries for the same court, date, time and hours. */
  lemma MenuKeysDistinct(rs: seq<Reservation>)
    ensures var menu := BuildMenu(rs);
      forall i, j :: 0 <= i < j < |menu| ==> MenuKey(menu[i].target) != MenuKey(menu[j].target)
  {
    var u := Dedup.Dedup(rs, MenuKey);
    var menu := BuildMenu(rs);
    assert forall i :: 0 <= i < |menu| ==> menu[i].target == u[i];
  }

  /** Every configured reservation has an entry with its key. */
  lemma MenuCoversEveryKey(rs: seq<Reservation>, k: nat)
    requires k < |rs|
    ensures var menu := BuildMenu(rs);
      exists i :: 0 <= i < |menu| && MenuKey(menu[i].target) == MenuKey(rs[k])
  {
    var u := Dedup.Dedup(rs, MenuKey);
    var menu := BuildMenu(rs);
    DedupKeySet(rs, MenuKey, {});
    assert MenuKey(rs[k]) in KeySet(rs, MenuKey);
    assert MenuKey(rs[k]) in KeySet(u, MenuKey);
    var i :| 0 <= i < |u| && MenuKey(u[i]) == MenuKey(rs[k]);
    assert menu[i].target == u[i];
  }

  /** The configured A, B, A' where A' repeats A: the menu holds A and B as reserve-0 and reserve-1. */
  lemma RepeatedEntryDropped(a: Reservation, b: Reservation)
    requires MenuKey(a) != MenuKey(b)
    ensures BuildMenu([a, b, a]) == [MenuItem(MenuId(0), MenuLabel(a), a), MenuItem(MenuId(1), MenuLabel(b), b)]
  {
    var ka, kb := MenuKey(a), MenuKey(b);
    assert [a, b, a][1..] == [b, a] && [b, a][1..] == [a] && [a][1..] == [];
    assert DedupFrom([a], MenuKey, {ka, kb}) == [];
    assert DedupFrom([b, a], MenuKey, {ka}) == [b] + DedupFrom([a], MenuKey, {ka} + {kb});
    assert {ka} + {kb} == {ka, kb};
    assert DedupFrom([a, b, a], MenuKey, {}) == [a] + DedupFrom([b, a], MenuKey, {} + {ka});
    assert {} + {ka} == {ka};
  }

  /**
   * `webApiMap`, the object from user id to `WebApi`, in the order its keys were first
   * assigned. Assigning an id already present keeps its place. This is the order a
   * `for ... in` loop visits for non-numeric ids; JavaScript visits integer-like keys
   * first, in ascending order, which the model does not follow.
   */
  class Registry {
    var entries: seq<(string, WebApi.WebApi)>

    constructor ()
      ensures entries == []
    {
      entries := [];
    }

    predicate DistinctIds()
      reads this
    {
      forall i, j :: 0 <= i < j < |entries| ==> entries[i].0 != entries[j].0
    }

    /** Every user has a window of their own, as `createWindows` opens one per account. */
    predicate DistinctWindows()
      reads this, set i | 0 <= i < |entries| :: entries[i].1
    {
      forall i, j :: 0 <= i < j < |entries| ==> entries[i].1.window != entries[j].1.window
    }

    /** `webApiMap[userId]`. */
    function Lookup(userId: string): (r: Option<WebApi.WebApi>)
      reads this
      ensures r.Some? <==> exists i :: 0 <= i < |entries| && entries[i].0 == userId
      ensures r.Some? ==> exists i :: 0 <= i < |entries| && entries[i] == (userId, r.value)
    {
      LookupIn(entries, userId)
    }

    /** `webApiMap[userId] = api`. */
    method Register(userId: string, api: WebApi.WebApi)
      requires DistinctIds()
      modifies this
      ensures DistinctIds()
      ensures Lookup(userId) == Some(api)
      ensures forall id :: id != userId ==> Lookup(id) == old(Lookup(id))
      ensures |entries| == |old(entries)| + (if old(Lookup(userId)).Some? then 0 else 1)
    {
      var i := 0;
      while i < |entries|
        invariant entries == old(entries)
        invariant 0 <= i <= |entries|
        invariant forall j :: 0 <= j < i ==> entries[j].0 != userId
      {
        if entries[i].0 == userId {
          forall id { LookupAfterUpdate(entries, i, api, id); }
          entries := entries[i := (userId, api)];
          assert forall j :: 0 <= j < |entries| ==> entries[j].0 == old(entries)[j].0;
          return;
        }
        i := i + 1;
      }
      forall id { LookupAfterAppend(entries, userId, api, id); }
      entries := entries + [(userId, api)];
    }

    /** `getWebApiFromWindow(win)`: the first registered `WebApi` whose window is `win`. */
    function FromWindow(win: WebApi.Window): (r: Option<WebApi.WebApi>)
      reads this, set i | 0 <= i < |entries| :: entries[i].1
      ensures r.Some? ==> r.value.window == win && exists i :: 0 <= i < |entries| && entries[i].1 == r.value
      ensures r.None? <==> forall i :: 0 <= i < |entries| ==> entries[i].1.window != win
    {
      FromWindowIn(entries, win)
    }

    /** The `navigate` IPC handler: the user's `WebApi` navigates; an unknown user id is
        ignored. */
    method NavigateIpc(userId: string, target: string) returns (handled: bool)
      requires forall i :: 0 <= i < |entries| ==> entries[i].1.window != null
      modifies set i | 0 <= i < |entries| :: entries[i].1.window
      ensures handled <==> old(Lookup(userId)).Some?
      ensures handled ==> var w := old(Lookup(userId)).value.window;
        w.requests == old(w.requests) + WebApi.NavigateRequests(target) && w.url == old(w.url)
      ensures !handled ==> unchanged(set i | 0 <= i < |entries| :: entries[i].1.window)
      ensures handled ==> forall i :: 0 <= i < |entries| && entries[i].1.window != old(Lookup(userId)).value.window ==>
        unchanged(entries[i].1.window)
      ensures DistinctWindows() ==> forall i :: 0 <= i < |entries| && entries[i].0 != userId ==>
        unchanged(entries[i].1.window)
    {
      var found := LookupIn(entries, userId);
      if found.None? {
        return false;
      }
      var api := found.value;
      api.Navigate(target);
      return true;
    }
  }

  function LookupIn(entries: seq<(string, WebApi.WebApi)>, userId: string): (r: Option<WebApi.WebApi>)
    ensures r.Some? <==> exists i :: 0 <= i < |entries| && entries[i].0 == userId
    ensures r.Some? ==> exists i :: 0 <= i < |entries| && entries[i] == (userId, r.value)
  {
    if entries == [] then None
    else if entries[0].0 == userId then Some(entries[0].1)
    else
      var r := LookupIn(entries[1..], userId);
      assert r.Some? ==> exists i :: 0 <= i < |entries[1..]| && entries[1..][i] == (userId, r.value);
      assert r.Some? ==> exists i :: 0 <= i < |entries| && entries[i] == (userId, r.value);
      r
  }

  /** Overwriting the value of the i-th id changes what that id finds and nothing else. */
  lemma {:induction false} LookupAfterUpdate(entries: seq<(string, WebApi.WebApi)>, i: nat, api: WebApi.WebApi, id: string)
    requires i < |entries|
    requires forall a, b :: 0 <= a < b < |entries| ==> entries[a].0 != entries[b].0
    ensures LookupIn(entries[i := (entries[i].0, api)], id) ==
      if id == entries[i].0 then Some(api) else LookupIn(entries, id)
    decreases i
  {
    var e' := entries[i := (entries[i].0, api)];
    if i > 0 {
      assert e'[1..] == entries[1..][i - 1 := (entries[i].0, api)];
      LookupAfterUpdate(entries[1..], i - 1, api, id);
    }
  }

  /** Appending a new id makes it findable and changes nothing else. */
  lemma {:induction false} LookupAfterAppend(entries: seq<(string, WebApi.WebApi)>, userId: string, api: WebApi.WebApi, id: string)
    requires forall k :: 0 <= k < |entries| ==> entries[k].0 != userId
    ensures LookupIn(entries + [(userId, api)], id) == if id == userId then Some(api) else LookupIn(entries, id)
    decreases |entries|
  {
    if entries != [] {
      assert (entries + [(userId, api)])[1..] == entries[1..] + [(userId, api)];
      LookupAfterAppend(entries[1..], userId, api, id);
    }
  }

  function FromWindowIn(entries: seq<(string, WebApi.WebApi)>, win: WebApi.Window): (r: Option<WebApi.WebApi>)
    reads set i | 0 <= i < |entries| :: entries[i].1
    ensures r.Some? ==> r.value.window == win && exists i :: 0 <= i < |entries| && entries[i].1 == r.value
    ensures r.None? <==> forall i :: 0 <= i < |entries| ==> entries[i].1.window != win
  {
    if entries == [] then None
    else if entries[0].1.window == win then Some(entries[0].1)
    else
      var r := FromWindowIn(entries[1..], win);
      assert forall i :: 0 < i < |entries| ==> entries[i] == entries[1..][i - 1];
      r
  }
}
