# gimpotennis core, modelled in Dafny

gimpotennis books tennis courts on a public facility's reservation site. An Electron
desktop application drives the site's own web pages; a small Android client keeps the
list of accounts. This project models the logic of that application and proves
properties about it:

- **SchedulesCache** (`src/schedules_cache.js`): the per-date cache of court schedules.
  It covers the 30-minute freshness window, the merge of probed time boards into stored
  ones, the parser of the site's time-board HTML lines, and the "already booked" check.
  `ScheduleCache` is a class whose `dates` map the methods update.
- **Scripts** (`src/scripts.js`): the scripts injected into the site's pages. The login
  and confirm scripts are modelled, and so are the reservation script's input checks
  and the form it fills in.
- **ScenarioRunner** (`src/scenario.js`): the scenario that walks the "reserve-N" menu
  items one per step, and the status menu item's caption.
- **WebApi** (`src/web_api.js`): one logged-in browser window. This covers which script or
  page each page load and each navigation request leads to.
- **MainMenu** and **Dedup** (`src/main.js`): the reservation menu built from the configured
  reservations. Repeated date-time-court-hours keys are dropped, each item gets the id
  "reserve-i", and ids are looked up as `getMenuItemById` does. `Registry` is the map from
  user id to `WebApi` object, with the window lookup and the navigate IPC handler.
- **Settings** (`src/ui/settings.js`): the settings page. It covers the calendar's target
  and cutoff dates, the pending reservations built from the pickers, the two-hour cap per
  account and date, and merging into the saved list without duplicates. It also covers
  removing past reservations, drag-and-drop reordering, and the account and group form.
  `SettingsPage` is a class over the configuration.
- **MenuTime** (`src/common/menu_time_esm.js`): the one-line text of a reservation.
- **SchedulesPage** (`src/ui/schedules.js`): the schedule grid. It covers cell ids, the
  selection rule for clicks on available cells, the reservation built from the selection,
  and the grid redraw. `SchedulePage` is a class over the page's state.
- **ResponseCache** (`src/preload_main.js`): the "last good response" memory that the
  preload script puts in front of `fetch`, `$.ajax` and `XMLHttpRequest`. It covers the
  MySQL-error test, the request keys (with the body serialisation and its sorted field
  order), the 10-second freshness, and the fallback. `ResponseMemory` is a class over the
  `lastGood` map.
- **Accounts** (`AccountAdapter.java` of the Android client): `readFromEdits`,
  `saveAccounts` and `loadAccounts`, over a class holding the account list and the stored
  preference text.
- Foundations: **Wrappers** (`Option`), **Text** (decimal text, JavaScript's `Number`,
  `padStart`, `slice`, `trim`, `split`, ASCII case mapping), **Calendar** (proleptic Gregorian
  dates with day numbers and weekdays, as `Date` arithmetic in local time), and **Domain**
  (the reservation and account records).

The current time, the page's UTC offset and every answer from the network are parameters.
Every method of a class states its new state in full. The properties the application relies
on are proved as lemmas about the functions that specify those methods.

## Model

| member | source | states |
|---|---|---|
| SchedulesCache.ValidEntries | src/schedules_cache.js:50-63 | a date is kept exactly when it is fresh, with its entry unchanged |
| SchedulesCache.Stamped | src/schedules_cache.js:83-92 | `setAll` writes exactly the given dates, each with its `time` and `data` and `cachedAt` = now |
| SchedulesCache.StampOneMore | src/schedules_cache.js:84-90 | storing the dates one at a time in any order ends where storing them all at once does |
| SchedulesCache.TtlBoundary | src/schedules_cache.js:10 | an entry stored at t is readable at t + TTL - 1 and no longer at t + TTL or later (TTL = 1800000 ms) |
| SchedulesCache.CleanupInvisible | src/schedules_cache.js:113-124 | dropping expired dates changes no read made at the same instant |
| SchedulesCache.MergeSlots | src/schedules_cache.js:211-227 | after the merge the labels are the old ones plus the labels observed open |
| SchedulesCache.MergeRules | src/schedules_cache.js:215-227 | cell by cell: observed open wins; a non-open observation replaces only an open cell; otherwise the old cell (or none) stays |
| SchedulesCache.MergeOneMore | src/schedules_cache.js:215-227 | merging the labels one at a time in any order equals the merge as a whole |
| SchedulesCache.MergeIdempotent | src/schedules_cache.js:211-227 | merging the same observation twice changes nothing more |
| SchedulesCache.TakenCellIsStable | src/schedules_cache.js:220-225 | a taken cell keeps its exact value through any run of observations that do not report it open |
| SchedulesCache.OpenObservationWins | src/schedules_cache.js:216-219 | after an observation reporting a label open, the cell is open |
| SchedulesCache.DetailSurvivesCoarseMarker | src/schedules_cache.js:211-227 | open, then booked with names, then a bare booked marker: the names survive |
| SchedulesCache.TimeBoardEntry | src/schedules_cache.js:184-229 | a new date gets `time` one hour back and only this court; an existing date keeps `time`, `cachedAt` and every other court, gains the court as given when missing, and otherwise merges the court's slots |
| SchedulesCache.ProbeDoesNotRefreshExpired | src/schedules_cache.js:200-229 | merging a probe into an expired date leaves it expired |
| SchedulesCache.MatchLabel | src/schedules_cache.js:243 | whatever the line pattern captures as the time is a `\d{2}:\d{2}` label |
| SchedulesCache.MatchTag | src/schedules_cache.js:243 | the same, after the leading white space |
| SchedulesCache.MatchAttrs | src/schedules_cache.js:243 | the same, after `<label class="` |
| SchedulesCache.MatchTime | src/schedules_cache.js:243 | the same, for the time capture itself |
| SchedulesCache.MatchLabelTag | src/schedules_cache.js:243 | an unindented label tag is recognised with its marker and its time |
| SchedulesCache.MatchLabelLine | src/schedules_cache.js:243 | every label line, with any white-space indentation, is recognised with its marker and its time |
| SchedulesCache.Record | src/schedules_cache.js:244-245 | one parser step: a matching line sets its label to 0 (on) or `["???", "???"]` (no), other labels are untouched |
| SchedulesCache.ParsedLabels | src/schedules_cache.js:242-246 | a label is parsed exactly when some line matches with that label |
| SchedulesCache.ParsedValue | src/schedules_cache.js:242-246 | a label takes the value of the last line that carries it |
| SchedulesCache.CollectSlots | src/schedules_cache.js:236-246 | the line loop computes the parsed slots |
| SchedulesCache.NextHourOfTime | src/schedules_cache.js:298-299 | for an "HH:MM" time the next-hour label is HH + 1, two digits, then ":00" |
| SchedulesCache.BookedIn | src/schedules_cache.js:275-308 | no fresh entry means not booked; booked implies the court has data |
| SchedulesCache.TakenCellBlocks | src/schedules_cache.js:290-294 | a truthy cell at the requested time makes the request booked |
| SchedulesCache.TakenNextHourBlocks | src/schedules_cache.js:297-305 | for more than one hour, a truthy cell at the next hour makes it booked |
| SchedulesCache.BookedOnlyByTakenCell | src/schedules_cache.js:275-308 | booked exactly when the date is fresh, the court has slots, and the cell at `time` is truthy or, for more than one hour, the next hour's cell is; missing and open cells never block |
| SchedulesCache.OpenProbeClearsBooking | src/schedules_cache.js:184-229 | after a probe reports the requested hours open, the request is not booked |
| SchedulesCache.ScheduleCache.constructor | src/schedules_cache.js:12-14 | the cache starts with no dates |
| SchedulesCache.ScheduleCache.GetForDate | src/schedules_cache.js:34-44 | reads the stored map as `Lookup` does |
| SchedulesCache.ScheduleCache.GetAll | src/schedules_cache.js:50-63 | the loop returns exactly the fresh dates with their entries |
| SchedulesCache.ScheduleCache.SetForDate | src/schedules_cache.js:70-77 | the date's entry becomes the given `time` and `data` with `cachedAt` = now; nothing else changes |
| SchedulesCache.ScheduleCache.SetAll | src/schedules_cache.js:83-92 | the given dates are overwritten, stamped now; other dates stay |
| SchedulesCache.ScheduleCache.Clear | src/schedules_cache.js:97-100 | the cache becomes empty |
| SchedulesCache.ScheduleCache.ClearForDate | src/schedules_cache.js:105-108 | only that date is removed |
| SchedulesCache.ScheduleCache.Cleanup | src/schedules_cache.js:113-124 | the loop leaves exactly the fresh entries |
| SchedulesCache.ScheduleCache.SetTimeBoard | src/schedules_cache.js:184-229 | the cache becomes the old one with the probe applied (new date, new court, or merge) |
| SchedulesCache.ScheduleCache.ParseTimeBoard | src/schedules_cache.js:236-254 | the parsed slots are merged when there is at least one, else nothing changes |
| SchedulesCache.ScheduleCache.AlreadyBooked | src/schedules_cache.js:275-308 | the answer is `BookedIn` of the stored map |
| SchedulesPage.FormatYmdIsYmdNumber | src/ui/schedules.js:64-69 | `formatYmd` is the decimal text of yyyy*10000 + mm*100 + dd, the number `makeReservation` builds; for four-digit years it is eight digits |
| SchedulesPage.YmdNumberLength | src/ui/schedules.js:151 | for four-digit years that number has eight digits |
| SchedulesPage.FormatYmdInjective | src/ui/schedules.js:64-69 | two dates with the same `formatYmd` text are the same date |
| SchedulesPage.YmdNumberParts | src/ui/schedules.js:151 | day, month and year can be read back from the number |
| SchedulesPage.Stars | src/ui/schedules.js:215 | `"*".repeat(n)` is n stars |
| SchedulesPage.MaskName | src/ui/schedules.js:208-216 | "" stays ""; otherwise the first character, stars, and the last character when the name has three or more; length max(2, len) |
| SchedulesPage.CellIdRoundTrip | src/ui/schedules.js:139-144 | the court and hour read back from a cell id `h_<court*100+hour>` are the ones it was built from |
| SchedulesPage.CellIdsDistinct | src/ui/schedules.js:257-259 | no two grid cells share an id |
| SchedulesPage.GridIndexRoundTrip | src/ui/schedules.js:252-263 | the document order of the 144 cells (hour rows, court columns) is a bijection |
| SchedulesPage.FirstFrom | src/ui/schedules.js:148 | `.eq(0)`: what it finds is a selected grid cell at or after the start |
| SchedulesPage.FirstInDocument | src/ui/schedules.js:148 | what `.eq(0)` returns is a selected grid cell |
| SchedulesPage.FirstFromIsFirst | src/ui/schedules.js:148 | it finds one, and none earlier in document order |
| SchedulesPage.FirstInDocumentIsFirst | src/ui/schedules.js:148 | the cell found comes first in document order among the selected |
| SchedulesPage.OnCellKeepsSelection | src/ui/schedules.js:113-137 | a click keeps the selection within available cells and at most two adjacent hours of one court; it asks to reserve exactly when the clicked cell is available and already selected, then leaves the selection alone; otherwise an available clicked cell ends up selected |
| SchedulesPage.ReservationCoversSelection | src/ui/schedules.js:146-159 | the reservation built from a non-empty selection covers exactly the selected cells, `hours` is their count, `date` the yyyymmdd number as text |
| SchedulesPage.SelectionIsBookable | src/ui/schedules.js:146-159 | that reservation passes the booking script's input checks |
| SchedulesPage.AllShownAppend | src/ui/schedules.js:113-137 | reservations that only cover shown cells stay so when logs are joined |
| SchedulesPage.GridEventsTail | src/ui/schedules.js:161-202 | a well-formed run of page events stays well formed after its first event |
| SchedulesPage.RunAsksOnlyForShownCells | src/ui/schedules.js:217-246 | with the selection cleared on every redraw, and every load succeeding, every reservation sent covers only cells available in the grid shown |
| SchedulesPage.StaleSelectionAsWritten | src/ui/schedules.js:217-246 | as written, a cell selected on one day survives the day change and is reserved on the next day although not available there |
| SchedulesPage.StaleSelectionCleared | src/ui/schedules.js:217-246 | with the redraw clearing the selection, the same clicks reserve only the cell picked on the day shown |
| SchedulesPage.ClassAt | src/ui/schedules.js:204-206 | `hour_classes[n]`: a class for 0..3 only; "available" exactly for 0, "booked" exactly for 3 |
| SchedulesPage.ClassOf | src/ui/schedules.js:236 | the class a cell value indexes (numbers and one-element arrays coerce); "available" exactly for 0 or ["0"] |
| SchedulesPage.Display | src/ui/schedules.js:226-237 | a value with two or more names shows the masked name and team and is "booked"; otherwise the hour text and the indexed class |
| SchedulesPage.CourtsDrawn | src/ui/schedules.js:219-220 | the drawing stops at the first court with no data |
| SchedulesPage.RedrawnComplete | src/ui/schedules.js:217-239 | with data for all eight courts every cell shows its drawn view; it is "available" exactly for 0 or ["0"] |
| SchedulesPage.DrawCourt | src/ui/schedules.js:221-238 | the hour loop redraws exactly the court's 18 cells and leaves all others |
| SchedulesPage.DrawCell | src/ui/schedules.js:222-237 | one hour step extends the redrawn range by that cell |
| SchedulesPage.DrawStep | src/ui/schedules.js:219-239 | one court step extends the redrawn courts by that court |
| SchedulesPage.DrawnAll | src/ui/schedules.js:219-239 | after eight courts the view is the full redraw |
| SchedulesPage.DrawnUntilMissing | src/ui/schedules.js:219-226 | at a court with no data the loop stops after clearing the first cell's class |
| SchedulesPage.CourtsDrawnFrom | src/ui/schedules.js:219-220 | the number of courts drawn is the count before the first missing one |
| SchedulesPage.Redraw | src/ui/schedules.js:217-246 | the court loop computes the redraw of every cell |
| SchedulesPage.SchedulePage.constructor | src/ui/schedules.js:108-111 | the page starts at today with no schedules, no drawn cells and no selection |
| SchedulesPage.SchedulePage.UpdateSchedule | src/ui/schedules.js:217-246 | the view becomes the redraw of the date's data and the selection is cleared (the corrected behaviour) |
| SchedulesPage.SchedulePage.LoadDate | src/ui/schedules.js:161-202 | moves the date by `dayDiff` when none is given; fetches only when forced or not stored, stores and reports what was fetched, and redraws when the date's data is there, clearing the selection (the corrected behaviour) |
| SchedulesPage.SchedulePage.OnLoad | src/ui/schedules.js:74-106 | merges the cached dates; fetches today exactly when it is in neither store, and stores it; when today's schedule is held or fetched it is drawn and the selection cleared, and when the fetch fails the view and the selection stay |
| SchedulesPage.SchedulePage.OnAvailableCell | src/ui/schedules.js:113-137 | the selection follows the click rule; a reservation is sent exactly when the rule asks for one, covering the selection |
| Settings.FirstOfNextMonth | src/ui/settings.js:57-60 | the day after a month's last day is the first of the next month, December rolling into January |
| Settings.TargetWithinReach | src/ui/settings.js:44-64 | the target date is today or later, at most 26 days ahead, and is a 15th or a month's last day |
| Settings.CutoffIsSaturday | src/ui/settings.js:23-43 | for a 15th the cutoff is that month's last day; otherwise a Saturday between the 15th and the 21st of the next month |
| Settings.CutoffNotBefore | src/ui/settings.js:23-43 | the cutoff is never before the date it was computed from |
| Settings.PendingEntryReadsBack | src/ui/settings.js:149-157 | a pending entry reads back as what was picked: `Number(date)` is the picked date and the time is the start hour |
| Settings.PendingHoursWithinDay | src/ui/settings.js:147 | with the picker's one or two hours and a start in 1..23, the entry books at least one hour, no more than picked, and ends by midnight |
| Settings.PendingEntryIsBookable | src/ui/settings.js:136-162 | an entry for an eight-digit date and a picker hour always passes the booking script's input checks |
| Settings.Tagged | src/ui/settings.js:168 | every pending entry, in order, with the active account's id |
| Settings.FirstOverCap | src/ui/settings.js:185-196 | the first entry that takes an account's total for a date past two hours, and none before it |
| Settings.CheckCap | src/ui/settings.js:185-196 | the loop with its per-key totals stops at that first entry with the message "<total> hours for <account>", or finds none |
| Settings.CapHolds | src/ui/settings.js:185-196 | a list that passes the check books at most two hours per account and date |
| Settings.DedupFromAppend | src/ui/settings.js:169-181 | filtering a concatenation filters the second part against the keys of the first |
| Settings.MergedKeepsExisting | src/ui/settings.js:169-181 | when the saved list has no duplicates it is kept whole, and only new keys of the pending entries are appended |
| Settings.MergedIsDeduplicated | src/ui/settings.js:169-181 | the merged list keeps order, has one entry per date-time-court key, and covers every key of the input |
| Settings.Upcoming | src/ui/settings.js:211-221 | exactly the entries whose date number is today's or later are kept |
| Settings.UpcomingCounts | src/ui/settings.js:217-220 | each upcoming entry is kept as often as it occurs, duplicates included; past ones are dropped |
| Settings.UpcomingKeepsOrder | src/ui/settings.js:217-220 | they keep their order |
| Settings.UpcomingIdempotent | src/ui/settings.js:211-221 | removing past entries twice is removing them once |
| Settings.RemoveAt | src/ui/settings.js:256 | `splice(i, 1)`: the entry at i is gone, the rest keep their order |
| Settings.InsertAt | src/ui/settings.js:387 | `splice(i, 0, x)`: x at i, the rest keep their order |
| Settings.Move | src/ui/settings.js:386-387 | the moved entry lands at the new index; the list is a permutation of the old one |
| Settings.MoveBack | src/ui/settings.js:381-390 | dragging an entry back to where it came from restores the list |
| Settings.RemoveInserted | src/ui/settings.js:386-387 | removing what was just inserted at i gives the list back |
| Settings.InsertRemoved | src/ui/settings.js:386-387 | inserting back what was just removed at i gives the list back |
| Settings.MoveKeepsOutside | src/ui/settings.js:381-390 | entries outside the range between the two indices do not move |
| Settings.ValidAccounts | src/ui/settings.js:294-312 | no more accounts than rows, each with a non-empty id and password |
| Settings.ValidAccountsSound | src/ui/settings.js:294-312 | every kept account comes from some row |
| Settings.ValidAccountsComplete | src/ui/settings.js:294-312 | every filled row's account is kept |
| Settings.ValidAccountsAppend | src/ui/settings.js:294-312 | rows are read independently and in order: two runs of rows give the first run's accounts followed by the second's |
| Settings.AccountReadsBack | src/ui/settings.js:304-310 | a kept account shown again in its row reads back as itself (its id is already trimmed) |
| Settings.ValidAccountsIdempotent | src/ui/settings.js:294-312 | saving again without editing the form keeps the same accounts in the same order |
| Settings.KeepFilledAccounts | src/ui/settings.js:295-312 | the row loop computes exactly those accounts |
| Settings.GroupSettingsStable | src/ui/settings.js:320-327 | the saved team name is never blank, and normalising the saved name and count again changes neither |
| Settings.SettingsPage.constructor | src/ui/settings.js:203-210 | `fillConfig`: the configuration with its past reservations removed |
| Settings.SettingsPage.RemovePastReservations | src/ui/settings.js:211-221 | the list becomes its upcoming entries; nothing else changes |
| Settings.SettingsPage.UpdateTempOutput | src/ui/settings.js:136-162 | no pending entries unless court, hours and start are all set; then one entry per picked date, in order |
| Settings.SettingsPage.AddToMenu | src/ui/settings.js:163-201 | with no account at the index nothing changes; over the cap the list stays and the alert is returned; otherwise the list becomes the merged one |
| Settings.SettingsPage.RemoveReservationAt | src/ui/settings.js:254-259 | removes the entry at an index in range, else changes nothing |
| Settings.SettingsPage.MoveReservation | src/ui/settings.js:381-390 | the list becomes the old one with the entry moved |
| Settings.SettingsPage.RemoveAccountAt | src/ui/settings.js:282-287 | removes the account at an index in range, else changes nothing |
| Settings.SettingsPage.AddAccount | src/ui/settings.js:288-293 | appends one blank account |
| Settings.SettingsPage.SaveSettings | src/ui/settings.js:294-331 | the accounts become the filled rows; outside the application shell the group settings stay; inside they are normalised and saved |
| MenuTime.HourEmojiShape | src/common/menu_time_esm.js:1-20 | every entry is the 12-hour clock face of its hour followed by the hour in two digits |
| MenuTime.HourEmojiDigits | src/common/menu_time_esm.js:1-20 | every entry is three characters and its last two read back as its own hour |
| MenuTime.FmtDateExample | src/common/menu_time_esm.js:22-34 | "20250814" east of UTC shows as "08/14(목)", a Thursday |
| MenuTime.FmtDateOfDate | src/common/menu_time_esm.js:22-34 | a date written as yyyymmdd shows as "MM/DD(<weekday>)" with its own month and day; the weekday is the date's own east of UTC and the previous day's west of UTC, since the text is parsed as midnight UTC |
| MenuTime.Start | src/common/menu_time_esm.js:37 | corrected: the start hour is `start` when present, else the hour of `time` |
| MenuTime.HourSlice | src/common/menu_time_esm.js:37 | `Number(time.substring(0, 2))` of an "HH:00" time is HH |
| MenuTime.MissingStartShowsUndefined | src/common/menu_time_esm.js:37-42 | as written, an entry without `start` and two hours shows "undefined+undefined" |
| MenuTime.ItemTimeShowsHours | src/common/menu_time_esm.js:36-45 | corrected: an entry at a bookable hour shows that hour's emoji, and for two hours "+" and the next hour's, with or without `start` |
| MenuTime.ConfiguredEntryExample | src/common/menu_time_esm.js:36-45 | court 5, 20250814, 08:00, two hours, no `start`: "undefined+undefined" as written, 08 and 09 corrected |
| Scripts.RoomName | src/scripts.js:22-25 | courts 1..8 are "A관".."H관", court 0 gives "", any other court falls back to "A관" |
| Scripts.HourOfIsNumber | src/scripts.js:38 | `Number` of the part before ':' of an "HH:00" time is HH |
| Scripts.Reservation | src/scripts.js:21-76 | a script exactly when the date is eight digits, the time is "HH:00" and a two-hour booking does not pass 23:00; it books the court's room, the date and time, two hours with the next hour as second time, else one hour and no second time |
| Scripts.HourLabelTime | src/scripts.js:44 | a padded hour followed by ":00" is accepted as a time and reads back as that hour |
| Scripts.CommitBooksCheckedHours | src/scripts.js:36-45 | the second hour booked is the next-hour label that the booked check inspects |
| Scripts.RejectedExamples | src/scripts.js:28-43 | 23:00 for two hours, 08:30, and a dashed date give no script |
| Scripts.AcceptedExample | src/scripts.js:21-76 | court 5, 20250814, 08:00, two hours books "E관" from 08:00 and 09:00 |
| WebApi.DispatchIsUnambiguous | src/web_api.js:3-7 | the page addresses differ, so at most one branch of the page-load dispatch applies |
| WebApi.CoursePageIsQuiet | src/web_api.js:21-33 | loading the course page requests nothing, so the root redirect does not loop |
| WebApi.RedirectsSettle | src/web_api.js:21-33 | any page a load is redirected to makes no further load when it finishes loading |
| WebApi.NavigationSettles | src/web_api.js:21-41 | each navigation opens a page that settles at once: the login page gets the login script with the session's id and password, the course page nothing |
| WebApi.WebApi.constructor | src/web_api.js:11 | a new object has no window and a blank session |
| WebApi.WebApi.Start | src/web_api.js:12-20 | keeps the window and session and loads the login page |
| WebApi.WebApi.OnLoad | src/web_api.js:21-33 | the window receives exactly the requests for its current page |
| WebApi.WebApi.Navigate | src/web_api.js:34-41 | the window receives exactly the requests for the target |
| WebApi.WebApi.OnMenuReservation | src/web_api.js:42-46 | the window is asked to run the reservation script, or `undefined` when the entry is rejected |
| MainMenu.FmtDateRoundTrip | src/main.js:61-63 | "YYYY-MM-DD": ten characters, dashes at 4 and 7, the other eight are the input |
| MainMenu.SplitMenuKey | src/main.js:69 | the key splits at '\|' back into court, date, time and hours |
| MainMenu.MenuKeyIdentifies | src/main.js:66-73 | two entries share a key exactly when court, date, time and hours agree |
| MainMenu.FindItem | src/scenario.js:19 | `getMenuItemById`: the item found has the id; none means no item has it |
| MainMenu.BuiltMenuIsNumbered | src/main.js:78-79 | the i-th item has the id "reserve-i" |
| MainMenu.NumberedLookup | src/main.js:78-79 | "reserve-i" finds the i-th item for i below the item count and nothing beyond |
| MainMenu.MenuLookup | src/main.js:65-95 | the same for the menu built from the reservations |
| MainMenu.MenuKeysDistinct | src/main.js:66-73 | no two menu items share a key |
| MainMenu.MenuCoversEveryKey | src/main.js:66-95 | every reservation's key has a menu item |
| MainMenu.RepeatedEntryDropped | src/main.js:65-95 | [a, b, a] gives two items, "reserve-0" for a and "reserve-1" for b |
| MainMenu.Registry.constructor | src/main.js:7 | the map starts empty |
| MainMenu.Registry.Lookup | src/main.js:167 | `webApiMap[user_id]`: found exactly when some entry has the id, and then it is that entry's object |
| MainMenu.Registry.Register | src/main.js:53-55 | afterwards the id gives the new object, other ids are unchanged, ids stay distinct, the map grows only for a new id |
| MainMenu.Registry.FromWindow | src/main.js:8-14 | the object returned is registered and has the window; null exactly when no registered object has it |
| MainMenu.Registry.NavigateIpc | src/main.js:166-173 | handled exactly when the id is registered; then its window receives the navigate requests and keeps its URL, and every other window is unchanged (every other user's, when each user has a window of their own); an unknown id changes no window |
| MainMenu.LookupIn | src/main.js:167 | the lookup over the entries |
| MainMenu.LookupAfterUpdate | src/main.js:55 | overwriting an id's object changes only that id's lookup |
| MainMenu.LookupAfterAppend | src/main.js:55 | adding a new id changes only that id's lookup |
| MainMenu.FromWindowIn | src/main.js:8-14 | the window search over the entries |
| Dedup.DedupFrom | src/main.js:67-73 | no longer than the input, no key already seen, no two items with one key |
| Dedup.DedupIsSubsequence | src/main.js:68-73 | the kept items keep their order |
| Dedup.DedupKeepsFirst | src/main.js:68-73 | each kept item is the first with its key |
| Dedup.DedupKeySet | src/main.js:68-73 | the kept keys are exactly the input's keys not already seen |
| Dedup.DedupOfDistinct | src/ui/settings.js:174-181 | a list with distinct keys passes unchanged |
| Dedup.DedupIdempotent | src/main.js:66-73 | filtering twice is filtering once |
| ScenarioRunner.StepIndex | src/scenario.js:15-23 | one call moves to the next index or stops at -1 |
| ScenarioRunner.ScenarioWalksTheMenu | src/scenario.js:15-28 | over a numbered menu, k calls from the start stand at item k - 1 |
| ScenarioRunner.ScenarioEndsAfterLastItem | src/scenario.js:15-23 | one call past the last item of the built menu ends the scenario |
| ScenarioRunner.Scenario.constructor | src/scenario.js:4-6 | the index starts at -1 |
| ScenarioRunner.Scenario.Next | src/scenario.js:15-28 | clicks the item "reserve-<index+1>" when there is one and shows "시나리오 - <n>: <caption>"; otherwise stops at -1 and shows the stopped label |
| ScenarioRunner.Scenario.EndScenario | src/scenario.js:29-32 | the index goes to -1 and the status shows "시나리오: 중지" |
| ScenarioRunner.Scenario.UpdateMenuLabel | src/scenario.js:33-40 | only the status caption changes, and only when the item exists |
| ResponseCache.LooksLikeIgnoresCase | src/preload_main.js:27-31 | the error check gives the same verdict for an ASCII text in upper or lower case |
| ResponseCache.MysqliIsCovered | src/preload_main.js:10-13 | whatever contains "mysqli" contains "mysql" |
| ResponseCache.ErrorExamples | src/preload_main.js:27-31 | "Warning: x" is error-like; "" is not |
| ResponseCache.Utf8 | src/preload_main.js:44 | a character encodes as one to four bytes |
| ResponseCache.PercentBytes | src/preload_main.js:44 | each byte becomes '%' and two hex digits |
| ResponseCache.EncodeUriComponent | src/preload_main.js:44 | the output holds only unreserved characters and '%' |
| ResponseCache.BelowTransitive | src/preload_main.js:53 | the `sort()` order is transitive |
| ResponseCache.BelowTotal | src/preload_main.js:53 | any two keys are equal or ordered |
| ResponseCache.BelowAsymmetric | src/preload_main.js:53 | no two keys are ordered both ways |
| ResponseCache.InsertElements | src/preload_main.js:53 | inserting adds exactly the one key |
| ResponseCache.InsertSorted | src/preload_main.js:53 | inserting into a sorted list keeps it sorted |
| ResponseCache.SortStringsCorrect | src/preload_main.js:53 | the keys come out sorted and a permutation of the input |
| ResponseCache.SortedUnique | src/preload_main.js:53 | two sorted permutations of the same keys are equal |
| ResponseCache.SerializeIgnoresFieldOrder | src/preload_main.js:50-54 | without jQuery, an object's key does not depend on the order of its properties |
| ResponseCache.AjaxKeyIsRequestKey | src/preload_main.js:126-130 | `$.ajax` keys its options as the XHR key of `type` (or `method`), url and data |
| ResponseCache.KeyStartsWithMethod | src/preload_main.js:59-67 | the first word of a key is the upper-cased method, "GET" by default |
| ResponseCache.TtlIsInclusive | src/preload_main.js:85 | a response is fresh at exactly 10000 ms and stale one ms later |
| ResponseCache.FallbackIsClean | src/preload_main.js:98-116 | when only clean bodies are remembered the fallback never serves an error-like body |
| ResponseCache.ResponseMemory.constructor | src/preload_main.js:25 | nothing is remembered |
| ResponseCache.ResponseMemory.Fetch | src/preload_main.js:79-118 | a fresh hit is served without the network; a failure or an error-like page falls back; a non-text or failed status passes through; a good text answer is served and remembered; no error-like body is ever served |
| ResponseCache.ResponseMemory.AjaxLookup | src/preload_main.js:134-144 | a hit exactly when the key is fresh, serving its body |
| ResponseCache.ResponseMemory.AjaxSuccess | src/preload_main.js:147-153 | a string answer that is not error-like is remembered with status 200; nothing else changes the memory |
| ResponseCache.ResponseMemory.XhrDone | src/preload_main.js:179-208 | a 2xx text answer that is error-like is replaced by the remembered body or ""; a clean one is remembered; other answers are left alone |
| Accounts.EmptyListText | grenn/app/src/main/java/kr/ac/tukorea/ge/scgyong/gtenn/AccountAdapter.java:81-96 | an empty list is saved as "[]" |
| Accounts.BuildAccountsJson | grenn/app/src/main/java/kr/ac/tukorea/ge/scgyong/gtenn/AccountAdapter.java:82-90 | the comma loop builds "[", the accounts' texts joined by ",", and "]" |
| Accounts.ReadObjectsKeepsNonBlank | grenn/app/src/main/java/kr/ac/tukorea/ge/scgyong/gtenn/AccountAdapter.java:108-124 | no loaded account has both fields empty, and there are no more than objects |
| Accounts.UnknownKeysIgnored | grenn/app/src/main/java/kr/ac/tukorea/ge/scgyong/gtenn/AccountAdapter.java:117-119 | members other than "id" and "pw" change nothing |
| Accounts.ReadObjectOf | grenn/app/src/main/java/kr/ac/tukorea/ge/scgyong/gtenn/AccountAdapter.java:109-121 | the object an account is saved as reads back as that account |
| Accounts.LoadAfterSave | grenn/app/src/main/java/kr/ac/tukorea/ge/scgyong/gtenn/AccountAdapter.java:107-124 | reading the saved objects appends exactly the non-blank accounts, in order |
| Accounts.ReadAccount | grenn/app/src/main/java/kr/ac/tukorea/ge/scgyong/gtenn/AccountAdapter.java:109-121 | the member loop throws exactly when a read fails, else yields the account read |
| Accounts.AccountAdapter.SaveAccounts | grenn/app/src/main/java/kr/ac/tukorea/ge/scgyong/gtenn/AccountAdapter.java:81-96 | the stored text becomes the JSON array of the list; the list is unchanged |
| Accounts.AccountAdapter.ReadFromEdits | grenn/app/src/main/java/kr/ac/tukorea/ge/scgyong/gtenn/AccountAdapter.java:57-78 | a position out of range changes nothing; a blank trimmed id removes the row and saves; an unchanged row changes nothing; otherwise the row takes the trimmed id and the untrimmed password and is saved |
| Accounts.AccountAdapter.LoadAccounts | grenn/app/src/main/java/kr/ac/tukorea/ge/scgyong/gtenn/AccountAdapter.java:98-137 | a readable array with some non-blank account replaces the list; otherwise (empty, or a read throws) the list stays |
| Accounts.SaveThenLoad | grenn/app/src/main/java/kr/ac/tukorea/ge/scgyong/gtenn/AccountAdapter.java:98-137 | reading back the accounts' `{"id", "pw"}` objects gives the list without its blank accounts |
| Calendar.DaysInMonth | src/ui/settings.js:29 | a month has 28 to 31 days; 29 exactly for February of a leap year |
| Calendar.Weekday | src/ui/settings.js:37 | `getDay()` is 0..6 |
| Calendar.NextDay | src/ui/settings.js:94 | the next day is a valid date |
| Calendar.NextDayNumber | src/ui/settings.js:94 | the next day is exactly one day later, across month and year ends |
| Calendar.PrevDay | src/common/menu_time_esm.js:27-30 | the previous day is a valid date |
| Calendar.PrevDayNumber | src/common/menu_time_esm.js:27-30 | the previous day is exactly one day earlier |
| Calendar.AddDays | src/ui/schedules.js:164 | `setDate(getDate() + k)` gives a valid date |
| Calendar.AddDaysNumber | src/ui/schedules.js:164 | it moves the date by exactly k days |
| Calendar.AddDaysWithinMonth | src/ui/settings.js:39-40 | staying inside the month only the day changes |
| Calendar.LastDayOfMonth | src/ui/settings.js:29 | `new Date(y, m + 1, 0)` is a valid date of that month whose next day is the first of the next month |
| Text.JsNumber | src/ui/settings.js:141-143 | `Number` gives a value exactly for digit strings, that value, never negative; "" is 0 |
| Text.JsNumberOfNatToString | src/ui/settings.js:152 | `Number(String(n))` is n |
| Text.PadStart2 | src/ui/schedules.js:66 | `padStart(2, '0')`: the text right-aligned in at least two characters, zeros in front |
| Text.HourLabelShape | src/ui/schedules.js:152 | an hour 0..99 padded and followed by ":00" is five characters that read back as the hour |
| Text.Split | src/schedules_cache.js:242 | `split` gives at least one part and no part holds the separator |
| Text.JoinSplit | src/schedules_cache.js:242 | joining the parts with the separator gives the text back |
| Text.TrimEmptyIffAllSpace | src/ui/settings.js:322 | a text trims to "" exactly when it is all white space |
| Text.TrimIdempotent | src/ui/settings.js:304 | trimming twice is trimming once |
| Text.NatToStringInjective | src/main.js:79 | different numbers give different decimal texts |
| Text.Slice | src/main.js:62 | `slice(i, j)` inside the text is the substring |
| Settings.TargetDate | src/ui/settings.js:44-64 | the date the calendar is built towards is a valid date |
| Settings.CutoffDate | src/ui/settings.js:23-43 | the calendar's last date is a valid date |
| Calendar.YearLength | src/ui/settings.js:29 | a year has 366 days exactly when it is a leap year, else 365 |
| Calendar.WeekdayShift | src/ui/settings.js:37-40 | k days later in the same month the weekday is k further round the week |
| Calendar.ThursdayCheck | src/ui/settings.js:37 | 14 August 2025 is a Thursday |
| Text.NatToString | src/ui/settings.js:152 | `String(n)`: at least one digit, all digits, no leading zero except for 0 |
| Text.DigitsValueOfNatToString | src/ui/schedules.js:140 | the decimal text of n reads back as n |
| Text.IntToStringInjective | src/ui/schedules.js:154 | different integers give different texts |
| Text.Lower | src/preload_main.js:29 | `toLowerCase` on ASCII letters: same length, each letter lowered |
| Text.Upper | src/preload_main.js:62 | `toUpperCase` on ASCII letters: same length, each letter raised |
| MainMenu.FmtDate | src/main.js:61-63 | `fmtDate`; its shape is stated by FmtDateRoundTrip |
| MainMenu.MenuKey | src/main.js:66-73 | the de-duplication key; MenuKeyIdentifies and SplitMenuKey state that it identifies court, date, time and hours |
| MainMenu.BuildMenu | src/main.js:65-95 | `buildMenuFromReservations`; BuiltMenuIsNumbered, MenuKeysDistinct, MenuCoversEveryKey and MenuLookup state what it builds |
| Dedup.Dedup | src/main.js:67-73 | the first-occurrence filter from an empty `seen` set; DedupFrom, DedupKeepsFirst, DedupKeySet and DedupIdempotent state it |
| MenuTime.FmtDateWeekday | src/common/menu_time_esm.js:22-34 | `fmtDate`; FmtDateOfDate states it for every date and FmtDateExample gives a value |
| MenuTime.ItemTime | src/common/menu_time_esm.js:37-42 | the time part; ItemTimeShowsHours and MissingStartShowsUndefined state it |
| MenuTime.StartAsWritten | src/common/menu_time_esm.js:37 | the start hour as written; MissingStartShowsUndefined states its effect |
| MenuTime.ReservationItemToString | src/common/menu_time_esm.js:36-45 | `reservationItemToString` with the corrected start (Start, ItemTimeShowsHours) |
| MenuTime.ReservationItemToStringAsWritten | src/common/menu_time_esm.js:36-45 | `reservationItemToString` as written (MissingStartShowsUndefined) |
| ResponseCache.LooksLikeMysqlError | src/preload_main.js:27-31 | `looksLikeMysqlError`; LooksLikeIgnoresCase, MysqliIsCovered and ErrorExamples state it |
| ResponseCache.SerializeBody | src/preload_main.js:34-56 | `serializeBody`; SerializeIgnoresFieldOrder and SortStringsCorrect state its sorted object keys |
| ResponseCache.RequestKey | src/preload_main.js:59-67 | `makeKeyFromFetch` and `makeKeyFromXHR`; KeyStartsWithMethod states it |
| ResponseCache.AjaxKey | src/preload_main.js:126-130 | the `$.ajax` key; AjaxKeyIsRequestKey states it |
| ResponseCache.IsText | src/preload_main.js:93 | the content-type test used by Fetch and XhrDone |
| SchedulesPage.FormatYmd | src/ui/schedules.js:64-69 | `formatYmd`; FormatYmdIsYmdNumber and FormatYmdInjective state it |
| SchedulesPage.OnCell | src/ui/schedules.js:113-137 | the click rule of `onAvailableCell`; OnCellKeepsSelection states it |
| SchedulesPage.MakeReservation | src/ui/schedules.js:146-159 | `makeReservation`; ReservationCoversSelection and SelectionIsBookable state it |
| Settings.Merged | src/ui/settings.js:163-181 | the list `addToMenu` saves; MergedKeepsExisting and MergedIsDeduplicated state it |
| Settings.CapAlert | src/ui/settings.js:183-196 | the cap alert; FirstOverCap, CheckCap and CapHolds state it |
| Accounts.AccountsJson | grenn/app/src/main/java/kr/ac/tukorea/ge/scgyong/gtenn/AccountAdapter.java:81-96 | the stored text; BuildAccountsJson and EmptyListText state it |
| Accounts.Loaded | grenn/app/src/main/java/kr/ac/tukorea/ge/scgyong/gtenn/AccountAdapter.java:98-137 | what `loadAccounts` reads; LoadAfterSave and SaveThenLoad state it |
| Accounts.ReadObjects | grenn/app/src/main/java/kr/ac/tukorea/ge/scgyong/gtenn/AccountAdapter.java:107-124 | the array loop; ReadObjectsKeepsNonBlank and LoadAfterSave state it |
| Accounts.ReadMembers | grenn/app/src/main/java/kr/ac/tukorea/ge/scgyong/gtenn/AccountAdapter.java:110-121 | the member loop; UnknownKeysIgnored and ReadObjectOf state it |
| SchedulesCache.ApplyTimeBoard | src/schedules_cache.js:184-229 | `setTimeBoard` on the map; TimeBoardEntry, OpenProbeClearsBooking and ProbeDoesNotRefreshExpired state it |
| SchedulesCache.ParseSlots | src/schedules_cache.js:236-246 | what `parseTimeBoard` collects; ParsedLabels and ParsedValue state it |
| SchedulesCache.NextHourLabel | src/schedules_cache.js:298-299 | the next-hour label; NextHourOfTime states it |

## Left out

- Rendering and the DOM are not modelled: HTML strings, jQuery selections other than the grid's selected cells, CSS classes other than the cell classes, and the Electron menu template and its roles.
- UI-only functions are not modelled: `getStatus`, `getThisWeekSunday`, `makeCalendar`, `makeHours`, `hilightHours`, `editReservationAt`, `fillHours`, `showSettings`, `onAccountItem`, window creation in `createWindows`, and the payment window's handler. They compute nothing beyond what they draw.
- The update-time display of the schedule page (`src/ui/schedules.js:240-245`) only formats the clock and is left out.
- The clock, the UTC offset and randomness are parameters. The network, IPC, `localStorage` and the Android `SharedPreferences` are modelled as the values they return or store.
- Concurrency is not modelled: interleaved `await`s, and a second request arriving while the first is pending. Each operation runs to completion.
- `Number(text)` (Text.JsNumber) covers only "", strings of ASCII digits and NaN. Signs, white space, decimals and exponents are not modelled.
- `Date` parsing takes only the exact forms the application builds ("YYYY-MM-DD", yyyymmdd numbers). Other inputs count as invalid rather than getting the engine's lenient parsing. One fixed UTC offset stands for the local time zone; daylight-saving changes are not modelled.
- A `URLSearchParams` body is keyed by its `toString()` text, which is a parameter. `$.param` is modelled for flat objects of string values only, as `encodeURIComponent` of each key and value. Its rewriting of "%20" to "+", nested objects and arrays are not modelled.
- ResponseCache.SortStringsCorrect: keys are sorted by code point, not by UTF-16 code unit as `Array.prototype.sort` does. The two orders differ only for characters outside the Basic Multilingual Plane.
- Response objects are modelled by their text, status, content type and headers. Streams and `clone()` are not modelled.
- `Account.java` is not part of this model. `Account.toJsonString` is a function parameter, and a new account's fields are taken to start as "".
- Android's `JsonReader` tokenizer is not modelled. `loadAccounts` receives the document as parsed objects, with a parse failure as an exception.
- SchedulesCache.TimeBoardEntry: for a new date `setTimeBoard` backdates the entry's `time` by one hour and stamps `cachedAt` now, as the code does. It does not backdate `cachedAt`.
- The booking session's state machine (login, choose, confirm, pay) runs on the remote site. Only the scripts that start each step are modelled.
- SchedulesPage.SchedulePage.UpdateSchedule: models `updateSchedule` with the correction of the first finding applied: it clears the selection, which the code never does. The page as written, where a selected cell survives the redraw, is modelled by RunAsWritten and StaleSelectionAsWritten.
- SchedulesPage.SchedulePage.LoadDate: draws through the corrected UpdateSchedule, so a redraw leaves the selection empty where the code keeps it.
- SchedulesPage.SchedulePage.OnAvailableCell: its `Valid()` holds that the selection is made of available, adjacent cells. This invariant holds for the corrected page: the constructor sets it up and every method keeps it. It does not hold for the page as written, which can keep a stale selected cell after a day change. The class does not model clicks in that state; RunAsWritten does.
- SchedulesPage.RunAsksOnlyForShownCells: its events have no failed load. When `loadDate(null, ±1)` moves `currentDate` and the request then fails (src/ui/schedules.js:163-200), the grid and selection of the previous day stay, and `makeReservation` books them for the new day. The class's LoadDate allows this; the property is proved only for runs whose loads succeed.
- Text.Lower: maps ASCII letters only. JavaScript's `toLowerCase` maps all of Unicode and can change the length ("İ" becomes two code points). LooksLikeMysqlError is unaffected: its patterns are ASCII, and the only non-ASCII characters that lower-case to ASCII letters give "k" (in no pattern) or "i" followed by a combining dot, which can only complete "mysqli", already covered by "mysql".
- Text.Upper: maps ASCII letters only. JavaScript's `toUpperCase` maps all of Unicode and can change the length ("ß" becomes "SS"). The request keys upper-case HTTP method names, which are ASCII.
- ResponseCache.LooksLikeIgnoresCase: stated for ASCII texts only. With full Unicode case mapping, "warnıng: x" upper-cases to an error-like text while the text itself is not error-like.
- Scripts.Login: a script is modelled by the values it fills in. The code splices `uid` and `upw` unescaped into `'…'` literals (src/scripts.js:10-11). A quote, a backslash or a line break in them breaks the script or changes the value filled in. The model takes values without these characters.
- Scripts.Confirm: the same for `upw` (src/scripts.js:17).
- Scripts.Reservation: the same for the team name, spliced unescaped into a `"…"` literal (src/scripts.js:58).
- Accounts.SaveThenLoad: reads back the accounts' `{"id", "pw"}` objects, not the stored text. That `Account.toJsonString` writes exactly that object is assumed, since Account.java is not part of this model.
- MainMenu.Registry: keeps the ids in the order they were first assigned. A `for ... in` loop over `webApiMap` visits integer-like ids first, in ascending order; FromWindow's choice differs only when two users share a window, which `createWindows` never does.
- RunAsWritten and Run describe a user's clicks abstractly (a day shown, a cell clicked). Real pointer events and timers are not modelled.

## Findings

| source | as written | input that shows it | evidently intended | confidence | as-written member | corrected member |
|---|---|---|---|---|---|---|
| src/ui/schedules.js:217-246 | `updateSchedule` redraws the grid's status classes but never removes `selected`, and `makeReservation` takes every selected cell | select court 5 at 06:00, move to a day that offers only court 1 at 07:00, click that cell twice: a two-hour reservation for court 5 at 06:00 is sent for the new day | drawing a new day clears the selection, so when the day's schedule loads, only cells available in the grid shown are reserved | high (not executed) | SchedulesPage.StaleSelectionAsWritten | SchedulesPage.RunAsksOnlyForShownCells |
| src/common/menu_time_esm.js:37 | `Number(r.start) ?? Number(r.time.substring(0, 2))` never uses its fallback, because `Number` never yields null or undefined | a configured entry without `start`, e.g. court 5, 20250814, "08:00", two hours, shows its time as "undefined+undefined" | the hour of `time` when `start` is missing | high (not executed) | MenuTime.MissingStartShowsUndefined | MenuTime.ItemTimeShowsHours |
