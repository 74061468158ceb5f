/**
 * The scenario cursor (src/scenario.js): each `next()` advances to the menu item
 * "reserve-<index>", shows its caption in the scenario status item and clicks it; when
 * there is no such item the scenario ends, the index goes back to -1 and the status
 * shows that the scenario stopped.
 */
module ScenarioRunner {
  import opened Wrappers
  import opened Text
  import opened Domain
  import opened MainMenu

  /** The application menu as the scenario sees it: the reservation items, and the caption
      of the item with id "scenarioStatus" when the menu has one (None when it has not). */
  class AppMenu {
    var items: seq<MenuItem>
    var status: Option<string>

    constructor (items: seq<MenuItem>, status: Option<string>)
      ensures this.items == items && this.status == status
    {
      this.items := items;
      this.status := status;
    }
  }

  /** "시나리오: 중지". */
  const StoppedLabel: string := "시나리오: 중지"

  /** "시나리오 - <index + 1>: <caption>". */
  function RunningLabel(index: int, item: MenuItem): string
  {
    "시나리오 - " + IntToString(index + 1) + ": " + item.caption
  }

  /** `updateMenuLabel(text)`: the status item takes the text; without one nothing changes. */
  function Relabel(status: Option<string>, text: string): (r: Option<string>)
    ensures r.Some? <==> status.Some?
    ensures r.Some? ==> r.value == text
  {
    if status.Some? then Some(text) else None
  }

  /** The index after one `next()` over `items`. */
  function StepIndex(index: int, items: seq<MenuItem>): (r: int)
    requires index >= -1
    ensures r >= -1
    ensures r == -1 || r == index + 1
  {
    if FindItem(items, MenuId(index + 1)).Some? then index + 1 else -1
  }

  /** The index after `k` calls of `next()`. */
  function Steps(index: int, items: seq<MenuItem>, k: nat): (r: int)
    requires index >= -1
    ensures r >= -1
    decreases k
  {
    if k == 0 then index else Steps(StepIndex(index, items), items, k - 1)
  }

  /** Over a numbered menu, a fresh scenario visits reserve-0, reserve-1, ... in order:
      after k calls (k at most the number of items) it stands at item k - 1. */
  lemma {:induction false} ScenarioWalksTheMenu(menu: seq<MenuItem>, k: nat)
    requires Numbered(menu) && k <= |menu|
    ensures Steps(-1, menu, k) == k - 1
  {
    if k > 0 {
      ScenarioWalksTheMenu(menu, k - 1);
      WalkStep(menu, k);
    }
  }

  /** The k-th call moves from item k - 2 on to item k - 1, which the menu holds. */
  lemma WalkStep(menu: seq<MenuItem>, k: nat)
    requires Numbered(menu) && 0 < k <= |menu| && Steps(-1, menu, k - 1) == k - 2
    ensures Steps(-1, menu, k) == k - 1
  {
    StepsLast(-1, menu, k - 1);
    NumberedLookup(menu, k - 1);
    assert FindItem(menu, MenuId(k - 1)).Some?;
  }

  /** One call past the last item ends the scenario; the menu built from the configured
      reservations is such a menu. */
  lemma ScenarioEndsAfterLastItem(rs: seq<Reservation>)
    ensures Steps(-1, BuildMenu(rs), |BuildMenu(rs)| + 1) == -1
  {
    var menu := BuildMenu(rs);
    BuiltMenuIsNumbered(rs);
    ScenarioWalksTheMenu(menu, |menu|);
    StepsLast(-1, menu, |menu|);
    NumberedLookup(menu, |menu|);
  }

  lemma {:induction false} StepsLast(index: int, items: seq<MenuItem>, k: nat)
    requires index >= -1
    ensures Steps(index, items, k + 1) == StepIndex(Steps(index, items, k), items)
    decreases k
  {
    if k > 0 {
      StepsLast(StepIndex(index, items), items, k - 1);
    }
  }

  class Scenario {
    var index: int

    /** The index is -1 (stopped) or the number of the last item clicked. */
    predicate Valid()
      reads this
    {
      index >= -1
    }

    constructor ()
      ensures Valid() && index == -1
    {
      index := -1;
    }

    /** `next()`: advances to the next item and clicks it (returned), or ends the scenario. */
    method Next(menu: AppMenu) returns (clicked: Option<MenuItem>)
      requires Valid()
      modifies this, menu
      ensures Valid()
      ensures menu.items == old(menu.items)
      ensures clicked == FindItem(menu.items, MenuId(old(index) + 1))
      ensures index == StepIndex(old(index), menu.items)
      ensures clicked.None? ==> menu.status == Relabel(old(menu.status), StoppedLabel)
      ensures clicked.Some? ==> menu.status == Relabel(old(menu.status), RunningLabel(index, clicked.value))
    {
      index := index + 1;
      clicked := FindItem(menu.items, MenuId(index));
      if clicked.None? {
        EndScenario(menu);
        return;
      }
      UpdateMenuLabel(menu, RunningLabel(index, clicked.value));
    }

    /** `endScenario()`. */
    method EndScenario(menu: AppMenu)
      modifies this, menu
      ensures Valid() && index == -1
      ensures menu.items == old(menu.items)
      ensures menu.status == Relabel(old(menu.status), StoppedLabel)
    {
      index := -1;
      UpdateMenuLabel(menu, StoppedLabel);
    }

    /** `updateMenuLabel(text)`. */
    method UpdateMenuLabel(menu: AppMenu, text: string)
      modifies menu
      ensures menu.items == old(menu.items)
      ensures menu.status == Relabel(old(menu.status), text)
    {
      if menu.status.Some? {
        menu.status := Some(text);
      }
    }
  }
}
