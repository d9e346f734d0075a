/**
 * The temporary-container manager: its bookkeeping of container records,
 * numbers, tab-to-container mapping, creation de-duplication and the removal
 * batches. Browser calls, timers and random draws are parameters: the
 * browser's answers arrive as `CreationHost` and `HostView` values, a random
 * draw as a `pick`, and a batch handed to a worker queue is appended to
 * `removalQueue` or `delayedRemovals`.
 */
module Containers {
  import opened Wrappers
  import opened Text
  import opened Records
  import opened Tallies
  import opened Allocation
  import opened Placement
  import opened Removal
  import opened History

  /** The browser's answers during a creation: the new identity's id (none: creating it threw),
      the index it reports for each tab, and the new tab's id (none: creating it threw). */
  datatype CreationHost = CreationHost(identity: Option<Id>, tabIndex: map<TabId, int>, newTab: Option<TabId>)

  /** A tab a navigation was committed in. */
  datatype VisitTab = VisitTab(id: TabId, cookieStoreId: Id)

  /** The record field `isTemporary` may additionally require to be set. */
  datatype RecordFlag = DeletesHistoryFlag | CleanFlag

  /** The URL the name is built from: the request's URL when there is one, else `url`. */
  function NameUrl(request: Option<Request>, url: string): (r: string)
    ensures request.Some? && request.value.url != "" ==> r == request.value.url
    ensures request.None? || request.value.url == "" ==> r == url
    ensures r == "" <==> (request.None? || request.value.url == "") && url == ""
  {
    if request.Some? && request.value.url != "" then request.value.url else url
  }

  /** The request id a creation records, if the request has one. */
  function RequestIds(request: Option<Request>): set<string> {
    if request.Some? && request.value.requestId != "" then {request.value.requestId} else {}
  }

  /** The window's last created inactive tab, if one is tracked (its truthiness is tested by `NewTabOptionsFor`). */
  function LastInactive(tracked: map<int, TabId>): Option<TabId> {
    if CurrentWindow in tracked then Some(tracked[CurrentWindow]) else None
  }

  /** A colour's entry in a tally map (0 when it has none). */
  function CountOf(tally: map<Color, nat>, c: Color): nat {
    if c in tally then tally[c] else 0
  }

  /** How many of the records under `ids` use each colour. */
  ghost function UsageOf(records: map<Id, TempContainer>, ids: set<Id>): multiset<Color>
    requires ids <= records.Keys
  {
    Tally(records, ids, ColorOf)
  }

  /** `tally` and `top` are the per-colour counts and their maximum over the records under `ids`. */
  ghost predicate Counted(records: map<Id, TempContainer>, ids: set<Id>, tally: map<Color, nat>, top: nat)
  {
    && ids <= records.Keys
    && (forall c :: CountOf(tally, c) == UsageOf(records, ids)[c])
    && IsMaxCount(UsageOf(records, ids), top)
  }

  /** Counting one more `color` keeps a tally map of `usage` and its running maximum exact. */
  lemma CountAdd(usage: multiset<Color>, tally: map<Color, nat>, top: nat, color: Color)
    requires forall c :: CountOf(tally, c) == usage[c]
    requires IsMaxCount(usage, top)
    ensures var count := CountOf(tally, color) + 1;
      && (forall c :: CountOf(tally[color := count], c) == (usage + multiset{color})[c])
      && IsMaxCount(usage + multiset{color}, if count > top then count else top)
  {
    MaxCountAdd(usage, top, color);
  }

  /** Counting one more record keeps the tally map and its running maximum exact. */
  lemma CountStep(records: map<Id, TempContainer>, ids: set<Id>, tally: map<Color, nat>, top: nat, id: Id)
    requires Counted(records, ids, tally, top) && id in records && id !in ids
    ensures var count := CountOf(tally, records[id].color) + 1;
      Counted(records, ids + {id}, tally[records[id].color := count], if count > top then count else top)
  {
    TallyAddKey(records, ids, ColorOf, id);
    CountAdd(UsageOf(records, ids), tally, top, records[id].color);
  }

  /** `s` lists every element of `keys` exactly once. */
  ghost predicate ListsEachOnce(s: seq<Id>, keys: set<Id>) {
    (forall id :: id in s <==> id in keys) && |s| == |keys|
  }

  /** How many records use each colour, and the largest such count. */
  method CountColors(records: map<Id, TempContainer>) returns (tally: map<Color, nat>, maxColors: nat)
    ensures forall c :: CountOf(tally, c) == ColorUsage(records)[c]
    ensures maxColors == MaxCount(ColorUsage(records))
  {
    tally, maxColors := map[], 0;
    var rest := records.Keys;
    ghost var seen: set<Id> := {};
    while rest != {}
      invariant rest !! seen && rest + seen == records.Keys
      invariant Counted(records, seen, tally, maxColors)
      decreases rest
    {
      var id :| id in rest;
      CountStep(records, seen, tally, maxColors, id);
      var color := records[id].color;
      var count := CountOf(tally, color) + 1;
      tally := tally[color := count];
      maxColors := if count > maxColors then count else maxColors;
      rest := rest - {id};
      seen := seen + {id};
    }
    assert seen == records.Keys;
    MaxCountUnique(ColorUsage(records), maxColors, MaxCount(ColorUsage(records)));
  }

  class Container {
    var containerColors: seq<Color>
    var containerIcons: seq<Icon>
    var pref: Preferences
    var permissions: Permissions
    /** `storage.local`: records, the "keep" counter, the used-number list. */
    var local: LocalStorage
    var tabContainerMap: map<TabId, Id>
    /** URL to the container just created for it (dropped again after one second). */
    var urlCreatedContainer: map<string, Id>
    /** Request ids a tab was already created for (dropped again after five minutes). */
    var requestCreatedTab: set<string>
    var tabCreatedAsMacConfirmPage: set<TabId>
    /** The busy flag: a removal batch is collecting, waiting or running. */
    var removingContainerQueue: bool
    /** `removeContainerFetchMassRemoval.regular` and `.deletesHistory`. */
    var regularBatch: seq<Id>
    var deletesHistoryBatch: seq<Id>
    /** Batches handed to the concurrency-1 removal queue, in hand-over order. */
    var removalQueue: seq<seq<Id>>
    /** Batches handed to the delay queue, with their delay. */
    var delayedRemovals: seq<DelayedBatch>
    /** Window id to the last tab created inactive in it. */
    var lastCreatedInactiveTab: map<int, TabId>

    ghost predicate Valid()
      reads this`containerColors, this`containerIcons
    {
      containerColors != [] && containerIcons != []
    }

    constructor (pref: Preferences, permissions: Permissions, local: LocalStorage)
      ensures Valid()
      ensures containerColors == BaseColors && containerIcons == BaseIcons
      ensures this.pref == pref && this.permissions == permissions && this.local == local
      ensures tabContainerMap == map[] && urlCreatedContainer == map[] && requestCreatedTab == {}
      ensures tabCreatedAsMacConfirmPage == {} && !removingContainerQueue
      ensures regularBatch == [] && deletesHistoryBatch == []
      ensures removalQueue == [] && delayedRemovals == [] && lastCreatedInactiveTab == map[]
    {
      containerColors := BaseColors;
      containerIcons := BaseIcons;
      this.pref := pref;
      this.permissions := permissions;
      this.local := local;
      tabContainerMap := map[];
      urlCreatedContainer := map[];
      requestCreatedTab := {};
      tabCreatedAsMacConfirmPage := {};
      removingContainerQueue := false;
      regularBatch := [];
      deletesHistoryBatch := [];
      removalQueue := [];
      delayedRemovals := [];
      lastCreatedInactiveTab := map[];
    }

    /** From browser version 67 on, the "toolbar" colour and the "fence" icon exist. */
    method Initialize(browserVersion: int)
      requires Valid()
      modifies this`containerColors, this`containerIcons
      ensures Valid()
      ensures containerColors == old(containerColors) + (if browserVersion >= 67 then ["toolbar"] else [])
      ensures containerIcons == old(containerIcons) + (if browserVersion >= 67 then ["fence"] else [])
    {
      if browserVersion >= 67 {
        containerColors := containerColors + ["toolbar"];
        containerIcons := containerIcons + ["fence"];
      }
    }

    // -------------------------------------------------------------------
    // Allocation
    // -------------------------------------------------------------------

    /** The smallest positive number not in the used-number list. */
    method GetReusedContainerNumber() returns (r: nat)
      ensures r == ReusedNumber(local.tempContainersNumbers)
      ensures r >= 1 && r !in local.tempContainersNumbers
      ensures forall j :: 1 <= j < r ==> j in local.tempContainersNumbers
    {
      var numbers := local.tempContainersNumbers;
      ReusedNumberIsSmallestFree(numbers);
      if |numbers| == 0 {
        return 1;
      }
      var top := SeqMax(numbers);
      var i := 1;
      while i < top
        invariant 1 <= i
        invariant FirstGap(numbers, i, top) == ReusedNumber(numbers)
      {
        if i !in numbers {
          return i;
        }
        i := i + 1;
      }
      return top + 1;
    }

    /** The colours a random colour may be drawn from, load-balanced over the records. */
    method GetAvailableContainerColors() returns (available: seq<Color>)
      ensures available == AvailableColors(containerColors, pref.colorRandomExcluded, local.tempContainers)
    {
      var excluded := pref.colorRandomExcluded;
      var tally, maxColors := CountColors(local.tempContainers);
      ghost var usage := ColorUsage(local.tempContainers);
      // offer the colours used less than the most-used one
      available := [];
      var i := 0;
      while i < |containerColors|
        invariant 0 <= i <= |containerColors|
        invariant available == UnderUsedColors(containerColors[..i], excluded, usage, maxColors)
      {
        var color := containerColors[i];
        assert containerColors[..i + 1] == containerColors[..i] + [color];
        var count := CountOf(tally, color);
        if color !in excluded && (count == 0 || count < maxColors) {
          available := available + [color];
        }
        i := i + 1;
      }
      assert containerColors[..i] == containerColors;
      if available == [] {
        available := Allowed(containerColors, excluded);
        if available == [] {
          available := containerColors;
        }
      }
    }

    /** The number that drawing one gives under the current number mode, and the counter after it. */
    ghost predicate NumberDrawn(before: LocalStorage, counter: nat, number: nat)
      reads this`pref
    {
      match pref.numberMode
      case Keep => counter == before.tempContainerCounter + 1 && number == counter
      case Reuse => counter == before.tempContainerCounter && number == ReusedNumber(before.tempContainersNumbers)
    }

    /** The record options drawn against `records`: name from the template, colour and icon from their pools. */
    ghost predicate OptionsDrawn(records: map<Id, TempContainer>, host: Option<HostParts>, deletesHistory: bool, o: TempContainer)
      reads this`pref, this`containerColors, this`containerIcons
    {
      && o.name == ContainerName(pref.namePrefix, host, o.number) + (if deletesHistory then HistorySuffix else "")
      && (if pref.colorRandom
          then o.color in AvailableColors(containerColors, pref.colorRandomExcluded, records)
          else o.color == pref.color)
      && (if pref.iconRandom
          then o.icon in IconPool(containerIcons, pref.iconRandomExcluded)
          else o.icon == pref.icon)
      && o.clean && o.deletesHistory == deletesHistory && o.history.None?
    }

    /** Number, name, colour and icon of a new container; `host` is the parsed URL it is for, if any. */
    method GetContainerNameIconColor(host: Option<HostParts>, colorPick: nat, iconPick: nat) returns (o: TempContainer)
      requires Valid()
      modifies this`local
      ensures local == old(local).(tempContainerCounter := local.tempContainerCounter)
      ensures NumberDrawn(old(local), local.tempContainerCounter, o.number)
      ensures OptionsDrawn(local.tempContainers, host, false, o)
      ensures EndsWith(o.name, NatToString(o.number))
      ensures pref.numberMode == Reuse ==> o.number >= 1 && o.number !in local.tempContainersNumbers
    {
      var number: nat;
      match pref.numberMode {
        case Keep =>
          local := local.(tempContainerCounter := local.tempContainerCounter + 1);
          number := local.tempContainerCounter;
        case Reuse =>
          number := GetReusedContainerNumber();
      }
      var name := ContainerName(pref.namePrefix, host, number);
      var color := pref.color;
      if pref.colorRandom {
        var colors := GetAvailableContainerColors();
        AvailableColorsSpec(containerColors, pref.colorRandomExcluded, local.tempContainers);
        color := Pick(colors, colorPick);
      }
      var icon := pref.icon;
      if pref.iconRandom {
        var icons := IconPool(containerIcons, pref.iconRandomExcluded);
        IconPoolSpec(containerIcons, pref.iconRandomExcluded);
        icon := Pick(icons, iconPick);
      }
      o := TempContainer(name, color, icon, number, true, false, None);
    }

    // -------------------------------------------------------------------
    // Creation
    // -------------------------------------------------------------------

    /** A tab was already created for this request. */
    predicate SeenRequest(request: Option<Request>)
      reads this
    {
      request.Some? && request.value.requestId != "" && request.value.requestId in requestCreatedTab
    }

    /**
     * Creates a temporary container and a tab in it. Returns the new tab (none
     * when the request was seen already or a browser call threw), the record
     * options and the options the tab was requested with.
     */
    method CreateTabInTempContainer(
      tab: Option<Tab>, url: string, active: Option<bool>, request: Option<Request>,
      dontPin: bool, deletesHistory: bool, macConfirmPage: bool,
      lib: UrlLibrary, colorPick: nat, iconPick: nat, host: CreationHost)
      returns (newTab: Option<TabId>, options: TempContainer, tabOptions: Option<NewTabOptions>)
      requires Valid()
      modifies this`requestCreatedTab, this`local, this`tabContainerMap, this`urlCreatedContainer
      modifies this`lastCreatedInactiveTab, this`tabCreatedAsMacConfirmPage
      ensures Valid()
      // a request seen before: nothing at all happens
      ensures old(SeenRequest(request)) ==> newTab.None? && tabOptions.None? && unchanged(this)
      // otherwise the request is recorded and a number is drawn and listed as used,
      // even when a browser call then fails
      ensures !old(SeenRequest(request)) ==>
        && requestCreatedTab == old(requestCreatedTab) + RequestIds(request)
        && NumberDrawn(old(local), local.tempContainerCounter, options.number)
        && local.tempContainersNumbers == old(local.tempContainersNumbers) + [options.number]
        && OptionsDrawn(old(local.tempContainers), HostPartsOf(NameUrl(request, url), lib),
                        deletesHistory && permissions.history, options)
      // the record is written once the identity exists
      ensures !old(SeenRequest(request)) ==>
        local.tempContainers == (if host.identity.Some?
                                 then old(local.tempContainers)[host.identity.value := options]
                                 else old(local.tempContainers))
      ensures !old(SeenRequest(request)) && host.identity.Some? ==>
        tabOptions == Some(NewTabOptionsFor(url, host.identity.value, tab, active, dontPin,
                                            LastInactive(old(lastCreatedInactiveTab)), host.tabIndex))
      ensures host.identity.None? ==> tabOptions.None?
      // numbers stay listed and, given the mode's precondition, apart
      ensures old(NumbersCover(local)) ==> NumbersCover(local)
      ensures pref.numberMode == Keep && old(CounterBounds(local)) ==> CounterBounds(local)
      ensures !old(SeenRequest(request)) && host.identity.Some? &&
              ((pref.numberMode == Reuse && old(NumbersCover(local))) ||
               (pref.numberMode == Keep && old(CounterBounds(local)))) ==>
        && (forall j :: j in local.tempContainers && j != host.identity.value ==>
                          local.tempContainers[j].number != options.number)
        && (old(NumbersUnique(local.tempContainers)) ==> NumbersUnique(local.tempContainers))
      // the tab is registered once it exists
      ensures newTab.Some? <==> !old(SeenRequest(request)) && host.identity.Some? && host.newTab.Some?
      ensures newTab.Some? ==>
        var t, id := newTab.value, host.identity.value;
        && newTab == host.newTab
        && tabContainerMap == old(tabContainerMap)[t := id]
        && urlCreatedContainer == (if url != "" then old(urlCreatedContainer)[url := id] else old(urlCreatedContainer))
        && lastCreatedInactiveTab == (if tab.Some? && !tab.value.active
                                      then old(lastCreatedInactiveTab)[CurrentWindow := t]
                                      else old(lastCreatedInactiveTab))
        && tabCreatedAsMacConfirmPage == (if macConfirmPage then old(tabCreatedAsMacConfirmPage) + {t}
                                          else old(tabCreatedAsMacConfirmPage))
      ensures newTab.None? ==>
        && tabContainerMap == old(tabContainerMap)
        && urlCreatedContainer == old(urlCreatedContainer)
        && lastCreatedInactiveTab == old(lastCreatedInactiveTab)
        && tabCreatedAsMacConfirmPage == old(tabCreatedAsMacConfirmPage)
    {
      newTab, tabOptions := None, None;
      options := TempContainer("", "", "", 0, false, false, None);
      if SeenRequest(request) {
        return;
      }
      requestCreatedTab := requestCreatedTab + RequestIds(request);

      options := DrawCreationOptions(HostPartsOf(NameUrl(request, url), lib), deletesHistory, colorPick, iconPick);

      newTab, tabOptions := OpenInContainer(options, url, tab, active, dontPin, macConfirmPage, host);
      CreationKeepsNumbersApart(pref.numberMode, old(local), local,
                                if host.identity.Some? then host.identity.value else DefaultStore,
                                options, host.identity.Some?);
    }

    /**
     * The part of a creation after the options are drawn: the record is written
     * once the identity exists, and the tab is registered once it exists.
     */
    method OpenInContainer(
      options: TempContainer, url: string, tab: Option<Tab>, active: Option<bool>,
      dontPin: bool, macConfirmPage: bool, host: CreationHost)
      returns (newTab: Option<TabId>, tabOptions: Option<NewTabOptions>)
      modifies this`local, this`tabContainerMap, this`urlCreatedContainer
      modifies this`lastCreatedInactiveTab, this`tabCreatedAsMacConfirmPage
      ensures local == (if host.identity.Some?
                        then old(local).(tempContainers := old(local.tempContainers)[host.identity.value := options])
                        else old(local))
      ensures tabOptions == (if host.identity.Some?
                             then Some(NewTabOptionsFor(url, host.identity.value, tab, active, dontPin,
                                                        LastInactive(old(lastCreatedInactiveTab)), host.tabIndex))
                             else None)
      ensures newTab == (if host.identity.Some? then host.newTab else None)
      ensures newTab.Some? ==>
        var t, id := newTab.value, host.identity.value;
        && tabContainerMap == old(tabContainerMap)[t := id]
        && urlCreatedContainer == (if url != "" then old(urlCreatedContainer)[url := id] else old(urlCreatedContainer))
        && lastCreatedInactiveTab == (if tab.Some? && !tab.value.active
                                      then old(lastCreatedInactiveTab)[CurrentWindow := t]
                                      else old(lastCreatedInactiveTab))
        && tabCreatedAsMacConfirmPage == (if macConfirmPage then old(tabCreatedAsMacConfirmPage) + {t}
                                          else old(tabCreatedAsMacConfirmPage))
      ensures newTab.None? ==>
        && tabContainerMap == old(tabContainerMap)
        && urlCreatedContainer == old(urlCreatedContainer)
        && lastCreatedInactiveTab == old(lastCreatedInactiveTab)
        && tabCreatedAsMacConfirmPage == old(tabCreatedAsMacConfirmPage)
    {
      newTab, tabOptions := None, None;
      if host.identity.None? {
        return;
      }
      var id := host.identity.value;
      local := local.(tempContainers := local.tempContainers[id := options]);

      tabOptions := Some(NewTabOptionsFor(url, id, tab, active, dontPin, LastInactive(lastCreatedInactiveTab), host.tabIndex));
      if host.newTab.None? {
        return;
      }
      var t := host.newTab.value;
      RegisterTab(t, id, url, tab, macConfirmPage);
      newTab := Some(t);
    }

    /**
     * Draws the options of a new container and lists its number as used. A
     * history-erasing container gets the history suffix, and only when the
     * history permission is granted.
     */
    method DrawCreationOptions(host: Option<HostParts>, deletesHistory: bool, colorPick: nat, iconPick: nat)
      returns (options: TempContainer)
      requires Valid()
      modifies this`local
      ensures local.tempContainers == old(local.tempContainers)
      ensures NumberDrawn(old(local), local.tempContainerCounter, options.number)
      ensures local.tempContainersNumbers == old(local.tempContainersNumbers) + [options.number]
      ensures OptionsDrawn(old(local.tempContainers), host, deletesHistory && permissions.history, options)
    {
      options := GetContainerNameIconColor(host, colorPick, iconPick);
      local := local.(tempContainersNumbers := local.tempContainersNumbers + [options.number]);
      var historyDeleting := deletesHistory && permissions.history;
      HistoryOptionsDrawn(old(local.tempContainers), host, options, historyDeleting);
      if historyDeleting {
        options := options.(name := options.name + HistorySuffix);
      }
      options := options.(deletesHistory := historyDeleting);
    }

    /** Setting the history flag, with the suffix when it is set, keeps the options drawn. */
    lemma HistoryOptionsDrawn(records: map<Id, TempContainer>, host: Option<HostParts>, o: TempContainer, deletesHistory: bool)
      requires OptionsDrawn(records, host, false, o)
      ensures OptionsDrawn(records, host, deletesHistory,
                           o.(name := o.name + (if deletesHistory then HistorySuffix else ""), deletesHistory := deletesHistory))
    {
    }

    /** Records a created tab: its container, the URL's container, the inactive marker, the confirm-page mark. */
    method RegisterTab(t: TabId, id: Id, url: string, tab: Option<Tab>, macConfirmPage: bool)
      modifies this`tabContainerMap, this`urlCreatedContainer, this`lastCreatedInactiveTab, this`tabCreatedAsMacConfirmPage
      ensures tabContainerMap == old(tabContainerMap)[t := id]
      ensures urlCreatedContainer == (if url != "" then old(urlCreatedContainer)[url := id] else old(urlCreatedContainer))
      ensures lastCreatedInactiveTab == (if tab.Some? && !tab.value.active
                                         then old(lastCreatedInactiveTab)[CurrentWindow := t]
                                         else old(lastCreatedInactiveTab))
      ensures tabCreatedAsMacConfirmPage == (if macConfirmPage then old(tabCreatedAsMacConfirmPage) + {t}
                                             else old(tabCreatedAsMacConfirmPage))
    {
      if tab.Some? && !tab.value.active {
        lastCreatedInactiveTab := lastCreatedInactiveTab[CurrentWindow := t];
      }
      if url != "" {
        urlCreatedContainer := urlCreatedContainer[url := id];
      }
      tabContainerMap := tabContainerMap[t := id];
      if macConfirmPage {
        tabCreatedAsMacConfirmPage := tabCreatedAsMacConfirmPage + {t};
      }
    }

    /** The five-minute timer of a recorded request fires. */
    method ExpireRequest(requestId: string)
      modifies this`requestCreatedTab
      ensures requestCreatedTab == old(requestCreatedTab) - {requestId}
    {
      requestCreatedTab := requestCreatedTab - {requestId};
    }

    /** The one-second timer of a URL's creation entry fires. */
    method ExpireUrl(url: string)
      modifies this`urlCreatedContainer
      ensures urlCreatedContainer == old(urlCreatedContainer) - {url}
    {
      urlCreatedContainer := urlCreatedContainer - {url};
    }

    /**
     * Opens the page in a new temporary container and then closes the
     * original tab, if there is one — whether or not the creation succeeded.
     */
    method ReloadTabInTempContainer(
      tab: Option<Tab>, url: string, active: Option<bool>, request: Option<Request>,
      dontPin: bool, deletesHistory: bool, macConfirmPage: bool,
      lib: UrlLibrary, colorPick: nat, iconPick: nat, host: CreationHost)
      returns (newTab: Option<TabId>, options: TempContainer, tabOptions: Option<NewTabOptions>, closes: Option<TabId>)
      requires Valid()
      modifies this`requestCreatedTab, this`local, this`tabContainerMap, this`urlCreatedContainer
      modifies this`lastCreatedInactiveTab, this`tabCreatedAsMacConfirmPage
      ensures closes == (if tab.Some? then Some(tab.value.id) else None)
      ensures Valid()
      // a request seen before: nothing at all happens
      ensures old(SeenRequest(request)) ==> newTab.None? && tabOptions.None? && unchanged(this)
      // otherwise the request is recorded and a number is drawn and listed as used,
      // even when a browser call then fails
      ensures !old(SeenRequest(request)) ==>
        && requestCreatedTab == old(requestCreatedTab) + RequestIds(request)
        && NumberDrawn(old(local), local.tempContainerCounter, options.number)
        && local.tempContainersNumbers == old(local.tempContainersNumbers) + [options.number]
        && OptionsDrawn(old(local.tempContainers), HostPartsOf(NameUrl(request, url), lib),
                        deletesHistory && permissions.history, options)
      // the record is written once the identity exists
      ensures !old(SeenRequest(request)) ==>
        local.tempContainers == (if host.identity.Some?
                                 then old(local.tempContainers)[host.identity.value := options]
                                 else old(local.tempContainers))
      ensures !old(SeenRequest(request)) && host.identity.Some? ==>
        tabOptions == Some(NewTabOptionsFor(url, host.identity.value, tab, active, dontPin,
                                            LastInactive(old(lastCreatedInactiveTab)), host.tabIndex))
      ensures host.identity.None? ==> tabOptions.None?
      // numbers stay listed and, given the mode's precondition, apart
      ensures old(NumbersCover(local)) ==> NumbersCover(local)
      ensures pref.numberMode == Keep && old(CounterBounds(local)) ==> CounterBounds(local)
      ensures !old(SeenRequest(request)) && host.identity.Some? &&
              ((pref.numberMode == Reuse && old(NumbersCover(local))) ||
               (pref.numberMode == Keep && old(CounterBounds(local)))) ==>
        && (forall j :: j in local.tempContainers && j != host.identity.value ==>
                          local.tempContainers[j].number != options.number)
        && (old(NumbersUnique(local.tempContainers)) ==> NumbersUnique(local.tempContainers))
      // the tab is registered once it exists
      ensures newTab.Some? <==> !old(SeenRequest(request)) && host.identity.Some? && host.newTab.Some?
      ensures newTab.Some? ==>
        var t, id := newTab.value, host.identity.value;
        && newTab == host.newTab
        && tabContainerMap == old(tabContainerMap)[t := id]
        && urlCreatedContainer == (if url != "" then old(urlCreatedContainer)[url := id] else old(urlCreatedContainer))
        && lastCreatedInactiveTab == (if tab.Some? && !tab.value.active
                                      then old(lastCreatedInactiveTab)[CurrentWindow := t]
                                      else old(lastCreatedInactiveTab))
        && tabCreatedAsMacConfirmPage == (if macConfirmPage then old(tabCreatedAsMacConfirmPage) + {t}
                                          else old(tabCreatedAsMacConfirmPage))
      ensures newTab.None? ==>
        && tabContainerMap == old(tabContainerMap)
        && urlCreatedContainer == old(urlCreatedContainer)
        && lastCreatedInactiveTab == old(lastCreatedInactiveTab)
        && tabCreatedAsMacConfirmPage == old(tabCreatedAsMacConfirmPage)
    {
      newTab, options, tabOptions := CreateTabInTempContainer(
        tab, url, active, request, dontPin, deletesHistory, macConfirmPage, lib, colorPick, iconPick, host);
      closes := if tab.Some? then Some(tab.value.id) else None;
    }

    // -------------------------------------------------------------------
    // Removal batching
    // -------------------------------------------------------------------

    /** The pending batch of a removal class. */
    function Batch(cls: RemovalClass): seq<Id>
      reads this
    {
      match cls
      case Regular => regularBatch
      case DeletesHistory => deletesHistoryBatch
    }

    /** The removal policy configured for a class. */
    function PolicyOf(cls: RemovalClass): (r: RemovalPolicy)
      reads this
      ensures cls == DeletesHistory ==> r == pref.deletesHistoryRemoval
      ensures cls == Regular ==> r == pref.containerRemoval
    {
      match cls
      case Regular => pref.containerRemoval
      case DeletesHistory => pref.deletesHistoryRemoval
    }

    /** The closed tab belongs to a container that still has a record. */
    predicate Enqueueable(tabId: TabId)
      reads this
    {
      tabId in tabContainerMap && tabContainerMap[tabId] in local.tempContainers
    }

    /**
     * A tab was closed: its container joins its class's pending batch. The
     * result says whether this push opened a 15-second collection window
     * (the batch was empty), after which `CollectionWindowElapsed` runs.
     */
    method AddToRemoveQueue(tabId: TabId) returns (windowOpened: bool)
      modifies this`regularBatch, this`deletesHistoryBatch, this`removingContainerQueue
      ensures !Enqueueable(tabId) ==> !windowOpened && unchanged(this)
      ensures Enqueueable(tabId) ==>
        var id := tabContainerMap[tabId];
        var cls := ClassOf(local.tempContainers[id]);
        && Batch(cls) == old(Batch(cls)) + [id]
        && Batch(Other(cls)) == old(Batch(Other(cls)))
        && windowOpened == (old(Batch(cls)) == [])
        && removingContainerQueue == (windowOpened || old(removingContainerQueue))
    {
      windowOpened := false;
      if tabId !in tabContainerMap {
        return;
      }
      var id := tabContainerMap[tabId];
      if id !in local.tempContainers {
        return;
      }
      var cls := ClassOf(local.tempContainers[id]);
      match cls {
        case Regular => regularBatch := regularBatch + [id];
        case DeletesHistory => deletesHistoryBatch := deletesHistoryBatch + [id];
      }
      if |Batch(cls)| > 1 {
        return;
      }
      removingContainerQueue := true;
      windowOpened := true;
    }

    /**
     * The collection window of a class has elapsed: the whole batch is
     * drained in push order and dispatched by the class's policy. Returns the
     * notification shown for a delayed dispatch, if any.
     */
    method CollectionWindowElapsed(cls: RemovalClass, counters: QueueCounters) returns (notice: Option<Notice>)
      modifies this`regularBatch, this`deletesHistoryBatch, this`removalQueue, this`delayedRemovals
      modifies this`removingContainerQueue, this`local
      ensures Batch(cls) == [] && Batch(Other(cls)) == old(Batch(Other(cls)))
      ensures PolicyOf(cls) == Instant ==>
        && removalQueue == old(removalQueue) + [old(Batch(cls))]
        && delayedRemovals == old(delayedRemovals)
        && notice.None? && removingContainerQueue == old(removingContainerQueue) && local == old(local)
      ensures PolicyOf(cls) in {TwoMinutes, FiveMinutes, FifteenMinutes} ==>
        var ms := DelayMs(PolicyOf(cls));
        && delayedRemovals == old(delayedRemovals) + [DelayedBatch(old(Batch(cls)), ms)]
        && removalQueue == old(removalQueue)
        && notice == (if pref.notifications && permissions.notifications
                      then Some(Notice(|old(Batch(cls))|, ms / 60000)) else None)
        && removingContainerQueue == old(removingContainerQueue) && local == old(local)
      // an unrecognised policy drops the batch and only runs the done-check
      ensures PolicyOf(cls) == Unrecognised ==>
        && removalQueue == old(removalQueue) && delayedRemovals == old(delayedRemovals) && notice.None?
        && removingContainerQueue == (if counters.AllIdle() then false else old(removingContainerQueue))
        && NumbersResynced(old(local))
    {
      var queue := Batch(cls);
      match cls {
        case Regular => regularBatch := [];
        case DeletesHistory => deletesHistoryBatch := [];
      }
      notice := None;
      match PolicyOf(cls) {
        case Instant =>
          removalQueue := removalQueue + [queue];
        case TwoMinutes =>
          notice := DelayedRemoveQueue(queue, 120000);
        case FiveMinutes =>
          notice := DelayedRemoveQueue(queue, 300000);
        case FifteenMinutes =>
          notice := DelayedRemoveQueue(queue, 900000);
        case Unrecognised =>
          RemoveContainerQueueMaybeDone(counters);
      }
    }

    /** Hands a batch to the delay queue and says which notification is shown for it. */
    method DelayedRemoveQueue(queue: seq<Id>, delayMs: nat) returns (notice: Option<Notice>)
      modifies this`delayedRemovals
      ensures delayedRemovals == old(delayedRemovals) + [DelayedBatch(queue, delayMs)]
      ensures notice == (if pref.notifications && permissions.notifications
                         then Some(Notice(|queue|, delayMs / 60000)) else None)
    {
      notice := if pref.notifications && permissions.notifications then Some(Notice(|queue|, delayMs / 60000)) else None;
      delayedRemovals := delayedRemovals + [DelayedBatch(queue, delayMs)];
    }

    /** The used-number list was rebuilt from the records; nothing else in `local` changed. */
    ghost predicate NumbersResynced(before: LocalStorage)
      reads this
    {
      && local.tempContainers == before.tempContainers
      && local.tempContainerCounter == before.tempContainerCounter
      && multiset(local.tempContainersNumbers) == Tally(local.tempContainers, local.tempContainers.Keys, NumberOf)
    }

    /**
     * A removal job finished: the busy flag is cleared when both queues are
     * idle, and the used-number list is rebuilt from the records.
     */
    method RemoveContainerQueueMaybeDone(counters: QueueCounters)
      modifies this`removingContainerQueue, this`local
      ensures removingContainerQueue == (if counters.AllIdle() then false else old(removingContainerQueue))
      ensures NumbersResynced(old(local))
    {
      var records := local.tempContainers;
      var numbers: seq<nat> := [];
      var rest := records.Keys;
      ghost var seen: set<Id> := {};
      while rest != {}
        invariant rest !! seen && rest + seen == records.Keys
        invariant multiset(numbers) == Tally(records, seen, NumberOf)
        invariant local == old(local) && removingContainerQueue == old(removingContainerQueue)
        decreases rest
      {
        var id :| id in rest;
        TallyPick(records, seen + {id}, NumberOf, id);
        assert seen + {id} - {id} == seen;
        numbers := numbers + [records[id].number];
        rest := rest - {id};
        seen := seen + {id};
      }
      local := local.(tempContainersNumbers := numbers);
      if counters.AllIdle() {
        removingContainerQueue := false;
      }
    }

    // -------------------------------------------------------------------
    // Removal
    // -------------------------------------------------------------------

    /**
     * Tries every container of a batch in order, skipping ids that no longer
     * have a record. The outcome for each container depends only on what the
     * browser answers about it.
     */
    method TryToRemoveQueue(queue: seq<Id>, h: HostView)
      modifies this`local, this`tabContainerMap
      ensures local.tempContainerCounter == old(local.tempContainerCounter)
      ensures local.tempContainers == old(local.tempContainers) - DroppedIds(queue, h)
      ensures local.tempContainersNumbers
              == Exclude(old(local.tempContainersNumbers), ReleasedNumbers(queue, h, old(local.tempContainers)))
      ensures tabContainerMap == DetachAll(old(tabContainerMap), RemovedIds(queue, h, old(local.tempContainers)))
    {
      ghost var records0, numbers0, tabs0 := local.tempContainers, local.tempContainersNumbers, tabContainerMap;
      assert queue[..0] == [];
      ExcludeNothing(numbers0);
      assert ReleasedNumbers(queue[..0], h, records0) == {};
      assert DroppedIds(queue[..0], h) == {};
      assert RemovedIds(queue[..0], h, records0) == {};
      var i := 0;
      while i < |queue|
        invariant 0 <= i <= |queue|
        invariant local.tempContainerCounter == old(local.tempContainerCounter)
        invariant local.tempContainers == records0 - DroppedIds(queue[..i], h)
        invariant local.tempContainersNumbers == Exclude(numbers0, ReleasedNumbers(queue[..i], h, records0))
        invariant tabContainerMap == DetachAll(tabs0, RemovedIds(queue[..i], h, records0))
      {
        var id := queue[i];
        PassStep(queue, i, h, records0, numbers0, tabs0, local.tempContainers, local.tempContainersNumbers, tabContainerMap);
        if id in local.tempContainers {
          var removed := TryToRemove(id, h);
        }
        i := i + 1;
      }
      assert queue[..i] == queue;
    }

    /**
     * One removal attempt, with the browser's answers `h`. Returns whether
     * removal was attempted — true even if the browser then failed to remove
     * the identity and the record was kept.
     */
    method TryToRemove(id: Id, h: HostView) returns (removed: bool)
      requires id in local.tempContainers
      modifies this`local, this`tabContainerMap
      ensures removed <==> Attempted(h, id)
      ensures local.tempContainerCounter == old(local.tempContainerCounter)
      ensures local.tempContainers
              == (if DropsRecord(h, id) then old(local.tempContainers) - {id} else old(local.tempContainers))
      ensures local.tempContainersNumbers
              == (if ReleasesNumber(h, id)
                  then Exclude(old(local.tempContainersNumbers), {old(local.tempContainers)[id].number})
                  else old(local.tempContainersNumbers))
      ensures tabContainerMap == (if HostRemoves(h, id) then DetachAll(old(tabContainerMap), {id}) else old(tabContainerMap))
    {
      if h.tabsUnsettled {
        return false;
      }
      var number := local.tempContainers[id].number;
      if id !in h.identities {
        // the identity is gone already: forget the container
        local := local.(tempContainersNumbers := Exclude(local.tempContainersNumbers, {number}),
                        tempContainers := local.tempContainers - {id});
        return false;
      }
      if id !in h.tabCounts || h.tabCounts[id] > 0 {
        // the tab query failed, or the container still has tabs
        return false;
      }
      var historyClearedCount, purged := MaybeClearHistory(id);
      local := local.(tempContainersNumbers := Exclude(local.tempContainersNumbers, {number}));
      var containerRemoved := RemoveContainer(id, id !in h.removeFails);
      if containerRemoved {
        local := local.(tempContainers := local.tempContainers - {id});
      }
      return true;
    }

    /**
     * Asks the browser to remove the identity; unless that throws, every tab
     * mapped to the container is unmapped.
     */
    method RemoveContainer(id: Id, removeSucceeds: bool) returns (ok: bool)
      modifies this`tabContainerMap
      ensures ok == removeSucceeds
      ensures tabContainerMap == (if ok then DetachAll(old(tabContainerMap), {id}) else old(tabContainerMap))
    {
      if !removeSucceeds {
        return false;
      }
      ghost var before := tabContainerMap;
      var tabIds := tabContainerMap.Keys;
      DetachExceptEnds(before, id);
      while tabIds != {}
        invariant tabIds <= before.Keys
        invariant tabContainerMap == DetachExcept(before, tabIds, id)
        decreases tabIds
      {
        TabSetInhabited(tabIds);
        var t :| t in tabIds;
        DetachExceptStep(before, tabIds, id, t);
        if tabContainerMap[t] == id {
          tabContainerMap := tabContainerMap - {t};
        }
        tabIds := tabIds - {t};
      }
      return true;
    }

    /** The record keys, each once, in some order (`Object.keys`). */
    method RecordIds() returns (ids: seq<Id>)
      ensures ListsEachOnce(ids, local.tempContainers.Keys)
    {
      ids := [];
      var rest := local.tempContainers.Keys;
      while rest != {}
        invariant rest <= local.tempContainers.Keys
        invariant forall id :: id in ids <==> id in local.tempContainers.Keys - rest
        invariant |ids| + |rest| == |local.tempContainers.Keys|
        decreases rest
      {
        var id :| id in rest;
        ids := ids + [id];
        rest := rest - {id};
      }
    }

    /**
     * The periodic (or start-up) sweep: once initialised, and unless a removal
     * cycle is busy outside start-up, every record is handed to the removal
     * queue as one batch — provided there are records and the tab state is settled.
     */
    method Cleanup(browserStart: bool, initialized: bool, tabsUnsettled: bool) returns (queued: bool)
      modifies this`removingContainerQueue, this`removalQueue
      ensures queued <==> initialized && (!old(removingContainerQueue) || browserStart)
                          && local.tempContainers != map[] && !tabsUnsettled
      ensures !queued ==> removingContainerQueue == old(removingContainerQueue) && removalQueue == old(removalQueue)
      ensures queued ==>
        && removingContainerQueue
        && |removalQueue| == |old(removalQueue)| + 1
        && removalQueue[..|old(removalQueue)|] == old(removalQueue)
        && ListsEachOnce(removalQueue[|old(removalQueue)|], local.tempContainers.Keys)
    {
      queued := false;
      if !initialized {
        return;
      }
      if removingContainerQueue && !browserStart {
        return;
      }
      var containers := RecordIds();
      if |containers| == 0 {
        assert local.tempContainers.Keys == {};
        return;
      }
      if tabsUnsettled {
        return;
      }
      assert containers[0] in local.tempContainers.Keys;
      removingContainerQueue := true;
      removalQueue := removalQueue + [containers];
      queued := true;
    }

    // -------------------------------------------------------------------
    // History
    // -------------------------------------------------------------------

    /** A committed navigation is logged: a tab of a history-erasing temporary container, and a real page. */
    predicate LogsVisit(tab: Option<VisitTab>, url: string)
      reads this
    {
      && tab.Some? && !IsPlaceholderUrl(url)
      && tab.value.cookieStoreId != DefaultStore
      && tab.value.cookieStoreId in local.tempContainers
      && local.tempContainers[tab.value.cookieStoreId].deletesHistory
    }

    method MaybeAddHistory(tab: Option<VisitTab>, url: string)
      modifies this`local
      ensures local == (if old(LogsVisit(tab, url))
                        then var id := tab.value.cookieStoreId;
                             old(local).(tempContainers := old(local.tempContainers)[id := LogVisit(old(local.tempContainers)[id], url, tab.value.id)])
                        else old(local))
    {
      if tab.None? || IsPlaceholderUrl(url) {
        return;
      }
      var id := tab.value.cookieStoreId;
      if id != DefaultStore && id in local.tempContainers && local.tempContainers[id].deletesHistory {
        local := local.(tempContainers := local.tempContainers[id := LogVisit(local.tempContainers[id], url, tab.value.id)]);
      }
    }

    /**
     * The number of logged URLs of a history-erasing container, and the URLs
     * handed to the browser for deletion from its history (all but the empty one).
     */
    method MaybeClearHistory(id: Id) returns (count: nat, purged: set<string>)
      ensures count == ClearedCount(local.tempContainers, id)
      ensures purged == PurgedUrls(local.tempContainers, id)
      ensures |purged| <= count
    {
      count, purged := 0, {};
      if id in local.tempContainers && local.tempContainers[id].deletesHistory && local.tempContainers[id].history.Some? {
        var urls := local.tempContainers[id].history.value.Keys;
        count := |urls|;
        var rest := urls;
        while rest != {}
          invariant rest <= urls
          invariant purged == (urls - rest) - {""}
          decreases rest
        {
          var url :| url in rest;
          if url != "" {
            purged := purged + {url};
          }
          rest := rest - {url};
        }
        assert purged <= urls;
        SubsetSize(purged, urls);
      }
    }

    // -------------------------------------------------------------------
    // Flags and conversions
    // -------------------------------------------------------------------

    /** A container other than the default one that has no temporary record. */
    function IsPermanent(id: Id): (r: bool)
      reads this
      ensures r <==> id != DefaultStore && !IsTemporary(id, None)
    {
      id != DefaultStore && id !in local.tempContainers
    }

    /** A container with a temporary record that, if a flag is given, has that flag set. */
    function IsTemporary(id: Id, flag: Option<RecordFlag>): (r: bool)
      reads this
      ensures r <==> && id in local.tempContainers
                     && (flag == Some(DeletesHistoryFlag) ==> local.tempContainers[id].deletesHistory)
                     && (flag == Some(CleanFlag) ==> local.tempContainers[id].clean)
    {
      id in local.tempContainers &&
      match flag
      case None => true
      case Some(DeletesHistoryFlag) => local.tempContainers[id].deletesHistory
      case Some(CleanFlag) => local.tempContainers[id].clean
    }

    function IsClean(id: Id): (r: bool)
      reads this
      ensures r <==> IsTemporary(id, Some(CleanFlag))
    {
      id in local.tempContainers && local.tempContainers[id].clean
    }

    /** The tab's container is clean: it becomes unclean. */
    method MarkUnclean(tabId: TabId)
      modifies this`local
      ensures tabId in tabContainerMap ==> !IsClean(tabContainerMap[tabId])
      ensures local == (if tabId in tabContainerMap && old(IsClean(tabContainerMap[tabId]))
                        then var id := tabContainerMap[tabId];
                             old(local).(tempContainers := old(local.tempContainers)[id := old(local.tempContainers)[id].(clean := false)])
                        else old(local))
    {
      if tabId in tabContainerMap {
        var id := tabContainerMap[tabId];
        if IsClean(id) {
          local := local.(tempContainers := local.tempContainers[id := local.tempContainers[id].(clean := false)]);
        }
      }
    }

    /**
     * The tab's container is not clean: it becomes clean again. When the tab
     * is mapped to a container without a record the write fails
     * (`faulted`) and nothing changes.
     */
    method MarkClean(tabId: TabId) returns (faulted: bool)
      modifies this`local
      ensures !faulted && tabId in tabContainerMap ==> IsClean(tabContainerMap[tabId])
      ensures faulted <==> tabId in tabContainerMap && tabContainerMap[tabId] !in old(local.tempContainers)
      ensures local == (if tabId in tabContainerMap && tabContainerMap[tabId] in old(local.tempContainers)
                           && !old(IsClean(tabContainerMap[tabId]))
                        then var id := tabContainerMap[tabId];
                             old(local).(tempContainers := old(local.tempContainers)[id := old(local.tempContainers)[id].(clean := true)])
                        else old(local))
    {
      faulted := false;
      if tabId in tabContainerMap {
        var id := tabContainerMap[tabId];
        if !IsClean(id) {
          if id !in local.tempContainers {
            faulted := true;
            return;
          }
          local := local.(tempContainers := local.tempContainers[id := local.tempContainers[id].(clean := true)]);
        }
      }
    }

    /** The container stops being temporary: its record goes (its number stays listed until the next resync). */
    method ConvertTempContainerToPermanent(id: Id)
      modifies this`local
      ensures local == old(local).(tempContainers := old(local.tempContainers) - {id})
    {
      local := local.(tempContainers := local.tempContainers - {id});
    }

    /**
     * The container stops erasing history: its log goes, and its new name
     * loses the history suffix. An id without a record faults (the source
     * reads a field of `undefined`) and nothing changes.
     */
    method ConvertTempContainerToRegular(id: Id) returns (faulted: bool, newName: string)
      modifies this`local
      ensures faulted <==> id !in old(local.tempContainers)
      ensures faulted ==> local == old(local)
      ensures !faulted ==>
        && local == old(local).(tempContainers := old(local.tempContainers)[id :=
                       old(local.tempContainers)[id].(deletesHistory := false, history := None)])
        && newName == ReplaceFirst(old(local.tempContainers)[id].name, HistorySuffix, "")
      ensures !faulted ==> !IsTemporary(id, Some(DeletesHistoryFlag)) && IsTemporary(id, None)
    {
      if id !in local.tempContainers {
        return true, "";
      }
      faulted := false;
      var record := local.tempContainers[id];
      local := local.(tempContainers := local.tempContainers[id := record.(deletesHistory := false, history := None)]);
      newName := ReplaceFirst(record.name, HistorySuffix, "");
    }

    /**
     * A permanent container becomes temporary with freshly drawn options (its
     * number is not listed as used). The options are drawn, and a `keep`
     * counter raised, before the browser is asked to update the identity;
     * the record is written only when that update succeeds.
     */
    method ConvertPermanentToTempContainer(id: Id, colorPick: nat, iconPick: nat, updateSucceeds: bool)
      returns (options: TempContainer)
      requires Valid()
      modifies this`local
      ensures NumberDrawn(old(local), local.tempContainerCounter, options.number)
      ensures OptionsDrawn(old(local.tempContainers), None, false, options)
      ensures local == old(local).(tempContainerCounter := local.tempContainerCounter,
                                   tempContainers := if updateSucceeds then old(local.tempContainers)[id := options]
                                                     else old(local.tempContainers))
      ensures updateSucceeds ==> IsTemporary(id, None) && !IsPermanent(id)
    {
      options := GetContainerNameIconColor(None, colorPick, iconPick);
      if updateSucceeds {
        local := local.(tempContainers := local.tempContainers[id := options]);
      }
    }
  }

  /**
   * A non-empty set of tabs has an element. The solver does not derive the
   * witness for `:|` over a set of integers on its own; this lemma states it.
   */
  lemma TabSetInhabited(tabIds: set<TabId>)
    requires tabIds != {}
    ensures exists t :: t in tabIds
  {
    if forall t :: t !in tabIds {
      assert false;
    }
  }

  lemma SubsetSize<T>(a: set<T>, b: set<T>)
    requires a <= b
    ensures |a| <= |b|
  {
    assert b == a + (b - a);
  }
}
