/**
 * What a removal attempt decides, given what the browser answers about a
 * container, and how those decisions add up over a batch.
 */
module Removal {
  import opened Records

  /**
   * The browser's answers during removal:
   * `tabsUnsettled` — only incognito tabs, no tabs, or a session restore in progress;
   * `identities` — the containers `contextualIdentities.get` finds;
   * `tabCounts` — how many tabs `tabs.query` finds per container (no entry: the query fails);
   * `removeFails` — the containers for which `contextualIdentities.remove` throws.
   */
  datatype HostView = HostView(
    tabsUnsettled: bool,
    identities: set<Id>,
    tabCounts: map<Id, nat>,
    removeFails: set<Id>)

  /** The tab query succeeds and finds no tab of the container. */
  predicate Idle(h: HostView, id: Id) {
    id in h.tabCounts && h.tabCounts[id] == 0
  }

  /** Removal is attempted: the tab state is settled, the identity exists and has no tab. */
  predicate Attempted(h: HostView, id: Id) {
    !h.tabsUnsettled && id in h.identities && Idle(h, id)
  }

  /** The container's number goes back to the pool: it vanished, or removal was attempted. */
  predicate ReleasesNumber(h: HostView, id: Id) {
    !h.tabsUnsettled && (id !in h.identities || Idle(h, id))
  }

  /** The browser really removed the identity. */
  predicate HostRemoves(h: HostView, id: Id) {
    Attempted(h, id) && id !in h.removeFails
  }

  /** The local record is deleted: the identity vanished, or the browser removed it. */
  predicate DropsRecord(h: HostView, id: Id) {
    !h.tabsUnsettled && (id !in h.identities || HostRemoves(h, id))
  }

  /** A record is never dropped while its container still has a tab, or when its tabs could not be counted. */
  lemma DropOnlyWhenIdle(h: HostView, id: Id)
    requires DropsRecord(h, id) && id in h.identities
    ensures id in h.tabCounts && h.tabCounts[id] == 0
  {
  }

  /**
   * When the browser refuses to remove an idle container, its number still
   * leaves the used-number list but its record stays: the kept record's
   * number is no longer listed.
   */
  lemma FailedRemovalUnlistsKeptRecord(h: HostView, id: Id, records: map<Id, TempContainer>, numbers: seq<nat>)
    requires Attempted(h, id) && id in h.removeFails && id in records
    ensures ReleasesNumber(h, id) && !DropsRecord(h, id)
    ensures records[id].number !in Exclude(numbers, {records[id].number})
  {
  }

  /** `numbers.filter(n => !gone.has(n))`, in order. */
  function Exclude(numbers: seq<nat>, gone: set<nat>): (r: seq<nat>)
    ensures forall n :: n in r <==> n in numbers && n !in gone
    ensures |r| <= |numbers|
  {
    if numbers == [] then []
    else
      var last := numbers[|numbers| - 1];
      var prefix := numbers[..|numbers| - 1];
      assert numbers == prefix + [last];
      Exclude(prefix, gone) + (if last in gone then [] else [last])
  }

  /** Filtering by the empty set keeps the list as it is. */
  lemma {:induction false} ExcludeNothing(numbers: seq<nat>)
    ensures Exclude(numbers, {}) == numbers
    decreases |numbers|
  {
    if numbers != [] {
      ExcludeNothing(numbers[..|numbers| - 1]);
      assert numbers == numbers[..|numbers| - 1] + [numbers[|numbers| - 1]];
    }
  }

  /** Filtering twice is filtering once by both sets. */
  lemma {:induction false} ExcludeTwice(numbers: seq<nat>, a: set<nat>, b: set<nat>)
    ensures Exclude(Exclude(numbers, a), b) == Exclude(numbers, a + b)
    decreases |numbers|
  {
    if numbers != [] {
      var last := numbers[|numbers| - 1];
      var prefix := numbers[..|numbers| - 1];
      ExcludeTwice(prefix, a, b);
      var once := Exclude(numbers, a);
      if last in a {
        assert once == Exclude(prefix, a);
      } else {
        assert once == Exclude(prefix, a) + [last];
        assert once[..|once| - 1] == Exclude(prefix, a);
      }
    }
  }

  /** The tab-to-container map without the entries that point at a container in `ids`. */
  function DetachAll(tabs: map<TabId, Id>, ids: set<Id>): (r: map<TabId, Id>)
    ensures forall t :: t in r ==> t in tabs && r[t] == tabs[t] && r[t] !in ids
    ensures forall t :: t in tabs && tabs[t] !in ids ==> t in r
  {
    map t | t in tabs && tabs[t] !in ids :: tabs[t]
  }

  /** `tabs` part-way through unmapping `id`: the keys in `pending` are not yet looked at. */
  function DetachExcept(tabs: map<TabId, Id>, pending: set<TabId>, id: Id): map<TabId, Id> {
    map t | t in tabs && (t in pending || tabs[t] != id) :: tabs[t]
  }

  /** Nothing looked at: nothing unmapped; everything looked at: every entry of `id` unmapped. */
  lemma DetachExceptEnds(tabs: map<TabId, Id>, id: Id)
    ensures DetachExcept(tabs, tabs.Keys, id) == tabs
    ensures DetachExcept(tabs, {}, id) == DetachAll(tabs, {id})
  {
  }

  /** Looking at one more key unmaps it exactly when it points at `id`. */
  lemma DetachExceptStep(tabs: map<TabId, Id>, pending: set<TabId>, id: Id, t: TabId)
    requires t in pending && pending <= tabs.Keys
    ensures DetachExcept(tabs, pending - {t}, id)
            == (if tabs[t] == id then DetachExcept(tabs, pending, id) - {t} else DetachExcept(tabs, pending, id))
  {
  }

  lemma DetachTwice(tabs: map<TabId, Id>, a: set<Id>, b: set<Id>)
    ensures DetachAll(DetachAll(tabs, a), b) == DetachAll(tabs, a + b)
  {
  }

  /** The ids of `queue` whose record a pass over the queue deletes. */
  function DroppedIds(queue: seq<Id>, h: HostView): set<Id> {
    set id | id in queue && DropsRecord(h, id)
  }

  /** The numbers a pass over `queue` releases (ids without a record are skipped). */
  function ReleasedNumbers(queue: seq<Id>, h: HostView, records: map<Id, TempContainer>): set<nat> {
    set id | id in queue && id in records && ReleasesNumber(h, id) :: records[id].number
  }

  /** The ids of `queue` whose identity the browser removes (ids without a record are skipped). */
  function RemovedIds(queue: seq<Id>, h: HostView, records: map<Id, TempContainer>): set<Id> {
    set id | id in queue && id in records && HostRemoves(h, id)
  }

  /** Extending the processed prefix of a queue by one id adds that id's outcome. */
  lemma PrefixStep(queue: seq<Id>, i: nat, h: HostView, records: map<Id, TempContainer>)
    requires i < |queue|
    ensures var id := queue[i];
      && DroppedIds(queue[..i + 1], h) == DroppedIds(queue[..i], h) + (if DropsRecord(h, id) then {id} else {})
      && ReleasedNumbers(queue[..i + 1], h, records)
         == ReleasedNumbers(queue[..i], h, records)
            + (if id in records && ReleasesNumber(h, id) then {records[id].number} else {})
      && RemovedIds(queue[..i + 1], h, records)
         == RemovedIds(queue[..i], h, records) + (if id in records && HostRemoves(h, id) then {id} else {})
  {
    assert queue[..i + 1] == queue[..i] + [queue[i]];
  }

  /**
   * One more attempt in a pass over `queue`: if the state after the first `i`
   * ids is the pass's outcome on them, the attempt on `queue[i]` (skipped
   * when its record is gone) gives the outcome on the first `i + 1`.
   */
  lemma {:induction false} PassStep(
    queue: seq<Id>, i: nat, h: HostView, records0: map<Id, TempContainer>, numbers0: seq<nat>, tabs0: map<TabId, Id>,
    records: map<Id, TempContainer>, numbers: seq<nat>, tabs: map<TabId, Id>)
    requires i < |queue|
    requires records == records0 - DroppedIds(queue[..i], h)
    requires numbers == Exclude(numbers0, ReleasedNumbers(queue[..i], h, records0))
    requires tabs == DetachAll(tabs0, RemovedIds(queue[..i], h, records0))
    ensures var id := queue[i];
      var attempted := id in records;
      && (if attempted && DropsRecord(h, id) then records - {id} else records)
         == records0 - DroppedIds(queue[..i + 1], h)
      && (if attempted && ReleasesNumber(h, id) then Exclude(numbers, {records[id].number}) else numbers)
         == Exclude(numbers0, ReleasedNumbers(queue[..i + 1], h, records0))
      && (if attempted && HostRemoves(h, id) then DetachAll(tabs, {id}) else tabs)
         == DetachAll(tabs0, RemovedIds(queue[..i + 1], h, records0))
  {
    PrefixStep(queue, i, h, records0);
    var id := queue[i];
    var dropped := DroppedIds(queue[..i], h);
    // an id with a record at the start but none now was dropped by an earlier occurrence
    assert id in records0 && id !in records ==> id in queue[..i] && DropsRecord(h, id);
    StepRecords(records0, dropped, id, DropsRecord(h, id));
    if id in records0 {
      StepNumbers(numbers0, ReleasedNumbers(queue[..i], h, records0), records0[id].number,
                  ReleasesNumber(h, id), id !in records);
      if id !in records && HostRemoves(h, id) {
        assert id in RemovedIds(queue[..i], h, records0);
      }
      StepTabs(tabs0, RemovedIds(queue[..i], h, records0), id, HostRemoves(h, id), id !in records);
    } else {
      assert ReleasedNumbers(queue[..i + 1], h, records0) == ReleasedNumbers(queue[..i], h, records0);
      assert RemovedIds(queue[..i + 1], h, records0) == RemovedIds(queue[..i], h, records0);
    }
  }

  /** The records after one more step of a pass. */
  lemma StepRecords(records0: map<Id, TempContainer>, dropped: set<Id>, id: Id, drops: bool)
    ensures var records := records0 - dropped;
      (if id in records && drops then records - {id} else records)
      == records0 - (dropped + (if drops then {id} else {}))
  {
    var records := records0 - dropped;
    if drops {
      assert records0 - (dropped + {id}) == records - {id};
      if id !in records {
        assert records - {id} == records;
      }
    } else {
      assert dropped + {} == dropped;
    }
  }

  /** The used-number list after one more step of a pass; an id seen before released its number already. */
  lemma StepNumbers(numbers0: seq<nat>, released: set<nat>, n: nat, releases: bool, seen: bool)
    requires seen && releases ==> n in released
    ensures var numbers := Exclude(numbers0, released);
      (if !seen && releases then Exclude(numbers, {n}) else numbers)
      == Exclude(numbers0, released + (if releases then {n} else {}))
  {
    if releases {
      ExcludeTwice(numbers0, released, {n});
      if seen {
        assert released + {n} == released;
      }
    } else {
      assert released + {} == released;
    }
  }

  /** The tab map after one more step of a pass; an id seen before was detached already. */
  lemma StepTabs(tabs0: map<TabId, Id>, removed: set<Id>, id: Id, removes: bool, seen: bool)
    requires seen && removes ==> id in removed
    ensures var tabs := DetachAll(tabs0, removed);
      (if !seen && removes then DetachAll(tabs, {id}) else tabs)
      == DetachAll(tabs0, removed + (if removes then {id} else {}))
  {
    if removes {
      DetachTwice(tabs0, removed, {id});
      if seen {
        assert removed + {id} == removed;
      }
    } else {
      assert removed + {} == removed;
    }
  }

  /** Which removal class a record belongs to. */
  datatype RemovalClass = Regular | DeletesHistory

  function ClassOf(c: TempContainer): (r: RemovalClass)
    ensures r == DeletesHistory <==> c.deletesHistory
    ensures r == Regular <==> !c.deletesHistory
  {
    if c.deletesHistory then DeletesHistory else Regular
  }

  function Other(cls: RemovalClass): RemovalClass {
    match cls
    case Regular => DeletesHistory
    case DeletesHistory => Regular
  }

  /** The delay, in milliseconds, of a delayed policy. */
  function DelayMs(p: RemovalPolicy): (ms: nat)
    requires p in {TwoMinutes, FiveMinutes, FifteenMinutes}
    ensures ms % 60000 == 0 && ms >= 120000
  {
    match p
    case TwoMinutes => 120000
    case FiveMinutes => 300000
    case FifteenMinutes => 900000
  }

  /** A batch handed to the delay queue, to reach the removal queue after `delayMs`. */
  datatype DelayedBatch = DelayedBatch(containers: seq<Id>, delayMs: nat)

  /** The notification text's figures: how many containers, and in how many minutes. */
  datatype Notice = Notice(count: nat, minutes: nat)

  /** The four counters of the removal queue and the delay queue (waiting and running jobs). */
  datatype QueueCounters = QueueCounters(removalSize: nat, removalPending: nat, delaySize: nat, delayPending: nat) {
    predicate AllIdle() {
      removalSize == 0 && removalPending == 0 && delaySize == 0 && delayPending == 0
    }
  }
}
