/**
 * The options of the tab a new temporary container is opened in: where it
 * goes, whether it is active, pinned and who opened it.
 */
module Placement {
  import opened Wrappers
  import opened Records

  /** `browser.windows.WINDOW_ID_CURRENT`. */
  const CurrentWindow: int := -2

  /** The tab a new container tab is opened from. */
  datatype Tab = Tab(id: TabId, index: int, active: bool, pinned: bool, openerTabId: Option<TabId>)

  /** The web request that triggered a creation; empty strings stand for absent fields. */
  datatype Request = Request(requestId: string, url: string)

  /** The options passed to `browser.tabs.create`; `pinned` is only ever set to true. */
  datatype NewTabOptions = NewTabOptions(
    url: string,
    cookieStoreId: Id,
    active: Option<bool>,
    index: Option<int>,
    pinned: bool,
    openerTabId: Option<TabId>)

  /** A tab id the source tests for truthiness: present and not 0. */
  predicate Truthy(t: Option<TabId>) {
    t.Some? && t.value != 0
  }

  /**
   * The new tab's options. `lastInactive` is the window's last created
   * inactive tab, `hostIndex` the index the browser reports for each tab it
   * still has (a lookup of any other id fails).
   */
  function NewTabOptionsFor(
    url: string, id: Id, tab: Option<Tab>, active: Option<bool>, dontPin: bool,
    lastInactive: Option<TabId>, hostIndex: map<TabId, int>): (o: NewTabOptions)
    ensures o.url == url && o.cookieStoreId == id
    // placement: right after the source tab, or right after the window's last
    // created inactive tab when the source tab is inactive and that tab still exists
    ensures o.index.Some? <==> tab.Some? && tab.value.index >= 0
    ensures o.index.Some? && !tab.value.active && Truthy(lastInactive) && lastInactive.value in hostIndex
            ==> o.index.value == hostIndex[lastInactive.value] + 1
    ensures o.index.Some? && (tab.value.active || !Truthy(lastInactive) || lastInactive.value !in hostIndex)
            ==> o.index.value == tab.value.index + 1
    // flags
    ensures o.pinned <==> tab.Some? && tab.value.pinned && !dontPin
    ensures o.openerTabId.Some? <==> tab.Some? && Truthy(tab.value.openerTabId)
    ensures o.openerTabId.Some? ==> o.openerTabId == tab.value.openerTabId
    ensures active == Some(false) ==> o.active == Some(false)
    ensures active != Some(false) ==> o.active == (if tab.Some? then Some(tab.value.active) else None)
  {
    match tab
    case None =>
      NewTabOptions(url, id, if active == Some(false) then Some(false) else None, None, false, None)
    case Some(t) =>
      var index :=
        if t.index < 0 then None
        else if !t.active && Truthy(lastInactive) then
          if lastInactive.value in hostIndex then Some(hostIndex[lastInactive.value] + 1)
          else Some(t.index + 1)
        else Some(t.index + 1);
      NewTabOptions(
        url, id,
        if active == Some(false) then Some(false) else Some(t.active),
        index,
        t.pinned && !dontPin,
        if Truthy(t.openerTabId) then t.openerTabId else None)
  }
}
