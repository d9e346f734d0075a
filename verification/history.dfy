/**
 * The history log of containers that erase their history: which URLs were
 * visited, and what removing the container purges.
 */
module History {
  import opened Wrappers
  import opened Records

  /** Navigations to these placeholders are never logged. */
  predicate IsPlaceholderUrl(url: string) {
    url == "about:blank" || url == "about:newtab"
  }

  /** The container's logged URLs (none before the first log entry). */
  function LoggedUrls(c: TempContainer): set<string> {
    match c.history
    case None => {}
    case Some(h) => h.Keys
  }

  /** Logging `url` for tab `tabId`: the log is created if needed and the URL's entry (re)written. */
  function LogVisit(c: TempContainer, url: string, tabId: TabId): (c': TempContainer)
    ensures c'.history.Some? && url in c'.history.value && c'.history.value[url] == tabId
    ensures LoggedUrls(c') == LoggedUrls(c) + {url}
    ensures c' == c.(history := c'.history)
    ensures forall u :: u in LoggedUrls(c) && u != url ==> c'.history.value[u] == c.history.value[u]
  {
    var log := match c.history case None => map[] case Some(h) => h;
    c.(history := Some(log[url := tabId]))
  }

  /** How many URLs `maybeClearHistory` reports for a container id. */
  function ClearedCount(records: map<Id, TempContainer>, id: Id): nat {
    if id in records && records[id].deletesHistory && records[id].history.Some?
    then |records[id].history.value.Keys| else 0
  }

  /** The URLs `maybeClearHistory` asks the browser to delete (the empty URL is skipped). */
  function PurgedUrls(records: map<Id, TempContainer>, id: Id): set<string> {
    if id in records && records[id].deletesHistory && records[id].history.Some?
    then records[id].history.value.Keys - {""} else {}
  }

  /**
   * Logging a URL that was not yet logged raises the cleared count by one,
   * and a non-empty logged URL is among those purged at removal.
   */
  lemma LogVisitIsCleared(records: map<Id, TempContainer>, id: Id, url: string, tabId: TabId)
    requires id in records && records[id].deletesHistory
    ensures var records' := records[id := LogVisit(records[id], url, tabId)];
      && ClearedCount(records', id) == ClearedCount(records, id) + (if url in LoggedUrls(records[id]) then 0 else 1)
      && (url != "" ==> url in PurgedUrls(records', id))
  {
  }
}
