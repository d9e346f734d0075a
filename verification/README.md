# Temporary Containers: the container manager

This project models the `Container` class of the Temporary Containers
browser extension (`src/background/container.js`) and proves properties of
that model. The class keeps the extension's local bookkeeping for the
temporary containers it creates:

- the persisted records (`storage.local.tempContainers`);
- the "keep" numbering counter and the list of numbers in use;
- the tab-to-container map;
- the request and URL de-duplication tables;
- the per-class batches of containers waiting for removal.

The model is the class `Containers.Container`. Its fields are the fields
the core uses, and its methods change them as the JavaScript does. The two
worker queues (`PQueue`) are modelled as lists of the batches handed over to
them, not as queues that run. The browser's
answers are inputs:

- `CreationHost`: the new identity, the tab indices and the new tab;
  `None` means the browser call threw.
- `HostView`: whether the tab state is unsettled, which identities exist,
  the tab count per container (no entry means the query threw), and which
  removals throw.
- `UrlLibrary`: hostname extraction and the public-suffix lookup.

A random draw is a `pick` number, and the chosen entry is
`pool[pick % |pool|]`. A batch handed to a worker queue is appended to
`removalQueue` (the concurrency-1 removal queue) or `delayedRemovals` (the
delay queue, with its delay in milliseconds).

Modules:

- `Wrappers`: `Option`.
- `Text`: the JavaScript string operations used here (`includes`, first-match
  `replace`, decimal rendering of a number).
- `Records`: the persisted record and preference types.
- `Tallies`: counting the values of a map, order-independent.
- `Allocation`: numbers, names, colour and icon pools.
- `Placement`: the new tab's options.
- `Removal`: the removal decision and a removal pass over a batch.
- `History`: the per-container URL log.
- `Containers`: the class.

Number uniqueness: a creation keeps every record's number in the
used-number list. Under "reuse" it then draws a number no other record has,
and under "keep" the counter stays above every record's number
(`CreationKeepsNumbersApart`, and the postconditions of
`CreateTabInTempContainer`). Two operations break the covering property
until the next resync in `RemoveContainerQueueMaybeDone`:

- `ConvertPermanentToTempContainer` writes a record without listing its
  number, so the next "reuse" creation draws the same number
  (`ConvertedNumberIsDrawnAgain`).
- `TryToRemove`, when the browser refuses to remove an idle container,
  unlists the number but keeps the record
  (`FailedRemovalUnlistsKeptRecord`).

## Model

| member | source | states |
|---|---|---|
| Containers.Container.constructor | src/background/container.js:2-44 | Eight base colours and twelve base icons; every table, batch and queue empty; the busy flag false. |
| Containers.Container.Initialize | src/background/container.js:56-59 | From browser version 67 on, "toolbar" is appended to the colours and "fence" to the icons; otherwise both lists are unchanged. |
| Containers.Container.GetReusedContainerNumber | src/background/container.js:596-609 | The result is `ReusedNumber` of the used-number list: at least 1, not in the list, and every smaller positive number is in the list. This is proved through the loop invariant `FirstGap(numbers, i, top) == ReusedNumber(numbers)`. |
| Allocation.ReusedNumberIsSmallestFree | src/background/container.js:598-608 | 1 for an empty list; otherwise the first gap below the maximum, else maximum + 1. It is the smallest positive number not in use. |
| Allocation.FirstGapSpec | src/background/container.js:603-607 | The scan from `i` up to the maximum returns a number not in the list, with every number below it in the list. |
| Allocation.ReusedNumberIsUnique | src/background/container.js:596-609 | If the list holds every record's number, the reused number is no existing record's number. |
| Allocation.SeqMax | src/background/container.js:602 | `Math.max` of a non-empty list is in the list and bounds every entry. |
| Containers.CountColors | src/background/container.js:615-628 | The counting loop leaves, for every colour, the number of records that use it, and `maxColors` is the largest such count. It is proved against the order-independent `Tally`, using the step lemma `CountStep`. |
| Containers.CountStep | src/background/container.js:622-627 | Counting one more record keeps the tally map exact and its running maximum up to date. |
| Containers.CountAdd | src/background/container.js:622-627 | On the counts alone: one more use of a colour raises its entry by one, and the running maximum stays the largest count. |
| Containers.Container.GetAvailableContainerColors | src/background/container.js:612-650 | The result equals `AvailableColors` of the colours, the exclusions and the records. |
| Allocation.AvailableColorsSpec | src/background/container.js:631-647 | The pool is never empty and holds only known colours. If a non-excluded colour is unused or used less than the most-used one, the pool is exactly those colours. Otherwise it is the non-excluded colours, or all colours when every colour is excluded. In every case the pool keeps the order of the colour list (it is a subsequence of it). |
| Allocation.UnderUsedColors | src/background/container.js:631-638 | A colour is in the filtered list iff it is known, not excluded, and unused or used less than the maximum. |
| Allocation.UnderUsedColorsConcat | src/background/container.js:631-638 | The under-used filter of a concatenation is the concatenation of the filters, so the result keeps the order and the repetitions of the colour list. |
| Allocation.UnderUsedColorsSingle | src/background/container.js:635-637 | A single colour is kept exactly when it is under-used. |
| Allocation.UnderUsedColorsInOrder | src/background/container.js:631-638 | The under-used colours are a subsequence of the colour list. |
| Allocation.AllowedConcat | src/background/container.js:640-642 | The exclusion filter of a concatenation is the concatenation of the filters. |
| Allocation.AllowedSingle | src/background/container.js:640-642 | A single entry is kept exactly when it is not excluded. |
| Allocation.AllowedInOrder | src/background/container.js:640-642 | The non-excluded entries are a subsequence of the list. |
| Allocation.Allowed | src/background/container.js:640-642 | An entry is in the result iff it is in the list and not excluded. |
| Allocation.IconPoolSpec | src/background/container.js:240-245 | The icon pool is never empty and holds only known icons. It is exactly the non-excluded icons when there are any, else all icons, in the order of the icon list. |
| Allocation.MostUsedIsOffered | src/background/container.js:618-628 | When every record uses an offered colour and some colour is in use, a most-used colour is among the offered ones. |
| Allocation.DrawnColorIsLeastUsed | src/background/container.js:631-647 | On balanced colours with no exclusions, a colour drawn from the pool is a least-used colour. |
| Allocation.DrawKeepsBalance | src/background/container.js:233-237 | On balanced colours with no exclusions, adding a record with a colour drawn from the pool keeps the colours balanced: no colour is used more than once more often than another. |
| Allocation.Pick | src/background/container.js:236 | The drawn entry is in the pool. |
| Allocation.HostPartsOf | src/background/container.js:215-222 | No host parts for an empty (falsy) URL. Otherwise the hostname is the parser's, and the domain is the public-suffix domain when the hostname is valid for it, else the hostname itself. |
| Allocation.ContainerName | src/background/container.js:215-231 | The name ends with the decimal rendering of the number. |
| Allocation.PlainTemplateName | src/background/container.js:215-231 | A template without placeholders gives the template followed by the number, with or without a URL. |
| Text.NatToStringRoundTrip | src/background/container.js:231 | The decimal rendering of a number reads back as that number. |
| Text.Contains | src/background/container.js:218 | `includes` is true iff the pattern occurs at some position. |
| Text.ReplaceFirstAt | src/background/container.js:219 | A first-match `replace` splices the replacement in at the first occurrence. |
| Text.ReplaceFirstAbsent | src/background/container.js:219 | A `replace` whose pattern does not occur leaves the string unchanged. |
| Containers.Container.GetContainerNameIconColor | src/background/container.js:206-255 | "keep" mode raises the counter by exactly one and uses the new counter; "reuse" mode leaves the counter and uses the smallest free number. Nothing else in storage changes. The name is built from the template and ends with the number. The colour is the fixed one or comes from the load-balanced pool, and likewise the icon. The record is clean. |
| Containers.Container.CreateTabInTempContainer | src/background/container.js:68-177 | A request id seen before changes nothing and returns no tab. Otherwise the request id is recorded and a number is drawn and listed as used, even if a browser call then fails. Without the history permission the container does not delete history and has no suffix. The record is written only once the identity exists. The tab options are as `NewTabOptionsFor` states. Once the tab exists, it is mapped to the container, the URL entry is set for a non-empty URL, the last-inactive marker is set for an inactive source tab, and the confirm-page mark is set. Every record's number stays listed. Given that (under "reuse"), or given a counter above every number (under "keep"), the new number is no other record's number, and unique numbers stay unique. |
| Allocation.CreationKeepsNumbersApart | src/background/container.js:92-113 | On storage values: a creation keeps every record's number listed and, under "keep", the counter above every number. Under "reuse" with every number listed, or under "keep" with the counter above every number, the new number differs from every other record's, so unique numbers stay unique. |
| Allocation.ConvertedNumberIsDrawnAgain | src/background/container.js:553-562 | A record written by a conversion under "reuse" has a number missing from the used-number list, and the next reuse draw returns that same number. |
| Containers.Container.DrawCreationOptions | src/background/container.js:91-100 | The number is pushed onto the used list. The `-deletes-history` suffix and the flag are set exactly when history deletion is asked for and the permission is granted. The records are unchanged. |
| Containers.Container.OpenInContainer | src/background/container.js:113-166 | The record is written under the new identity exactly when the identity exists. The tab options are as `NewTabOptionsFor` states, and the tab is registered exactly when it exists. Without a tab the tab maps stay as they were. |
| Containers.Container.RegisterTab | src/background/container.js:153-166 | The new tab→container entry, the URL entry, the last-inactive marker and the confirm-page mark. |
| Containers.Container.ExpireRequest | src/background/container.js:86-89 | The expired request id is forgotten. |
| Containers.Container.ExpireUrl | src/background/container.js:159-162 | The expired URL entry is dropped. |
| Containers.NameUrl | src/background/container.js:92 | The request's URL when there is a request with a non-empty URL, else the given URL; empty only when both are. |
| Containers.Container.ReloadTabInTempContainer | src/background/container.js:180-203 | The original tab is closed whenever there is one, whether or not creation succeeded. Everything else is as in `CreateTabInTempContainer`: a seen request changes nothing; otherwise the request id is recorded, a number is drawn and listed as used, the record is written once the identity exists, and the tab is registered (tab map, URL entry, last-inactive marker, confirm-page mark) once it exists. |
| Placement.NewTabOptionsFor | src/background/container.js:117-149 | The index is set iff the source tab has index ≥ 0. It is right after the window's last created inactive tab when the source tab is inactive and that tab still exists, and right after the source tab otherwise. Pinned iff the source tab is pinned and pinning is allowed. The opener is copied when truthy. Active is false when asked, else the source tab's. |
| Removal.ClassOf | src/background/container.js:268 | A record is in the deletes-history class exactly when it deletes history, and in the regular class otherwise. |
| Containers.Container.PolicyOf | src/background/container.js:269-271 | The deletes-history class uses the deletes-history removal setting, the regular class the container removal setting. |
| Containers.Container.AddToRemoveQueue | src/background/container.js:258-280 | Nothing changes for an unmapped tab or a container without a record. Otherwise the id is appended to exactly its class's batch. A collection window opens (and the busy flag is set) only when the batch was empty. |
| Containers.Container.CollectionWindowElapsed | src/background/container.js:281-305 | The batch is drained whole, in push order, and the other batch is untouched. "instant" hands the batch to the removal queue. The 2/5/15-minute policies hand it to the delay queue with 120000/300000/900000 ms and show a notice with the count and minutes when notifications are enabled and permitted. Any other policy only runs the done-check. |
| Containers.Container.DelayedRemoveQueue | src/background/container.js:309-318 | The batch joins the delay queue with its delay. A notice with the batch size and the delay in minutes is shown iff notifications are enabled and permitted. |
| Removal.DelayMs | src/background/container.js:291-299 | Every delayed policy waits a whole number of minutes, at least two. |
| Containers.Container.TryToRemoveQueue | src/background/container.js:321-335 | After a pass, exactly the ids whose record the browser answers drop are gone from the records. Exactly the numbers of attempted or vanished containers are filtered out of the used list. Exactly the tabs of containers the browser removed are unmapped. Ids without a record are skipped. |
| Removal.PassStep | src/background/container.js:323-329 | Attempting the next id of a batch turns the pass's outcome on a prefix into its outcome on the next prefix. A repeated id is skipped only when an earlier occurrence dropped its record; otherwise it is attempted again with the same answers and changes nothing more. |
| Containers.Container.TryToRemove | src/background/container.js:352-403 | The result is true iff removal was attempted: tabs settled, the identity exists, and the tab query found no tab. A vanished identity loses its record and number, with result false. An attempt always releases the number, and deletes the record only if the browser removed the identity. An unsettled tab state, remaining tabs or a failed query change nothing. |
| Removal.FailedRemovalUnlistsKeptRecord | src/background/container.js:392-399 | When the browser refuses to remove an idle container, its number is released but its record is kept, so the kept record's number is no longer listed. |
| Removal.DropOnlyWhenIdle | src/background/container.js:371-377 | A record whose identity still exists is dropped only when its tabs were counted and there were none. |
| Removal.Exclude | src/background/container.js:362-364 | `filter` keeps exactly the numbers not released, and never lengthens the list. |
| Removal.ExcludeTwice | src/background/container.js:392-394 | Filtering twice is filtering once by both sets. |
| Containers.Container.RemoveContainer | src/background/container.js:426-444 | When the browser call succeeds, no entry of the map points at the container any more and every other entry is unchanged (`DetachAll`). When it throws, the map is unchanged. |
| Removal.DetachAll | src/background/container.js:434-438 | Only entries pointing at a removed container go; all others stay with their value. |
| Removal.DetachExceptStep | src/background/container.js:434-438 | Looking at one more key unmaps it exactly when it points at the container. |
| Containers.Container.RemoveContainerQueueMaybeDone | src/background/container.js:406-423 | The busy flag becomes false when all four queue counters are zero and stays as it was otherwise. The used-number list becomes, as a multiset, the numbers of the current records; the records and the counter are unchanged. |
| Allocation.ResyncedNumbersCoverRecords | src/background/container.js:421-422 | After a resync, every record's number is in the used list, and the list has exactly one entry per record. |
| Tallies.TallyPick | src/background/container.js:615-628 | A tally does not depend on the order the keys are visited in. |
| Tallies.TallyAddKey | src/background/container.js:618-628 | Counting one more key adds exactly its value to the tally. |
| Tallies.TallySize | src/background/container.js:421-422 | A tally has one entry per key. |
| Tallies.TallyMembers | src/background/container.js:421-422 | Every key's value is in the tally, and every tally entry comes from a key. |
| Tallies.MaxCount | src/background/container.js:617-628 | The largest multiplicity bounds every count and is reached, unless the tally is empty. |
| Tallies.MaxCountAdd | src/background/container.js:624-627 | Counting one more value keeps a running maximum up to date. |
| Containers.Container.RecordIds | src/background/container.js:457 | `Object.keys` lists every record key exactly once. |
| Containers.Container.Cleanup | src/background/container.js:447-470 | A batch is queued iff initialised, not busy unless at browser start, some record exists and the tab state is settled. The batch lists every record once, and the busy flag is then set. Otherwise nothing changes. |
| Containers.Container.MaybeAddHistory | src/background/container.js:473-488 | A URL other than about:blank and about:newtab is logged with its tab id. This happens only for a tab of a non-default temporary container that deletes history. Otherwise storage is unchanged. |
| History.LogVisit | src/background/container.js:480-485 | The log is created if needed, and the URL's entry is written with the tab id. The logged URLs grow by exactly that URL, every other logged URL keeps its tab id, and nothing else in the record changes. |
| History.LogVisitIsCleared | src/background/container.js:473-507 | Logging a new URL raises the cleared count by one. A non-empty logged URL is among the URLs deleted at removal. |
| Containers.Container.MaybeClearHistory | src/background/container.js:491-507 | The count is the number of logged URLs, or 0 for an unknown container, one that does not delete history, or one without a log. The empty URL is not handed to the browser. |
| Containers.Container.IsPermanent | src/background/container.js:510-515 | Permanent iff not the default store and not temporary. |
| Containers.Container.IsTemporary | src/background/container.js:518-521 | Temporary iff a record exists and, if a flag is asked for, the record has that flag set. |
| Containers.Container.IsClean | src/background/container.js:572-575 | Clean iff temporary with the clean flag. |
| Containers.Container.MarkUnclean | src/background/container.js:578-584 | A clean container of the tab becomes unclean. Otherwise nothing changes. |
| Containers.Container.MarkClean | src/background/container.js:587-593 | An unclean container of the tab becomes clean again. A tab mapped to a container without a record faults, and nothing changes. |
| Containers.Container.ConvertTempContainerToPermanent | src/background/container.js:524-536 | Only the record is deleted; its number stays listed. |
| Containers.Container.ConvertTempContainerToRegular | src/background/container.js:539-550 | An id without a record faults and nothing changes. Otherwise the record stops deleting history and loses its log, and stays temporary. The new name is the old one with the first `-deletes-history` removed. |
| Allocation.DashShapeHasNoBorder | src/background/container.js:97 | A string shaped like the `-deletes-history` suffix cannot overlap itself. |
| Allocation.StripHistorySuffix | src/background/container.js:544 | A name built as base + `-deletes-history`, where the base does not contain the suffix, gets back exactly the base. |
| Containers.Container.ConvertPermanentToTempContainer | src/background/container.js:553-569 | Options (no URL) are drawn as in creation, raising a "keep" counter, and the number is not listed as used. The record is written, making the container temporary, only when the identity update succeeds. |

## Left out

- Timers and worker queues: the one-second, five-minute, 15-second and
  delayed-removal waits, the ten-minute `setInterval`, and the `PQueue`
  workers. Their effects are separate methods (`ExpireRequest`, `ExpireUrl`,
  `CollectionWindowElapsed`) or appended batches. The 5-second pause after
  a removal is left out.
- Interleavings across `await`: each browser answer is one snapshot per call
  (`CreationHost`, and `HostView` for a whole removal pass).
- Browser calls are inputs and are not modelled themselves. This covers
  identity creation, update and removal, tab creation and lookup, closing
  tabs, history deletion, and notifications (only the count
  and minutes of the notice are modelled, not its text).
- `storage.persist()`, statistics and debug logging are I/O.
- URL parsing that throws on a malformed URL, and the public-suffix list,
  are not modelled; `UrlLibrary` gives the hostname and the registrable domain.
- Special `$` patterns in the replacement string of `String.prototype.replace`
  are not modelled; the replacement is inserted literally.
- Containers.Container.GetContainerNameIconColor: a number mode other than
  "keep" or "reuse" leaves the number undefined in the source, and the name
  then ends with "undefined". Only the two modes are modelled.
- Containers.Container.GetReusedContainerNumber: the in-place `sort()` of the
  used-number list is left out. It reorders the stored list as strings,
  which affects no membership and no number drawn.
- Containers.Container.GetAvailableContainerColors: the skip of record values
  that are not objects is left out. Records are always structured values here.
- Containers.Container.TryToRemove: requires the record to exist. The source
  would read the number of a missing record, and its only caller here
  checks first.
- Containers.Container.TryToRemove: the cookie query (its result and its
  caught failure) is left out, since it feeds only statistics; the history
  cleared count is computed and then unused.
- Containers.Container.ConvertTempContainerToPermanent,
  Containers.Container.ConvertTempContainerToRegular and
  Containers.Container.ConvertPermanentToTempContainer: the identity update,
  the new tab and the closing of the old tab are browser calls and are left
  out. Only the effect on storage is modelled, and the one failure that
  changes storage (an identity update that throws before the record is
  written) is an input of `ConvertPermanentToTempContainer`.
- Containers.Container.IsTemporary: only the `deletesHistory` and `clean`
  flags can be asked for. The source accepts any record field name.
- Cookie store ids and tab ids are taken to be truthy (non-empty, non-zero)
  where the source tests them for truthiness. The exceptions are the
  last-inactive tab and the opener, where the zero id is modelled.
- The field `noContainerTabs` is initialised but never used in this file,
  and the collaborator handles (`tabs`, `statistics`, `request`,
  `mouseclick`) are calls into code that is not part of this model; neither
  has a counterpart field.
- `tabCreatedAsMacConfirmPage` is only written here; its readers are in
  other files, which are not part of this model.
- Numbers are unbounded. JavaScript renders numbers from 10^21 upwards in
  exponent notation, which the decimal rendering here does not do.
