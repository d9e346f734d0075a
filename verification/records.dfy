/**
 * The data the container manager keeps: temporary-container records, the
 * preferences it consults and the persisted local store
 * (`storage.local.tempContainers`, `tempContainerCounter`, `tempContainersNumbers`).
 */
module Records {
  import opened Wrappers

  /** A container's cookie store id, e.g. "firefox-container-12". */
  type Id = string
  type TabId = int
  type Color = string
  type Icon = string

  /** The cookie store id of the browser's default (non-container) store. */
  const DefaultStore: Id := "firefox-default"

  /** Appended to the name of a container whose history is erased on removal. */
  const HistorySuffix: string := "-deletes-history"

  /**
   * A temporary container's record. `history` is absent until the first
   * navigation is logged; it maps each visited URL to the tab that visited it.
   */
  datatype TempContainer = TempContainer(
    name: string,
    color: Color,
    icon: Icon,
    number: nat,
    clean: bool,
    deletesHistory: bool,
    history: Option<map<string, TabId>>)

  function ColorOf(c: TempContainer): Color { c.color }
  function NumberOf(c: TempContainer): nat { c.number }

  /** `pref.container.numberMode`. */
  datatype NumberMode = Keep | Reuse

  /** `pref.container.removal` and `pref.deletesHistory.containerRemoval`; any other string is `Unrecognised`. */
  datatype RemovalPolicy = Instant | TwoMinutes | FiveMinutes | FifteenMinutes | Unrecognised

  datatype Preferences = Preferences(
    numberMode: NumberMode,
    namePrefix: string,
    color: Color,
    colorRandom: bool,
    colorRandomExcluded: seq<Color>,
    icon: Icon,
    iconRandom: bool,
    iconRandomExcluded: seq<Icon>,
    containerRemoval: RemovalPolicy,
    deletesHistoryRemoval: RemovalPolicy,
    notifications: bool)

  /** Optional permissions the user granted. */
  datatype Permissions = Permissions(history: bool, notifications: bool)

  /** The persisted part of the state (`storage.local`). */
  datatype LocalStorage = LocalStorage(
    tempContainers: map<Id, TempContainer>,
    tempContainerCounter: nat,
    tempContainersNumbers: seq<nat>)
}
