/**
 * The entities of a Sonarr quality profile as configured locally, and the shapes of the
 * remote JSON they are exchanged as.
 */
module ProfileModel {
  import opened Wrappers

  /** One element of a profile's `qualities`: a quality name, or a named group of them. */
  datatype Quality = Bare(name: string) | Group(name: string, members: set<string>)

  /** The quality names an entry enables: the bare name, or every member of the group. */
  function Members(e: Quality): set<string>
  {
    match e
    case Bare(n) => {n}
    case Group(_, ms) => ms
  }

  /** A score assigned to a custom format within a profile; no score means JSON `null`. */
  datatype FormatScore = FormatScore(name: string, score: Option<int>)

  datatype Profile = Profile(
    upgradesAllowed: bool,
    qualities: seq<Quality>,
    minFormatScore: int,
    cutoffFormatScore: int,
    minUpgradeFormatScore: int,
    customFormats: seq<FormatScore>,
    upgradeUntil: Option<string>)

  /** The `quality` object of a remote quality definition: its numeric id and its name. */
  datatype QualityDef = QualityDef(id: int, name: string)

  /** Remote quality definitions keyed by definition title, in catalog order. */
  type Catalog = seq<(string, QualityDef)>

  /**
   * One element of a remote profile's `items`: a single quality
   * `{"quality": q, "items": [], "allowed": b}`, or a group
   * `{"id": i, "name": n, "items": [...], "allowed": b}` whose nested items are
   * `{"quality": q, "items": [], "allowed": true}`, kept here as their quality objects.
   */
  datatype Item =
    | Single(quality: QualityDef, allowed: bool)
    | Grouped(id: int, name: string, members: seq<QualityDef>, allowed: bool)

  /** The remote custom-format catalog: format name to format id, in catalog order. */
  type FormatCatalog = seq<(string, int)>

  /** An entry of `formatItems` as sent to the remote. */
  datatype FormatItem = FormatItem(format: int, name: string, score: Option<int>)

  /** The fields of a remote `formatItems` entry that decoding reads. */
  datatype RemoteFormatScore = RemoteFormatScore(name: string, score: int)

  /** The attributes of a quality profile in the remote's JSON. */
  datatype ProfileBody = ProfileBody(
    minFormatScore: int,
    cutoffFormatScore: int,
    minUpgradeFormatScore: int,
    formatItems: seq<FormatItem>,
    upgradeAllowed: bool,
    cutoff: int,
    items: seq<Item>)

  datatype ProfileError =
      // `validate_qualities`: the current entry is bare (whatever the earlier one was)
    | DuplicateUngrouped(quality: string)
      // `validate_qualities`: the current entry is a group, the earlier one a group too
    | DuplicateInGroups(quality: string, group: string, other: string)
      // `validate_qualities`: the current entry is a group, the earlier one bare
    | DuplicateGroupAndUngrouped(quality: string, group: string)
      // `min_length=1` on `qualities`, and the index error of `qualities[0]` in the cutoff encoder
    | NoQualities
    | EmptyGroup(group: string)
    | UpgradeUntilRequired
    | UpgradeUntilNotEnabled(upgradeUntil: string)
    | CutoffScoreBelowMinimum(score: int, minimum: int)
    | IncrementBelowOne(increment: int)
    | ConflictingFormatScores(format: string, first: Option<int>, second: Option<int>)
      // a remote profile whose `cutoff` id is not among its items
    | CutoffNotFound(cutoff: int)
      // a remote group item with no nested items, which decoding reads as a single quality
    | GroupWithoutItems(group: string)
      // key errors while encoding
    | UnknownQuality(quality: string)
    | UnknownGroup(group: string)
    | UnknownFormat(format: string)
      // `profile_ids[name]` for a remote profile the remote's profile list does not hold
    | UnknownProfile(profile: string)
}
