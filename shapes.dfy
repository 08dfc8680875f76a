/** The record shapes the crawler and the services pass around: the parser's split and asset
    dictionaries, the metadata a crawl attaches to a participant, and the table rows. */
module Shapes {
  import opened Wrappers

  /** A split dictionary (`point_label`, `point_km`, `net_time`, `pass_clock`, `pace`), as the
      parser produces it and as the services read it back; a missing key reads as None. */
  datatype SplitDict = SplitDict(
    pointLabel: Option<string>,
    pointKm: Option<real>,
    netTime: Option<string>,
    passClock: Option<string>,
    pace: Option<string>)

  /** An asset dictionary (`kind`, `host`, `url`) from the parser. */
  datatype AssetDict = AssetDict(kind: Option<string>, host: Option<string>, url: Option<string>)

  /** The `"splits"` entry of the parser's dictionary: absent, None, or a list. */
  datatype SplitsEntry = Absent | NullSplits | Listed(items: seq<SplitDict>)

  /** The parser's dictionary; `parse(...) or {}` turns a missing result into `EmptyPage()`. */
  datatype PageData = PageData(
    splits: SplitsEntry,
    raceLabel: Option<string>,
    raceTotalKm: Option<real>,
    assets: seq<AssetDict>)

  function EmptyPage(): PageData
  {
    PageData(Absent, None, None, [])
  }

  /** `data.get("splits", []) or []`. */
  function SplitsOf(d: PageData): seq<SplitDict>
  {
    match d.splits
    case Listed(items) => items
    case _ => []
  }

  /** The `{"race_label": ..., "race_total_km": ...}` dictionary a crawl reports. */
  datatype Meta = Meta(raceLabel: Option<string>, raceTotalKm: Option<real>)

  /** One crawl unit's result, the 4-tuple `(pid, splits, meta, assets)`. */
  datatype CrawlResult = CrawlResult(pid: int, splits: seq<SplitDict>, meta: Meta, assets: seq<AssetDict>)

  /** A row of `participants`, reduced to the columns the crawler writes. */
  datatype ParticipantRow = ParticipantRow(
    raceLabel: Option<string>,
    raceTotalKm: Option<real>,
    finishImagePath: Option<string>)

  /** A row of `splits` keyed by `(participant_id, point_label)`. */
  datatype SplitRow = SplitRow(
    pointKm: Option<real>,
    netTime: Option<string>,
    passClock: Option<string>,
    pace: Option<string>,
    seenAt: string)

  /** A row of `assets` keyed by `(participant_id, kind)`. */
  datatype AssetRow = AssetRow(host: Option<string>, url: Option<string>, localPath: Option<string>, seenAt: string)

  type SplitTable = map<(int, string), SplitRow>
  type AssetTable = map<(int, string), AssetRow>
  type ParticipantTable = map<int, ParticipantRow>
}
