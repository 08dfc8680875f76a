/** What `_save_results` writes: the three parameter batches built from the crawl results, and
    the effect of the UPDATE / INSERT ... ON CONFLICT statements on the keyed tables. */
module Persist {
  import opened Wrappers
  import opened Text
  import opened Shapes
  import opened Lists

  // ---------------------------------------------------------------- batches

  /** One tuple of `split_batch`. */
  datatype SplitParams = SplitParams(
    pid: int,
    pointLabel: Option<string>,
    pointKm: Option<real>,
    netTime: Option<string>,
    passClock: Option<string>,
    pace: Option<string>,
    seenAt: string)

  /** One tuple of `meta_batch`. */
  datatype MetaParams = MetaParams(raceLabel: Option<string>, raceTotalKm: Option<real>, pid: int)

  /** One tuple of `asset_batch`. */
  datatype AssetParams = AssetParams(
    pid: int,
    kind: string,
    host: Option<string>,
    url: Option<string>,
    localPath: Option<string>,
    seenAt: string)

  function SplitParamsOf(pid: int, s: SplitDict, now: string): SplitParams
  {
    SplitParams(pid, s.pointLabel, s.pointKm, s.netTime, s.passClock, s.pace, now)
  }

  /** `a.get("kind") or "certificate"`. */
  function KindOf(a: AssetDict): string
  {
    if Truthy(a.kind) then a.kind.value else "certificate"
  }

  function AssetParamsOf(pid: int, a: AssetDict, now: string): AssetParams
  {
    AssetParams(pid, KindOf(a), a.host, a.url, None, now)
  }

  /** The split tuples of one result, one per split. */
  function SplitParamsOfSplits(pid: int, splits: seq<SplitDict>, now: string): (r: seq<SplitParams>)
    ensures |r| == |splits|
    decreases |splits|
  {
    if splits == [] then []
    else SplitParamsOfSplits(pid, splits[..|splits| - 1], now) + [SplitParamsOf(pid, splits[|splits| - 1], now)]
  }

  /** The asset tuples of one result: only assets with a truthy url. */
  function AssetParamsOfAssets(pid: int, assets: seq<AssetDict>, now: string): (r: seq<AssetParams>)
    ensures |r| <= |assets|
    decreases |assets|
  {
    if assets == [] then []
    else
      var rest := AssetParamsOfAssets(pid, assets[..|assets| - 1], now);
      var a := assets[|assets| - 1];
      if Truthy(a.url) then rest + [AssetParamsOf(pid, a, now)] else rest
  }

  function SplitBatch(results: seq<CrawlResult>, now: string): seq<SplitParams>
    decreases |results|
  {
    if results == [] then []
    else
      var r := results[|results| - 1];
      SplitBatch(results[..|results| - 1], now) + SplitParamsOfSplits(r.pid, r.splits, now)
  }

  /** One meta tuple per result: the meta dictionary of a crawl is never empty. */
  function MetaBatch(results: seq<CrawlResult>): (r: seq<MetaParams>)
    ensures |r| == |results|
    decreases |results|
  {
    if results == [] then []
    else
      var r := results[|results| - 1];
      MetaBatch(results[..|results| - 1]) + [MetaParams(r.meta.raceLabel, r.meta.raceTotalKm, r.pid)]
  }

  function AssetBatch(results: seq<CrawlResult>, now: string): seq<AssetParams>
    decreases |results|
  {
    if results == [] then []
    else
      var r := results[|results| - 1];
      AssetBatch(results[..|results| - 1], now) + AssetParamsOfAssets(r.pid, r.assets, now)
  }

  function SplitCount(results: seq<CrawlResult>): nat
    decreases |results|
  {
    if results == [] then 0 else SplitCount(results[..|results| - 1]) + |results[|results| - 1].splits|
  }

  /** One split row per split. */
  lemma {:induction false} SplitBatchLength(results: seq<CrawlResult>, now: string)
    ensures |SplitBatch(results, now)| == SplitCount(results)
    decreases |results|
  {
    if results != [] {
      SplitBatchLength(results[..|results| - 1], now);
    }
  }

  lemma {:induction false} SplitParamsOfSplitsMember(pid: int, splits: seq<SplitDict>, now: string, p: SplitParams)
    ensures p in SplitParamsOfSplits(pid, splits, now) <==> exists s :: s in splits && p == SplitParamsOf(pid, s, now)
    decreases |splits|
  {
    if splits != [] {
      var init := splits[..|splits| - 1];
      SplitParamsOfSplitsMember(pid, init, now, p);
      assert splits == init + [splits[|splits| - 1]];
    }
  }

  lemma {:induction false} SplitBatchHas(results: seq<CrawlResult>, now: string, p: SplitParams)
    ensures p in SplitBatch(results, now) <==>
            exists i :: 0 <= i < |results| && p in SplitParamsOfSplits(results[i].pid, results[i].splits, now)
    decreases |results|
  {
    if results != [] {
      var n := |results| - 1;
      SplitBatchHas(results[..n], now, p);
      ExistsSnoc(results, results[..n], (r: CrawlResult) => p in SplitParamsOfSplits(r.pid, r.splits, now));
    }
  }

  /** Each split tuple comes from a split of some result, and every split of every result has one. */
  lemma SplitBatchMember(results: seq<CrawlResult>, now: string, p: SplitParams)
    ensures p in SplitBatch(results, now) <==>
            exists i, s :: 0 <= i < |results| && s in results[i].splits && p == SplitParamsOf(results[i].pid, s, now)
  {
    SplitBatchHas(results, now, p);
    forall i | 0 <= i < |results|
      ensures p in SplitParamsOfSplits(results[i].pid, results[i].splits, now) <==>
              exists s :: s in results[i].splits && p == SplitParamsOf(results[i].pid, s, now)
    {
      SplitParamsOfSplitsMember(results[i].pid, results[i].splits, now, p);
    }
  }

  lemma {:induction false} AssetParamsOfAssetsMember(pid: int, assets: seq<AssetDict>, now: string, p: AssetParams)
    ensures p in AssetParamsOfAssets(pid, assets, now) <==>
            exists a :: a in assets && Truthy(a.url) && p == AssetParamsOf(pid, a, now)
    decreases |assets|
  {
    if assets != [] {
      var init := assets[..|assets| - 1];
      AssetParamsOfAssetsMember(pid, init, now, p);
      assert assets == init + [assets[|assets| - 1]];
    }
  }

  lemma {:induction false} AssetBatchHas(results: seq<CrawlResult>, now: string, p: AssetParams)
    ensures p in AssetBatch(results, now) <==>
            exists i :: 0 <= i < |results| && p in AssetParamsOfAssets(results[i].pid, results[i].assets, now)
    decreases |results|
  {
    if results != [] {
      var n := |results| - 1;
      AssetBatchHas(results[..n], now, p);
      ExistsSnoc(results, results[..n], (r: CrawlResult) => p in AssetParamsOfAssets(r.pid, r.assets, now));
    }
  }

  /** Asset tuples exist exactly for the assets with a truthy url; each has a kind ("certificate"
      when the asset names none), no local path, and the asset's url. */
  lemma AssetBatchMember(results: seq<CrawlResult>, now: string, p: AssetParams)
    ensures p in AssetBatch(results, now) <==>
            exists i, a :: 0 <= i < |results| && a in results[i].assets && Truthy(a.url) && p == AssetParamsOf(results[i].pid, a, now)
    ensures p in AssetBatch(results, now) ==> p.localPath.None? && Truthy(p.url) && p.kind != ""
  {
    AssetBatchHas(results, now, p);
    forall i | 0 <= i < |results|
      ensures p in AssetParamsOfAssets(results[i].pid, results[i].assets, now) <==>
              exists a :: a in results[i].assets && Truthy(a.url) && p == AssetParamsOf(results[i].pid, a, now)
    {
      AssetParamsOfAssetsMember(results[i].pid, results[i].assets, now, p);
    }
  }

  // ---------------------------------------------------------------- split upsert

  /** Every split tuple has a label, as the NOT NULL column demands. */
  predicate AllLabelled(ps: seq<SplitParams>)
  {
    forall i :: 0 <= i < |ps| ==> ps[i].pointLabel.Some?
  }

  /** One INSERT ... ON CONFLICT(participant_id, point_label) DO UPDATE of net_time, pass_clock,
      pace and seen_at. */
  function UpsertSplit(t: SplitTable, p: SplitParams): SplitTable
    requires p.pointLabel.Some?
  {
    var k := (p.pid, p.pointLabel.value);
    if k in t then t[k := t[k].(netTime := p.netTime, passClock := p.passClock, pace := p.pace, seenAt := p.seenAt)]
    else t[k := SplitRow(p.pointKm, p.netTime, p.passClock, p.pace, p.seenAt)]
  }

  /** `executemany` of the upsert, in batch order. */
  function UpsertSplits(t: SplitTable, ps: seq<SplitParams>): SplitTable
    requires AllLabelled(ps)
    decreases |ps|
  {
    if ps == [] then t else UpsertSplit(UpsertSplits(t, ps[..|ps| - 1]), ps[|ps| - 1])
  }

  predicate HasSplitKey(p: SplitParams, k: (int, string))
  {
    p.pointLabel == Some(k.1) && p.pid == k.0
  }

  /** The last tuple of the batch with key `k`. */
  function LastSplitWith(ps: seq<SplitParams>, k: (int, string)): (r: Option<SplitParams>)
    ensures r.Some? ==> HasSplitKey(r.value, k)
    decreases |ps|
  {
    if ps == [] then None
    else if HasSplitKey(ps[|ps| - 1], k) then Some(ps[|ps| - 1])
    else LastSplitWith(ps[..|ps| - 1], k)
  }

  /** The first tuple of the batch with key `k`. */
  function FirstSplitWith(ps: seq<SplitParams>, k: (int, string)): (r: Option<SplitParams>)
    ensures r.Some? ==> HasSplitKey(r.value, k)
    decreases |ps|
  {
    if ps == [] then None
    else if FirstSplitWith(ps[..|ps| - 1], k).Some? then FirstSplitWith(ps[..|ps| - 1], k)
    else if HasSplitKey(ps[|ps| - 1], k) then Some(ps[|ps| - 1])
    else None
  }

  lemma {:induction false} FirstSplitWithIsSome(ps: seq<SplitParams>, k: (int, string))
    ensures FirstSplitWith(ps, k).Some? <==> LastSplitWith(ps, k).Some?
    decreases |ps|
  {
    if ps != [] {
      FirstSplitWithIsSome(ps[..|ps| - 1], k);
    }
  }

  /** The row a key ends up with, stated without the statement order: point_km from the row that
      was there (else from the first tuple that inserted it), the other columns from the last
      tuple with that key; keys without a tuple keep their row. */
  function MergedSplit(t: SplitTable, ps: seq<SplitParams>, k: (int, string)): SplitRow
    requires k in t || LastSplitWith(ps, k).Some?
  {
    match LastSplitWith(ps, k)
    case None => t[k]
    case Some(last) =>
      var km := if k in t then t[k].pointKm else (FirstSplitWithIsSome(ps, k); FirstSplitWith(ps, k).value.pointKm);
      SplitRow(km, last.netTime, last.passClock, last.pace, last.seenAt)
  }

  /** The upsert batch, key by key. */
  lemma {:induction false} UpsertSplitsAt(t: SplitTable, ps: seq<SplitParams>, k: (int, string))
    requires AllLabelled(ps)
    ensures k in UpsertSplits(t, ps) <==> k in t || LastSplitWith(ps, k).Some?
    ensures k in UpsertSplits(t, ps) ==> UpsertSplits(t, ps)[k] == MergedSplit(t, ps, k)
    decreases |ps|
  {
    if ps != [] {
      var init := ps[..|ps| - 1];
      var p := ps[|ps| - 1];
      assert AllLabelled(init) by {
        forall i | 0 <= i < |init| ensures init[i].pointLabel.Some? {
          assert init[i] == ps[i];
        }
      }
      UpsertSplitsAt(t, init, k);
      FirstSplitWithIsSome(init, k);
      FirstSplitWithIsSome(ps, k);
      assert p.pointLabel.Some?;
    }
  }

  /** A rewrite of a stored split keeps its point_km and takes net time, clock, pace and seen_at
      from the last tuple for it; splits without a tuple are untouched, and none is deleted. */
  lemma SplitUpsertKeepsKm(t: SplitTable, ps: seq<SplitParams>, k: (int, string))
    requires AllLabelled(ps) && k in t
    ensures k in UpsertSplits(t, ps)
    ensures UpsertSplits(t, ps)[k].pointKm == t[k].pointKm
    ensures LastSplitWith(ps, k).None? ==> UpsertSplits(t, ps)[k] == t[k]
    ensures LastSplitWith(ps, k).Some? ==>
              var last := LastSplitWith(ps, k).value;
              var row := UpsertSplits(t, ps)[k];
              row.netTime == last.netTime && row.passClock == last.passClock && row.pace == last.pace && row.seenAt == last.seenAt
  {
    UpsertSplitsAt(t, ps, k);
  }

  /** Saving the same batch twice leaves the table as saving it once. */
  lemma SplitUpsertIdempotent(t: SplitTable, ps: seq<SplitParams>)
    requires AllLabelled(ps)
    ensures UpsertSplits(UpsertSplits(t, ps), ps) == UpsertSplits(t, ps)
  {
    var t1 := UpsertSplits(t, ps);
    var t2 := UpsertSplits(t1, ps);
    forall k ensures (k in t2 <==> k in t1) && (k in t1 ==> t2[k] == t1[k]) {
      UpsertSplitsAt(t, ps, k);
      UpsertSplitsAt(t1, ps, k);
    }
    assert t1.Keys == t2.Keys;
  }

  // ---------------------------------------------------------------- meta update

  /** SQL `COALESCE(new, old)`. */
  function Coalesce<T>(n: Option<T>, o: Option<T>): (r: Option<T>)
    ensures o.Some? ==> r.Some?
    ensures n.Some? ==> r == n
  {
    if n.Some? then n else o
  }

  /** One `UPDATE participants SET race_label = COALESCE(?, race_label), race_total_km = ...`;
      an unknown id matches no row. */
  function ApplyMeta(pt: ParticipantTable, m: MetaParams): ParticipantTable
  {
    if m.pid in pt then
      pt[m.pid := pt[m.pid].(raceLabel := Coalesce(m.raceLabel, pt[m.pid].raceLabel),
                             raceTotalKm := Coalesce(m.raceTotalKm, pt[m.pid].raceTotalKm))]
    else pt
  }

  function ApplyMetas(pt: ParticipantTable, ms: seq<MetaParams>): ParticipantTable
    decreases |ms|
  {
    if ms == [] then pt else ApplyMeta(ApplyMetas(pt, ms[..|ms| - 1]), ms[|ms| - 1])
  }

  /** The last non-None label among the tuples for `pid`. */
  function LastLabelFor(ms: seq<MetaParams>, pid: int): Option<string>
    decreases |ms|
  {
    if ms == [] then None
    else if ms[|ms| - 1].pid == pid && ms[|ms| - 1].raceLabel.Some? then ms[|ms| - 1].raceLabel
    else LastLabelFor(ms[..|ms| - 1], pid)
  }

  function LastKmFor(ms: seq<MetaParams>, pid: int): Option<real>
    decreases |ms|
  {
    if ms == [] then None
    else if ms[|ms| - 1].pid == pid && ms[|ms| - 1].raceTotalKm.Some? then ms[|ms| - 1].raceTotalKm
    else LastKmFor(ms[..|ms| - 1], pid)
  }

  /** The meta batch, participant by participant: no row appears or disappears, the image path
      is untouched, and each column holds the last non-None value sent for it, else its old
      value — a stored value is never replaced by None. */
  lemma {:induction false} ApplyMetasAt(pt: ParticipantTable, ms: seq<MetaParams>, pid: int)
    ensures pid in ApplyMetas(pt, ms) <==> pid in pt
    ensures pid in pt ==>
              var row := ApplyMetas(pt, ms)[pid];
              row.raceLabel == Coalesce(LastLabelFor(ms, pid), pt[pid].raceLabel)
              && row.raceTotalKm == Coalesce(LastKmFor(ms, pid), pt[pid].raceTotalKm)
              && row.finishImagePath == pt[pid].finishImagePath
    decreases |ms|
  {
    if ms != [] {
      ApplyMetasAt(pt, ms[..|ms| - 1], pid);
    }
  }

  /** Sending the same meta batch twice has the effect of sending it once. */
  lemma MetaIdempotent(pt: ParticipantTable, ms: seq<MetaParams>)
    ensures ApplyMetas(ApplyMetas(pt, ms), ms) == ApplyMetas(pt, ms)
  {
    var p1 := ApplyMetas(pt, ms);
    var p2 := ApplyMetas(p1, ms);
    forall pid ensures (pid in p2 <==> pid in p1) && (pid in p1 ==> p2[pid] == p1[pid]) {
      ApplyMetasAt(pt, ms, pid);
      ApplyMetasAt(p1, ms, pid);
    }
    assert p1.Keys == p2.Keys;
  }

  // ---------------------------------------------------------------- asset upsert

  /** One INSERT ... ON CONFLICT(participant_id, kind) DO UPDATE of url, host and seen_at. */
  function UpsertAsset(t: AssetTable, p: AssetParams): AssetTable
  {
    var k := (p.pid, p.kind);
    if k in t then t[k := t[k].(url := p.url, host := p.host, seenAt := p.seenAt)]
    else t[k := AssetRow(p.host, p.url, p.localPath, p.seenAt)]
  }

  function UpsertAssets(t: AssetTable, ps: seq<AssetParams>): AssetTable
    decreases |ps|
  {
    if ps == [] then t else UpsertAsset(UpsertAssets(t, ps[..|ps| - 1]), ps[|ps| - 1])
  }

  function LastAssetWith(ps: seq<AssetParams>, k: (int, string)): (r: Option<AssetParams>)
    ensures r.Some? ==> (r.value.pid, r.value.kind) == k
    decreases |ps|
  {
    if ps == [] then None
    else if (ps[|ps| - 1].pid, ps[|ps| - 1].kind) == k then Some(ps[|ps| - 1])
    else LastAssetWith(ps[..|ps| - 1], k)
  }

  /** The asset batch, key by key: a stored row keeps its local path (the image worker's
      download) and takes url, host and seen_at from the last tuple for it; a new row takes
      the local path of the tuple that inserted it; keys without a tuple are untouched. */
  lemma {:induction false} UpsertAssetsAt(t: AssetTable, ps: seq<AssetParams>, k: (int, string))
    ensures k in UpsertAssets(t, ps) <==> k in t || LastAssetWith(ps, k).Some?
    ensures LastAssetWith(ps, k).None? && k in t ==> UpsertAssets(t, ps)[k] == t[k]
    ensures LastAssetWith(ps, k).Some? ==>
              var last := LastAssetWith(ps, k).value;
              var row := UpsertAssets(t, ps)[k];
              row.url == last.url && row.host == last.host && row.seenAt == last.seenAt
    ensures k in t ==> UpsertAssets(t, ps)[k].localPath == t[k].localPath
    decreases |ps|
  {
    if ps != [] {
      UpsertAssetsAt(t, ps[..|ps| - 1], k);
    }
  }

  /** Rows inserted by the crawler's batches have no local path. */
  lemma {:induction false} NewAssetsHaveNoPath(t: AssetTable, ps: seq<AssetParams>, k: (int, string))
    requires forall i :: 0 <= i < |ps| ==> ps[i].localPath.None?
    requires k !in t && k in UpsertAssets(t, ps)
    ensures UpsertAssets(t, ps)[k].localPath.None?
    decreases |ps|
  {
    var init := ps[..|ps| - 1];
    UpsertAssetsAt(t, init, k);
    if k in UpsertAssets(t, init) {
      NewAssetsHaveNoPath(t, init, k);
    }
  }
}
