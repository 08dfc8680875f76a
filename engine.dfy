/** `CrawlerEngine` of `crawler/engine.py`: the per-marathon crawl, the batched save into the
    participants, splits and assets tables, the scheduler protocol, and the image workers.
    The tables are maps keyed by their UNIQUE columns; the scheduler is the log of calls made
    on it together with its answers, passed in; the page cache is `fetch_cached`'s module
    dictionary, passed in as a `FetchCache`. */
module Engine {
  import opened Wrappers
  import opened Text
  import opened Lists
  import opened Shapes
  import opened Fetcher
  import opened Persist
  import opened EngineRules
  import FileUtils

  /** A `marathons` row, reduced to what `_process_marathon` reads. */
  datatype Marathon = Marathon(id: int, urlTemplate: string, usedata: Option<string>, refreshSec: Option<int>)

  class CrawlerEngine {
    var participants: ParticipantTable
    var splitRows: SplitTable
    var assetRows: AssetTable
    /** Every call made on the scheduler, in order. */
    var schedLog: seq<SchedCall>
    var running: bool
    /** How many image workers were started. */
    var workerCount: nat
    var imageQueue: seq<Option<ImageTask>>
    /** How many `task_done` calls the workers made. */
    var tasksDone: nat
    /** Which optional methods the scheduler has. */
    const scheduler: SchedulerKind

    constructor (scheduler: SchedulerKind, participants: ParticipantTable, splitRows: SplitTable, assetRows: AssetTable)
      ensures this.scheduler == scheduler && this.participants == participants
      ensures this.splitRows == splitRows && this.assetRows == assetRows
      ensures schedLog == [] && !running && workerCount == 0 && imageQueue == [] && tasksDone == 0
    {
      this.scheduler := scheduler;
      this.participants := participants;
      this.splitRows := splitRows;
      this.assetRows := assetRows;
      schedLog := [];
      running := false;
      workerCount := 0;
      imageQueue := [];
      tasksDone := 0;
    }

    /** `_crawl_one`: the page through the cache, then the unit's result, or None when it
        raises. */
    method CrawlOne(job: Job, now: real, env: Collaborators, cache: FetchCache) returns (r: Option<CrawlResult>)
      modifies cache
      ensures r == UnitOutcome(job, CachedOrFetched(old(cache.entries), job.url, now, env.net), env)
      ensures cache.entries == CacheAfter(old(cache.entries), job.url, now, env.net)
    {
      var page, _ := cache.FetchCached(job.url, now, env.net);
      r := UnitOutcome(job, page, env);
    }

    /** The units of one lane, one after another; `outcomes` are the units' own results. */
    method RunLane(lane: seq<Job>, now: real, env: Collaborators, cache: FetchCache)
      returns (results: seq<CrawlResult>, ghost outcomes: seq<Option<CrawlResult>>)
      modifies cache
      ensures (outcomes, cache.entries) == RunUnits(lane, old(cache.entries), now, env)
      ensures results == Successes(outcomes)
    {
      outcomes := [];
      results := [];
      for k := 0 to |lane|
        invariant (outcomes, cache.entries) == RunUnits(lane[..k], old(cache.entries), now, env)
        invariant results == Successes(outcomes)
      {
        RunUnitsStep(lane, k, old(cache.entries), now, env);
        var r := CrawlOne(lane[k], now, env, cache);
        outcomes := outcomes + [r];
        assert outcomes[..|outcomes| - 1] == outcomes[..k];
        if r.Some? {
          results := results + [r.value];
        }
      }
      assert lane[..|lane|] == lane;
    }

    /** The admission loop of `_crawl_participants`: ask the scheduler for each participant,
        and mark and build the unit of each allowed one. */
    method Admit(ps: seq<Participant>, template: string, usedata: string, canFetch: int -> bool)
      returns (jobs: seq<Job>)
      modifies this
      ensures schedLog == old(schedLog) + AdmissionCalls(ps, canFetch)
      ensures jobs == Jobs(ps, template, usedata, canFetch)
      ensures participants == old(participants) && splitRows == old(splitRows) && assetRows == old(assetRows)
      ensures running == old(running) && workerCount == old(workerCount) && imageQueue == old(imageQueue) && tasksDone == old(tasksDone)
    {
      jobs := [];
      for i := 0 to |ps|
        invariant schedLog == old(schedLog) + AdmissionCalls(ps[..i], canFetch)
        invariant jobs == Jobs(ps[..i], template, usedata, canFetch)
        invariant participants == old(participants) && splitRows == old(splitRows) && assetRows == old(assetRows)
        invariant running == old(running) && workerCount == old(workerCount) && imageQueue == old(imageQueue) && tasksDone == old(tasksDone)
      {
        var p := ps[i];
        AdmissionStep(ps, i, template, usedata, canFetch);
        AdmissionCases(p, canFetch);
        if canFetch(p.id) {
          schedLog := schedLog + [CanFetchParticipant(p.id), MarkParticipantFetch(p.id)];
          jobs := jobs + [JobOf(p, template, usedata)];
        } else {
          schedLog := schedLog + [CanFetchParticipant(p.id)];
          assert jobs + [] == jobs;
        }
      }
      assert ps[..|ps|] == ps;
    }

    /** The routing of `_crawl_participants`: MyResult hosts to the serial lane, the rest to
        the pool, each in admission order. */
    static method RouteJobs(jobs: seq<Job>) returns (pooled: seq<Job>, serial: seq<Job>)
      ensures pooled == PooledLane(jobs) && serial == SerialLane(jobs)
    {
      pooled := [];
      serial := [];
      for k := 0 to |jobs|
        invariant pooled == PooledLane(jobs[..k]) && serial == SerialLane(jobs[..k])
      {
        LanePrefixStep(jobs, k);
        if IsSerialJob(jobs[k]) {
          serial := serial + [jobs[k]];
        } else {
          pooled := pooled + [jobs[k]];
        }
      }
      assert jobs[..|jobs|] == jobs;
    }

    /** `_crawl_participants`: admission through the scheduler, lane routing, the pool in
        collection order `order` (when it is a permutation), then the serial lane. */
    method CrawlParticipants(ps: seq<Participant>, template: string, usedata: string, now: real, env: Collaborators,
                             canFetch: int -> bool, order: seq<nat>, cache: FetchCache) returns (results: seq<CrawlResult>)
      modifies this, cache
      ensures schedLog == old(schedLog) + AdmissionCalls(ps, canFetch)
      ensures (results, cache.entries) == CrawlSpec(ps, template, usedata, canFetch, order, old(cache.entries), now, env)
      ensures participants == old(participants) && splitRows == old(splitRows) && assetRows == old(assetRows)
      ensures running == old(running) && workerCount == old(workerCount) && imageQueue == old(imageQueue) && tasksDone == old(tasksDone)
    {
      var jobs := Admit(ps, template, usedata, canFetch);
      var pooled, serial := RouteJobs(jobs);
      var pooledResults, _ := RunLane(Permute(pooled, LaneOrder(order, |pooled|)), now, env, cache);
      var serialResults, _ := RunLane(serial, now, env, cache);
      results := pooledResults + serialResults;
    }

    /** The split tuples of one result. */
    static method SplitRowsOf(r: CrawlResult, nowIso: string) returns (batch: seq<SplitParams>)
      ensures batch == SplitParamsOfSplits(r.pid, r.splits, nowIso)
    {
      batch := [];
      for j := 0 to |r.splits|
        invariant batch == SplitParamsOfSplits(r.pid, r.splits[..j], nowIso)
      {
        assert r.splits[..j + 1][..j] == r.splits[..j];
        batch := batch + [SplitParamsOf(r.pid, r.splits[j], nowIso)];
      }
      assert r.splits[..|r.splits|] == r.splits;
    }

    /** The asset tuples of one result: only assets with a truthy url. */
    static method AssetRowsOf(r: CrawlResult, nowIso: string) returns (batch: seq<AssetParams>)
      ensures batch == AssetParamsOfAssets(r.pid, r.assets, nowIso)
    {
      batch := [];
      for j := 0 to |r.assets|
        invariant batch == AssetParamsOfAssets(r.pid, r.assets[..j], nowIso)
      {
        assert r.assets[..j + 1][..j] == r.assets[..j];
        if Truthy(r.assets[j].url) {
          batch := batch + [AssetParamsOf(r.pid, r.assets[j], nowIso)];
        }
      }
      assert r.assets[..|r.assets|] == r.assets;
    }

    /** The batch-building loop of `_save_results`. */
    static method BuildBatches(results: seq<CrawlResult>, nowIso: string)
      returns (splitBatch: seq<SplitParams>, metaBatch: seq<MetaParams>, assetBatch: seq<AssetParams>)
      ensures splitBatch == SplitBatch(results, nowIso)
      ensures metaBatch == MetaBatch(results)
      ensures assetBatch == AssetBatch(results, nowIso)
    {
      splitBatch := [];
      metaBatch := [];
      assetBatch := [];
      for i := 0 to |results|
        invariant splitBatch == SplitBatch(results[..i], nowIso)
        invariant metaBatch == MetaBatch(results[..i])
        invariant assetBatch == AssetBatch(results[..i], nowIso)
      {
        assert results[..i + 1][..i] == results[..i];
        var r := results[i];
        metaBatch := metaBatch + [MetaParams(r.meta.raceLabel, r.meta.raceTotalKm, r.pid)];
        var splits := SplitRowsOf(r, nowIso);
        splitBatch := splitBatch + splits;
        var assets := AssetRowsOf(r, nowIso);
        assetBatch := assetBatch + assets;
      }
      assert results[..|results|] == results;
    }

    /** `_save_results`: the three batches, then one transaction. `raised` is true when it
        raises: the storage fails (`storageFails`) or a split without a label hits the NOT
        NULL column; the transaction is then rolled back. */
    method SaveResults(results: seq<CrawlResult>, nowIso: string, storageFails: bool) returns (raised: bool)
      modifies this
      ensures raised <==> results != [] && (storageFails || !AllLabelled(SplitBatch(results, nowIso)))
      ensures raised || results == [] ==>
                participants == old(participants) && splitRows == old(splitRows) && assetRows == old(assetRows)
      ensures !raised ==>
                participants == ApplyMetas(old(participants), MetaBatch(results))
                && splitRows == UpsertSplits(old(splitRows), SplitBatch(results, nowIso))
                && assetRows == UpsertAssets(old(assetRows), AssetBatch(results, nowIso))
      ensures schedLog == old(schedLog) && running == old(running) && workerCount == old(workerCount)
      ensures imageQueue == old(imageQueue) && tasksDone == old(tasksDone)
    {
      if results == [] {
        return false;
      }
      var splitBatch, metaBatch, assetBatch := BuildBatches(results, nowIso);
      if storageFails || !AllLabelled(splitBatch) {
        return true;
      }
      participants := ApplyMetas(participants, metaBatch);
      splitRows := UpsertSplits(splitRows, splitBatch);
      assetRows := UpsertAssets(assetRows, assetBatch);
      raised := false;
    }

    /** `_process_marathon`. The scheduler's answers are `due` and `canFetch`; `query` is the
        active participants, or None when that query raises. `results` is what was crawled. */
    method ProcessMarathon(m: Marathon, due: bool, query: Option<seq<Participant>>, now: real, nowIso: string,
                           env: Collaborators, canFetch: int -> bool, order: seq<nat>, storageFails: bool, cache: FetchCache)
      returns (outcome: MarathonOutcome, ghost results: seq<CrawlResult>)
      modifies this, cache
      ensures var start := old(schedLog) + [ShouldRunMarathon(m.id, RefreshOf(m.refreshSec))];
              match outcome
              case NotDue => schedLog == start
              case NoParticipants => schedLog == start + [MarkMarathonRun(m.id)]
              case Succeeded => query.Some? && schedLog == start + AdmissionCalls(query.value, canFetch) + SuccessCalls(scheduler, m.id)
              case Failed =>
                schedLog == start + (if query.Some? then AdmissionCalls(query.value, canFetch) else []) + FailureCalls(scheduler, m.id, RefreshOf(m.refreshSec))
      ensures outcome == NotDue <==> !due
      ensures outcome == NoParticipants <==> due && query == Some([])
      ensures (outcome == Failed && query.Some?) || outcome == Succeeded ==>
                query.Some? && query.value != []
                && (results, cache.entries) == CrawlSpec(query.value, m.urlTemplate, m.usedata.GetOr(""), canFetch, order, old(cache.entries), now, env)
      ensures outcome == Failed <==> due && (query.None? || (query.value != [] && results != [] && (storageFails || !AllLabelled(SplitBatch(results, nowIso)))))
      ensures outcome == Succeeded ==>
                participants == ApplyMetas(old(participants), MetaBatch(results))
                && splitRows == UpsertSplits(old(splitRows), SplitBatch(results, nowIso))
                && assetRows == UpsertAssets(old(assetRows), AssetBatch(results, nowIso))
      ensures outcome != Succeeded ==>
                participants == old(participants) && splitRows == old(splitRows) && assetRows == old(assetRows)
      ensures outcome == NotDue || outcome == NoParticipants || query.None? ==> cache.entries == old(cache.entries)
      ensures running == old(running) && workerCount == old(workerCount) && imageQueue == old(imageQueue) && tasksDone == old(tasksDone)
    {
      results := [];
      var refresh := RefreshOf(m.refreshSec);
      schedLog := schedLog + [ShouldRunMarathon(m.id, refresh)];
      if !due {
        return NotDue, results;
      }
      if query.None? {
        schedLog := schedLog + FailureCalls(scheduler, m.id, refresh);
        return Failed, results;
      }
      var ps := query.value;
      if ps == [] {
        schedLog := schedLog + [MarkMarathonRun(m.id)];
        return NoParticipants, results;
      }
      var crawled := CrawlParticipants(ps, m.urlTemplate, m.usedata.GetOr(""), now, env, canFetch, order, cache);
      results := crawled;
      var raised := SaveResults(crawled, nowIso, storageFails);
      if raised {
        schedLog := schedLog + FailureCalls(scheduler, m.id, refresh);
        outcome := Failed;
      } else {
        schedLog := schedLog + SuccessCalls(scheduler, m.id);
        outcome := Succeeded;
      }
    }

    /** `_start_image_workers(num_workers)`. */
    method StartImageWorkers(numWorkers: nat)
      modifies this
      ensures workerCount == old(workerCount) + numWorkers
      ensures participants == old(participants) && splitRows == old(splitRows) && assetRows == old(assetRows)
      ensures schedLog == old(schedLog) && running == old(running) && imageQueue == old(imageQueue) && tasksDone == old(tasksDone)
    {
      for i := 0 to numWorkers
        invariant workerCount == old(workerCount) + i
        invariant participants == old(participants) && splitRows == old(splitRows) && assetRows == old(assetRows)
        invariant schedLog == old(schedLog) && running == old(running) && imageQueue == old(imageQueue) && tasksDone == old(tasksDone)
      {
        workerCount := workerCount + 1;
      }
    }

    /** `save_certificate_to_disk`: the download to the certificate path. */
    static method SaveCertificateToDisk(t: ImageTask, certDir: string, download: DownloadRequest -> Option<string>)
      returns (saved: Option<string>)
      ensures saved == SaveCertificate(certDir, download)(t)
    {
      saved := download(DownloadRequest(FileUtils.CertificatePath(certDir, t.usedata, t.bib), t.imageUrl, t.host, t.referer));
    }

    /** `_image_worker` running alone over the queue, until it takes a sentinel (`stopped`)
        or the queue is empty (where the thread would block). */
    method ImageWorker(certDir: string, download: DownloadRequest -> Option<string>) returns (stopped: bool)
      modifies this
      ensures var r := RunWorker(old(imageQueue), old(participants), SaveCertificate(certDir, download));
              imageQueue == r.queue && participants == r.participants
              && tasksDone == old(tasksDone) + r.tasksDone && stopped == r.stopped
      ensures splitRows == old(splitRows) && assetRows == old(assetRows)
      ensures schedLog == old(schedLog) && running == old(running) && workerCount == old(workerCount)
    {
      ghost var save := SaveCertificate(certDir, download);
      ghost var r0 := RunWorker(imageQueue, participants, save);
      while imageQueue != []
        invariant tasksDone >= old(tasksDone)
        invariant var r := RunWorker(imageQueue, participants, save);
                  r0.queue == r.queue && r0.participants == r.participants && r0.stopped == r.stopped
                  && r0.tasksDone == r.tasksDone + (tasksDone - old(tasksDone))
        invariant splitRows == old(splitRows) && assetRows == old(assetRows)
        invariant schedLog == old(schedLog) && running == old(running) && workerCount == old(workerCount)
        decreases |imageQueue|
      {
        var entry := imageQueue[0];
        ghost var q := imageQueue;
        if entry.None? {
          WorkerTakesSentinel(q, participants, save);
        } else {
          WorkerTakesTask(q, participants, save);
        }
        imageQueue := imageQueue[1..];
        if entry.None? {
          return true;
        }
        var t := entry.value;
        var saved := SaveCertificateToDisk(t, certDir, download);
        ghost var pt := participants;
        if Truthy(saved) && t.pid in participants {
          participants := participants[t.pid := participants[t.pid].(finishImagePath := saved)];
        }
        assert participants == SaveImage(pt, t, save);
        tasksDone := tasksDone + 1;
      }
      stopped := false;
    }

    /** `shutdown`: stop the main loop and enqueue one sentinel per started worker. */
    method Shutdown()
      modifies this
      ensures !running && imageQueue == old(imageQueue) + Sentinels(workerCount)
      ensures participants == old(participants) && splitRows == old(splitRows) && assetRows == old(assetRows)
      ensures schedLog == old(schedLog) && workerCount == old(workerCount) && tasksDone == old(tasksDone)
    {
      running := false;
      for i := 0 to workerCount
        invariant imageQueue == old(imageQueue) + Sentinels(i) && !running
        invariant participants == old(participants) && splitRows == old(splitRows) && assetRows == old(assetRows)
        invariant schedLog == old(schedLog) && workerCount == old(workerCount) && tasksDone == old(tasksDone)
      {
        imageQueue := imageQueue + [None];
      }
    }
  }
}
