/** `crawler/fetcher.py`: host routing between the rendering worker and plain HTTP, and the
    30-second page cache in front of it. */
module Fetcher {
  import opened Wrappers
  import opened Text
  import Urls

  /** `_CACHE_TTL`, in seconds. */
  const CacheTtl: real := 30.0

  /** What a network call gives back: the page text, or an exception. */
  datatype Fetched = Content(text: string) | Raised

  /** The collaborators `fetch` calls, as functions of the URL they are given:
      `add_cache_buster`; the rendering worker's `fetch`, with None or an empty page as "";
      and `_SESSION.get` followed by `raise_for_status` and `.text`. */
  datatype Network = Network(
    cacheBuster: string -> string,
    worker: string -> Fetched,
    http: string -> Fetched)

  /** `any(h in host for h in ["myresult.co.kr", "spct.co.kr"])`. */
  predicate UsesRenderer(host: string)
  {
    Contains(host, "myresult.co.kr") || Contains(host, "spct.co.kr")
  }

  /** `fetch(url)`: the renderer first for its host family, then HTTP. */
  function Fetch(url: string, net: Network): Fetched
  {
    var host := Lower(Urls.HostOf(url));
    var busted := net.cacheBuster(url);
    if UsesRenderer(host) then
      match net.worker(busted)
      case Raised => Raised
      case Content(html) => if html != "" then Content(html) else net.http(busted)
    else net.http(busted)
  }

  /** For the renderer's hosts a non-empty worker page is the answer and HTTP is never asked;
      an empty one falls through to HTTP. */
  lemma RendererFirst(url: string, net: Network, other: string -> Fetched)
    requires UsesRenderer(Lower(Urls.HostOf(url)))
    ensures var w := net.worker(net.cacheBuster(url));
            w.Content? && w.text != "" ==> Fetch(url, net) == w && Fetch(url, net.(http := other)) == w
    ensures net.worker(net.cacheBuster(url)) == Content("") ==> Fetch(url, net) == net.http(net.cacheBuster(url))
  {
  }

  /** Every other host goes straight to HTTP: the worker is never asked. */
  lemma OtherHostsUseHttp(url: string, net: Network, other: string -> Fetched)
    requires !UsesRenderer(Lower(Urls.HostOf(url)))
    ensures Fetch(url, net) == net.http(net.cacheBuster(url))
    ensures Fetch(url, net.(worker := other)) == Fetch(url, net)
  {
  }

  /** The collaborators are only ever called with the cache-busted URL. */
  lemma FetchUsesBustedUrl(url: string, n1: Network, n2: Network)
    requires n1.cacheBuster(url) == n2.cacheBuster(url)
    requires n1.worker(n1.cacheBuster(url)) == n2.worker(n2.cacheBuster(url))
    requires n1.http(n1.cacheBuster(url)) == n2.http(n2.cacheBuster(url))
    ensures Fetch(url, n1) == Fetch(url, n2)
  {
  }

  /** An entry answers a lookup at time `now` while it is younger than the TTL (strictly). */
  predicate IsFresh(entries: map<string, (string, real)>, url: string, now: real)
  {
    url in entries && now - entries[url].1 < CacheTtl
  }

  /** What `fetch_cached` returns: the cached text while fresh, else a fresh fetch. */
  function CachedOrFetched(entries: map<string, (string, real)>, url: string, now: real, net: Network): Fetched
  {
    if IsFresh(entries, url, now) then Content(entries[url].0) else Fetch(url, net)
  }

  /** The cache after `fetch_cached`: a successful fetch stores `(html, now)` under the caller's
      URL; a hit or a raising fetch leaves it as it was. */
  function CacheAfter(entries: map<string, (string, real)>, url: string, now: real, net: Network): map<string, (string, real)>
  {
    if IsFresh(entries, url, now) then entries
    else match Fetch(url, net)
      case Content(html) => entries[url := (html, now)]
      case Raised => entries
  }

  /** An entry stored at `ts` is served until just before `ts + 30` and refetched from then on. */
  lemma FreshnessWindow(entries: map<string, (string, real)>, url: string, html: string, ts: real, now: real)
    ensures IsFresh(entries[url := (html, ts)], url, now) <==> now < ts + CacheTtl
    ensures !IsFresh(entries[url := (html, ts)], url, ts + CacheTtl)
  {
  }

  /** A lookup inside the window after a successful fetch returns that text without fetching,
      whatever the network would now answer. */
  lemma RefetchWithinWindowIsCached(entries: map<string, (string, real)>, url: string, t1: real, t2: real, n1: Network, n2: Network)
    requires !IsFresh(entries, url, t1) && Fetch(url, n1).Content?
    requires t1 <= t2 < t1 + CacheTtl
    ensures var e1 := CacheAfter(entries, url, t1, n1);
            CachedOrFetched(e1, url, t2, n2) == Fetch(url, n1) && CacheAfter(e1, url, t2, n2) == e1
  {
  }

  /** Other URLs' entries are never touched. */
  lemma CacheAfterKeepsOthers(entries: map<string, (string, real)>, url: string, other: string, now: real, net: Network)
    requires other != url
    ensures other in CacheAfter(entries, url, now, net) <==> other in entries
    ensures other in entries ==> CacheAfter(entries, url, now, net)[other] == entries[other]
  {
  }

  /** The module-level `_CACHE`: URL to (content, timestamp). */
  class FetchCache {
    var entries: map<string, (string, real)>

    constructor ()
      ensures entries == map[]
    {
      entries := map[];
    }

    /** `fetch_cached(url)` at clock reading `now`. `fetched` says whether `fetch` was called. */
    method FetchCached(url: string, now: real, net: Network) returns (r: Fetched, fetched: bool)
      modifies this
      ensures fetched <==> !IsFresh(old(entries), url, now)
      ensures r == CachedOrFetched(old(entries), url, now, net)
      ensures entries == CacheAfter(old(entries), url, now, net)
    {
      if url in entries {
        var (data, ts) := entries[url];
        if now - ts < CacheTtl {
          return Content(data), false;
        }
      }
      r := Fetch(url, net);
      fetched := true;
      if r.Content? {
        entries := entries[url := (r.text, now)];
      }
    }
  }
}
