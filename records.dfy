/** The records service (`webapp/services/records.py`): choosing each participant's best
    split, the record sort key, the case-insensitive filters and the listing built from them. */
module Records {
  import opened Wrappers
  import opened Text
  import opened Lists
  import opened FinishLabels
  import FileUtils

  // ---------------------------------------------------------------- best record

  /** A stored split row, as `_pick_best_record` reads it. */
  datatype StoredSplit = StoredSplit(pointLabel: Option<string>, netTime: Option<string>, passClock: Option<string>)

  /** The dictionary `_pick_best_record` returns. */
  datatype BestRecord = BestRecord(pointLabel: Option<string>, record: string, clock: string)

  /** `(x or "").strip()`. */
  function Stripped(t: Option<string>): string
  {
    Strip(t.GetOr(""))
  }

  function IsFinishSplit(v: Vocabulary): StoredSplit -> bool
  {
    (s: StoredSplit) => IsFinishLabel(s.pointLabel, v)
  }

  /** The split `_pick_best_record` chooses: the last of the finish-labelled splits, else the
      last split. */
  function BestSplit(splits: seq<StoredSplit>, v: Vocabulary): StoredSplit
    requires splits != []
  {
    var finish := Filter(splits, IsFinishSplit(v));
    if finish != [] then finish[|finish| - 1] else splits[|splits| - 1]
  }

  /** `_pick_best_record` over the participant's splits in id order: the chosen split's net
      time, falling back to the last split's; each of record and clock blanked unless it looks
      like a time. */
  function PickBestRecord(splits: seq<StoredSplit>, v: Vocabulary, looksTime: string -> bool): (r: Option<BestRecord>)
    ensures r.Some? ==> (r.value.record == "" || looksTime(r.value.record))
    ensures r.Some? ==> (r.value.clock == "" || looksTime(r.value.clock))
  {
    if splits == [] then None
    else
      var best := BestSplit(splits, v);
      var first := Stripped(best.netTime);
      var record := if looksTime(first) then first else Stripped(splits[|splits| - 1].netTime);
      var clock := Stripped(best.passClock);
      Some(BestRecord(best.pointLabel, if looksTime(record) then record else "", if looksTime(clock) then clock else ""))
  }

  /** The index of the last finish-labelled split, else of the last split. */
  function BestIndex(splits: seq<StoredSplit>, v: Vocabulary): (k: nat)
    requires splits != []
    ensures k < |splits|
  {
    match LastIndexWhere(splits, IsFinishSplit(v))
    case Some(i) => i
    case None => |splits| - 1
  }

  /** The chosen split is a finish split followed by none, or the last split when no split is
      finish-labelled. */
  lemma BestSplitSpec(splits: seq<StoredSplit>, v: Vocabulary)
    requires splits != []
    ensures BestSplit(splits, v) == splits[BestIndex(splits, v)]
    ensures forall j :: BestIndex(splits, v) < j < |splits| ==> !IsFinishLabel(splits[j].pointLabel, v)
    ensures IsFinishLabel(BestSplit(splits, v).pointLabel, v)
         || forall j :: 0 <= j < |splits| ==> !IsFinishLabel(splits[j].pointLabel, v)
  {
    FilterLast(splits, IsFinishSplit(v));
  }

  /** No splits, no record. Otherwise the label is the chosen split's; a time-like net time of
      that split is the record, else the last split's net time when time-like, else ""; the
      clock is the chosen split's when time-like, else "". */
  lemma PickBestRecordSpec(splits: seq<StoredSplit>, v: Vocabulary, looksTime: string -> bool)
    ensures PickBestRecord(splits, v, looksTime).None? <==> splits == []
    ensures splits != [] ==>
      var r := PickBestRecord(splits, v, looksTime).value;
      var best := splits[BestIndex(splits, v)];
      var last := splits[|splits| - 1];
      && r.pointLabel == best.pointLabel
      && (looksTime(Stripped(best.netTime)) ==> r.record == Stripped(best.netTime))
      && (!looksTime(Stripped(best.netTime)) ==> r.record == (if looksTime(Stripped(last.netTime)) then Stripped(last.netTime) else ""))
      && r.clock == (if looksTime(Stripped(best.passClock)) then Stripped(best.passClock) else "")
  {
    if splits != [] {
      BestSplitSpec(splits, v);
    }
  }

  // ---------------------------------------------------------------- seconds and sort key

  /** `_sec`: None for None or ""; a stripped "h:m:s" or "m:s" of integers gives its number
      of seconds; any other number of ':'-separated parts, or a part that is not an integer,
      gives None. */
  function Sec(t: Option<string>): Option<int>
  {
    if !Truthy(t) then None else SecOfParts(Split(Strip(t.value), ":"))
  }

  /** `_sec` on the ':'-separated parts of the stripped text. */
  function SecOfParts(parts: seq<string>): Option<int>
  {
    if |parts| == 3 then
      match (ParseInt(parts[0]), ParseInt(parts[1]), ParseInt(parts[2]))
      case (Some(h), Some(m), Some(s)) => Some(h * 3600 + m * 60 + s)
      case _ => None
    else if |parts| == 2 then
      match (ParseInt(parts[0]), ParseInt(parts[1]))
      case (Some(m), Some(s)) => Some(m * 60 + s)
      case _ => None
    else None
  }

  predicate ColonFree(s: string)
  {
    ':' !in s
  }

  /** A piece that `strip` leaves alone at the front, resp. at the back. */
  predicate SolidStart(s: string)
  {
    s != [] && !IsSpace(s[0])
  }

  predicate SolidEnd(s: string)
  {
    s != [] && !IsSpace(s[|s| - 1])
  }

  lemma HmsValues(parts: seq<string>, hv: int, mv: int, sv: int, total: int)
    requires |parts| == 3
    requires ParseInt(parts[0]) == Some(hv) && ParseInt(parts[1]) == Some(mv) && ParseInt(parts[2]) == Some(sv)
    requires total == hv * 3600 + mv * 60 + sv
    ensures SecOfParts(parts) == Some(total)
  {
  }

  lemma MsValues(parts: seq<string>, mv: int, sv: int, total: int)
    requires |parts| == 2
    requires ParseInt(parts[0]) == Some(mv) && ParseInt(parts[1]) == Some(sv)
    requires total == mv * 60 + sv
    ensures SecOfParts(parts) == Some(total)
  {
  }

  /** "h:m:s" with ':'-free pieces and solid ends strips to itself and splits into the pieces. */
  lemma JoinedHms(h: string, m: string, s: string)
    requires ColonFree(h) && ColonFree(m) && ColonFree(s) && SolidStart(h) && SolidEnd(s)
    ensures var t := h + ":" + m + ":" + s; t != [] && Split(Strip(t), ":") == [h, m, s]
  {
    var t := h + ":" + m + ":" + s;
    assert t[0] == h[0] && t[|t| - 1] == s[|s| - 1];
    StripNoEnds(t);
    assert t == h + ":" + (m + ":" + s);
    SplitAfterPiece(h, ":", m + ":" + s);
    SplitAfterPiece(m, ":", s);
    SplitWithoutSep(s, ":");
  }

  lemma JoinedMs(m: string, s: string)
    requires ColonFree(m) && ColonFree(s) && SolidStart(m) && SolidEnd(s)
    ensures var t := m + ":" + s; t != [] && Split(Strip(t), ":") == [m, s]
  {
    var t := m + ":" + s;
    assert t[0] == m[0] && t[|t| - 1] == s[|s| - 1];
    StripNoEnds(t);
    SplitAfterPiece(m, ":", s);
    SplitWithoutSep(s, ":");
  }

  /** `_sec` of a non-empty text reads the ':'-separated parts of its strip. */
  lemma SecOfText(t: string, parts: seq<string>)
    requires t != [] && Split(Strip(t), ":") == parts
    ensures Sec(Some(t)) == SecOfParts(parts)
  {
  }

  lemma SecOfSplit3(t: string, parts: seq<string>, hv: int, mv: int, sv: int, total: int)
    requires t != [] && Split(Strip(t), ":") == parts && |parts| == 3
    requires ParseInt(parts[0]) == Some(hv) && ParseInt(parts[1]) == Some(mv) && ParseInt(parts[2]) == Some(sv)
    requires total == hv * 3600 + mv * 60 + sv
    ensures Sec(Some(t)) == Some(total)
  {
    SecOfText(t, parts);
    HmsValues(parts, hv, mv, sv, total);
  }

  lemma SecOfSplit2(t: string, parts: seq<string>, mv: int, sv: int, total: int)
    requires t != [] && Split(Strip(t), ":") == parts && |parts| == 2
    requires ParseInt(parts[0]) == Some(mv) && ParseInt(parts[1]) == Some(sv)
    requires total == mv * 60 + sv
    ensures Sec(Some(t)) == Some(total)
  {
    SecOfText(t, parts);
    MsValues(parts, mv, sv, total);
  }

  /** `_sec("h:m:s")` is h·3600 + m·60 + s, where each piece is what `int` reads from it. */
  lemma SecOfHms(h: string, m: string, s: string, hv: int, mv: int, sv: int, total: int)
    requires ColonFree(h) && ColonFree(m) && ColonFree(s) && SolidStart(h) && SolidEnd(s)
    requires ParseInt(h) == Some(hv) && ParseInt(m) == Some(mv) && ParseInt(s) == Some(sv)
    requires total == hv * 3600 + mv * 60 + sv
    ensures Sec(Some(h + ":" + m + ":" + s)) == Some(total)
  {
    JoinedHms(h, m, s);
    SecOfSplit3(h + ":" + m + ":" + s, [h, m, s], hv, mv, sv, total);
  }

  /** `_sec("m:s")` is m·60 + s. */
  lemma SecOfMs(m: string, s: string, mv: int, sv: int, total: int)
    requires ColonFree(m) && ColonFree(s) && SolidStart(m) && SolidEnd(s)
    requires ParseInt(m) == Some(mv) && ParseInt(s) == Some(sv)
    requires total == mv * 60 + sv
    ensures Sec(Some(m + ":" + s)) == Some(total)
  {
    JoinedMs(m, s);
    SecOfSplit2(m + ":" + s, [m, s], mv, sv, total);
  }

  /** A part that is not an integer, or a part count other than two or three, gives None. */
  lemma SecRejects(t: string)
    requires var parts := Split(Strip(t), ":");
      || (|parts| != 2 && |parts| != 3)
      || (exists i :: 0 <= i < |parts| && ParseInt(parts[i]).None?)
    ensures Sec(Some(t)) == None
  {
    var parts := Split(Strip(t), ":");
    if t != [] {
      SecOfText(t, parts);
      PartsReject(parts);
    }
  }

  lemma PartsReject(parts: seq<string>)
    requires || (|parts| != 2 && |parts| != 3)
             || (exists i :: 0 <= i < |parts| && ParseInt(parts[i]).None?)
    ensures SecOfParts(parts) == None
  {
    if |parts| == 2 || |parts| == 3 {
      var i :| 0 <= i < |parts| && ParseInt(parts[i]).None?;
      assert i == 0 || i == 1 || i == 2;
    }
  }

  /** None, "" and any text without a ':' have no seconds. */
  lemma SecNeedsColon(t: Option<string>)
    requires t.Some? ==> ColonFree(t.value)
    ensures Sec(t) == None
  {
    if Truthy(t) {
      var i, j := StripSlice(t.value);
      assert ':' !in Strip(t.value);
      SplitWithoutSep(Strip(t.value), ":");
    }
  }

  /** A row of the records listing. `distance` is `float(dist or 0.0)`. */
  datatype Item = Item(
    name: string,
    category: string,
    distance: real,
    marathon: Option<string>,
    record: string,
    clock: string,
    certWeb: Option<string>)

  /** Python's tuple comparison on `_sort_key`'s component `record_sec` (None is
      `float('inf')`). */
  predicate RecordLe(a: Option<int>, b: Option<int>)
  {
    b.None? || (a.Some? && a.value <= b.value)
  }

  /** `_sort_key(a) <= _sort_key(b)`: name ascending, then distance descending, then record
      seconds ascending with a missing or unparsable record last. */
  predicate KeyLe(a: Item, b: Item)
  {
    if a.name != b.name then LexLe(a.name, b.name)
    else if a.distance != b.distance then a.distance > b.distance
    else RecordLe(Sec(Some(a.record)), Sec(Some(b.record)))
  }

  lemma KeyLeTotal(a: Item, b: Item)
    ensures KeyLe(a, b) || KeyLe(b, a)
  {
    if a.name != b.name {
      LexLeTotal(a.name, b.name);
    }
  }

  lemma KeyLeTransitive(a: Item, b: Item, c: Item)
    requires KeyLe(a, b) && KeyLe(b, c)
    ensures KeyLe(a, c)
  {
    if a.name != b.name && b.name != c.name {
      LexLeTransitive(a.name, b.name, c.name);
      if a.name == c.name {
        LexLeAntisymmetric(a.name, b.name);
      }
    }
  }

  /** A record with seconds sorts before one without, other components being equal. */
  lemma TimedRecordFirst(a: Item, b: Item)
    requires a.name == b.name && a.distance == b.distance
    requires Sec(Some(a.record)).Some? && Sec(Some(b.record)).None?
    ensures KeyLe(a, b) && !KeyLe(b, a)
  {
  }

  // ---------------------------------------------------------------- sorting

  predicate Sorted(s: seq<Item>)
  {
    forall i :: 0 < i < |s| ==> KeyLe(s[i - 1], s[i])
  }

  /** Every earlier item of a sorted sequence is at most every later one. */
  lemma {:induction false} SortedPairwise(s: seq<Item>, i: nat, j: nat)
    requires Sorted(s) && i < j < |s|
    ensures KeyLe(s[i], s[j])
    decreases j - i
  {
    if i + 1 < j {
      SortedPairwise(s, i + 1, j);
      KeyLeTransitive(s[i], s[i + 1], s[j]);
    }
  }

  /** `x` placed into sorted `t` after every item at most `x`. */
  function Insert(t: seq<Item>, x: Item): (r: seq<Item>)
    ensures |r| == |t| + 1
    ensures r[|r| - 1] == x || (t != [] && r[|r| - 1] == t[|t| - 1])
    decreases |t|
  {
    if t == [] || KeyLe(t[|t| - 1], x) then t + [x]
    else Insert(t[..|t| - 1], x) + [t[|t| - 1]]
  }

  lemma InsertSorted(t: seq<Item>, x: Item)
    requires Sorted(t)
    ensures Sorted(Insert(t, x))
    ensures multiset(Insert(t, x)) == multiset(t) + multiset{x}
  {
    InsertOrdered(t, x);
    InsertPermutes(t, x);
  }

  lemma {:induction false} InsertOrdered(t: seq<Item>, x: Item)
    requires Sorted(t)
    ensures Sorted(Insert(t, x))
    decreases |t|
  {
    if t == [] || KeyLe(t[|t| - 1], x) {
      AppendSorted(t, x);
    } else {
      var init := t[..|t| - 1];
      var y := t[|t| - 1];
      assert Sorted(init);
      InsertOrdered(init, x);
      var u := Insert(init, x);
      KeyLeTotal(y, x);
      if init != [] {
        assert KeyLe(init[|init| - 1], y);
      }
      assert KeyLe(u[|u| - 1], y);
      AppendSorted(u, y);
    }
  }

  /** Appending an item at least the last one keeps a sequence sorted. */
  lemma AppendSorted(u: seq<Item>, y: Item)
    requires Sorted(u) && (u == [] || KeyLe(u[|u| - 1], y))
    ensures Sorted(u + [y])
  {
    var v := u + [y];
    forall i | 0 < i < |v| ensures KeyLe(v[i - 1], v[i]) {
      if i < |u| {
        assert v[i - 1] == u[i - 1] && v[i] == u[i];
      }
    }
  }

  lemma {:induction false} InsertPermutes(t: seq<Item>, x: Item)
    ensures multiset(Insert(t, x)) == multiset(t) + multiset{x}
    decreases |t|
  {
    if t == [] || KeyLe(t[|t| - 1], x) {
    } else {
      var init := t[..|t| - 1];
      InsertPermutes(init, x);
      assert t == init + [t[|t| - 1]];
    }
  }

  /** `items.sort(key=_sort_key)`, as insertion of each item in turn. */
  function SortItems(s: seq<Item>): (r: seq<Item>)
    decreases |s|
  {
    if s == [] then [] else Insert(SortItems(s[..|s| - 1]), s[|s| - 1])
  }

  /** The sorted listing is ordered by the key and is a permutation of the input. */
  lemma {:induction false} SortItemsSpec(s: seq<Item>)
    ensures Sorted(SortItems(s))
    ensures multiset(SortItems(s)) == multiset(s)
    decreases |s|
  {
    if s != [] {
      SortItemsSpec(s[..|s| - 1]);
      InsertSorted(SortItems(s[..|s| - 1]), s[|s| - 1]);
      assert s == s[..|s| - 1] + [s[|s| - 1]];
    }
  }

  // ---------------------------------------------------------------- filters

  /** The name filter: with a truthy query, keep the items whose name holds it, ignoring case. */
  function NameFilter(items: seq<Item>, query: Option<string>): seq<Item>
  {
    if Truthy(query) then Filter(items, (it: Item) => Contains(Lower(it.name), Lower(query.value)))
    else items
  }

  /** The marathon filter, on `(it["marathon"] or "")`. */
  function MarathonFilter(items: seq<Item>, marathonFilter: Option<string>): seq<Item>
  {
    if Truthy(marathonFilter) then
      Filter(items, (it: Item) => Contains(Lower(it.marathon.GetOr("")), Lower(marathonFilter.value)))
    else items
  }

  /** An item passes the name filter exactly when it was listed and, for a truthy query, its
      lowered name holds the lowered query; the order is kept. */
  lemma NameFilterSpec(items: seq<Item>, query: Option<string>, x: Item)
    ensures x in NameFilter(items, query) <==>
      x in items && (!Truthy(query) || Contains(Lower(x.name), Lower(query.value)))
    ensures IsSubsequence(NameFilter(items, query), items)
  {
    if Truthy(query) {
      var p := (it: Item) => Contains(Lower(it.name), Lower(query.value));
      FilterMembership(items, p, x);
      FilterIsSubsequence(items, p);
    } else {
      SubsequenceRefl(items);
    }
  }

  lemma MarathonFilterSpec(items: seq<Item>, marathonFilter: Option<string>, x: Item)
    ensures x in MarathonFilter(items, marathonFilter) <==>
      x in items && (!Truthy(marathonFilter) || Contains(Lower(x.marathon.GetOr("")), Lower(marathonFilter.value)))
    ensures IsSubsequence(MarathonFilter(items, marathonFilter), items)
  {
    if Truthy(marathonFilter) {
      var p := (it: Item) => Contains(Lower(it.marathon.GetOr("")), Lower(marathonFilter.value));
      FilterMembership(items, p, x);
      FilterIsSubsequence(items, p);
    } else {
      SubsequenceRefl(items);
    }
  }

  lemma {:induction false} SubsequenceRefl<T>(s: seq<T>)
    ensures IsSubsequence(s, s)
    decreases |s|
  {
    if s != [] {
      SubsequenceRefl(s[..|s| - 1]);
    }
  }

  // ---------------------------------------------------------------- the listing

  /** An active participant joined with its marathon, as `get_all_records` selects it. */
  datatype ParticipantView = ParticipantView(
    id: int,
    alias: Option<string>,
    nameorbibno: Option<string>,
    raceTotalKm: Option<real>,
    defaultKm: Option<real>,
    raceLabel: Option<string>,
    marathonName: Option<string>,
    finishImagePath: Option<string>,
    finishImageUrl: Option<string>)

  /** The newest certificate asset row of a participant. */
  datatype CertificateAsset = CertificateAsset(localPath: Option<string>, url: Option<string>)

  /** What `get_all_records` reads besides the participant rows: the splits and the newest
      certificate asset of a participant, the finish keywords, `looks_time`,
      `label_for_distance` and `BASE_DIR`. */
  datatype RecordsEnv = RecordsEnv(
    splitsOf: int -> seq<StoredSplit>,
    certificateOf: int -> Option<CertificateAsset>,
    vocabulary: Vocabulary,
    looksTime: string -> bool,
    labelForDistance: Option<real> -> string,
    baseDir: string)

  /** Python's `a or b` on optional strings. */
  function OrElse(a: Option<string>, b: Option<string>): (r: Option<string>)
    ensures Truthy(a) ==> r == a
    ensures !Truthy(a) ==> r == b
  {
    if Truthy(a) then a else b
  }

  /** The display name: the stripped alias, else the stripped name or bib. */
  function DisplayName(p: ParticipantView): string
  {
    var a := Stripped(p.alias);
    if a != "" then a else Stripped(p.nameorbibno)
  }

  /** The distance: the race total when not None, else the marathon default. */
  function Distance(p: ParticipantView): Option<real>
  {
    if p.raceTotalKm.Some? then p.raceTotalKm else p.defaultKm
  }

  /** The certificate link: from the newest certificate asset when there is one, else from the
      participant's own image columns when either is truthy. */
  function CertWeb(p: ParticipantView, env: RecordsEnv): Option<string>
  {
    match env.certificateOf(p.id)
    case Some(asset) => OrElse(FileUtils.ToWebStaticUrl(asset.localPath, env.baseDir), asset.url)
    case None =>
      if Truthy(p.finishImagePath) || Truthy(p.finishImageUrl) then
        OrElse(FileUtils.ToWebStaticUrl(p.finishImagePath, env.baseDir), p.finishImageUrl)
      else None
  }

  /** The item `get_all_records` appends for one participant. */
  function ItemOf(p: ParticipantView, env: RecordsEnv): Item
  {
    var dist := Distance(p);
    var l := Stripped(p.raceLabel);
    var best := PickBestRecord(env.splitsOf(p.id), env.vocabulary, env.looksTime);
    Item(
      DisplayName(p),
      if l != "" then l else env.labelForDistance(dist),
      dist.GetOr(0.0),
      p.marathonName,
      if best.Some? then best.value.record else "",
      if best.Some? then best.value.clock else "",
      CertWeb(p, env))
  }

  /** The display name carries no surrounding whitespace, is the alias's when the alias has
      text, and is empty only when neither alias nor bib has text. */
  lemma DisplayNameSpec(p: ParticipantView)
    ensures Strip(DisplayName(p)) == DisplayName(p)
    ensures Stripped(p.alias) != "" ==> DisplayName(p) == Stripped(p.alias)
    ensures DisplayName(p) == "" <==> Stripped(p.alias) == "" && Stripped(p.nameorbibno) == ""
  {
    DisplayNameStripped(p);
  }

  lemma DisplayNameStripped(p: ParticipantView)
    ensures Strip(DisplayName(p)) == DisplayName(p)
  {
    StripIdempotent(p.alias.GetOr(""));
    StripIdempotent(p.nameorbibno.GetOr(""));
  }

  /** The item's name is the display name; its distance prefers the race total over the
      marathon default, with 0 when both are missing; its category prefers the stored race
      label; its record and clock are the best record's, or "" without splits. */
  lemma ItemOfSpec(p: ParticipantView, env: RecordsEnv)
    ensures var it := ItemOf(p, env);
      var best := PickBestRecord(env.splitsOf(p.id), env.vocabulary, env.looksTime);
      && it.name == DisplayName(p)
      && (p.raceTotalKm.Some? ==> it.distance == p.raceTotalKm.value)
      && (p.raceTotalKm.None? ==> it.distance == p.defaultKm.GetOr(0.0))
      && (Stripped(p.raceLabel) != "" ==> it.category == Stripped(p.raceLabel))
      && (env.splitsOf(p.id) == [] ==> it.record == "" && it.clock == "")
      && (best.Some? ==> it.record == best.value.record && it.clock == best.value.clock)
  {
    PickBestRecordSpec(env.splitsOf(p.id), env.vocabulary, env.looksTime);
  }

  /** The items of all participants, in row order. */
  function Items(rows: seq<ParticipantView>, env: RecordsEnv): (r: seq<Item>)
    ensures |r| == |rows| && forall i :: 0 <= i < |rows| ==> r[i] == ItemOf(rows[i], env)
  {
    Map(rows, (p: ParticipantView) => ItemOf(p, env))
  }

  /** `get_all_records`: the items, through the name filter and the marathon filter, sorted. */
  function AllRecords(rows: seq<ParticipantView>, env: RecordsEnv, query: Option<string>, marathonFilter: Option<string>): seq<Item>
  {
    SortItems(MarathonFilter(NameFilter(Items(rows, env), query), marathonFilter))
  }

  /** `get_all_records` builds the items row by row, filters, then sorts. */
  method GetAllRecords(rows: seq<ParticipantView>, env: RecordsEnv, query: Option<string>, marathonFilter: Option<string>)
    returns (items: seq<Item>)
    ensures items == AllRecords(rows, env, query, marathonFilter)
    ensures Sorted(items)
  {
    items := [];
    var i := 0;
    while i < |rows|
      invariant 0 <= i <= |rows|
      invariant items == Items(rows[..i], env)
    {
      assert rows[..i + 1] == rows[..i] + [rows[i]];
      MapSnoc(rows[..i], rows[i], (p: ParticipantView) => ItemOf(p, env));
      items := items + [ItemOf(rows[i], env)];
      i := i + 1;
    }
    assert rows[..|rows|] == rows;
    items := NameFilter(items, query);
    items := MarathonFilter(items, marathonFilter);
    items := SortItems(items);
    SortItemsSpec(MarathonFilter(NameFilter(Items(rows, env), query), marathonFilter));
  }

  /** The listing holds, in key order, exactly the participants' items that pass both filters,
      each as often as it was built. */
  lemma AllRecordsSpec(rows: seq<ParticipantView>, env: RecordsEnv, query: Option<string>, marathonFilter: Option<string>, x: Item)
    ensures Sorted(AllRecords(rows, env, query, marathonFilter))
    ensures multiset(AllRecords(rows, env, query, marathonFilter)) == multiset(MarathonFilter(NameFilter(Items(rows, env), query), marathonFilter))
    ensures x in AllRecords(rows, env, query, marathonFilter) <==>
      && x in Items(rows, env)
      && (!Truthy(query) || Contains(Lower(x.name), Lower(query.value)))
      && (!Truthy(marathonFilter) || Contains(Lower(x.marathon.GetOr("")), Lower(marathonFilter.value)))
  {
    var named := NameFilter(Items(rows, env), query);
    var kept := MarathonFilter(named, marathonFilter);
    SortItemsSpec(kept);
    assert x in SortItems(kept) <==> x in multiset(SortItems(kept));
    NameFilterSpec(Items(rows, env), query, x);
    MarathonFilterSpec(named, marathonFilter, x);
  }
}
