/** The participant admin service (`webapp/services/participant.py`): validation and SPCT
    normalisation of a new participant's bib, the whitelisted partial update, and the detail
    view's source URL and prediction input. The database enters as the marathon looked up for
    the normalisation, a function for each statement, and the joined row of the detail view. */
module ParticipantService {
  import opened Wrappers
  import opened Text
  import opened Lists
  import opened Shapes
  import opened FinishLabels
  import opened FieldUpdates
  import Urls
  import EngineRules
  import Prediction

  const BibRequired := "참가번호/이름은 필수입니다"
  const AlreadyRegistered := "이미 등록된 참가자입니다"
  const UniqueFailure := "UNIQUE constraint failed"

  // ---------------------------------------------------------------- SPCT normalisation

  /** The `url_template` row of the marathon, or no row. */
  datatype MarathonLookup = NoMarathon | Found(urlTemplate: Option<string>)

  /** The template's host, lower-cased, contains "spct". */
  predicate SpctHost(m: MarathonLookup)
  {
    m.Found? && Contains(Lower(Urls.HostOf(m.urlTemplate.GetOr(""))), "spct")
  }

  /** `_normalize_bib_for_spct`: an all-digit bib of an SPCT marathon is zero-padded to six
      digits; any other bib, and any bib when the marathon is missing, is kept. */
  function NormalizeBibForSpct(m: MarathonLookup, bib: string): string
  {
    match m
    case NoMarathon => bib
    case Found(template) =>
      var host := Lower(Urls.HostOf(template.GetOr("")));
      if Contains(host, "spct") && IsDigits(bib) then ZFill(bib, 6) else bib
  }

  /** The bib changes only for an all-digit bib of an SPCT marathon, and then becomes the
      crawler's six-digit form of it: digits, at least six of them, ending in the bib, with
      only zeros in front. */
  lemma NormalizeSpec(m: MarathonLookup, bib: string)
    ensures var r := NormalizeBibForSpct(m, bib);
      && (SpctHost(m) && IsDigits(bib) ==> r == EngineRules.Bib6(bib) && IsDigits(r) && |r| >= 6 && EndsWith(r, bib))
      && (!(SpctHost(m) && IsDigits(bib)) ==> r == bib)
  {
    if SpctHost(m) && IsDigits(bib) {
      ZFillDigitsIdempotent(bib, 6);
    }
  }

  /** Normalising a normalised bib changes nothing. */
  lemma NormalizeIdempotent(m: MarathonLookup, bib: string)
    ensures NormalizeBibForSpct(m, NormalizeBibForSpct(m, bib)) == NormalizeBibForSpct(m, bib)
  {
    if SpctHost(m) && IsDigits(bib) {
      ZFillDigitsIdempotent(bib, 6);
    }
  }

  // ---------------------------------------------------------------- create

  /** The columns `create_participant` inserts into `participants`. */
  datatype NewParticipant = NewParticipant(marathonId: int, alias: Option<string>, nameorbibno: string, active: int)

  datatype CreateResult = Created(participantId: int, normalizedBib: string) | CreateFailed(error: string)

  predicate BlankBib(nameorbibno: Option<string>)
  {
    !Truthy(nameorbibno) || Strip(nameorbibno.value) == ""
  }

  /** The bib that is stored: stripped, then normalised. */
  function StoredBib(m: MarathonLookup, nameorbibno: Option<string>): string
    requires !BlankBib(nameorbibno)
  {
    NormalizeBibForSpct(m, Strip(nameorbibno.value))
  }

  /** The message of a failed insert: a UNIQUE violation means the participant exists. */
  function InsertError(typeName: string, message: string): (r: string)
    ensures Contains(message, UniqueFailure) ==> r == AlreadyRegistered
    ensures !Contains(message, UniqueFailure) ==> r == ExceptionText(typeName, message)
  {
    if Contains(message, UniqueFailure) then AlreadyRegistered else ExceptionText(typeName, message)
  }

  /** `create_participant`: a blank bib is refused; otherwise the stripped, normalised bib is
      inserted, active, with the stripped alias or None. */
  function CreateParticipant(marathonId: int, nameorbibno: Option<string>, alias: Option<string>, m: MarathonLookup, insert: NewParticipant -> DbResult<int>): CreateResult
  {
    if BlankBib(nameorbibno) then CreateFailed(BibRequired)
    else
      var bib := StoredBib(m, nameorbibno);
      match insert(NewParticipant(marathonId, StripOrNone(alias), bib, 1))
      case DbOk(id) => Created(id, bib)
      case DbRaised(t, msg) => CreateFailed(InsertError(t, msg))
  }

  /** A blank bib is refused before the database is touched. */
  lemma CreateBlankRefused(marathonId: int, nameorbibno: Option<string>, alias: Option<string>, m: MarathonLookup,
                           insert1: NewParticipant -> DbResult<int>, insert2: NewParticipant -> DbResult<int>)
    requires BlankBib(nameorbibno)
    ensures CreateParticipant(marathonId, nameorbibno, alias, m, insert1) == CreateParticipant(marathonId, nameorbibno, alias, m, insert2) == CreateFailed(BibRequired)
  {
  }

  /** The stored bib is non-empty and has no whitespace at its ends, and is normalised. */
  lemma StoredBibClean(m: MarathonLookup, nameorbibno: Option<string>)
    requires !BlankBib(nameorbibno)
    ensures StoredBib(m, nameorbibno) != ""
    ensures Strip(StoredBib(m, nameorbibno)) == StoredBib(m, nameorbibno)
    ensures NormalizeBibForSpct(m, StoredBib(m, nameorbibno)) == StoredBib(m, nameorbibno)
  {
    StoredBibNonEmpty(m, nameorbibno);
    StoredBibStripped(m, nameorbibno);
    NormalizeIdempotent(m, Strip(nameorbibno.value));
  }

  lemma StoredBibNonEmpty(m: MarathonLookup, nameorbibno: Option<string>)
    requires !BlankBib(nameorbibno)
    ensures StoredBib(m, nameorbibno) != ""
  {
    NormalizeCases(m, Strip(nameorbibno.value));
  }

  lemma StoredBibStripped(m: MarathonLookup, nameorbibno: Option<string>)
    requires !BlankBib(nameorbibno)
    ensures Strip(StoredBib(m, nameorbibno)) == StoredBib(m, nameorbibno)
  {
    var s := Strip(nameorbibno.value);
    NormalizeCases(m, s);
    if SpctHost(m) && IsDigits(s) {
      ZFillDigitsIdempotent(s, 6);
      DigitsAreNotSpace(ZFill(s, 6));
    } else {
      StripIdempotent(nameorbibno.value);
    }
  }

  /** The two outcomes of the normalisation, by the SPCT test. */
  lemma NormalizeCases(m: MarathonLookup, bib: string)
    ensures SpctHost(m) && IsDigits(bib) ==> NormalizeBibForSpct(m, bib) == ZFill(bib, 6)
    ensures !(SpctHost(m) && IsDigits(bib)) ==> NormalizeBibForSpct(m, bib) == bib
  {
  }

  /** The outcome of a non-blank create: the id and the stored bib exactly when the insert of
      that row succeeds; a UNIQUE violation reads "already registered"; any other exception
      gives its type and message. */
  lemma CreateOutcome(marathonId: int, nameorbibno: Option<string>, alias: Option<string>, m: MarathonLookup, insert: NewParticipant -> DbResult<int>)
    requires !BlankBib(nameorbibno)
    ensures var row := NewParticipant(marathonId, StripOrNone(alias), StoredBib(m, nameorbibno), 1);
      var r := CreateParticipant(marathonId, nameorbibno, alias, m, insert);
      && (r.Created? <==> insert(row).DbOk?)
      && (r.Created? ==> r == Created(insert(row).result, row.nameorbibno))
      && (insert(row).DbRaised? && Contains(insert(row).message, UniqueFailure) ==> r == CreateFailed(AlreadyRegistered))
      && (insert(row).DbRaised? && !Contains(insert(row).message, UniqueFailure) ==> r == CreateFailed(ExceptionText(insert(row).typeName, insert(row).message)))
  {
  }

  // ---------------------------------------------------------------- update

  const AllowedFields := {"alias", "nameorbibno", "active"}

  /** `update_participant` checks no value. */
  function AcceptAll(key: string, value: Value): FieldCheck
  {
    Accept
  }

  /** What `update_participant` does: no allowed field is an error; else the SET clauses of
      the allowed keys and their values followed by the id. */
  function UpdatePlan(id: int, updates: seq<Entry>): Plan
  {
    match Collect(updates, AllowedFields, AcceptAll)
    case Stopped(_) => Raise
    case Collected(fields, values) =>
      if fields == [] then Refuse(NoFieldsError)
      else Execute(UpdateSql("participants", fields), values + [VInt(id)])
  }

  /** `update_participant`. */
  method UpdateParticipant(id: int, updates: seq<Entry>, exec: (string, seq<Value>) -> DbResult<()>) returns (r: UpdateResult)
    ensures r == RunPlan(UpdatePlan(id, updates), exec)
  {
    var collected := CollectFields(updates, AllowedFields, AcceptAll);
    if collected.Stopped? {
      return UpdateRaised;
    }
    if collected.fields == [] {
      return UpdateFailed(NoFieldsError);
    }
    var outcome := exec(UpdateSql("participants", collected.fields), collected.values + [VInt(id)]);
    if outcome.DbOk? {
      return Updated;
    }
    return UpdateFailed(ExceptionText(outcome.typeName, outcome.message));
  }

  /** The participant update never raises: it sets exactly the allowed keys present, in call
      order, with their values and then the id, and is refused exactly when none is present. */
  lemma UpdateStatement(id: int, updates: seq<Entry>)
    ensures var kept := Filter(updates, IsAllowed(AllowedFields));
      var plan := UpdatePlan(id, updates);
      && (kept == [] ==> plan == Refuse(NoFieldsError))
      && (kept != [] ==> plan == Execute(UpdateSql("participants", Map(kept, ClauseOf)), Map(kept, ValueOf) + [VInt(id)]))
      && (plan.Execute? ==> |plan.values| == |kept| + 1 && plan.values[|plan.values| - 1] == VInt(id))
  {
    CollectAllAccepted(updates, AllowedFields, AcceptAll);
  }

  // ---------------------------------------------------------------- detail view

  /** The source URL of the detail view: `{nameorbibno}` and `{usedata}` are substituted in
      the template, a missing template or event code counting as "". */
  function DetailUrl(template: Option<string>, nameorbibno: string, usedata: Option<string>): string
  {
    Replace(Replace(template.GetOr(""), "{nameorbibno}", nameorbibno), "{usedata}", usedata.GetOr(""))
  }

  /** Where no `{bib_spct6}` is left after the substitutions, the detail URL is the crawler's. */
  lemma DetailUrlIsCrawlerUrl(template: Option<string>, nameorbibno: string, usedata: Option<string>)
    requires !Contains(DetailUrl(template, nameorbibno, usedata), "{bib_spct6}")
    ensures DetailUrl(template, nameorbibno, usedata) == EngineRules.BuildUrl(template.GetOr(""), nameorbibno, usedata.GetOr(""))
  {
  }

  /** The identifier and the event code are substituted; a missing event code leaves nothing
      in place of `{usedata}`. */
  lemma DetailUrlSubstitutes(a: string, b: string, c: string, id: string, usedata: string)
    requires '{' !in a && '{' !in b && '{' !in c && '{' !in id && '{' !in usedata
    ensures DetailUrl(Some(a + "{nameorbibno}" + b + "{usedata}" + c), id, Some(usedata)) == a + id + b + usedata + c
    ensures DetailUrl(Some(a + "{nameorbibno}" + b + "{usedata}" + c), id, None) == a + id + b + c
  {
    EngineRules.BuildUrlIdentifierAndEvent(a, b, c, id, usedata);
    EngineRules.BuildUrlIdentifierAndEvent(a, b, c, id, "");
    assert a + id + b + "" + c == a + id + b + c;
  }

  /** A missing event code is the empty one. */
  lemma DetailUrlNoneIsEmpty(template: Option<string>, id: string)
    ensures DetailUrl(template, id, None) == DetailUrl(template, id, Some(""))
  {
  }

  /** Unlike the crawler, the detail view leaves `{bib_spct6}` in place. */
  lemma DetailUrlKeepsSpct6(a: string, b: string, id: string, usedata: string)
    requires '{' !in a && '{' !in b
    ensures DetailUrl(Some(a + "{bib_spct6}" + b), id, Some(usedata)) == a + "{bib_spct6}" + b
  {
    var sp := "{bib_spct6}";
    assert a + sp + b == a + (sp + b);
    EngineRules.ReplacePrefixFree(a, sp + b, "{nameorbibno}", id);
    EngineRules.OtherPlaceholderKept(sp, b, "{nameorbibno}", id);
    EngineRules.ReplacePrefixFree(a, sp + b, "{usedata}", usedata);
    EngineRules.OtherPlaceholderKept(sp, b, "{usedata}", usedata);
  }

  /** The joined participant and marathon row of the detail view. */
  datatype JoinedParticipant = JoinedParticipant(
    nameorbibno: string,
    raceTotalKm: Option<real>,
    totalDistanceKm: Option<real>,
    urlTemplate: Option<string>,
    usedata: Option<string>)

  /** `p['race_total_km'] or p['total_distance_km']`: a zero race distance counts as absent. */
  function PredictionDistance(p: JoinedParticipant): (r: Option<real>)
    ensures p.raceTotalKm.Some? && p.raceTotalKm.value != 0.0 ==> r == p.raceTotalKm
    ensures (p.raceTotalKm.None? || p.raceTotalKm.value == 0.0) ==> r == p.totalDistanceKm
  {
    if p.raceTotalKm.Some? && p.raceTotalKm.value != 0.0 then p.raceTotalKm else p.totalDistanceKm
  }

  /** What `get_participant_data` returns: an error without a row; else the row, the splits in
      id order, the prediction for the race distance, and the detail URL. */
  datatype ParticipantData =
    | ParticipantNotFound
    | ParticipantData(participant: JoinedParticipant, splits: seq<SplitDict>, prediction: Prediction.Prediction, url: string)

  /** The prediction service for a given total distance (its float rules bound to it). */
  datatype Predictor = Predictor(
    vocabulary: Vocabulary,
    looksTime: string -> bool,
    rulesFor: Option<real> -> Prediction.DistanceRules,
    modelFor: Option<real> -> Prediction.RunningModel)

  function GetParticipantData(row: Option<JoinedParticipant>, splits: seq<SplitDict>, pred: Predictor): (r: ParticipantData)
    ensures r == ParticipantNotFound <==> row.None?
  {
    match row
    case None => ParticipantNotFound
    case Some(p) =>
      var d := PredictionDistance(p);
      ParticipantData(p, splits,
        Prediction.CalculatePrediction(splits, pred.vocabulary, pred.looksTime, pred.rulesFor(d), pred.modelFor(d)),
        DetailUrl(p.urlTemplate, p.nameorbibno, p.usedata))
  }

  /** The detail view waits exactly when the participant has no splits, shows the finish
      exactly when the finish status for the chosen distance says so, and links the
      substituted template. */
  lemma ParticipantDataSpec(p: JoinedParticipant, splits: seq<SplitDict>, pred: Predictor)
    ensures var r := GetParticipantData(Some(p), splits, pred);
      var d := PredictionDistance(p);
      && r.ParticipantData? && r.splits == splits
      && (r.prediction.Waiting? <==> splits == [])
      && (r.prediction.Finished? <==> splits != [] && Prediction.CheckFinishStatus(splits, pred.vocabulary, pred.looksTime, pred.rulesFor(d)).finished)
      && r.url == DetailUrl(p.urlTemplate, p.nameorbibno, p.usedata)
  {
    var d := PredictionDistance(p);
    Prediction.PredictionCases(splits, pred.vocabulary, pred.looksTime, pred.rulesFor(d), pred.modelFor(d));
  }
}
