/** The prediction service (`webapp/services/prediction.py`): whether a runner has finished,
    and the shape of the prediction shown for a participant. Distances and paces are floats
    in the service; the rules built on them enter here as functions. */
module Prediction {
  import opened Wrappers
  import opened Text
  import opened Lists
  import opened Shapes
  import opened FinishLabels
  import Records

  // ---------------------------------------------------------------- finish status

  /** The dictionary `check_finish_status` returns. */
  datatype FinishStatus = FinishStatus(
    finished: bool,
    finishPoint: Option<string>,
    finishNet: Option<string>,
    finishClock: Option<string>)

  const NotFinished := FinishStatus(false, None, None, None)

  /** The distance rules of the second and third priority, already bound to the total
      distance: a split close enough to the (snapped) target distance, and a last split past
      90% of a positive total. */
  datatype DistanceRules = DistanceRules(nearTarget: SplitDict -> bool, pastNinetyPercent: SplitDict -> bool)

  /** The finished status a split gives when its stripped net time or pass clock looks like a
      time; each of the two is kept only when it does. */
  function StatusOf(row: SplitDict, looksTime: string -> bool): (r: Option<FinishStatus>)
    ensures r.Some? <==> looksTime(Records.Stripped(row.netTime)) || looksTime(Records.Stripped(row.passClock))
  {
    var net := Records.Stripped(row.netTime);
    var clk := Records.Stripped(row.passClock);
    if looksTime(net) || looksTime(clk) then
      Some(FinishStatus(true, row.pointLabel, if looksTime(net) then Some(net) else None, if looksTime(clk) then Some(clk) else None))
    else None
  }

  function IsFinishRow(v: Vocabulary): SplitDict -> bool
  {
    (s: SplitDict) => IsFinishLabel(s.pointLabel, v)
  }

  function NearAndTimed(rules: DistanceRules, looksTime: string -> bool): SplitDict -> bool
  {
    (s: SplitDict) => rules.nearTarget(s) && StatusOf(s, looksTime).Some?
  }

  /** The first priority: the status of the last finish-labelled split, if there is one. */
  function FinishRowStatus(splits: seq<SplitDict>, v: Vocabulary, looksTime: string -> bool): Option<FinishStatus>
  {
    var finishRows := Filter(splits, IsFinishRow(v));
    if finishRows != [] then StatusOf(finishRows[|finishRows| - 1], looksTime) else None
  }

  /** `check_finish_status`: first the last finish-labelled split, when it carries a time;
      then, from the end, the first split near the target distance that carries a time; then
      the last split when it is past 90% and carries a time; else not finished. */
  function CheckFinishStatus(splits: seq<SplitDict>, v: Vocabulary, looksTime: string -> bool, rules: DistanceRules): (r: FinishStatus)
    ensures !r.finished ==> r == NotFinished
    ensures r.finished ==> r.finishNet.Some? || r.finishClock.Some?
    ensures r.finishNet.Some? ==> looksTime(r.finishNet.value)
    ensures r.finishClock.Some? ==> looksTime(r.finishClock.value)
  {
    if splits == [] then NotFinished
    else
      var first := FinishRowStatus(splits, v, looksTime);
      if first.Some? then first.value
      else
        match LastIndexWhere(splits, NearAndTimed(rules, looksTime))
        case Some(i) => StatusOf(splits[i], looksTime).value
        case None =>
          var last := splits[|splits| - 1];
          if rules.pastNinetyPercent(last) && StatusOf(last, looksTime).Some? then StatusOf(last, looksTime).value
          else NotFinished
  }

  /** No splits: not finished, with no point, net time or clock. */
  lemma NoSplitsNotFinished(v: Vocabulary, looksTime: string -> bool, rules: DistanceRules)
    ensures CheckFinishStatus([], v, looksTime, rules) == FinishStatus(false, None, None, None)
  {
  }

  /** The first priority: when the last finish-labelled split carries a time, the runner has
      finished there, whatever the distance rules say; its net time and clock are reported
      exactly when they look like times. */
  lemma LastFinishRowDecides(splits: seq<SplitDict>, v: Vocabulary, looksTime: string -> bool, rules: DistanceRules, k: nat)
    requires k < |splits| && IsFinishLabel(splits[k].pointLabel, v)
    requires forall j :: k < j < |splits| ==> !IsFinishLabel(splits[j].pointLabel, v)
    requires looksTime(Records.Stripped(splits[k].netTime)) || looksTime(Records.Stripped(splits[k].passClock))
    ensures var r := CheckFinishStatus(splits, v, looksTime, rules);
      && r.finished
      && r.finishPoint == splits[k].pointLabel
      && (r.finishNet.Some? <==> looksTime(Records.Stripped(splits[k].netTime)))
      && (r.finishNet.Some? ==> r.finishNet.value == Records.Stripped(splits[k].netTime))
      && (r.finishClock.Some? <==> looksTime(Records.Stripped(splits[k].passClock)))
      && (r.finishClock.Some? ==> r.finishClock.value == Records.Stripped(splits[k].passClock))
  {
    LastWhereAt(splits, IsFinishRow(v), k);
    assert FinishRowStatus(splits, v, looksTime) == StatusOf(splits[k], looksTime);
  }

  /** With no finish-labelled split, the distance rules alone decide; whatever finishes the
      runner is a split that carries a time. */
  lemma WithoutFinishLabel(splits: seq<SplitDict>, v: Vocabulary, looksTime: string -> bool, rules: DistanceRules)
    requires forall j :: 0 <= j < |splits| ==> !IsFinishLabel(splits[j].pointLabel, v)
    ensures var r := CheckFinishStatus(splits, v, looksTime, rules);
      r.finished ==> exists j :: 0 <= j < |splits| && Some(r) == StatusOf(splits[j], looksTime)
                                 && (rules.nearTarget(splits[j]) || (j == |splits| - 1 && rules.pastNinetyPercent(splits[j])))
  {
    if splits != [] {
      FilterLast(splits, IsFinishRow(v));
    }
  }

  // ---------------------------------------------------------------- prediction

  /** What `calculate_prediction` returns: the waiting marker, the finished result, the
      running result without a usable pace, or the running result with its predictions. */
  datatype Prediction =
    | Waiting
    | Finished(finishPoint: string, finishEta: string, finishNetPred: string, displayPointTime: string)
    | RunningNoPace
    | Running(runningEta: Option<string>, finishNetPred: string)

  /** The `status_text` of each result. */
  function StatusText(p: Prediction): string
  {
    match p
    case Waiting => "대기중"
    case Finished(_, _, _, _) => "완주"
    case RunningNoPace => "주행중"
    case Running(_, _) => "주행중"
  }

  /** The float computations of the running case: the pace in seconds per km (the last
      split's, else the average, None when neither exists), the seconds still to run at that
      pace, `eta_from_clock` and `sec_from_mmss`. */
  datatype RunningModel = RunningModel(
    paceOf: seq<SplitDict> -> Option<real>,
    remainingSeconds: (seq<SplitDict>, real) -> int,
    etaFromClock: (string, int) -> Option<string>,
    secFromMmss: string -> Option<int>)

  /** The split of `n` seconds into hours, minutes and seconds by floor division, as Python's
      `//` and `%` by a positive divisor compute it. */
  function Hours(n: int): int { n / 3600 }
  function Minutes(n: int): (r: nat) ensures r < 60 { (n % 3600) / 60 }
  function Seconds(n: int): (r: nat) ensures r < 60 { n % 60 }

  /** The predicted net time: "h:mm:ss" with a positive hour, else "mm:ss". */
  function FormatNet(n: int): string
  {
    if Hours(n) > 0 then NatToString(Hours(n)) + ":" + Pad2(Minutes(n)) + ":" + Pad2(Seconds(n))
    else Pad2(Minutes(n)) + ":" + Pad2(Seconds(n))
  }

  /** The three components put back together give the number. */
  lemma SplitSeconds(n: int)
    ensures n == Hours(n) * 3600 + Minutes(n) * 60 + Seconds(n)
    ensures 0 <= n ==> 0 <= Hours(n)
    ensures 0 <= n < 3600 ==> Hours(n) == 0
  {
    var r := n % 3600;
    assert n == (n / 3600) * 3600 + r;
    assert r == (r / 60) * 60 + r % 60;
    Mod60(60 * (n / 3600), r);
  }

  lemma Mod60(k: int, r: int)
    ensures (60 * k + r) % 60 == r % 60
  {
  }

  lemma Pad2Solid(n: nat)
    requires n < 100
    ensures Records.ColonFree(Pad2(n)) && Records.SolidStart(Pad2(n)) && Records.SolidEnd(Pad2(n))
  {
    var p := Pad2(n);
    assert IsDigit(p[0]) && IsDigit(p[1]);
  }

  lemma NatToStringSolid(n: nat)
    ensures Records.ColonFree(NatToString(n)) && Records.SolidStart(NatToString(n)) && Records.SolidEnd(NatToString(n))
  {
    var p := NatToString(n);
    assert IsDigit(p[0]) && IsDigit(p[|p| - 1]);
  }

  lemma HmsText(h: nat, m: nat, s: nat, total: int)
    requires m < 60 && s < 60 && total == h * 3600 + m * 60 + s
    ensures Records.Sec(Some(NatToString(h) + ":" + Pad2(m) + ":" + Pad2(s))) == Some(total)
  {
    Pad2Solid(m);
    Pad2Solid(s);
    NatToStringSolid(h);
    ParseIntPad2(m);
    ParseIntPad2(s);
    ParseIntNatToString(h);
    Records.SecOfHms(NatToString(h), Pad2(m), Pad2(s), h, m, s, total);
  }

  lemma MsText(m: nat, s: nat, total: int)
    requires m < 60 && s < 60 && total == m * 60 + s
    ensures Records.Sec(Some(Pad2(m) + ":" + Pad2(s))) == Some(total)
  {
    Pad2Solid(m);
    Pad2Solid(s);
    ParseIntPad2(m);
    ParseIntPad2(s);
    Records.SecOfMs(Pad2(m), Pad2(s), m, s, total);
  }

  /** A predicted net time of a non-negative number of seconds reads back, through the records
      service's `_sec`, as that number. */
  lemma FormatNetRoundTrip(n: int)
    requires n >= 0
    ensures Records.Sec(Some(FormatNet(n))) == Some(n)
  {
    SplitSeconds(n);
    if Hours(n) > 0 {
      HmsText(Hours(n), Minutes(n), Seconds(n), n);
    } else {
      MsText(Minutes(n), Seconds(n), n);
    }
  }

  /** Below an hour the time is "mm:ss"; from an hour on it has three parts. */
  lemma FormatNetShape(n: int)
    ensures |FormatNet(n)| >= 5
    ensures 0 <= n < 3600 ==> |FormatNet(n)| == 5
    ensures n >= 3600 ==> FormatNet(n)[|FormatNet(n)| - 6] == ':'
  {
    SplitSeconds(n);
    if n >= 3600 {
      assert Hours(n) >= 1;
    }
  }

  /** `calculate_prediction`: waiting without splits; the finished result (point defaulting
      to "완주", the ETA "완주 @ clock" or "완주", the displayed time the net time else the
      clock); the running result without a pace; else the running result whose net time is
      the last net time plus the seconds still to run. */
  function CalculatePrediction(splits: seq<SplitDict>, v: Vocabulary, looksTime: string -> bool, rules: DistanceRules, model: RunningModel): Prediction
  {
    if splits == [] then Waiting
    else
      var check := CheckFinishStatus(splits, v, looksTime, rules);
      if check.finished then FinishedPrediction(check)
      else RunningPrediction(splits, looksTime, model)
  }

  /** The finished branch of `calculate_prediction`, from the finish status. */
  function FinishedPrediction(check: FinishStatus): Prediction
  {
    var net := check.finishNet.GetOr("");
    var clk := check.finishClock.GetOr("");
    Finished(
      if Truthy(check.finishPoint) then check.finishPoint.value else "완주",
      if clk != "" then "완주 @ " + clk else "완주",
      net,
      if net != "" then net else clk)
  }

  /** The running branch of `calculate_prediction`, for a non-empty split list. */
  function RunningPrediction(splits: seq<SplitDict>, looksTime: string -> bool, model: RunningModel): Prediction
    requires splits != []
  {
    var last := splits[|splits| - 1];
    match model.paceOf(splits)
    case None => RunningNoPace
    case Some(pace) =>
      var delta := model.remainingSeconds(splits, pace);
      var baseClock := Records.Stripped(last.passClock);
      Running(if looksTime(baseClock) then model.etaFromClock(baseClock, delta) else None, FormatNet(PredictedNet(splits, model)))
  }

  /** The predicted net seconds: the last net time read as seconds (0 when unreadable) plus
      the seconds still to run at the current pace. */
  function PredictedNet(splits: seq<SplitDict>, model: RunningModel): int
    requires splits != [] && model.paceOf(splits).Some?
  {
    var lastNet := match model.secFromMmss(splits[|splits| - 1].netTime.GetOr("")) case Some(x) => x case None => 0;
    lastNet + model.remainingSeconds(splits, model.paceOf(splits).value)
  }

  /** The result waits exactly when there are no splits, and is finished exactly when the
      finish status says so. */
  lemma PredictionCases(splits: seq<SplitDict>, v: Vocabulary, looksTime: string -> bool, rules: DistanceRules, model: RunningModel)
    ensures var p := CalculatePrediction(splits, v, looksTime, rules, model);
      && (p.Waiting? <==> splits == [])
      && (p.Finished? <==> splits != [] && CheckFinishStatus(splits, v, looksTime, rules).finished)
      && (p.RunningNoPace? <==> splits != [] && !CheckFinishStatus(splits, v, looksTime, rules).finished && model.paceOf(splits).None?)
      && (splits != [] && !CheckFinishStatus(splits, v, looksTime, rules).finished ==> p == RunningPrediction(splits, looksTime, model))
  {
  }

  /** A finished result names a non-empty point, shows an ETA that is "완주" alone exactly
      when no clock is known, and displays the net time when there is one and the clock
      when not; the displayed time is one of the two and looks like a time. */
  lemma FinishedShape(splits: seq<SplitDict>, v: Vocabulary, looksTime: string -> bool, rules: DistanceRules, model: RunningModel)
    requires CalculatePrediction(splits, v, looksTime, rules, model).Finished?
    ensures var p := CalculatePrediction(splits, v, looksTime, rules, model);
      var check := CheckFinishStatus(splits, v, looksTime, rules);
      && p.finishPoint != ""
      && (Truthy(check.finishPoint) ==> p.finishPoint == check.finishPoint.value)
      && (p.finishEta == "완주" <==> check.finishClock.GetOr("") == "")
      && (check.finishClock.GetOr("") != "" ==> p.finishEta == "완주 @ " + check.finishClock.value)
      && p.finishNetPred == check.finishNet.GetOr("")
      && (p.displayPointTime == p.finishNetPred || p.displayPointTime == check.finishClock.GetOr(""))
      && (p.displayPointTime != "" ==> looksTime(p.displayPointTime))
  {
    var check := CheckFinishStatus(splits, v, looksTime, rules);
    var clk := check.finishClock.GetOr("");
    if clk != "" {
      assert |"완주 @ " + clk| > |"완주"|;
    }
  }

  /** A running prediction shows the last net time plus the seconds still to run, and has
      an ETA only when the last clock time looks like a time. */
  lemma RunningFields(splits: seq<SplitDict>, looksTime: string -> bool, model: RunningModel)
    requires splits != [] && RunningPrediction(splits, looksTime, model).Running?
    ensures var last := splits[|splits| - 1];
      var lastNet := model.secFromMmss(last.netTime.GetOr("")).GetOr(0);
      var p := RunningPrediction(splits, looksTime, model);
      && model.paceOf(splits).Some?
      && p.finishNetPred == FormatNet(lastNet + model.remainingSeconds(splits, model.paceOf(splits).value))
      && (!looksTime(Records.Stripped(last.passClock)) ==> p.runningEta.None?)
  {
  }

  /** A running prediction with a non-negative predicted net time shows that number of
      seconds, as the records service would read it back. */
  lemma RunningNetTime(splits: seq<SplitDict>, looksTime: string -> bool, model: RunningModel, total: int)
    requires splits != [] && RunningPrediction(splits, looksTime, model).Running?
    requires model.paceOf(splits).Some?
    requires total == model.secFromMmss(splits[|splits| - 1].netTime.GetOr("")).GetOr(0) + model.remainingSeconds(splits, model.paceOf(splits).value)
    requires total >= 0
    ensures Records.Sec(Some(RunningPrediction(splits, looksTime, model).finishNetPred)) == Some(total)
  {
    assert PredictedNet(splits, model) == total;
    FormatNetRoundTrip(total);
  }
}
