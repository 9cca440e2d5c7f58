/**
 * One run of `init`, the cycle the timer repeats: check the credentials, fetch
 * today's total, compose the bio and send it. The network, the clock and the
 * timer are not part of the model: the fetch is an input outcome, the date is a
 * month index and a day, and a run is a pure function to the trace of effects it
 * issues, in order.
 */
module Cycle {
  import opened Wrappers
  import opened Numerals
  import opened DateLabel
  import opened EnvCheck
  import opened Duration

  /** What the summaries request gave: today's hours and minutes, or an error. */
  datatype FetchOutcome = Fetched(hours: int, minutes: int) | FetchFailed

  /** The observable steps of a run. */
  datatype Effect =
    | CheckFailed(reason: string)  // `_checkEnv` threw; the run's promise rejects
    | Fetch                        // the summaries request is issued
    | Update(bio: string)          // the bio update request is issued with this text

  /** `getWakatimeTotalTime`: the formatted total, or `undefined` after a failed request. */
  function TotalOf(outcome: FetchOutcome): (t: Total)
    ensures t.Undefined? <==> outcome.FetchFailed?
    ensures outcome.Fetched? ==> t == FormatDuration(outcome.hours, outcome.minutes)
  {
    match outcome
    case Fetched(h, m) => FormatDuration(h, m)
    case FetchFailed => Undefined
  }

  /**
   * The condition guarding the update, as written:
   * `total !== null || typeof total !== "undefined" || total !== "undefined"`.
   * Whatever `total` is, one of the first two disjuncts holds.
   */
  predicate UpdateGuard(total: Total)
    ensures UpdateGuard(total)
  {
    !total.Null? || !total.Undefined? || total != Str("undefined")
  }

  const BioPreamble := "internet crawler \U{1F52D}, "

  /** Everything the bio holds before the duration. */
  const BioHead := BioPreamble + "coded "

  /**
   * The bio sent: the preamble, then `coded ${total} today(${today})`. The
   * duration's text sits between the fixed head and the date's tail.
   */
  function BioMessage(total: Total, today: string): (r: string)
    ensures |r| == |BioHead| + |TemplateText(total)| + |today| + 8
    ensures r[..|BioHead|] == BioHead
    ensures r[|BioHead|..|r| - |today| - 8] == TemplateText(total)
    ensures r[|r| - |today| - 8..] == " today(" + today + ")"
  {
    var text := TemplateText(total);
    var tail := " today(" + today + ")";
    var r := BioHead + text + tail;
    assert |tail| == |today| + 8;
    assert r[..|BioHead|] == BioHead;
    assert r[|BioHead|..|r| - |tail|] == text;
    assert r[|r| - |tail|..] == tail;
    r
  }

  /** The bio as one left-to-right concatenation of its parts. */
  lemma BioMessageText(total: Total, name: string, digits: string)
    ensures BioMessage(total, name + " " + digits) ==
              BioPreamble + ("coded " + TemplateText(total) + " today(") + name + " " + digits + ")"
  {
  }

  /** The effects of one run of `init`, in the order they happen. */
  function Run(env: Env, outcome: FetchOutcome, month: MonthIndex, day: DayOfMonth): (trace: seq<Effect>)
    ensures |trace| >= 1
    ensures trace[0].CheckFailed? <==> CheckEnv(env).Fail?
    ensures CheckEnv(env).Fail? ==> trace == [CheckFailed(CheckEnv(env).error)]
    ensures CheckEnv(env).Pass? ==>
              trace == [Fetch, Update(BioMessage(TotalOf(outcome), Today(month, day)))]
  {
    match CheckEnv(env)
    case Fail(reason) => [CheckFailed(reason)]
    case Pass =>
      var total := TotalOf(outcome);
      var today := Today(month, day);
      [Fetch] + if UpdateGuard(total) then [Update(BioMessage(total, today))] else []
  }

  /** The number of bio updates in a trace. */
  function UpdateCount(trace: seq<Effect>): (n: nat)
    ensures n <= |trace|
    ensures n == 0 <==> forall i :: 0 <= i < |trace| ==> !trace[i].Update?
  {
    if trace == [] then 0
    else UpdateCount(trace[..|trace| - 1]) + if trace[|trace| - 1].Update? then 1 else 0
  }

  /** A run whose credential check fails issues neither the fetch nor an update. */
  lemma FailedCheckIssuesNothing(env: Env, outcome: FetchOutcome, month: MonthIndex, day: DayOfMonth)
    requires CheckEnv(env).Fail?
    ensures Run(env, outcome, month, day) == [CheckFailed(CheckEnv(env).error)]
    ensures Fetch !in Run(env, outcome, month, day)
    ensures UpdateCount(Run(env, outcome, month, day)) == 0
  {
  }

  /**
   * A run whose credential check passes fetches and then sends exactly one update,
   * whatever the fetch gave: a duration, `null` or `undefined`.
   */
  lemma PassedCheckUpdatesOnce(env: Env, outcome: FetchOutcome, month: MonthIndex, day: DayOfMonth)
    requires CheckEnv(env).Pass?
    ensures Run(env, outcome, month, day) ==
              [Fetch, Update(BioMessage(TotalOf(outcome), Today(month, day)))]
    ensures UpdateCount(Run(env, outcome, month, day)) == 1
  {
    var trace := Run(env, outcome, month, day);
    assert trace[..1] == [Fetch];
  }

  /** A day with nothing logged still sends an update, with the text "null". */
  lemma ZeroDayStillUpdates(env: Env, month: MonthIndex, day: DayOfMonth)
    requires CheckEnv(env).Pass?
    ensures Run(env, Fetched(0, 0), month, day) ==
              [Fetch, Update(BioPreamble + "coded null today(" + Months[month] + " " + NatText(day) + ")")]
  {
    PassedCheckUpdatesOnce(env, Fetched(0, 0), month, day);
    BioMessageText(TotalOf(Fetched(0, 0)), Months[month], NatText(day));
    assert "coded " + "null" + " today(" == "coded null today(";
  }

  /** A failed fetch still sends an update, with the text "undefined". */
  lemma FailedFetchStillUpdates(env: Env, month: MonthIndex, day: DayOfMonth)
    requires CheckEnv(env).Pass?
    ensures Run(env, FetchFailed, month, day) ==
              [Fetch, Update(BioPreamble + "coded undefined today(" + Months[month] + " " + NatText(day) + ")")]
  {
    PassedCheckUpdatesOnce(env, FetchFailed, month, day);
    BioMessageText(TotalOf(FetchFailed), Months[month], NatText(day));
    assert "coded " + "undefined" + " today(" == "coded undefined today(";
  }

  /** The guard that skips the update when there is nothing to report: the `||` made `&&`. */
  predicate IntendedGuard(total: Total)
    ensures IntendedGuard(total) <==> total.Str? && total.text != "undefined"
  {
    !total.Null? && !total.Undefined? && total != Str("undefined")
  }

  /** A run with the intended formatter and the intended guard. */
  function RunIntended(env: Env, outcome: FetchOutcome, month: MonthIndex, day: DayOfMonth): (trace: seq<Effect>)
    ensures |trace| >= 1
    ensures trace[0].CheckFailed? <==> CheckEnv(env).Fail?
  {
    match CheckEnv(env)
    case Fail(reason) => [CheckFailed(reason)]
    case Pass =>
      var total := match outcome
        case Fetched(h, m) => FormatDurationIntended(h, m)
        case FetchFailed => Undefined;
      var today := Today(month, day);
      [Fetch] + if IntendedGuard(total) then [Update(BioMessage(total, today))] else []
  }

  /**
   * The intended run sends an update exactly when the check passes and the fetch
   * gave some time to report, and then the bio holds that duration's text.
   */
  lemma IntendedUpdatesOnlyWithDuration(env: Env, outcome: FetchOutcome, month: MonthIndex, day: DayOfMonth)
    ensures UpdateCount(RunIntended(env, outcome, month, day)) ==
              if CheckEnv(env).Pass? && outcome.Fetched? && (outcome.hours > 0 || outcome.minutes != 0) then 1 else 0
    ensures CheckEnv(env).Pass? && outcome.Fetched? && (outcome.hours > 0 || outcome.minutes != 0) ==>
              RunIntended(env, outcome, month, day) ==
                [Fetch, Update(BioMessage(FormatDurationIntended(outcome.hours, outcome.minutes), Today(month, day)))]
  {
    var trace := RunIntended(env, outcome, month, day);
    if CheckEnv(env).Pass? {
      assert trace[..1] == [Fetch];
      if outcome.Fetched? {
        var t := FormatDurationIntended(outcome.hours, outcome.minutes);
        if t.Str? {
          // A duration's text ends in 'h' or 'm', never in the 'd' of "undefined".
          assert t.text[|t.text| - 1] != "undefined"[8];
        }
      }
    }
  }

  /** The as-written run sends "null" on a zero day where the intended run sends nothing. */
  lemma AsWrittenUpdatesOnZeroDay(env: Env, month: MonthIndex, day: DayOfMonth)
    requires CheckEnv(env).Pass?
    ensures UpdateCount(Run(env, Fetched(0, 0), month, day)) == 1
    ensures UpdateCount(RunIntended(env, Fetched(0, 0), month, day)) == 0
  {
    PassedCheckUpdatesOnce(env, Fetched(0, 0), month, day);
    IntendedUpdatesOnlyWithDuration(env, Fetched(0, 0), month, day);
  }
}
