/** The candidate alert each wearable handler commits, as a function of the
    ledger before the request. `None` means no alert is inserted. */
module Evaluators {
  import opened Records
  import opened Dedup
  import Inactivity

  /** Heart-rate check: below `minHr` is a candidate HR_LOW, otherwise above
      `maxHr` a candidate HR_HIGH; either passes through the dedup rule. */
  function HeartRateAlert(ledger: seq<Alert>, cfg: PatientConfig, userId: int, value: real, t: int)
    : (r: Option<Alert>)
    ensures (cfg.minHr as real) <= value <= (cfg.maxHr as real) ==> r.None?
    ensures value < cfg.minHr as real ==>
              (r.Some? <==> ShouldCreateAlert(ledger, userId, HrLow, t))
    ensures (cfg.minHr as real) <= value && value > cfg.maxHr as real ==>
              (r.Some? <==> ShouldCreateAlert(ledger, userId, HrHigh, t))
    ensures r.Some? ==> r.value.kind == HrLow || r.value.kind == HrHigh
    ensures r.Some? && r.value.kind == HrLow ==>
              value < cfg.minHr as real && r.value.payload == HeartRateLow(value)
    ensures r.Some? && r.value.kind == HrHigh ==>
              cfg.minHr as real <= value && value > cfg.maxHr as real
              && r.value.payload == HeartRateHigh(value)
    ensures value < cfg.minHr as real && r.Some? ==>
              r.value.kind == HrLow && r.value.payload == HeartRateLow(value)
    ensures r.Some? ==> r.value == NewAlert(ledger, userId, r.value.kind, r.value.payload, t)
  {
    if value < cfg.minHr as real then
      if ShouldCreateAlert(ledger, userId, HrLow, t)
      then Some(NewAlert(ledger, userId, HrLow, HeartRateLow(value), t)) else None
    else if value > cfg.maxHr as real then
      if ShouldCreateAlert(ledger, userId, HrHigh, t)
      then Some(NewAlert(ledger, userId, HrHigh, HeartRateHigh(value), t)) else None
    else None
  }

  /** Panic button: a pressed button always yields a BUTTON alert, whatever the
      ledger holds; a released one yields nothing. */
  function ButtonAlert(ledger: seq<Alert>, userId: int, pressed: bool, t: int): (r: Option<Alert>)
    ensures r.Some? <==> pressed
    ensures r.Some? ==> r.value == NewAlert(ledger, userId, Button, PanicPressed, t)
  {
    if pressed then Some(NewAlert(ledger, userId, Button, PanicPressed, t)) else None
  }

  /** Inactivity reported by the wristlet: a candidate only when the flag is
      present and true, then subject to the dedup rule. */
  function ReportedInactivityAlert(ledger: seq<Alert>, userId: int, detected: Option<bool>, t: int)
    : (r: Option<Alert>)
    ensures r.Some? <==> detected == Some(true) && ShouldCreateAlert(ledger, userId, Inactivity, t)
    ensures r.Some? ==> r.value == NewAlert(ledger, userId, Inactivity, InactivityByWristlet, t)
  {
    if detected == Some(true) && ShouldCreateAlert(ledger, userId, Inactivity, t)
    then Some(NewAlert(ledger, userId, Inactivity, InactivityByWristlet, t))
    else None
  }

  /** Fall report: every report is a candidate (no probability threshold),
      subject to the dedup rule. */
  function FallAlert(ledger: seq<Alert>, userId: int, probability: real, bpm: Option<real>, t: int)
    : (r: Option<Alert>)
    ensures r.Some? <==> ShouldCreateAlert(ledger, userId, Fall, t)
    ensures r.Some? ==> r.value == NewAlert(ledger, userId, Fall, FallDetected(probability, bpm), t)
  {
    if ShouldCreateAlert(ledger, userId, Fall, t)
    then Some(NewAlert(ledger, userId, Fall, FallDetected(probability, bpm), t))
    else None
  }

  /** A panic press is never suppressed: not by an open BUTTON alert, not by
      one a second old. */
  lemma ButtonNeverDeduplicated(ledger: seq<Alert>, userId: int, t: int, i: int)
    requires 0 <= i < |ledger| && InSeries(ledger[i], userId, Button)
    requires !ledger[i].resolved && ledger[i].timestamp == t
    ensures !ShouldCreateAlert(ledger, userId, Button, t)
    ensures ButtonAlert(ledger, userId, true, t).Some?
  {
  }

  /** The two inactivity paths share one series: an open INACTIVITY alert
      raised by the motion detector suppresses the wristlet's report. */
  lemma MotionAlertSuppressesReport(ledger: seq<Alert>, history: seq<IMURecord>, limitMinutes: int,
                                    sample: IMURecord, t: int)
    requires Inactivity.InactivityAlert(ledger, history, limitMinutes, sample).Some?
    ensures ReportedInactivityAlert(
              Commit(ledger, Inactivity.InactivityAlert(ledger, history, limitMinutes, sample)),
              sample.userId, Some(true), t).None?
  {
    var a := Inactivity.InactivityAlert(ledger, history, limitMinutes, sample).value;
    CommittedAlertSuppresses(ledger, a, sample.userId, Inactivity, t);
  }

  /** ... and an open one reported by the wristlet silences the motion detector. */
  lemma ReportSuppressesMotionAlert(ledger: seq<Alert>, userId: int, t: int,
                                    history: seq<IMURecord>, limitMinutes: int, sample: IMURecord)
    requires ReportedInactivityAlert(ledger, userId, Some(true), t).Some?
    requires sample.userId == userId
    ensures Inactivity.InactivityAlert(
              Commit(ledger, ReportedInactivityAlert(ledger, userId, Some(true), t)),
              history, limitMinutes, sample).None?
  {
    var ledger' := Commit(ledger, ReportedInactivityAlert(ledger, userId, Some(true), t));
    assert ledger'[|ledger|].kind == Inactivity && !ledger'[|ledger|].resolved;
    assert HasUnresolved(ledger', userId, Inactivity);
  }

  /** Unlike the wristlet's report, the motion detector applies no cooldown: an
      INACTIVITY alert resolved one second earlier does not stop a new one. */
  lemma MotionPathHasNoCooldown()
    ensures var t := 1000;
      var ledger := [Alert(1, 7, Inactivity, PatientInactive, t - 1, true)];
      var sample := IMURecord(7, 0.0, 0.0, 0.0, t);
      var history := [IMURecord(7, 0.0, 0.0, 0.0, t - 60), sample];
      && !ShouldCreateAlert(ledger, 7, Inactivity, t)
      && ReportedInactivityAlert(ledger, 7, Some(true), t).None?
      && Inactivity.InactivityAlert(ledger, history, 1, sample).Some?
  {
  }
}
