/** Record shapes, defaults and constants of the alert engine.

    Timestamps are whole seconds on the UTC time line. Heart-rate values and
    accelerometer axes are `real` (exact rationals, not IEEE doubles). */
module Records {

  datatype Option<T> = None | Some(value: T)

  /** The five alert types stored in the ledger. */
  datatype AlertKind = Fall | Inactivity | HrHigh | HrLow | Button

  /** What an alert's message reports, kept abstract instead of the formatted text. */
  datatype Payload =
    | HeartRateLow(value: real)                          // "Heart rate low: {value}"
    | HeartRateHigh(value: real)                         // "Heart rate high: {value}"
    | PatientInactive                                    // "Patient inactive"
    | InactivityByWristlet                               // "Patient inactivity detected by wristlet"
    | PanicPressed                                       // "Panic button pressed"
    | FallDetected(probability: real, bpm: Option<real>) // "Fall detected (p=..[, bpm=..])"

  /** One row of the alert table; `resolved` is `is_resolved`. */
  datatype Alert = Alert(id: int, userId: int, kind: AlertKind, payload: Payload,
                         timestamp: int, resolved: bool)

  /** One accelerometer sample (the gyroscope fields take no part in any decision). */
  datatype IMURecord = IMURecord(userId: int, x: real, y: real, z: real, timestamp: int)

  datatype HRRecord = HRRecord(userId: int, value: real, timestamp: int)

  /** Per-patient thresholds. */
  datatype PatientConfig = PatientConfig(minHr: int, maxHr: int, inactivityLimitMinutes: int)

  /** A caregiver's partial threshold update: only the fields present are written. */
  datatype ThresholdUpdate = ThresholdUpdate(minHr: Option<int>, maxHr: Option<int>,
                                             inactivityLimitMinutes: Option<int>)

  /** What a request handler answers: 400, 404, 201 or 200. */
  datatype Reply = BadRequest | NotFound | Created | Ok

  /** Column defaults of a fresh patient profile. */
  const DefaultConfig := PatientConfig(40, 120, 30)

  /** Minimum spacing, in seconds, between two alerts of one type for one user. */
  const AlertCooldown: int := 180

  /** An axis delta strictly above this counts as movement. */
  const MotionThreshold: real := 1.0

  /** The request's timestamp: the parsed one, or `now` when it was absent or
      could not be parsed. */
  function Stamp(parsed: Option<int>, now: int): (t: int)
    ensures parsed.Some? ==> t == parsed.value
    ensures parsed.None? ==> t == now
  {
    match parsed
    case Some(v) => v
    case None => now
  }

  /** The alert a handler inserts: the next primary key, and unresolved. */
  function NewAlert(ledger: seq<Alert>, userId: int, kind: AlertKind, payload: Payload, t: int): Alert
  {
    Alert(|ledger| + 1, userId, kind, payload, t, false)
  }

  /** The ledger after committing the candidate, if there is one. */
  function Commit(ledger: seq<Alert>, candidate: Option<Alert>): seq<Alert>
  {
    if candidate.Some? then ledger + [candidate.value] else ledger
  }
}
