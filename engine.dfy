/** The store the request handlers work on, and the handlers themselves as
    sequential, atomic steps: each validates its input, appends what it
    records, and commits at most one alert. */
module Engine {
  import opened Records
  import opened Dedup
  import opened Inactivity
  import opened Evaluators
  import opened Caregiver

  class Store {
    var alerts: seq<Alert>                   // the alert table, in insertion order
    var imu: seq<IMURecord>                  // the IMU table, in insertion order
    var heartRates: seq<HRRecord>            // the heart-rate table, in insertion order
    var patients: map<int, PatientConfig>    // patient profiles, by user id

    ghost predicate Valid()
      reads this
    {
      KeyedByPosition(alerts)
    }

    constructor ()
      ensures Valid()
      ensures alerts == [] && imu == [] && heartRates == [] && patients == map[]
    {
      alerts, imu, heartRates, patients := [], [], [], map[];
    }

    /** The profile created with a new patient account carries the column
        defaults. User ids are fresh, so the patient has no profile yet. */
    method AddPatient(userId: int)
      requires Valid() && userId !in patients
      modifies this
      ensures Valid()
      ensures patients == old(patients)[userId := DefaultConfig]
      ensures alerts == old(alerts) && imu == old(imu) && heartRates == old(heartRates)
    {
      patients := patients[userId := DefaultConfig];
    }

    /** Heart-rate reading. A missing value is rejected, a caller without a
        patient profile is not found; otherwise the reading is stored and at
        most one HR_LOW or HR_HIGH alert is committed. */
    method ReceiveHeartRate(userId: int, value: Option<real>, parsed: Option<int>, now: int)
      returns (reply: Reply)
      requires Valid()
      modifies this
      ensures Valid() && Keeps(old(alerts), alerts)
      ensures patients == old(patients) && imu == old(imu)
      ensures value.None? ==> reply == BadRequest && unchanged(this)
      ensures value.Some? && userId !in patients ==> reply == NotFound && unchanged(this)
      ensures value.Some? && userId in patients ==>
        var t := Stamp(parsed, now);
        && reply == Created
        && heartRates == old(heartRates) + [HRRecord(userId, value.value, t)]
        && alerts == Commit(old(alerts), HeartRateAlert(old(alerts), patients[userId], userId, value.value, t))
    {
      if value.None? {
        return BadRequest;
      }
      if userId !in patients {
        return NotFound;
      }
      var cfg := patients[userId];
      var t := Stamp(parsed, now);
      var v := value.value;
      heartRates := heartRates + [HRRecord(userId, v, t)];
      if v < cfg.minHr as real {
        if ShouldCreateAlert(alerts, userId, HrLow, t) {
          CommitKeeps(alerts, userId, HrLow, HeartRateLow(v), t);
          alerts := alerts + [NewAlert(alerts, userId, HrLow, HeartRateLow(v), t)];
        }
      } else if v > cfg.maxHr as real {
        if ShouldCreateAlert(alerts, userId, HrHigh, t) {
          CommitKeeps(alerts, userId, HrHigh, HeartRateHigh(v), t);
          alerts := alerts + [NewAlert(alerts, userId, HrHigh, HeartRateHigh(v), t)];
        }
      }
      reply := Created;
    }

    /** Accelerometer sample. Missing axes are rejected, a caller without a
        patient profile is not found; otherwise the sample is stored first and
        then the inactivity window (which therefore holds it) is evaluated. */
    method ReceiveImu(userId: int, x: Option<real>, y: Option<real>, z: Option<real>,
                      parsed: Option<int>, now: int)
      returns (reply: Reply)
      requires Valid()
      modifies this
      ensures Valid() && Keeps(old(alerts), alerts)
      ensures patients == old(patients) && heartRates == old(heartRates)
      ensures (x.None? || y.None? || z.None?) ==> reply == BadRequest && unchanged(this)
      ensures x.Some? && y.Some? && z.Some? && userId !in patients ==> reply == NotFound && unchanged(this)
      ensures x.Some? && y.Some? && z.Some? && userId in patients ==>
        var sample := IMURecord(userId, x.value, y.value, z.value, Stamp(parsed, now));
        && reply == Created
        && imu == old(imu) + [sample]
        && alerts == Commit(old(alerts), InactivityAlert(old(alerts), imu, patients[userId].inactivityLimitMinutes, sample))
    {
      if x.None? || y.None? || z.None? {
        return BadRequest;
      }
      if userId !in patients {
        return NotFound;
      }
      var limit := patients[userId].inactivityLimitMinutes;
      var t := Stamp(parsed, now);
      var sample := IMURecord(userId, x.value, y.value, z.value, t);
      imu := imu + [sample];
      var recent := Window(imu, userId, WindowStart(t, limit));
      if |recent| > 0 && t - recent[0].timestamp >= limit * 60 {
        var hasMovement := ScanForMovement(recent, sample.x, sample.y, sample.z);
        if !hasMovement && !HasUnresolved(alerts, userId, Inactivity) {
          CommitKeeps(alerts, userId, Inactivity, PatientInactive, t);
          alerts := alerts + [NewAlert(alerts, userId, Inactivity, PatientInactive, t)];
        }
      }
      reply := Created;
    }

    /** Panic button. A missing status is rejected; a pressed button commits a
        BUTTON alert with no dedup; a released one changes nothing. Both succeed. */
    method ReceiveButton(userId: int, pressed: Option<bool>, parsed: Option<int>, now: int)
      returns (reply: Reply)
      requires Valid()
      modifies this
      ensures Valid() && Keeps(old(alerts), alerts)
      ensures patients == old(patients) && imu == old(imu) && heartRates == old(heartRates)
      ensures pressed.None? ==> reply == BadRequest && alerts == old(alerts)
      ensures pressed.Some? ==>
        && reply == Created
        && alerts == Commit(old(alerts), ButtonAlert(old(alerts), userId, pressed.value, Stamp(parsed, now)))
    {
      if pressed.None? {
        return BadRequest;
      }
      if pressed.value {
        var t := Stamp(parsed, now);
        CommitKeeps(alerts, userId, Button, PanicPressed, t);
        alerts := alerts + [NewAlert(alerts, userId, Button, PanicPressed, t)];
      }
      reply := Created;
    }

    /** Inactivity reported by the wristlet. A flag that is missing or false
        changes nothing; otherwise an INACTIVITY alert is committed when the
        dedup rule allows, answered 201, and otherwise answered 200. */
    method ReceiveInactivity(userId: int, detected: Option<bool>, parsed: Option<int>, now: int)
      returns (reply: Reply)
      requires Valid()
      modifies this
      ensures Valid() && Keeps(old(alerts), alerts)
      ensures patients == old(patients) && imu == old(imu) && heartRates == old(heartRates)
      ensures alerts == Commit(old(alerts), ReportedInactivityAlert(old(alerts), userId, detected, Stamp(parsed, now)))
      ensures reply == (if |alerts| > |old(alerts)| then Created else Ok)
    {
      if detected != Some(true) {
        return Ok;
      }
      var t := Stamp(parsed, now);
      if ShouldCreateAlert(alerts, userId, Inactivity, t) {
        CommitKeeps(alerts, userId, Inactivity, InactivityByWristlet, t);
        alerts := alerts + [NewAlert(alerts, userId, Inactivity, InactivityByWristlet, t)];
        reply := Created;
      } else {
        reply := Ok;
      }
    }

    /** Fall report. A missing probability is rejected; otherwise a FALL alert
        is committed when the dedup rule allows, answered 201, and otherwise
        answered 200. */
    method ReceiveFall(userId: int, probability: Option<real>, bpm: Option<real>,
                       parsed: Option<int>, now: int)
      returns (reply: Reply)
      requires Valid()
      modifies this
      ensures Valid() && Keeps(old(alerts), alerts)
      ensures patients == old(patients) && imu == old(imu) && heartRates == old(heartRates)
      ensures probability.None? ==> reply == BadRequest && alerts == old(alerts)
      ensures probability.Some? ==>
        && alerts == Commit(old(alerts), FallAlert(old(alerts), userId, probability.value, bpm, Stamp(parsed, now)))
        && reply == (if |alerts| > |old(alerts)| then Created else Ok)
    {
      if probability.None? {
        return BadRequest;
      }
      var t := Stamp(parsed, now);
      if ShouldCreateAlert(alerts, userId, Fall, t) {
        CommitKeeps(alerts, userId, Fall, FallDetected(probability.value, bpm), t);
        alerts := alerts + [NewAlert(alerts, userId, Fall, FallDetected(probability.value, bpm), t)];
        reply := Created;
      } else {
        reply := Ok;
      }
    }

    /** Caregiver threshold update: an unknown patient is not found; otherwise
        the fields present in the update are written in place. */
    method UpdateThresholds(patientId: int, update: ThresholdUpdate) returns (reply: Reply)
      requires Valid()
      modifies this
      ensures Valid()
      ensures alerts == old(alerts) && imu == old(imu) && heartRates == old(heartRates)
      ensures patientId !in old(patients) ==> reply == NotFound && patients == old(patients)
      ensures patientId in old(patients) ==>
        && reply == Ok
        && patients == old(patients)[patientId := ApplyUpdate(old(patients)[patientId], update)]
    {
      if patientId !in patients {
        return NotFound;
      }
      var cfg := patients[patientId];
      if update.minHr.Some? {
        cfg := cfg.(minHr := update.minHr.value);
      }
      if update.maxHr.Some? {
        cfg := cfg.(maxHr := update.maxHr.value);
      }
      if update.inactivityLimitMinutes.Some? {
        cfg := cfg.(inactivityLimitMinutes := update.inactivityLimitMinutes.value);
      }
      patients := patients[patientId := cfg];
      reply := Ok;
    }

    /** Caregiver resolution: an unknown alert is not found and nothing
        changes; otherwise the named alert is flagged resolved in place. */
    method ResolveAlert(alertId: int) returns (reply: Reply)
      requires Valid()
      modifies this
      ensures Valid() && Keeps(old(alerts), alerts)
      ensures patients == old(patients) && imu == old(imu) && heartRates == old(heartRates)
      ensures alerts == Resolve(old(alerts), alertId)
      ensures reply == NotFound <==> forall i | 0 <= i < |old(alerts)| :: old(alerts)[i].id != alertId
      ensures reply == NotFound || reply == Ok
    {
      var found := FindAlert(alerts, alertId);
      if found.None? {
        ResolveUnknownIsIdentity(alerts, alertId);
        return NotFound;
      }
      var k := found.value;
      ResolveIsSingleUpdate(alerts, alertId);
      ResolveKeeps(alerts, alertId);
      alerts := alerts[k := alerts[k].(resolved := true)];
      reply := Ok;
    }
  }
}
