# Alert generation engine of the wearable health monitor

This project models the alert engine of a wearable health-monitoring backend.
For each reading a patient's wristlet sends (heart rate, accelerometer sample,
panic button, wristlet-detected inactivity, fall report), the engine decides
whether to add an alert to the alert ledger. Caregivers resolve alerts and
adjust each patient's thresholds.

The state is a store (`Engine.Store`). It holds the alert table, the IMU table
and the heart-rate table, each as a `seq` in insertion order, and the patient
profiles as a `map` from user id to thresholds. Each request handler is a
method on the store. It runs as one sequential, atomic step: it validates its
input, appends what it records, and commits at most one alert.

The decisions are pure functions of the state before the request:

- `Dedup.ShouldCreateAlert` is the anti-spam rule. It blocks a new alert while
  an alert of the same user and type is open. It also blocks one while the
  newest alert of that type is less than 180 seconds older than the new
  timestamp.
- `Evaluators` gives the candidate alert of the heart-rate, button,
  reported-inactivity and fall handlers.
- `Inactivity` is the windowed inactivity detector. Its motion scan is a loop,
  `ScanForMovement`.

Modelling choices:

- Timestamps are whole seconds, UTC. A request's timestamp is an
  `Option<int>`, already parsed, plus a `now` parameter. It falls back to
  `now` when absent or unparsable.
- The saturation test "elapsed minutes >= limit" becomes
  `t - first >= limit * 60`. On whole seconds the two are the same.
- Heart-rate values and accelerometer axes are `real` (exact rationals).
  Thresholds are integers, as in the profile table.
- Alert messages are abstract payloads (kind plus values), not formatted
  text.
- The window query has no ordering, so the model fixes one: the IMU history
  in insertion order, filtered by user and timestamp.
  `Inactivity.SortedWindowFirstIsOldest` shows that when the history is
  stored in timestamp order, the first window record is also the oldest.
- Alert primary keys are handed out from 1 in insertion order, and alerts are
  never deleted. So the store invariant is that the alert at position `i` has
  key `i + 1`.
- The button, reported-inactivity and fall handlers do not look up a patient
  profile, and the model does not either. Among the wearable handlers, only
  the heart-rate and IMU handlers answer "not found".

The two paths that raise INACTIVITY differ. The wristlet's report goes through
the full dedup rule, cooldown included (backend/routes.py:273-274). The motion
path checks only for an open INACTIVITY alert of the user and applies no
cooldown (backend/routes.py:212-216). `Evaluators.MotionPathHasNoCooldown`
exhibits this: an INACTIVITY alert resolved one second earlier blocks the
wristlet's report but not the motion detector.

## Model

| member | source | states |
|---|---|---|
| `Records.Stamp` | backend/routes.py:132-137 | The request's timestamp is the parsed one when there is one, and the server's current time otherwise |
| `Dedup.ShouldCreateAlert` | backend/routes.py:13-37 | When the rule allows a new alert, every alert of that user and type is resolved and at least the 3-minute cooldown older than the new timestamp |
| `Dedup.LatestStamp` | backend/routes.py:25-29 | The newest alert of the user's type, resolved or not: absent exactly when the user has no alert of that type; otherwise the timestamp of one of them and no earlier than any of them |
| `Dedup.ShouldCreateAlertIff` | backend/routes.py:13-37 | The rule allows a new alert at `t` iff every alert of that user and type is resolved and at least the 3-minute cooldown older than `t`: checking only the newest one is the same as checking all of them |
| `Dedup.OpenAlertSuppresses` | backend/routes.py:19-23 | An unresolved alert of the same user and type blocks a new one, whatever its age |
| `Dedup.NewerAlertSuppresses` | backend/routes.py:25-35 | An alert of the same series stamped later than the new timestamp gives a negative difference and blocks |
| `Dedup.OtherSeriesIrrelevant` | backend/routes.py:19-29 | Alerts of other users or other types never change the decision |
| `Dedup.CooldownMonotone` | backend/routes.py:10 | If the rule allows an alert at `t`, it allows one at every later time |
| `Dedup.CommittedAlertSuppresses` | backend/routes.py:10-37 | Once an alert of the series is committed, no second one passes while it is open, nor within 3 minutes of it even after it is resolved |
| `Inactivity.Window` | backend/routes.py:193-194 | The window holds exactly the user's samples stamped at or after the window start, and no more samples than the history |
| `Inactivity.ScanForMovement` | backend/routes.py:203-210 | The scan (stopping at the first hit) reports movement iff some window sample differs from the new sample by strictly more than 1.0 on x, y or z |
| `Inactivity.Inactive` | backend/routes.py:192-210 | When the patient is judged inactive, some sample of the user lies in the window and none of the window's samples differs from the new one by more than 1.0 on any axis |
| `Inactivity.InactivityAlert` | backend/routes.py:196-216 | The IMU handler's candidate exists iff the patient is inactive and the user has no open INACTIVITY alert (no cooldown term); it is a new, unresolved INACTIVITY alert at the sample's timestamp |
| `Inactivity.WindowStartsAtFirst` | backend/routes.py:194-197 | The first window record is the first sample of the history, in history order, that lies in the window |
| `Inactivity.FirstInWindowExists` | backend/routes.py:194-196 | If any sample lies in the window, one of them is the first to do so |
| `Inactivity.InactivityAlertIff` | backend/routes.py:192-216 | The IMU handler raises INACTIVITY iff the window is non-empty, its first record is at least the limit older than the new sample, no window sample differs by more than 1.0 on any axis (a delta of exactly 1.0 is not movement), and no INACTIVITY alert of the user is open; no cooldown applies |
| `Inactivity.SortedWindowFirstIsOldest` | backend/routes.py:194-197 | On a history kept in timestamp order, the first window record is the oldest in the window |
| `Inactivity.NewSampleInWindow` | backend/routes.py:184-194 | The new sample is stored before the query, so with a non-negative limit it is in its own window |
| `Inactivity.OneMoveSuppresses` | backend/routes.py:207-212 | One window sample that differs by more than 1.0 on any axis suppresses the INACTIVITY alert |
| `Evaluators.HeartRateAlert` | backend/routes.py:142-150 | A value within [min_hr, max_hr] yields no alert; below min_hr only an HR_LOW alert, raised iff the dedup rule allows, even when min_hr > max_hr; otherwise above max_hr only an HR_HIGH alert, raised iff the dedup rule allows; the alert is new, unresolved and carries the reading |
| `Evaluators.ButtonAlert` | backend/routes.py:234-243 | A pressed button yields a BUTTON alert whatever the ledger holds; a released one yields none |
| `Evaluators.ReportedInactivityAlert` | backend/routes.py:263-281 | The wristlet's report yields an INACTIVITY alert iff its flag is present and true and the dedup rule allows |
| `Evaluators.FallAlert` | backend/routes.py:319-330 | Every fall report, whatever its probability, yields a FALL alert iff the dedup rule allows, carrying probability and optional bpm |
| `Evaluators.ButtonNeverDeduplicated` | backend/routes.py:231-243 | With an open BUTTON alert of the same second in the ledger, which the dedup rule would block, a press still raises a BUTTON alert |
| `Evaluators.MotionAlertSuppressesReport` | backend/routes.py:212-216 | An INACTIVITY alert raised by the motion window blocks the wristlet's inactivity report while it is open |
| `Evaluators.ReportSuppressesMotionAlert` | backend/routes.py:273-281 | An open INACTIVITY alert from the wristlet's report silences the motion detector |
| `Evaluators.MotionPathHasNoCooldown` | backend/routes.py:212-216 | An INACTIVITY alert resolved one second earlier blocks the wristlet's report (cooldown) but the motion detector still raises a new one |
| `Caregiver.FindAlert` | backend/routes.py:398-400 | Lookup by primary key: a position holding that key, or none when no alert has it |
| `Caregiver.Resolve` | backend/routes.py:398-402 | Resolving sets `resolved` on the alerts with that key and changes nothing else; the ledger keeps its length |
| `Caregiver.ResolveIdempotent` | backend/routes.py:402 | Resolving twice is resolving once |
| `Caregiver.ResolveUnknownIsIdentity` | backend/routes.py:398-400 | An unknown key leaves the ledger unchanged |
| `Caregiver.ResolveIsSingleUpdate` | backend/routes.py:398-402 | With keys by position, resolving is the in-place update of the one alert found by the lookup |
| `Caregiver.ResolveKeeps` | backend/routes.py:402 | Resolving removes no alert and rewrites nothing but the flag, false to true |
| `Caregiver.CommitKeeps` | backend/models.py:59-65 | Appending a new alert with the next key keeps every earlier alert and the keys-by-position invariant |
| `Caregiver.KeepsTransitive` | backend/routes.py:395-404 | Permanence composes: over any run of requests, no alert is removed or rewritten and a resolved alert stays resolved |
| `Caregiver.ApplyUpdate` | backend/routes.py:350-355 | Each threshold present in the update is written and each absent one keeps its old value |
| `Caregiver.ApplyUpdateLaws` | backend/routes.py:350-355 | An empty update changes nothing; the same update twice equals once; an update naming all three fields gives the same thresholds whatever they were before |
| `Engine.Store.AddPatient` | backend/models.py:22-29 | A new patient profile carries min_hr 40, max_hr 120 and a 30-minute inactivity limit; nothing else changes |
| `Engine.Store.ReceiveHeartRate` | backend/routes.py:115-153 | A missing value is rejected and a caller without a profile is not found, neither changing state; otherwise exactly one reading is appended and the ledger gains exactly the `HeartRateAlert` candidate; no alert is removed |
| `Engine.Store.ReceiveImu` | backend/routes.py:155-219 | Missing axes are rejected and an unknown patient is not found, neither changing state; otherwise exactly one sample is appended and the ledger gains exactly the inactivity candidate computed over the history that already holds it |
| `Engine.Store.ReceiveButton` | backend/routes.py:221-246 | A missing status is rejected with no change; a pressed button appends one BUTTON alert with no dedup; a released one changes nothing; both succeed |
| `Engine.Store.ReceiveInactivity` | backend/routes.py:249-287 | A missing or false flag changes nothing; otherwise the ledger gains exactly the deduplicated INACTIVITY candidate, answered 201 when added and 200 when skipped |
| `Engine.Store.ReceiveFall` | backend/routes.py:290-334 | A missing probability is rejected with no change; otherwise the ledger gains exactly the deduplicated FALL candidate, answered 201 when added and 200 when skipped |
| `Engine.Store.UpdateThresholds` | backend/routes.py:338-358 | An unknown patient is not found with no change; otherwise only that patient's profile changes, to the partial update applied in place |
| `Engine.Store.ResolveAlert` | backend/routes.py:395-404 | The ledger becomes `Resolve` of the old one; not found exactly when no alert has the key; no other table changes |
| `Scenarios.StillHistoryIsInactive` | backend/test_scenarios.py:103-142 | With a 1-minute limit, still samples at t-60 s and t-30 s and a still new sample at t make the patient inactive |
| `Scenarios.FullFlow` | backend/test_scenarios.py:36-142 | The end-to-end scenario: thresholds set to [50, 100], 70 bpm leaves 0 alerts, 120 bpm gives 1, a panic press after resolving it gives 2, a still IMU history with a 1-minute limit gives 3, of types HR_HIGH, BUTTON, INACTIVITY in that order |
| `Scenarios.PanicPressesAreNeverSuppressed` | backend/routes.py:231-243 | Two presses ten seconds apart give two BUTTON alerts, and a release adds none |
| `Scenarios.LowHeartRateCooldown` | backend/routes.py:142-146 | Repeated low readings give 1 alert; 1 again 60 s later while it is open; 1 again at 179 s after it is resolved; 2 at 180 s |
| `Scenarios.ResolveTwice` | backend/routes.py:395-404 | Resolving an unknown id answers 404; resolving an existing alert answers 200 twice and leaves it resolved |

## Left out

- Registration, login, password hashing and token identity: the caller's user
  id is a parameter of each handler.
- HTTP routing, JSON bodies and logging. The `index` and `test` endpoints,
  the application factory and the configuration are not part of this model.
- Session and commit mechanics. Each handler is one atomic step. The
  check-then-insert race between concurrent requests is not modelled.
- ISO-8601 parsing and the "naive timestamp means UTC" coercion. A timestamp
  arrives parsed or absent. The possible failure when a naive timestamp from
  the request meets a coerced stored one is not modelled.
- JSON truthiness: flags are `Option<bool>`, so a non-boolean truthy value
  behaves as `true` only once mapped to it by the caller.
- Message formatting (`{value}`, `{probability:.2f}`): alerts carry an
  abstract payload.
- Gyroscope fields: they are stored but never decide anything.
- Listing alerts (newest first, a database sort) and listing patients
  (unordered): read-only views. The order `Scenarios.FullFlow` checks is by
  position, not by timestamp.
- The live HTTP client script of the repository (it makes no assertions).
