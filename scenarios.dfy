/** Client code that replays the repository's end-to-end scenario, and
    further behaviours of the handlers, against the store's contracts alone. */
module Scenarios {
  import opened Records
  import opened Dedup
  import opened Inactivity
  import opened Caregiver
  import opened Engine

  /** The motion history of the scenario: two still samples a minute and half
      a minute before `now`, then the new still sample. */
  lemma StillHistoryIsInactive(userId: int, now: int)
    ensures var sample := IMURecord(userId, 0.0, 0.0, 0.0, now);
      var history := [IMURecord(userId, 0.0, 0.0, 0.0, now - 60),
                      IMURecord(userId, 0.0, 0.0, 0.0, now - 30), sample];
      Inactive(history, 1, sample)
  {
    var sample := IMURecord(userId, 0.0, 0.0, 0.0, now);
    var history := [IMURecord(userId, 0.0, 0.0, 0.0, now - 60),
                    IMURecord(userId, 0.0, 0.0, 0.0, now - 30), sample];
    var from := WindowStart(now, 1);
    assert Window(history, userId, from) == history by {
      assert history[1..] == [history[1], sample] && history[1..][1..] == [sample] && [sample][1..] == [];
      assert Window([sample], userId, from) == [sample] + Window([], userId, from);
      assert Window([history[1], sample], userId, from) == [history[1]] + Window([sample], userId, from);
    }
  }

  /** Register a patient, tighten the heart-rate bounds to [50, 100], send
      70 bpm (no alert), then 120 bpm (one HR_HIGH), resolve it, press the
      panic button (two alerts, the newest a BUTTON), set the inactivity
      limit to one minute and send a still sample after two still ones a
      minute and half a minute old (an INACTIVITY alert). */
  method FullFlow(now: int) returns (counts: seq<nat>, kinds: seq<AlertKind>)
    ensures counts == [0, 1, 2, 3]
    ensures kinds == [HrHigh, Button, Inactivity]
  {
    var patient := 2;
    var store := new Store();
    store.AddPatient(patient);
    var reply := store.UpdateThresholds(patient, ThresholdUpdate(Some(50), Some(100), None));
    assert reply == Ok && store.patients[patient] == PatientConfig(50, 100, 30);

    reply := store.ReceiveHeartRate(patient, Some(70.0), None, now);
    assert reply == Created && store.alerts == [];
    counts := [|store.alerts|];

    reply := store.ReceiveHeartRate(patient, Some(120.0), None, now);
    assert reply == Created && |store.alerts| == 1;
    assert store.alerts[0] == Alert(1, patient, HrHigh, HeartRateHigh(120.0), now, false);
    counts := counts + [|store.alerts|];

    reply := store.ResolveAlert(1);
    assert reply == Ok && store.alerts[0].resolved;

    reply := store.ReceiveButton(patient, Some(true), None, now + 1);
    assert reply == Created && |store.alerts| == 2 && store.alerts[1].kind == Button;
    counts := counts + [|store.alerts|];

    reply := store.UpdateThresholds(patient, ThresholdUpdate(None, None, Some(1)));
    assert store.patients[patient] == PatientConfig(50, 100, 1);

    store.imu := [IMURecord(patient, 0.0, 0.0, 0.0, now + 40), IMURecord(patient, 0.0, 0.0, 0.0, now + 70)];
    assert !HasUnresolved(store.alerts, patient, Inactivity);
    StillHistoryIsInactive(patient, now + 100);
    reply := store.ReceiveImu(patient, Some(0.0), Some(0.0), Some(0.0), Some(now + 100), now + 200);
    assert store.imu == [IMURecord(patient, 0.0, 0.0, 0.0, now + 100 - 60),
                         IMURecord(patient, 0.0, 0.0, 0.0, now + 100 - 30),
                         IMURecord(patient, 0.0, 0.0, 0.0, now + 100)];
    assert reply == Created && |store.alerts| == 3 && store.alerts[2].kind == Inactivity;
    counts := counts + [|store.alerts|];
    kinds := [store.alerts[0].kind, store.alerts[1].kind, store.alerts[2].kind];
  }

  /** Two panic presses ten seconds apart raise two independent alerts. */
  method PanicPressesAreNeverSuppressed(userId: int, now: int) returns (kinds: seq<AlertKind>)
    ensures kinds == [Button, Button]
  {
    var store := new Store();
    var reply := store.ReceiveButton(userId, Some(true), None, now);
    reply := store.ReceiveButton(userId, Some(true), Some(now + 10), now);
    assert |store.alerts| == 2 && store.alerts[0].kind == Button && store.alerts[1].kind == Button;
    reply := store.ReceiveButton(userId, Some(false), None, now);
    assert reply == Created && |store.alerts| == 2;
    kinds := [store.alerts[0].kind, store.alerts[1].kind];
  }

  /** A second low reading within three minutes raises nothing, even after the
      first alert is resolved; after three minutes it raises a second one. */
  method LowHeartRateCooldown(userId: int, now: int) returns (counts: seq<nat>)
    ensures counts == [1, 1, 1, 2]
  {
    var store := new Store();
    store.AddPatient(userId);
    var reply := store.ReceiveHeartRate(userId, Some(30.0), None, now);
    assert |store.alerts| == 1 && store.alerts[0].kind == HrLow;
    counts := [|store.alerts|];

    reply := store.ReceiveHeartRate(userId, Some(30.0), None, now + 60);
    assert |store.alerts| == 1;
    counts := counts + [|store.alerts|];

    reply := store.ResolveAlert(1);
    CommittedAlertSuppresses([], store.alerts[0], userId, HrLow, now + 179);
    assert [] + [store.alerts[0]] == store.alerts;
    reply := store.ReceiveHeartRate(userId, Some(30.0), None, now + 179);
    assert |store.alerts| == 1;
    counts := counts + [|store.alerts|];

    assert ClearOfSeries(store.alerts, userId, HrLow, now + 180);
    ShouldCreateAlertIff(store.alerts, userId, HrLow, now + 180);
    reply := store.ReceiveHeartRate(userId, Some(30.0), None, now + 180);
    assert |store.alerts| == 2 && store.alerts[1].kind == HrLow;
    counts := counts + [|store.alerts|];
  }

  /** An unknown alert id is not found and changes nothing; resolving twice
      is the same as resolving once. */
  method ResolveTwice(userId: int, now: int) returns (replies: seq<Reply>, resolved: bool)
    ensures replies == [NotFound, Ok, Ok] && resolved
  {
    var store := new Store();
    var reply := store.ResolveAlert(1);
    assert reply == NotFound && store.alerts == [];
    replies := [reply];
    reply := store.ReceiveButton(userId, Some(true), None, now);
    var before := store.alerts;
    reply := store.ResolveAlert(1);
    replies := replies + [reply];
    var once := store.alerts;
    reply := store.ResolveAlert(1);
    replies := replies + [reply];
    ResolveIdempotent(before, 1);
    assert reply == Ok && store.alerts == once && once[0].resolved;
    resolved := store.alerts[0].resolved;
  }
}
