/** The windowed inactivity detector of the IMU handler.

    The window is the user's motion history restricted to samples whose
    timestamp is at least `t - limit`, in the order the store returns them.
    The store's query has no ordering, so this model fixes that order to
    insertion order; `SortedWindowFirstIsOldest` shows that when the history
    is in timestamp order the first window record is also the oldest one. */
module Inactivity {
  import opened Records
  import opened Dedup

  /** Sample `r` belongs to the user's window starting at `from`. */
  predicate InWindow(r: IMURecord, userId: int, from: int)
  {
    r.userId == userId && r.timestamp >= from
  }

  /** The window opens `limitMinutes` before the new sample's timestamp. */
  function WindowStart(t: int, limitMinutes: int): int
  {
    t - limitMinutes * 60
  }

  /** The window query: the user's samples from `from` on, in history order. */
  function Window(history: seq<IMURecord>, userId: int, from: int): (w: seq<IMURecord>)
    ensures |w| <= |history|
    ensures forall r :: r in w <==> r in history && InWindow(r, userId, from)
  {
    if |history| == 0 then []
    else (if InWindow(history[0], userId, from) then [history[0]] else [])
         + Window(history[1..], userId, from)
  }

  /** The verdict is rendered only once the first window record is at least
      `limitMinutes` older than `t`. */
  predicate Saturated(w: seq<IMURecord>, t: int, limitMinutes: int)
  {
    |w| > 0 && t - w[0].timestamp >= limitMinutes * 60
  }

  function Abs(d: real): real
  {
    if d < 0.0 then -d else d
  }

  /** Record `r` differs from the axes (x, y, z) by strictly more than the
      threshold on at least one axis. */
  predicate Moved(r: IMURecord, x: real, y: real, z: real)
  {
    Abs(r.x - x) > MotionThreshold || Abs(r.y - y) > MotionThreshold || Abs(r.z - z) > MotionThreshold
  }

  predicate HasMovement(w: seq<IMURecord>, x: real, y: real, z: real)
  {
    exists i | 0 <= i < |w| :: Moved(w[i], x, y, z)
  }

  /** The scan of the window for movement, stopping at the first record that moved. */
  method ScanForMovement(w: seq<IMURecord>, x: real, y: real, z: real) returns (hasMovement: bool)
    ensures hasMovement <==> exists i | 0 <= i < |w| :: Moved(w[i], x, y, z)
  {
    hasMovement := false;
    for i := 0 to |w|
      invariant forall j | 0 <= j < i :: !Moved(w[j], x, y, z)
    {
      if Abs(w[i].x - x) > MotionThreshold || Abs(w[i].y - y) > MotionThreshold
         || Abs(w[i].z - z) > MotionThreshold
      {
        hasMovement := true;
        break;
      }
    }
  }

  /** The patient is inactive: the window (over a history that already holds
      `sample`) is saturated and holds no movement relative to `sample`. */
  predicate Inactive(history: seq<IMURecord>, limitMinutes: int, sample: IMURecord)
    ensures Inactive(history, limitMinutes, sample) ==>
      var from := WindowStart(sample.timestamp, limitMinutes);
      && (exists r :: r in history && InWindow(r, sample.userId, from))
      && forall r | r in history && InWindow(r, sample.userId, from) :: !Moved(r, sample.x, sample.y, sample.z)
  {
    var w := Window(history, sample.userId, WindowStart(sample.timestamp, limitMinutes));
    Saturated(w, sample.timestamp, limitMinutes) && !HasMovement(w, sample.x, sample.y, sample.z)
  }

  /** The candidate of the IMU handler. Only an open INACTIVITY alert
      suppresses it; no cooldown applies on this path. */
  function InactivityAlert(ledger: seq<Alert>, history: seq<IMURecord>, limitMinutes: int,
                           sample: IMURecord): (r: Option<Alert>)
    ensures r.Some? <==> Inactive(history, limitMinutes, sample)
                         && !HasUnresolved(ledger, sample.userId, Inactivity)
    ensures r.Some? ==> r.value == NewAlert(ledger, sample.userId, Inactivity, PatientInactive, sample.timestamp)
  {
    if Inactive(history, limitMinutes, sample) && !HasUnresolved(ledger, sample.userId, Inactivity)
    then Some(NewAlert(ledger, sample.userId, Inactivity, PatientInactive, sample.timestamp))
    else None
  }

  /** `history[j]` is the first sample, in history order, inside the window. */
  predicate FirstInWindow(history: seq<IMURecord>, userId: int, from: int, j: int)
  {
    0 <= j < |history| && InWindow(history[j], userId, from)
    && forall k | 0 <= k < j :: !InWindow(history[k], userId, from)
  }

  /** The window's first record is the first qualifying sample of the history. */
  lemma {:induction false} WindowStartsAtFirst(history: seq<IMURecord>, userId: int, from: int, j: int)
    requires FirstInWindow(history, userId, from, j)
    ensures |Window(history, userId, from)| > 0 && Window(history, userId, from)[0] == history[j]
  {
    if j > 0 {
      assert !InWindow(history[0], userId, from);
      assert FirstInWindow(history[1..], userId, from, j - 1) by {
        forall k | 0 <= k < j - 1 ensures !InWindow(history[1..][k], userId, from) {
          assert history[1..][k] == history[k + 1];
        }
      }
      WindowStartsAtFirst(history[1..], userId, from, j - 1);
    }
  }

  /** When some sample of the history lies in the window, one of them is the
      first to do so. */
  lemma {:induction false} FirstInWindowExists(history: seq<IMURecord>, userId: int, from: int)
    requires exists r :: r in history && InWindow(r, userId, from)
    ensures exists j :: FirstInWindow(history, userId, from, j)
  {
    if InWindow(history[0], userId, from) {
      assert FirstInWindow(history, userId, from, 0);
    } else {
      var r :| r in history && InWindow(r, userId, from);
      assert r in history[1..];
      FirstInWindowExists(history[1..], userId, from);
      var j :| FirstInWindow(history[1..], userId, from, j);
      assert FirstInWindow(history, userId, from, j + 1) by {
        forall k | 0 <= k < j + 1 ensures !InWindow(history[k], userId, from) {
          if k > 0 { assert history[k] == history[1..][k - 1]; }
        }
      }
    }
  }

  /** The IMU handler raises INACTIVITY exactly when: some sample of the user
      lies in the window; the first of them, in history order, is at least
      the limit older than the new sample; no sample of the window differs
      from the new one by more than the threshold on any axis; and the user
      has no open INACTIVITY alert. */
  lemma InactivityAlertIff(ledger: seq<Alert>, history: seq<IMURecord>, limitMinutes: int, sample: IMURecord)
    ensures InactivityAlert(ledger, history, limitMinutes, sample).Some? <==>
      var from := WindowStart(sample.timestamp, limitMinutes);
      && (exists j :: FirstInWindow(history, sample.userId, from, j)
                      && sample.timestamp - history[j].timestamp >= limitMinutes * 60)
      && (forall r | r in history && InWindow(r, sample.userId, from) ::
            Abs(r.x - sample.x) <= MotionThreshold && Abs(r.y - sample.y) <= MotionThreshold
            && Abs(r.z - sample.z) <= MotionThreshold)
      && !HasUnresolved(ledger, sample.userId, Inactivity)
  {
    var from := WindowStart(sample.timestamp, limitMinutes);
    var w := Window(history, sample.userId, from);
    if exists j :: FirstInWindow(history, sample.userId, from, j) {
      var j :| FirstInWindow(history, sample.userId, from, j);
      WindowStartsAtFirst(history, sample.userId, from, j);
      forall j' | FirstInWindow(history, sample.userId, from, j') ensures j' == j {
      }
    } else if |w| > 0 {
      assert w[0] in w;
      FirstInWindowExists(history, sample.userId, from);
    }
    if HasMovement(w, sample.x, sample.y, sample.z) {
      var i :| 0 <= i < |w| && Moved(w[i], sample.x, sample.y, sample.z);
      assert w[i] in w;
    } else {
      forall r | r in history && InWindow(r, sample.userId, from)
        ensures !Moved(r, sample.x, sample.y, sample.z)
      {
        assert r in w;
        var i :| 0 <= i < |w| && w[i] == r;
      }
    }
  }

  /** A history in timestamp order. */
  predicate SortedByTime(history: seq<IMURecord>)
  {
    forall i, j | 0 <= i < j < |history| :: history[i].timestamp <= history[j].timestamp
  }

  /** On a history kept in timestamp order, the first window record is the
      oldest one in the window. */
  lemma {:induction false} SortedWindowFirstIsOldest(history: seq<IMURecord>, userId: int, from: int)
    requires SortedByTime(history)
    ensures var w := Window(history, userId, from);
      forall r | r in w :: w[0].timestamp <= r.timestamp
  {
    var w := Window(history, userId, from);
    if |history| > 0 {
      SortedWindowFirstIsOldest(history[1..], userId, from);
      if InWindow(history[0], userId, from) {
        forall r | r in w ensures w[0].timestamp <= r.timestamp {
          var i :| 0 <= i < |history| && history[i] == r;
        }
      }
    }
  }

  /** The new sample is stored before the query, so with a non-negative limit
      the window always holds it and is never empty. */
  lemma NewSampleInWindow(history: seq<IMURecord>, limitMinutes: int, sample: IMURecord)
    requires limitMinutes >= 0
    ensures sample in Window(history + [sample], sample.userId, WindowStart(sample.timestamp, limitMinutes))
  {
  }

  /** A single sample in the window that differs by more than the threshold on
      any axis suppresses the INACTIVITY alert. */
  lemma OneMoveSuppresses(ledger: seq<Alert>, history: seq<IMURecord>, limitMinutes: int,
                          sample: IMURecord, r: IMURecord)
    requires r in history && InWindow(r, sample.userId, WindowStart(sample.timestamp, limitMinutes))
    requires Abs(r.x - sample.x) > MotionThreshold || Abs(r.y - sample.y) > MotionThreshold
             || Abs(r.z - sample.z) > MotionThreshold
    ensures InactivityAlert(ledger, history, limitMinutes, sample).None?
  {
  }
}
