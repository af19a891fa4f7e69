/** The anti-spam rule shared by the heart-rate, reported-inactivity and fall
    handlers: a new alert of a type is suppressed while the user has an open
    (unresolved) alert of that type, or while the newest alert of that type is
    less than the cooldown older than the new timestamp. */
module Dedup {
  import opened Records

  /** Alert `a` belongs to the user's series of alerts of `kind`. */
  predicate InSeries(a: Alert, userId: int, kind: AlertKind)
  {
    a.userId == userId && a.kind == kind
  }

  /** The user has an unresolved alert of `kind`, of any age. */
  predicate HasUnresolved(ledger: seq<Alert>, userId: int, kind: AlertKind)
  {
    exists i | 0 <= i < |ledger| :: InSeries(ledger[i], userId, kind) && !ledger[i].resolved
  }

  /** Timestamp of the newest alert of the series, resolved or not: the first
      row of the query ordered by timestamp, descending. */
  function LatestStamp(ledger: seq<Alert>, userId: int, kind: AlertKind): (r: Option<int>)
    ensures r.None? <==> forall i | 0 <= i < |ledger| :: !InSeries(ledger[i], userId, kind)
    ensures r.Some? ==> exists i | 0 <= i < |ledger| ::
              InSeries(ledger[i], userId, kind) && ledger[i].timestamp == r.value
    ensures r.Some? ==> forall i | 0 <= i < |ledger| && InSeries(ledger[i], userId, kind) ::
              ledger[i].timestamp <= r.value
  {
    if |ledger| == 0 then None
    else
      var rest := LatestStamp(ledger[1..], userId, kind);
      assert forall i | 1 <= i < |ledger| :: ledger[i] == ledger[1..][i - 1];
      if !InSeries(ledger[0], userId, kind) then rest
      else if rest.Some? && rest.value >= ledger[0].timestamp then rest
      else Some(ledger[0].timestamp)
  }

  /** `should_create_alert`: false while an alert of the series is open, or
      while the newest one is less than the cooldown older than `t`. */
  function ShouldCreateAlert(ledger: seq<Alert>, userId: int, kind: AlertKind, t: int): (allowed: bool)
    ensures allowed ==> forall i | 0 <= i < |ledger| && InSeries(ledger[i], userId, kind) ::
              ledger[i].resolved && t - ledger[i].timestamp >= AlertCooldown
  {
    if HasUnresolved(ledger, userId, kind) then false
    else
      match LatestStamp(ledger, userId, kind)
      case None => true
      case Some(latest) => !(t - latest < AlertCooldown)
  }

  /** Reference reading of the rule over the whole series: every alert of the
      series is resolved and at least the cooldown older than `t`. */
  ghost predicate ClearOfSeries(ledger: seq<Alert>, userId: int, kind: AlertKind, t: int)
  {
    forall i | 0 <= i < |ledger| && InSeries(ledger[i], userId, kind) ::
      ledger[i].resolved && t - ledger[i].timestamp >= AlertCooldown
  }

  /** Looking only at the newest alert is the same as looking at all of them. */
  lemma ShouldCreateAlertIff(ledger: seq<Alert>, userId: int, kind: AlertKind, t: int)
    ensures ShouldCreateAlert(ledger, userId, kind, t) <==> ClearOfSeries(ledger, userId, kind, t)
  {
  }

  /** An open alert of the series suppresses a new one, however old it is. */
  lemma OpenAlertSuppresses(ledger: seq<Alert>, userId: int, kind: AlertKind, t: int, i: int)
    requires 0 <= i < |ledger| && InSeries(ledger[i], userId, kind) && !ledger[i].resolved
    ensures !ShouldCreateAlert(ledger, userId, kind, t)
  {
  }

  /** An alert of the series that is newer than `t` makes the difference
      negative and so suppresses too. */
  lemma NewerAlertSuppresses(ledger: seq<Alert>, userId: int, kind: AlertKind, t: int, i: int)
    requires 0 <= i < |ledger| && InSeries(ledger[i], userId, kind) && ledger[i].timestamp > t
    ensures !ShouldCreateAlert(ledger, userId, kind, t)
  {
  }

  /** Alerts of other users or other types never affect the decision. */
  lemma OtherSeriesIrrelevant(ledger: seq<Alert>, a: Alert, userId: int, kind: AlertKind, t: int)
    requires !InSeries(a, userId, kind)
    ensures ShouldCreateAlert(ledger + [a], userId, kind, t) == ShouldCreateAlert(ledger, userId, kind, t)
  {
    ShouldCreateAlertIff(ledger, userId, kind, t);
    ShouldCreateAlertIff(ledger + [a], userId, kind, t);
    assert forall i | 0 <= i < |ledger| :: (ledger + [a])[i] == ledger[i];
    if HasUnresolved(ledger + [a], userId, kind) {
      var i :| 0 <= i < |ledger + [a]| && InSeries((ledger + [a])[i], userId, kind) && !(ledger + [a])[i].resolved;
      assert i < |ledger|;
    }
  }

  /** Once the cooldown allows an alert at `t`, it allows one at any later time. */
  lemma CooldownMonotone(ledger: seq<Alert>, userId: int, kind: AlertKind, t: int, t': int)
    requires t <= t' && ShouldCreateAlert(ledger, userId, kind, t)
    ensures ShouldCreateAlert(ledger, userId, kind, t')
  {
  }

  /** After an alert of the series is committed, no second one passes while it
      is open, and none passes within the cooldown even once it is resolved. */
  lemma CommittedAlertSuppresses(ledger: seq<Alert>, a: Alert, userId: int, kind: AlertKind, t: int)
    requires InSeries(a, userId, kind)
    requires !a.resolved || t - a.timestamp < AlertCooldown
    ensures !ShouldCreateAlert(ledger + [a], userId, kind, t)
  {
    ShouldCreateAlertIff(ledger + [a], userId, kind, t);
    assert (ledger + [a])[|ledger|] == a;
  }
}
