/** The caregiver's two mutations, resolving an alert and updating a patient's
    thresholds, and the permanence of the alert ledger. */
module Caregiver {
  import opened Records

  /** Primary keys are handed out in insertion order from 1 and rows are never
      deleted, so the alert at position `i` has key `i + 1`. */
  ghost predicate KeyedByPosition(ledger: seq<Alert>)
  {
    forall i | 0 <= i < |ledger| :: ledger[i].id == i + 1
  }

  /** Lookup of an alert by primary key: its position in the ledger. */
  function FindAlert(ledger: seq<Alert>, id: int): (r: Option<nat>)
    ensures r.Some? ==> r.value < |ledger| && ledger[r.value].id == id
    ensures r.None? ==> forall i | 0 <= i < |ledger| :: ledger[i].id != id
  {
    if |ledger| == 0 then None
    else if ledger[0].id == id then Some(0)
    else
      match FindAlert(ledger[1..], id)
      case None => None
      case Some(k) => Some(k + 1)
  }

  /** The ledger after resolving alert `id`: that alert's `resolved` flag is
      set, and nothing else in any alert changes. */
  function Resolve(ledger: seq<Alert>, id: int): (r: seq<Alert>)
    ensures |r| == |ledger|
    ensures forall i | 0 <= i < |ledger| :: r[i].resolved == (ledger[i].resolved || ledger[i].id == id)
    ensures forall i | 0 <= i < |ledger| :: r[i].(resolved := ledger[i].resolved) == ledger[i]
  {
    seq(|ledger|, i requires 0 <= i < |ledger| =>
      if ledger[i].id == id then ledger[i].(resolved := true) else ledger[i])
  }

  /** Resolving twice is resolving once. */
  lemma ResolveIdempotent(ledger: seq<Alert>, id: int)
    ensures Resolve(Resolve(ledger, id), id) == Resolve(ledger, id)
  {
  }

  /** An unknown key leaves the ledger as it was. */
  lemma ResolveUnknownIsIdentity(ledger: seq<Alert>, id: int)
    requires FindAlert(ledger, id).None?
    ensures Resolve(ledger, id) == ledger
  {
  }

  /** With keys unique, resolving flips exactly the one alert found by the
      lookup: the in-place update of the handler. */
  lemma ResolveIsSingleUpdate(ledger: seq<Alert>, id: int)
    requires KeyedByPosition(ledger) && FindAlert(ledger, id).Some?
    ensures var k := FindAlert(ledger, id).value;
      Resolve(ledger, id) == ledger[k := ledger[k].(resolved := true)]
  {
  }

  /** `after` keeps every alert of `before` at its place: only `resolved` may
      change, and only from false to true. */
  ghost predicate Keeps(before: seq<Alert>, after: seq<Alert>)
  {
    |before| <= |after|
    && forall i | 0 <= i < |before| ::
         after[i].(resolved := before[i].resolved) == before[i]
         && (before[i].resolved ==> after[i].resolved)
  }

  /** Permanence composes over any sequence of requests. */
  lemma KeepsTransitive(a: seq<Alert>, b: seq<Alert>, c: seq<Alert>)
    requires Keeps(a, b) && Keeps(b, c)
    ensures Keeps(a, c)
  {
  }

  /** Resolving never removes or rewrites an alert. */
  lemma ResolveKeeps(ledger: seq<Alert>, id: int)
    ensures Keeps(ledger, Resolve(ledger, id))
  {
  }

  /** Committing a new alert keeps the ledger and its keys by position. */
  lemma CommitKeeps(ledger: seq<Alert>, userId: int, kind: AlertKind, payload: Payload, t: int)
    requires KeyedByPosition(ledger)
    ensures var after := ledger + [NewAlert(ledger, userId, kind, payload, t)];
      Keeps(ledger, after) && KeyedByPosition(after)
  {
  }

  /** The thresholds after a partial update: each field present in the update
      is written, each absent one kept. */
  function ApplyUpdate(cfg: PatientConfig, u: ThresholdUpdate): (r: PatientConfig)
    ensures u.minHr.Some? ==> r.minHr == u.minHr.value
    ensures u.minHr.None? ==> r.minHr == cfg.minHr
    ensures u.maxHr.Some? ==> r.maxHr == u.maxHr.value
    ensures u.maxHr.None? ==> r.maxHr == cfg.maxHr
    ensures u.inactivityLimitMinutes.Some? ==> r.inactivityLimitMinutes == u.inactivityLimitMinutes.value
    ensures u.inactivityLimitMinutes.None? ==> r.inactivityLimitMinutes == cfg.inactivityLimitMinutes
  {
    PatientConfig(
      if u.minHr.Some? then u.minHr.value else cfg.minHr,
      if u.maxHr.Some? then u.maxHr.value else cfg.maxHr,
      if u.inactivityLimitMinutes.Some? then u.inactivityLimitMinutes.value else cfg.inactivityLimitMinutes)
  }

  /** An empty update changes nothing; applying the same update twice is
      applying it once; an update that names every field does not depend on
      the old thresholds. */
  lemma ApplyUpdateLaws(cfg: PatientConfig, u: ThresholdUpdate)
    ensures ApplyUpdate(cfg, ThresholdUpdate(None, None, None)) == cfg
    ensures ApplyUpdate(ApplyUpdate(cfg, u), u) == ApplyUpdate(cfg, u)
    ensures forall other: PatientConfig ::
              u.minHr.Some? && u.maxHr.Some? && u.inactivityLimitMinutes.Some? ==>
              ApplyUpdate(other, u) == ApplyUpdate(cfg, u)
  {
  }
}
