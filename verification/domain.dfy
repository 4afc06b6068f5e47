/**
 * Records, enumerations and time rules of the userplan service's plan domain.
 *
 * Instants are whole seconds since 1970-01-01T00:00:00Z; every instant is
 * read in UTC, where a calendar day is exactly 86400 seconds and the date of
 * an instant is its day number rounded toward minus infinity.
 */
module Domain {
  import opened Outcomes

  type Instant = int

  const SecondsPerDay: int := 86400

  /** Go's zero `time.Time`, 0001-01-01T00:00:00Z, held by time fields nobody set. */
  const ZeroTime: Instant := -62135596800

  // Values of the `status` column of a user plan.
  const StatusActive: string := "active"
  const StatusExpired: string := "expired"
  const StatusCanceled: string := "canceled"

  // Values of the `action` column of a plan-history entry.
  const ActionAssign: string := "assign"
  const ActionRenew: string := "renew"
  const ActionCancel: string := "cancel"
  const ActionUpgrade: string := "upgrade"
  const ActionDowngrade: string := "downgrade"

  /**
   * One subscription period of a user. The fields are the union of those the
   * repository and the service use; `deleted` is the soft-delete marker
   * (`DeletedAt` not null).
   */
  datatype UserPlan = UserPlan(
    id: nat,
    userID: nat,
    planID: nat,
    status: string,
    endDate: Instant,
    lastRenewalAt: Instant,
    nextRenewalAt: Instant,
    exTime: Instant,
    deleted: bool)

  /** An audit record of one transition of a user plan. */
  datatype PlanHistory = PlanHistory(
    id: nat,
    userPlanID: nat,
    action: string,
    oldPlanID: Option<nat>,
    newPlanID: Option<nat>,
    changedAt: Instant)

  /** The price of a plan for a number of months; (planID, month) is the primary key. */
  datatype Price = Price(planID: nat, month: int, price: int)

  /** The value of one limitation on one plan; (planID, limitationID) is the primary key. */
  datatype PlanLimitation = PlanLimitation(planID: nat, limitationID: nat, value: int)

  datatype AssignPlanRequest = AssignPlanRequest(userID: nat, planID: nat)

  datatype RenewPlanRequest = RenewPlanRequest(userID: nat, endDate: Instant)

  /** The primary key of a user-plan row. */
  function RowID(r: UserPlan): nat
  {
    r.id
  }

  /** The primary key of a plan-history entry. */
  function EntryID(e: PlanHistory): nat
  {
    e.id
  }

  /** The calendar day of `t`: whole days since the epoch, rounded down. */
  function DayOf(t: Instant): int
  {
    t / SecondsPerDay
  }

  /** Seconds elapsed since midnight of the day of `t`. */
  function TimeOfDay(t: Instant): int
  {
    t % SecondsPerDay
  }

  /** Midnight of the day that lies `durationDays` days after `startDate`. */
  function CalculateExpirationDate(startDate: Instant, durationDays: int): (r: Instant)
    ensures TimeOfDay(r) == 0
    ensures DayOf(r) == DayOf(startDate) + durationDays
    ensures r <= startDate + durationDays * SecondsPerDay < r + SecondsPerDay
  {
    var expirationDate := startDate + durationDays * SecondsPerDay;
    expirationDate - expirationDate % SecondsPerDay
  }

  /** A plan has expired once `now` is strictly after its expiry instant. */
  predicate IsExpired(expiresAt: Instant, now: Instant)
  {
    now > expiresAt
  }

  /** The expiry instant lies before `daysThreshold` days from now and has not passed yet. */
  predicate IsExpiringSoon(expiresAt: Instant, daysThreshold: int, now: Instant)
  {
    var thresholdDate := now + daysThreshold * SecondsPerDay;
    expiresAt < thresholdDate && !IsExpired(expiresAt, now)
  }

  lemma StatusesDistinct()
    ensures StatusActive != StatusExpired
    ensures StatusActive != StatusCanceled
    ensures StatusExpired != StatusCanceled
  {
  }

  lemma ActionsDistinct()
    ensures ActionAssign != ActionRenew && ActionAssign != ActionCancel
    ensures ActionAssign != ActionUpgrade && ActionAssign != ActionDowngrade
    ensures ActionRenew != ActionCancel && ActionRenew != ActionUpgrade
    ensures ActionRenew != ActionDowngrade && ActionCancel != ActionUpgrade
    ensures ActionCancel != ActionDowngrade && ActionUpgrade != ActionDowngrade
  {
    assert ActionAssign[0] != ActionCancel[0];
  }

  /** A longer duration never gives an earlier expiration date. */
  lemma ExpirationMonotone(startDate: Instant, d1: int, d2: int)
    requires d1 <= d2
    ensures CalculateExpirationDate(startDate, d1) <= CalculateExpirationDate(startDate, d2)
  {
    var r1, r2 := CalculateExpirationDate(startDate, d1), CalculateExpirationDate(startDate, d2);
    assert r1 == DayOf(r1) * SecondsPerDay;
    assert r2 == DayOf(r2) * SecondsPerDay;
  }

  /** At its expiry instant a plan is not yet expired; one second later it is. */
  lemma ExpiredBoundary(expiresAt: Instant)
    ensures !IsExpired(expiresAt, expiresAt)
    ensures IsExpired(expiresAt, expiresAt + 1)
  {
  }

  /** Once a plan has expired it stays expired at every later instant. */
  lemma ExpiredStaysExpired(expiresAt: Instant, now: Instant, later: Instant)
    requires IsExpired(expiresAt, now) && now <= later
    ensures IsExpired(expiresAt, later)
  {
  }

  /** "Expiring soon" is exactly the window [now, now + daysThreshold days). */
  lemma ExpiringSoonWindow(expiresAt: Instant, daysThreshold: int, now: Instant)
    ensures IsExpiringSoon(expiresAt, daysThreshold, now)
        <==> now <= expiresAt < now + daysThreshold * SecondsPerDay
  {
  }

  /** A plan is never both expired and expiring soon. */
  lemma ExpiringSoonExcludesExpired(expiresAt: Instant, daysThreshold: int, now: Instant)
    ensures !(IsExpiringSoon(expiresAt, daysThreshold, now) && IsExpired(expiresAt, now))
  {
  }

  /** With a threshold of zero days or fewer nothing is expiring soon. */
  lemma ExpiringSoonNeedsPositiveThreshold(expiresAt: Instant, daysThreshold: int, now: Instant)
    requires daysThreshold <= 0
    ensures !IsExpiringSoon(expiresAt, daysThreshold, now)
  {
  }
}
