/**
 * The userplan plan service: assignment, renewal and cancellation of a
 * user's plan through the user-plan repository, and the price and
 * plan-limitation writes through their repositories.
 *
 * The repositories are held as state of the service: the user-plan rows in
 * id order, the price table keyed by (planID, month) and the plan-limitation
 * table keyed by (planID, limitationID). The service issues each repository
 * call on its own, outside any transaction; `rejected` names the calls the
 * store rejects.
 */
module Service {
  import opened Outcomes
  import opened Domain
  import opened Store

  datatype StoreError = RecordNotFound | StoreFailure | DuplicateKey

  /** The repository calls the service makes. */
  datatype RepoCall =
    | GetActiveByUserID
    | SoftDelete
    | CreateUserPlan
    | UpdateUserPlan
    | GetByPlanIDAndMonth
    | CreatePrice
    | UpdatePrice
    | AssignToPlan

  type PriceKey = (nat, int)

  type PlanLimitationKey = (nat, nat)

  /** The column default of `Price.Price`. */
  const DefaultPrice: int := 1000000

  /** The column default of `PlanLimitation.Value`. */
  const DefaultLimitationValue: int := 1

  /** A row of the user that has not been soft-deleted. */
  predicate Live(r: UserPlan, userID: nat)
  {
    r.userID == userID && !r.deleted
  }

  /** No user has two rows that are not soft-deleted. */
  ghost predicate AtMostOneLive(rows: seq<UserPlan>)
  {
    forall i, j :: 0 <= i < j < |rows| && !rows[i].deleted && !rows[j].deleted ==> rows[i].userID != rows[j].userID
  }

  /** What the active-plan lookup answers: the index of the user's first live row, or the error. */
  function LookupActive(rows: seq<UserPlan>, userID: nat, rejected: set<RepoCall>): (r: Result<nat, StoreError>)
    ensures r.Ok? ==> r.value < |rows| && Live(rows[r.value], userID)
    ensures r.Ok? ==> forall j :: 0 <= j < r.value ==> !Live(rows[j], userID)
    ensures r == Err(StoreFailure) <==> GetActiveByUserID in rejected
    ensures GetActiveByUserID !in rejected && (exists i :: 0 <= i < |rows| && Live(rows[i], userID)) ==> r.Ok?
    ensures r == Err(RecordNotFound) <==> GetActiveByUserID !in rejected && forall i :: 0 <= i < |rows| ==> !Live(rows[i], userID)
  {
    if GetActiveByUserID in rejected then Err(StoreFailure)
    else match First(rows, r => Live(r, userID))
      case None => Err(RecordNotFound)
      case Some(k) => Ok(k)
  }

  /** The soft delete of the row with primary key `id`: its deletion marker is set. */
  function SoftDeleteByID(rows: seq<UserPlan>, id: nat): (r: seq<UserPlan>)
    ensures |r| == |rows|
    ensures forall i :: 0 <= i < |rows| && rows[i].id == id && !rows[i].deleted ==> r[i] == rows[i].(deleted := true)
    ensures forall i :: 0 <= i < |rows| && (rows[i].id != id || rows[i].deleted) ==> r[i] == rows[i]
  {
    UpdateWhere(rows, (r: UserPlan) => r.id == id && !r.deleted, (r: UserPlan) => r.(deleted := true))
  }

  /** Soft-deleting a live row by its id, when ids are unique, touches that row only. */
  lemma SoftDeleteHitsOneRow(rows: seq<UserPlan>, next: nat, k: nat)
    requires IdsAscending(rows, RowID, next)
    requires k < |rows| && !rows[k].deleted
    ensures SoftDeleteByID(rows, rows[k].id) == rows[k := rows[k].(deleted := true)]
  {
    var r := SoftDeleteByID(rows, rows[k].id);
    forall i | 0 <= i < |rows| ensures r[i] == rows[k := rows[k].(deleted := true)][i] {
      if i < k {
        assert rows[i].id < rows[k].id;
      } else if i > k {
        assert rows[k].id < rows[i].id;
      }
    }
  }

  /** The row the service creates: only the user, the plan and the expiry are set. */
  function NewUserPlan(id: nat, userID: nat, planID: nat, exTime: Instant): UserPlan
  {
    UserPlan(id, userID, planID, "", ZeroTime, ZeroTime, ZeroTime, exTime, false)
  }

  /**
   * When the lookup found the user's live row, replacing it (soft delete, then
   * create) leaves the new row as the user's only live row and keeps at most
   * one live row per user.
   */
  lemma ReplaceKeepsOneLive(rows: seq<UserPlan>, next: nat, userID: nat, planID: nat, exTime: Instant)
    requires IdsAscending(rows, RowID, next) && AtMostOneLive(rows)
    requires LookupActive(rows, userID, {}).Ok?
    ensures var k := LookupActive(rows, userID, {}).value;
      var rows' := SoftDeleteByID(rows, rows[k].id) + [NewUserPlan(next, userID, planID, exTime)];
      && AtMostOneLive(rows')
      && forall i :: 0 <= i < |rows'| ==> (Live(rows'[i], userID) <==> i == |rows|)
  {
    var k := LookupActive(rows, userID, {}).value;
    SoftDeleteHitsOneRow(rows, next, k);
    var deleted := rows[k := rows[k].(deleted := true)];
    var rows' := deleted + [NewUserPlan(next, userID, planID, exTime)];
    forall i | 0 <= i < |rows| && i != k ensures !Live(rows'[i], userID) {
      assert rows'[i] == rows[i];
      if i < k {
        assert !rows[i].deleted ==> rows[i].userID != rows[k].userID;
      } else {
        assert !rows[i].deleted ==> rows[k].userID != rows[i].userID;
      }
    }
    forall i, j | 0 <= i < j < |rows'| && !rows'[i].deleted && !rows'[j].deleted
      ensures rows'[i].userID != rows'[j].userID
    {
      if j < |rows| {
        assert rows'[i] == rows[i] && rows'[j] == rows[j];
      }
    }
  }

  /**
   * When the lookup itself fails while the user has a live row, the service
   * still creates a new row, and the user then has two live rows.
   */
  lemma FailedLookupLeavesTwoLive(rows: seq<UserPlan>, next: nat, userID: nat, planID: nat, exTime: Instant)
    requires LookupActive(rows, userID, {}).Ok?
    ensures LookupActive(rows, userID, {GetActiveByUserID}).Err?
    ensures !AtMostOneLive(rows + [NewUserPlan(next, userID, planID, exTime)])
  {
    var k := LookupActive(rows, userID, {}).value;
    var rows' := rows + [NewUserPlan(next, userID, planID, exTime)];
    assert rows'[k] == rows[k] && rows'[|rows|].userID == userID;
  }

  /** Every price row sits under its own primary key. */
  ghost predicate PricesKeyed(prices: map<PriceKey, Price>)
  {
    forall key :: key in prices ==> prices[key].planID == key.0 && prices[key].month == key.1
  }

  /**
   * The price table after a price is set for (planID, months): the entry is
   * created with exactly the three given fields when none existed, otherwise
   * only its price changes; every other entry stays as it was.
   */
  function UpsertPrice(prices: map<PriceKey, Price>, planID: nat, months: int, price: int): (r: map<PriceKey, Price>)
    ensures r.Keys == prices.Keys + {(planID, months)}
    ensures (planID, months) !in prices ==> r[(planID, months)] == Price(planID, months, price)
    ensures PricesKeyed(prices) && (planID, months) in prices ==> r[(planID, months)] == prices[(planID, months)].(price := price)
    ensures forall key :: key in prices && key != (planID, months) ==> r[key] == prices[key]
    ensures PricesKeyed(prices) ==> PricesKeyed(r)
  {
    prices[(planID, months) := Price(planID, months, price)]
  }

  /** Setting the same price twice gives the same table as setting it once. */
  lemma UpsertPriceIdempotent(prices: map<PriceKey, Price>, planID: nat, months: int, price: int)
    ensures UpsertPrice(UpsertPrice(prices, planID, months, price), planID, months, price)
         == UpsertPrice(prices, planID, months, price)
  {
  }

  /**
   * The price table after `SetPlanPrice` as the code runs it. The create path
   * goes through the column default, so a new price of zero is stored as the
   * default. The update path saves the whole row; a save of a row with a zero
   * key field is sent as an insert, which collides with the existing row and
   * leaves the table as it was.
   */
  function SetPlanPriceAsWritten(prices: map<PriceKey, Price>, planID: nat, months: int, price: int): (r: map<PriceKey, Price>)
    ensures PricesKeyed(prices) ==> PricesKeyed(r)
    ensures PricesKeyed(prices) && (planID, months) in prices && planID != 0 && months != 0 ==>
      r == UpsertPrice(prices, planID, months, price)
    ensures PricesKeyed(prices) && (planID, months) !in prices ==>
      (r == UpsertPrice(prices, planID, months, price) <==> price != 0)
    ensures (planID, months) in prices && (planID == 0 || months == 0) ==> r == prices
  {
    var key := (planID, months);
    if key in prices then
      if planID == 0 || months == 0 then prices
      else prices[key := prices[key].(price := price)]
    else prices[key := Price(planID, months, if price == 0 then DefaultPrice else price)]
  }

  /** As written, setting a new price of zero twice does not give the table that setting it once gives. */
  lemma SetPlanPriceAsWrittenNotIdempotent(prices: map<PriceKey, Price>, planID: nat, months: int)
    requires (planID, months) !in prices
    requires planID != 0 && months != 0
    ensures var once := SetPlanPriceAsWritten(prices, planID, months, 0);
      && once[(planID, months)].price == DefaultPrice
      && SetPlanPriceAsWritten(once, planID, months, 0)[(planID, months)].price == 0
      && SetPlanPriceAsWritten(once, planID, months, 0) != once
  {
    var once := SetPlanPriceAsWritten(prices, planID, months, 0);
    var twice := SetPlanPriceAsWritten(once, planID, months, 0);
    assert twice[(planID, months)] != once[(planID, months)];
  }

  /**
   * As written, a price whose plan id or month count is zero can be created
   * but never changed: every later call leaves the price it was created with.
   */
  lemma SetPlanPriceAsWrittenZeroKeyFrozen(prices: map<PriceKey, Price>, planID: nat, months: int, first: int, later: int)
    requires (planID, months) !in prices
    requires planID == 0 || months == 0
    requires first != 0 && later != first
    ensures var once := SetPlanPriceAsWritten(prices, planID, months, first);
      && SetPlanPriceAsWritten(once, planID, months, later) == once
      && once[(planID, months)].price != later
      && UpsertPrice(once, planID, months, later)[(planID, months)].price == later
  {
  }

  /**
   * The value an inserted plan limitation holds: a zero value is replaced by
   * the column default, so a stored value is never zero.
   */
  function StoredLimitationValue(value: int): (stored: int)
    ensures stored != 0
    ensures value != 0 ==> stored == value
  {
    if value == 0 then DefaultLimitationValue else value
  }

  /** Every plan limitation sits under its own primary key and holds a non-zero value. */
  ghost predicate LimitationsStored(planLimitations: map<PlanLimitationKey, PlanLimitation>)
  {
    forall key :: key in planLimitations ==>
      && planLimitations[key].planID == key.0
      && planLimitations[key].limitationID == key.1
      && planLimitations[key].value != 0
  }

  class PlanService {
    var userPlans: seq<UserPlan>
    var nextUserPlanID: nat
    var prices: map<PriceKey, Price>
    var planLimitations: map<PlanLimitationKey, PlanLimitation>

    ghost predicate Valid()
      reads this
    {
      && IdsAscending(userPlans, RowID, nextUserPlanID)
      && PricesKeyed(prices)
      && LimitationsStored(planLimitations)
    }

    /** Empty repositories; the user-plan id sequence starts at 1. */
    constructor ()
      ensures Valid()
      ensures userPlans == [] && nextUserPlanID == 1 && prices == map[] && planLimitations == map[]
    {
      userPlans, nextUserPlanID := [], 1;
      prices, planLimitations := map[], map[];
    }

    /**
     * Soft-deletes the user's live plan when the lookup finds one, then
     * creates the new plan, expiring one calendar month from now. The two
     * writes are separate calls: a failed create leaves the soft delete in place.
     */
    method AssignPlan(req: AssignPlanRequest, now: Instant, addMonth: Instant -> Instant, rejected: set<RepoCall>)
      returns (err: Option<StoreError>)
      requires Valid()
      requires forall t :: addMonth(t) > t
      modifies this
      ensures Valid()
      ensures prices == old(prices) && planLimitations == old(planLimitations)
      ensures var lookup := LookupActive(old(userPlans), req.userID, rejected);
        var created := NewUserPlan(old(nextUserPlanID), req.userID, req.planID, addMonth(now));
        var afterDelete := if lookup.Ok? then SoftDeleteByID(old(userPlans), old(userPlans)[lookup.value].id) else old(userPlans);
        if lookup.Ok? && SoftDelete in rejected then
          err == Some(StoreFailure) && userPlans == old(userPlans) && nextUserPlanID == old(nextUserPlanID)
        else if CreateUserPlan in rejected then
          err == Some(StoreFailure) && userPlans == afterDelete && nextUserPlanID == old(nextUserPlanID)
        else
          err == None && userPlans == afterDelete + [created] && nextUserPlanID == old(nextUserPlanID) + 1
      ensures err.None? ==> var created := userPlans[|userPlans| - 1];
        created.userID == req.userID && created.planID == req.planID && created.exTime > now
    {
      var lookup := LookupActive(userPlans, req.userID, rejected);
      if lookup.Ok? {
        if SoftDelete in rejected {
          return Some(StoreFailure);
        }
        SoftDeleteHitsOneRow(userPlans, nextUserPlanID, lookup.value);
        userPlans := SoftDeleteByID(userPlans, userPlans[lookup.value].id);
      }
      if CreateUserPlan in rejected {
        return Some(StoreFailure);
      }
      var userPlan := NewUserPlan(nextUserPlanID, req.userID, req.planID, addMonth(now));
      userPlans, nextUserPlanID := userPlans + [userPlan], nextUserPlanID + 1;
      err := None;
    }

    /** The user's live plan, as the active-plan lookup returns it. */
    method GetUserPlan(userID: nat, rejected: set<RepoCall>) returns (userPlan: Option<UserPlan>, err: Option<StoreError>)
      requires Valid()
      ensures err.None? <==> userPlan.Some?
      ensures match LookupActive(userPlans, userID, rejected)
        case Ok(k) => userPlan == Some(userPlans[k])
        case Err(e) => err == Some(e)
      ensures userPlan.Some? ==> Live(userPlan.value, userID) && userPlan.value in userPlans
    {
      var lookup := LookupActive(userPlans, userID, rejected);
      match lookup
      case Ok(k) => userPlan, err := Some(userPlans[k]), None;
      case Err(e) => userPlan, err := None, Some(e);
    }

    /** Overwrites the expiry of the user's live plan with the requested end date. */
    method RenewUserPlan(req: RenewPlanRequest, rejected: set<RepoCall>) returns (err: Option<StoreError>)
      requires Valid()
      modifies this
      ensures Valid()
      ensures prices == old(prices) && planLimitations == old(planLimitations) && nextUserPlanID == old(nextUserPlanID)
      ensures match LookupActive(old(userPlans), req.userID, rejected)
        case Err(e) => err == Some(e) && userPlans == old(userPlans)
        case Ok(k) =>
          if UpdateUserPlan in rejected then err == Some(StoreFailure) && userPlans == old(userPlans)
          else err == None && userPlans == old(userPlans)[k := old(userPlans)[k].(exTime := req.endDate)]
    {
      var lookup := LookupActive(userPlans, req.userID, rejected);
      if lookup.Err? {
        return Some(lookup.error);
      }
      var userPlan := userPlans[lookup.value];
      userPlan := userPlan.(exTime := req.endDate);
      if UpdateUserPlan in rejected {
        return Some(StoreFailure);
      }
      userPlans := userPlans[lookup.value := userPlan];
      err := None;
    }

    /** Soft-deletes the user's live plan. */
    method CancelUserPlan(userID: nat, rejected: set<RepoCall>) returns (err: Option<StoreError>)
      requires Valid()
      modifies this
      ensures Valid()
      ensures prices == old(prices) && planLimitations == old(planLimitations) && nextUserPlanID == old(nextUserPlanID)
      ensures match LookupActive(old(userPlans), userID, rejected)
        case Err(e) => err == Some(e) && userPlans == old(userPlans)
        case Ok(k) =>
          if SoftDelete in rejected then err == Some(StoreFailure) && userPlans == old(userPlans)
          else err == None && userPlans == old(userPlans)[k := old(userPlans)[k].(deleted := true)]
    {
      var lookup := LookupActive(userPlans, userID, rejected);
      if lookup.Err? {
        return Some(lookup.error);
      }
      if SoftDelete in rejected {
        return Some(StoreFailure);
      }
      SoftDeleteHitsOneRow(userPlans, nextUserPlanID, lookup.value);
      userPlans := SoftDeleteByID(userPlans, userPlans[lookup.value].id);
      err := None;
    }

    /**
     * Sets the price of a plan for a number of months: updates the existing
     * entry, or creates one when the lookup fails.
     */
    method SetPlanPrice(planID: nat, months: int, price: int, rejected: set<RepoCall>) returns (err: Option<StoreError>)
      requires Valid()
      modifies this
      ensures Valid()
      ensures userPlans == old(userPlans) && nextUserPlanID == old(nextUserPlanID) && planLimitations == old(planLimitations)
      ensures var key := (planID, months);
        var creates := GetByPlanIDAndMonth in rejected || key !in old(prices);
        err == (if creates && CreatePrice in rejected then Some(StoreFailure)
                else if creates && key in old(prices) then Some(DuplicateKey)
                else if !creates && UpdatePrice in rejected then Some(StoreFailure)
                else None)
      ensures err.None? ==> prices == UpsertPrice(old(prices), planID, months, price)
      ensures err.Some? ==> prices == old(prices)
    {
      var key := (planID, months);
      if GetByPlanIDAndMonth in rejected || key !in prices {
        if CreatePrice in rejected {
          return Some(StoreFailure);
        }
        if key in prices {
          return Some(DuplicateKey);
        }
        var newPrice := Price(planID, months, price);
        prices := prices[key := newPrice];
        return None;
      }
      var existingPrice := prices[key];
      existingPrice := existingPrice.(price := price);
      if UpdatePrice in rejected {
        return Some(StoreFailure);
      }
      prices := prices[key := existingPrice];
      err := None;
    }

    /** Inserts the value of a limitation on a plan; the pair must not be present yet. */
    method AssignLimitationToPlan(planID: nat, limitationID: nat, value: int, rejected: set<RepoCall>)
      returns (err: Option<StoreError>)
      requires Valid()
      modifies this
      ensures Valid()
      ensures userPlans == old(userPlans) && nextUserPlanID == old(nextUserPlanID) && prices == old(prices)
      ensures var key := (planID, limitationID);
        err == (if AssignToPlan in rejected then Some(StoreFailure)
                else if key in old(planLimitations) then Some(DuplicateKey)
                else None)
      ensures err.None? ==> planLimitations == old(planLimitations)[(planID, limitationID) :=
                              PlanLimitation(planID, limitationID, StoredLimitationValue(value))]
      ensures err.Some? ==> planLimitations == old(planLimitations)
    {
      var key := (planID, limitationID);
      if AssignToPlan in rejected {
        return Some(StoreFailure);
      }
      if key in planLimitations {
        return Some(DuplicateKey);
      }
      var planLimitation := PlanLimitation(planID, limitationID, StoredLimitationValue(value));
      planLimitations := planLimitations[key := planLimitation];
      err := None;
    }
  }
}
