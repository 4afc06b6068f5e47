/**
 * The user-plan ledger repository: a table of user-plan rows and an
 * append-only plan-history table, changed together inside one transaction.
 *
 * The store may reject any statement an operation sends; the set `rejected`
 * names the statements it rejects. A rejected statement aborts the
 * transaction, and nothing the transaction wrote survives.
 */
module Ledger {
  import opened Outcomes
  import opened Domain
  import opened Store

  datatype RepoError = RecordNotFound | StoreFailure

  /** The statements a ledger operation sends to the store. */
  datatype Statement =
    | SelectActive     // SELECT the user's active row
    | UpdateActive     // UPDATE every active row of the user
    | InsertUserPlan   // INSERT a user-plan row
    | SaveUserPlan     // UPDATE one user-plan row with all its fields
    | InsertHistory    // INSERT a plan-history entry
    | SelectHistory    // SELECT the user's history entries

  /** How long before the end of a renewed plan its next renewal is due. */
  const RenewalNotice: int := 7 * SecondsPerDay

  /** The contents of both tables and the next value of each id sequence. */
  datatype Tables = Tables(rows: seq<UserPlan>, history: seq<PlanHistory>, nextRowID: nat, nextHistoryID: nat)

  /** A row the store's default scope shows (not soft-deleted) with status active. */
  predicate IsActive(r: UserPlan)
  {
    r.status == StatusActive && !r.deleted
  }

  predicate ActiveRow(r: UserPlan, userID: nat)
  {
    r.userID == userID && IsActive(r)
  }

  /** No user has two active rows. */
  ghost predicate AtMostOneActive(rows: seq<UserPlan>)
  {
    forall i, j :: 0 <= i < j < |rows| && IsActive(rows[i]) && IsActive(rows[j]) ==> rows[i].userID != rows[j].userID
  }

  ghost predicate WellFormed(t: Tables)
  {
    && IdsAscending(t.rows, RowID, t.nextRowID)
    && IdsAscending(t.history, EntryID, t.nextHistoryID)
    && AtMostOneActive(t.rows)
  }

  /** The row a user's active-row lookup returns: the one with the lowest id. */
  function FirstActive(rows: seq<UserPlan>, userID: nat): Option<nat>
  {
    First(rows, r => ActiveRow(r, userID))
  }

  function Close(r: UserPlan, now: Instant): UserPlan
  {
    r.(status := StatusCanceled, endDate := now)
  }

  /** The bulk update that cancels every active row of a user. */
  function CloseActive(rows: seq<UserPlan>, userID: nat, now: Instant): (r: seq<UserPlan>)
    ensures |r| == |rows|
    ensures forall i :: 0 <= i < |rows| && ActiveRow(rows[i], userID) ==> r[i] == Close(rows[i], now)
    ensures forall i :: 0 <= i < |rows| && !ActiveRow(rows[i], userID) ==> r[i] == rows[i]
    ensures forall i :: 0 <= i < |r| ==> !ActiveRow(r[i], userID)
  {
    UpdateWhere(rows, r => ActiveRow(r, userID), r => Close(r, now))
  }

  /**
   * Cancelling every active row of a user and then appending a row keeps at
   * most one active row per user.
   */
  lemma CloseThenAppendKeepsAtMostOneActive(rows: seq<UserPlan>, created: UserPlan, now: Instant)
    ensures AtMostOneActive(rows) ==> AtMostOneActive(CloseActive(rows, created.userID, now) + [created])
  {
    var closed := CloseActive(rows, created.userID, now);
    var rows' := closed + [created];
    if AtMostOneActive(rows) {
      forall i, j | 0 <= i < j < |rows'| && IsActive(rows'[i]) && IsActive(rows'[j])
        ensures rows'[i].userID != rows'[j].userID
      {
        assert rows'[i] == closed[i];
        if j < |rows| {
          assert rows'[j] == closed[j];
        }
      }
    }
  }

  /**
   * Replacing one row by a row with the same key and user, which is active
   * only if the old one was, keeps both invariants of the row table.
   */
  lemma ReplaceRowKeepsInvariants(rows: seq<UserPlan>, next: nat, k: nat, row: UserPlan)
    requires k < |rows| && row.id == rows[k].id && row.userID == rows[k].userID
    requires IsActive(row) ==> IsActive(rows[k])
    ensures IdsAscending(rows, RowID, next) ==> IdsAscending(rows[k := row], RowID, next)
    ensures AtMostOneActive(rows) ==> AtMostOneActive(rows[k := row])
  {
    var rows' := rows[k := row];
    if AtMostOneActive(rows) {
      forall i, j | 0 <= i < j < |rows'| && IsActive(rows'[i]) && IsActive(rows'[j])
        ensures rows'[i].userID != rows'[j].userID
      {
        assert IsActive(rows[i]) && IsActive(rows[j]);
      }
    }
  }

  /** Effect of a committed assignment; it keeps the tables well formed. */
  function Assign(t: Tables, userPlan: UserPlan, now: Instant): (r: Tables)
    ensures WellFormed(t) ==> WellFormed(r)
  {
    var created := userPlan.(id := t.nextRowID);
    var entry := PlanHistory(t.nextHistoryID, created.id, ActionAssign, None, Some(created.planID), now);
    CloseThenAppendKeepsAtMostOneActive(t.rows, created, now);
    Tables(CloseActive(t.rows, userPlan.userID, now) + [created], t.history + [entry], t.nextRowID + 1, t.nextHistoryID + 1)
  }

  function Renewed(r: UserPlan, newEndDate: Instant, now: Instant): UserPlan
  {
    r.(endDate := newEndDate, lastRenewalAt := now, nextRenewalAt := newEndDate - RenewalNotice)
  }

  /** Effect of a committed renewal, or the lookup's failure; a renewal keeps the tables well formed. */
  function Renew(t: Tables, userID: nat, newEndDate: Instant, now: Instant): (r: Result<Tables, RepoError>)
    ensures r.Ok? && WellFormed(t) ==> WellFormed(r.value)
  {
    match FirstActive(t.rows, userID)
    case None => Err(RecordNotFound)
    case Some(k) =>
      var entry := PlanHistory(t.nextHistoryID, t.rows[k].id, ActionRenew, Some(t.rows[k].planID), None, now);
      ReplaceRowKeepsInvariants(t.rows, t.nextRowID, k, Renewed(t.rows[k], newEndDate, now));
      Ok(Tables(t.rows[k := Renewed(t.rows[k], newEndDate, now)], t.history + [entry], t.nextRowID, t.nextHistoryID + 1))
  }

  /** Effect of a committed cancellation, or the lookup's failure; a cancellation keeps the tables well formed. */
  function Cancel(t: Tables, userID: nat, now: Instant): (r: Result<Tables, RepoError>)
    ensures r.Ok? && WellFormed(t) ==> WellFormed(r.value)
  {
    match FirstActive(t.rows, userID)
    case None => Err(RecordNotFound)
    case Some(k) =>
      var entry := PlanHistory(t.nextHistoryID, t.rows[k].id, ActionCancel, Some(t.rows[k].planID), None, now);
      ReplaceRowKeepsInvariants(t.rows, t.nextRowID, k, Close(t.rows[k], now));
      Ok(Tables(t.rows[k := Close(t.rows[k], now)], t.history + [entry], t.nextRowID, t.nextHistoryID + 1))
  }

  /**
   * Effect of appending a history entry outside any transaction: the entry
   * gets the next key, and the tables stay well formed.
   */
  function Record(t: Tables, entry: PlanHistory): (r: Tables)
    ensures WellFormed(t) ==> WellFormed(r)
    ensures r.rows == t.rows && |r.history| == |t.history| + 1
    ensures r.history[..|t.history|] == t.history && r.history[|t.history|] == entry.(id := t.nextHistoryID)
  {
    t.(history := t.history + [entry.(id := t.nextHistoryID)], nextHistoryID := t.nextHistoryID + 1)
  }

  // ---------------------------------------------------------------------------
  // Reading the history of a user

  /** The entry documents a row that belongs to the user (the join of the history query). */
  predicate BelongsTo(e: PlanHistory, rows: seq<UserPlan>, userID: nat)
  {
    exists i :: 0 <= i < |rows| && rows[i].id == e.userPlanID && rows[i].userID == userID
  }

  /** The entries of the join, in recording order. */
  function EntriesOf(history: seq<PlanHistory>, rows: seq<UserPlan>, userID: nat): (r: seq<PlanHistory>)
    ensures forall e :: multiset(r)[e] == if BelongsTo(e, rows, userID) then multiset(history)[e] else 0
    ensures forall e :: e in r <==> e in history && BelongsTo(e, rows, userID)
    ensures (forall i :: 0 <= i < |history| ==> !BelongsTo(history[i], rows, userID)) ==> r == []
  {
    if history == [] then []
    else
      var rest := EntriesOf(history[1..], rows, userID);
      assert history == [history[0]] + history[1..];
      if BelongsTo(history[0], rows, userID) then [history[0]] + rest else rest
  }

  ghost predicate NewestFirst(s: seq<PlanHistory>)
  {
    forall i, j :: 0 <= i < j < |s| ==> s[i].changedAt >= s[j].changedAt
  }

  /** Places `e` after every entry of `s` that is strictly newer. */
  function InsertByTime(e: PlanHistory, s: seq<PlanHistory>): (r: seq<PlanHistory>)
    ensures multiset(r) == multiset(s) + multiset{e}
    ensures forall x :: x in r <==> x == e || x in s
  {
    if s == [] || s[0].changedAt <= e.changedAt then [e] + s
    else
      assert s == [s[0]] + s[1..];
      [s[0]] + InsertByTime(e, s[1..])
  }

  /** No entry of `s` is newer than `t`. */
  ghost predicate NoneNewerThan(s: seq<PlanHistory>, t: Instant)
  {
    forall x :: x in s ==> x.changedAt <= t
  }

  /** In a newest-first sequence no entry is newer than the head. */
  lemma HeadIsNewest(s: seq<PlanHistory>)
    requires s != [] && NewestFirst(s)
    ensures NoneNewerThan(s, s[0].changedAt)
  {
    forall x | x in s ensures x.changedAt <= s[0].changedAt {
      var m :| 0 <= m < |s| && s[m] == x;
      if m > 0 {
        assert s[0].changedAt >= s[m].changedAt;
      }
    }
  }

  /** An entry no newer than `x` may be placed in front of a newest-first sequence bounded by `x`. */
  lemma ConsNewestFirst(x: PlanHistory, s: seq<PlanHistory>)
    requires NewestFirst(s) && NoneNewerThan(s, x.changedAt)
    ensures NewestFirst([x] + s)
  {
    var r := [x] + s;
    forall i, j | 0 <= i < j < |r| ensures r[i].changedAt >= r[j].changedAt {
      if i == 0 {
        assert r[j] in s;
      } else {
        assert r[i] == s[i - 1] && r[j] == s[j - 1];
      }
    }
  }

  /** Inserting into a newest-first sequence keeps it newest first. */
  lemma {:induction false} InsertByTimeSorted(e: PlanHistory, s: seq<PlanHistory>)
    requires NewestFirst(s)
    ensures NewestFirst(InsertByTime(e, s))
  {
    if s == [] || s[0].changedAt <= e.changedAt {
      if s != [] {
        HeadIsNewest(s);
      }
      ConsNewestFirst(e, s);
    } else {
      var rest := InsertByTime(e, s[1..]);
      assert NewestFirst(s[1..]);
      InsertByTimeSorted(e, s[1..]);
      HeadIsNewest(s);
      assert NoneNewerThan(rest, s[0].changedAt) by {
        forall x | x in rest ensures x.changedAt <= s[0].changedAt {
          if x != e {
            assert x in s;
          }
        }
      }
      ConsNewestFirst(s[0], rest);
    }
  }

  /** The entries ordered newest first; entries with equal times keep their order. */
  function SortNewestFirst(s: seq<PlanHistory>): (r: seq<PlanHistory>)
    ensures multiset(r) == multiset(s)
    ensures NewestFirst(r)
  {
    if s == [] then []
    else
      assert s == [s[0]] + s[1..];
      var sorted := SortNewestFirst(s[1..]);
      InsertByTimeSorted(s[0], sorted);
      InsertByTime(s[0], sorted)
  }

  /**
   * What the history query returns for a user: every entry documenting one of
   * the user's rows, each as often as it was recorded, newest first.
   */
  function UserHistory(t: Tables, userID: nat): (h: seq<PlanHistory>)
    ensures NewestFirst(h)
    ensures forall e :: multiset(h)[e] == if BelongsTo(e, t.rows, userID) then multiset(t.history)[e] else 0
    ensures forall e :: e in h <==> e in t.history && BelongsTo(e, t.rows, userID)
  {
    var joined := EntriesOf(t.history, t.rows, userID);
    var h := SortNewestFirst(joined);
    assert forall e :: e in h <==> e in multiset(h);
    assert forall e :: e in joined <==> e in multiset(joined);
    h
  }

  // ---------------------------------------------------------------------------
  // Properties of the operations

  /** Every row of the user that was active before an assignment is canceled and ends now. */
  lemma AssignClosesPrevious(t: Tables, userPlan: UserPlan, now: Instant)
    ensures var t' := Assign(t, userPlan, now);
      forall i :: 0 <= i < |t.rows| && ActiveRow(t.rows[i], userPlan.userID) ==>
        t'.rows[i].status == StatusCanceled && t'.rows[i].endDate == now
  {
  }

  /** An assignment leaves the existing rows of every other user as they were. */
  lemma AssignTouchesOnlyUser(t: Tables, userPlan: UserPlan, now: Instant)
    ensures var t' := Assign(t, userPlan, now);
      forall i :: 0 <= i < |t.rows| && t.rows[i].userID != userPlan.userID ==> t'.rows[i] == t.rows[i]
  {
  }

  /** An assignment inserts the row and appends exactly one `assign` entry documenting it. */
  lemma AssignRecordsOneEntry(t: Tables, userPlan: UserPlan, now: Instant)
    ensures var t' := Assign(t, userPlan, now);
      && |t'.rows| == |t.rows| + 1
      && t'.rows[|t.rows|] == userPlan.(id := t.nextRowID)
      && |t'.history| == |t.history| + 1
      && t'.history[..|t.history|] == t.history
      && var e := t'.history[|t.history|];
         e.action == ActionAssign && e.userPlanID == t'.rows[|t.rows|].id
         && e.newPlanID == Some(userPlan.planID) && e.oldPlanID == None && e.changedAt == now
  {
  }

  /**
   * An assignment keeps at most one active row per user, and when the inserted
   * row is active it is the user's only active row.
   */
  lemma AssignKeepsAtMostOneActive(t: Tables, userPlan: UserPlan, now: Instant)
    requires AtMostOneActive(t.rows)
    ensures var rows' := Assign(t, userPlan, now).rows;
      && AtMostOneActive(rows')
      && (IsActive(userPlan) ==> forall i :: 0 <= i < |rows'| ==> (ActiveRow(rows'[i], userPlan.userID) <==> i == |t.rows|))
  {
    var created := userPlan.(id := t.nextRowID);
    CloseThenAppendKeepsAtMostOneActive(t.rows, created, now);
  }

  /** Renewal fails exactly when the user has no active row. */
  lemma RenewNeedsActiveRow(t: Tables, userID: nat, newEndDate: Instant, now: Instant)
    ensures Renew(t, userID, newEndDate, now).Err?
        <==> forall i :: 0 <= i < |t.rows| ==> !ActiveRow(t.rows[i], userID)
  {
  }

  /**
   * A renewal moves the end of the user's active row, stamps the renewal and
   * schedules the next one seven days before the new end; it keeps the status
   * and the plan, changes no other row, and appends one `renew` entry that
   * names the current plan.
   */
  lemma RenewMovesEnd(t: Tables, userID: nat, newEndDate: Instant, now: Instant)
    requires Renew(t, userID, newEndDate, now).Ok?
    ensures var t' := Renew(t, userID, newEndDate, now).value;
      exists k :: 0 <= k < |t.rows| && ActiveRow(t.rows[k], userID)
        && |t'.rows| == |t.rows|
        && t'.rows[k].endDate == newEndDate
        && t'.rows[k].lastRenewalAt == now
        && t'.rows[k].nextRenewalAt == newEndDate - 7 * SecondsPerDay
        && t'.rows[k].status == t.rows[k].status && t'.rows[k].planID == t.rows[k].planID
        && t'.rows[k].id == t.rows[k].id && t'.rows[k].userID == userID
        && (forall i :: 0 <= i < |t.rows| && i != k ==> t'.rows[i] == t.rows[i])
        && t'.history == t.history + [PlanHistory(t.nextHistoryID, t.rows[k].id, ActionRenew, Some(t.rows[k].planID), None, now)]
  {
    var k := FirstActive(t.rows, userID).value;
    assert ActiveRow(t.rows[k], userID);
  }

  /** Cancellation fails exactly when the user has no active row. */
  lemma CancelNeedsActiveRow(t: Tables, userID: nat, now: Instant)
    ensures Cancel(t, userID, now).Err?
        <==> forall i :: 0 <= i < |t.rows| ==> !ActiveRow(t.rows[i], userID)
  {
  }

  /**
   * A cancellation marks the user's active row canceled, ending now, changes no
   * other row and appends one `cancel` entry naming its plan; when no user had
   * two active rows, the user has none afterwards.
   */
  lemma CancelLeavesNoActive(t: Tables, userID: nat, now: Instant)
    requires AtMostOneActive(t.rows)
    requires Cancel(t, userID, now).Ok?
    ensures var t' := Cancel(t, userID, now).value;
      && (exists k :: 0 <= k < |t.rows| && ActiveRow(t.rows[k], userID)
            && t'.rows == t.rows[k := t.rows[k].(status := StatusCanceled, endDate := now)]
            && t'.history == t.history + [PlanHistory(t.nextHistoryID, t.rows[k].id, ActionCancel, Some(t.rows[k].planID), None, now)])
      && AtMostOneActive(t'.rows)
      && forall i :: 0 <= i < |t'.rows| ==> !ActiveRow(t'.rows[i], userID)
  {
    var k := FirstActive(t.rows, userID).value;
    var rows' := Cancel(t, userID, now).value.rows;
    assert ActiveRow(t.rows[k], userID);
    forall i | 0 <= i < |rows'| ensures !ActiveRow(rows'[i], userID) {
      if i < k {
        assert IsActive(t.rows[i]) ==> t.rows[i].userID != t.rows[k].userID;
      } else if i > k {
        assert IsActive(t.rows[i]) ==> t.rows[k].userID != t.rows[i].userID;
      }
    }
  }

  /** A user who never had a plan has an empty history. */
  lemma NoPlansNoHistory(t: Tables, userID: nat)
    requires forall i :: 0 <= i < |t.rows| ==> t.rows[i].userID != userID
    ensures UserHistory(t, userID) == []
  {
    assert EntriesOf(t.history, t.rows, userID) == [];
  }

  // ---------------------------------------------------------------------------
  // The repository

  /** The zero user-plan row a failed lookup hands back beside its error. */
  const ZeroUserPlan: UserPlan := UserPlan(0, 0, 0, "", ZeroTime, ZeroTime, ZeroTime, ZeroTime, false)

  class UserPlanRepository {
    var rows: seq<UserPlan>
    var history: seq<PlanHistory>
    var nextRowID: nat
    var nextHistoryID: nat

    function State(): Tables
      reads this
    {
      Tables(rows, history, nextRowID, nextHistoryID)
    }

    ghost predicate Valid()
      reads this
    {
      WellFormed(State())
    }

    /** Empty tables; both id sequences start at 1. */
    constructor ()
      ensures Valid()
      ensures State() == Tables([], [], 1, 1)
    {
      rows, history := [], [];
      nextRowID, nextHistoryID := 1, 1;
    }

    /**
     * Cancels every active row of the user, inserts `userPlan` under a fresh
     * id and records an `assign` entry, all in one transaction.
     */
    method AssignPlan(userPlan: UserPlan, now: Instant, rejected: set<Statement>) returns (err: Option<RepoError>)
      requires Valid()
      modifies this
      ensures Valid()
      ensures err.None? <==> UpdateActive !in rejected && InsertUserPlan !in rejected && InsertHistory !in rejected
      ensures err.None? ==> State() == Assign(old(State()), userPlan, now)
      ensures err.Some? ==> err == Some(StoreFailure) && State() == old(State())
    {
      ghost var committed := Assign(State(), userPlan, now);
      assert WellFormed(committed);
      if UpdateActive in rejected {
        return Some(StoreFailure);
      }
      var txRows := CloseActive(rows, userPlan.userID, now);
      if InsertUserPlan in rejected {
        return Some(StoreFailure);
      }
      var created := userPlan.(id := nextRowID);
      txRows := txRows + [created];
      if InsertHistory in rejected {
        return Some(StoreFailure);
      }
      var entry := PlanHistory(nextHistoryID, created.id, ActionAssign, None, Some(created.planID), now);
      rows, history := txRows, history + [entry];
      nextRowID, nextHistoryID := nextRowID + 1, nextHistoryID + 1;
      assert State() == committed;
      err := None;
    }

    /** The user's active row with the lowest id, or the zero row and an error. */
    method GetByUserID(userID: nat, rejected: set<Statement>) returns (userPlan: UserPlan, err: Option<RepoError>)
      requires Valid()
      ensures SelectActive in rejected ==> err == Some(StoreFailure) && userPlan == ZeroUserPlan
      ensures SelectActive !in rejected ==>
        match FirstActive(rows, userID)
        case None => err == Some(RecordNotFound) && userPlan == ZeroUserPlan
        case Some(k) => err == None && userPlan == rows[k]
      ensures err.None? ==> ActiveRow(userPlan, userID) && userPlan in rows
    {
      if SelectActive in rejected {
        return ZeroUserPlan, Some(StoreFailure);
      }
      var found := FirstActive(rows, userID);
      if found.None? {
        return ZeroUserPlan, Some(RecordNotFound);
      }
      userPlan, err := rows[found.value], None;
    }

    /**
     * Moves the end date of the user's active row, stamps the renewal and
     * records a `renew` entry, all in one transaction.
     */
    method RenewPlan(userID: nat, newEndDate: Instant, now: Instant, rejected: set<Statement>) returns (err: Option<RepoError>)
      requires Valid()
      modifies this
      ensures Valid()
      ensures err == (if SelectActive in rejected then Some(StoreFailure)
                      else if Renew(old(State()), userID, newEndDate, now).Err? then Some(RecordNotFound)
                      else if SaveUserPlan in rejected || InsertHistory in rejected then Some(StoreFailure)
                      else None)
      ensures err.None? ==> State() == Renew(old(State()), userID, newEndDate, now).value
      ensures err.Some? ==> State() == old(State())
    {
      if SelectActive in rejected {
        return Some(StoreFailure);
      }
      var found := FirstActive(rows, userID);
      if found.None? {
        return Some(RecordNotFound);
      }
      ghost var committed := Renew(State(), userID, newEndDate, now).value;
      assert WellFormed(committed);
      var k := found.value;
      var userPlan := rows[k];
      var entry := PlanHistory(nextHistoryID, userPlan.id, ActionRenew, Some(userPlan.planID), None, now);
      userPlan := userPlan.(endDate := newEndDate, lastRenewalAt := now, nextRenewalAt := newEndDate - RenewalNotice);
      if SaveUserPlan in rejected {
        return Some(StoreFailure);
      }
      var txRows := rows[k := userPlan];
      if InsertHistory in rejected {
        return Some(StoreFailure);
      }
      rows, history, nextHistoryID := txRows, history + [entry], nextHistoryID + 1;
      assert State() == committed;
      err := None;
    }

    /**
     * Marks the user's active row canceled, ending now, and records a
     * `cancel` entry, all in one transaction.
     */
    method CancelPlan(userID: nat, now: Instant, rejected: set<Statement>) returns (err: Option<RepoError>)
      requires Valid()
      modifies this
      ensures Valid()
      ensures err == (if SelectActive in rejected then Some(StoreFailure)
                      else if Cancel(old(State()), userID, now).Err? then Some(RecordNotFound)
                      else if SaveUserPlan in rejected || InsertHistory in rejected then Some(StoreFailure)
                      else None)
      ensures err.None? ==> State() == Cancel(old(State()), userID, now).value
      ensures err.Some? ==> State() == old(State())
    {
      if SelectActive in rejected {
        return Some(StoreFailure);
      }
      var found := FirstActive(rows, userID);
      if found.None? {
        return Some(RecordNotFound);
      }
      ghost var committed := Cancel(State(), userID, now).value;
      assert WellFormed(committed);
      var k := found.value;
      var userPlan := rows[k];
      var entry := PlanHistory(nextHistoryID, userPlan.id, ActionCancel, Some(userPlan.planID), None, now);
      userPlan := userPlan.(status := StatusCanceled, endDate := now);
      if SaveUserPlan in rejected {
        return Some(StoreFailure);
      }
      var txRows := rows[k := userPlan];
      if InsertHistory in rejected {
        return Some(StoreFailure);
      }
      rows, history, nextHistoryID := txRows, history + [entry], nextHistoryID + 1;
      assert State() == committed;
      err := None;
    }

    /** The user's history entries, newest first. */
    method GetHistory(userID: nat, rejected: set<Statement>) returns (entries: seq<PlanHistory>, err: Option<RepoError>)
      requires Valid()
      ensures err.None? <==> SelectHistory !in rejected
      ensures err.None? ==> entries == UserHistory(State(), userID)
      ensures err.Some? ==> entries == [] && err == Some(StoreFailure)
    {
      if SelectHistory in rejected {
        return [], Some(StoreFailure);
      }
      entries, err := UserHistory(State(), userID), None;
    }

    /** Appends one history entry under a fresh id, outside any transaction. */
    method RecordHistory(entry: PlanHistory, rejected: set<Statement>) returns (err: Option<RepoError>)
      requires Valid()
      modifies this
      ensures Valid()
      ensures err.None? <==> InsertHistory !in rejected
      ensures err.None? ==> State() == Record(old(State()), entry)
      ensures err.Some? ==> err == Some(StoreFailure) && State() == old(State())
    {
      if InsertHistory in rejected {
        return Some(StoreFailure);
      }
      history, nextHistoryID := history + [entry.(id := nextHistoryID)], nextHistoryID + 1;
      err := None;
    }
  }
}
