/**
 * The user administration handlers: `PUT /users/:userId/role`, which changes a user's role
 * and logs the change, and the in-memory `endDate` filter of `GET /audit-logs`.
 *
 * `actorUid` and `actorEmail` are `req.user.uid` and `req.user.email`; `now` stands for the
 * server timestamp Firestore writes.
 */
module Users {
  import opened Wrappers
  import opened Auth
  import opened Records
  import opened Store

  /** The body of a successful role update. */
  datatype RoleUpdated = RoleUpdated(userId: string, role: string)

  /** The profile after the update: the new role, who changed it and when. */
  function WithRole(p: UserProfile, role: string, actorUid: string, now: int): UserProfile {
    p.(role := role, updatedAt := Some(now), updatedBy := Some(actorUid))
  }

  /**
   * `PUT /users/:userId/role`. An unknown role is refused before the user is looked up;
   * an unknown user is a 404; otherwise the role is written and one audit entry records the
   * old and the new role. Nothing else in the store changes.
   */
  method UpdateUserRole(db: ContractStore, actorUid: string, actorEmail: string, userId: string, role: string,
                        now: int)
    returns (r: Result<RoleUpdated, ApiError>)
    requires db.Valid()
    modifies db
    ensures db.Valid()
    ensures unchanged(db`ids, db`contracts, db`versions, db`edits, db`violations, db`settings, db`notifications,
                      db`reports)
    ensures ValidateNewRole(role).None? ==> r == Err(BadRequest)
    ensures ValidateNewRole(role).Some? && userId !in old(db.users) ==> r == Err(NotFound)
    ensures r.Ok? <==> ValidateNewRole(role).Some? && userId in old(db.users)
    ensures r.Err? ==> unchanged(db)
    ensures r.Ok? ==>
              var prior := old(db.users[userId]);
              && r.value == RoleUpdated(userId, role)
              && db.users == old(db.users)[userId := WithRole(prior, role, actorUid, now)]
              && db.auditLogs == old(db.auditLogs)
                   + [AuditEntry(actorUid, actorEmail, RoleChange(userId, prior.role, role), Some(now))]
  {
    if ValidateNewRole(role).None? {
      return Err(BadRequest);
    }
    if userId !in db.users {
      return Err(NotFound);
    }
    var prior := db.users[userId];
    db.PutUser(userId, WithRole(prior, role, actorUid, now));
    db.AddAuditEntry(AuditEntry(actorUid, actorEmail, RoleChange(userId, prior.role, role), Some(now)));
    return Ok(RoleUpdated(userId, role));
  }

  /**
   * `logData.timestamp?.toDate() > endDateTime`: the entry is skipped. An entry without a
   * timestamp compares false and is kept.
   */
  predicate AfterEnd(e: AuditEntry, endDate: Option<int>) {
    endDate.Some? && e.timestamp.Some? && e.timestamp.value > endDate.value
  }

  /** The entries the filter keeps, in the order fetched. */
  function KeptLogs(fetched: seq<AuditEntry>, endDate: Option<int>): (kept: seq<AuditEntry>)
    ensures |kept| <= |fetched|
  {
    if fetched == [] then []
    else
      var last := fetched[|fetched| - 1];
      KeptLogs(fetched[..|fetched| - 1], endDate) + (if AfterEnd(last, endDate) then [] else [last])
  }

  /** The filter keeps exactly the entries not after `endDate`, and with no `endDate` all of them. */
  lemma {:induction false} KeptLogsExactly(fetched: seq<AuditEntry>, endDate: Option<int>)
    ensures forall e :: e in KeptLogs(fetched, endDate) ==> e in fetched && !AfterEnd(e, endDate)
    ensures forall i :: 0 <= i < |fetched| && !AfterEnd(fetched[i], endDate) ==> fetched[i] in KeptLogs(fetched, endDate)
    ensures endDate.None? ==> KeptLogs(fetched, endDate) == fetched
  {
    if fetched != [] {
      var init := fetched[..|fetched| - 1];
      KeptLogsExactly(init, endDate);
      assert fetched == init + [fetched[|fetched| - 1]];
      forall i | 0 <= i < |fetched| && !AfterEnd(fetched[i], endDate)
        ensures fetched[i] in KeptLogs(fetched, endDate)
      {
        if i < |init| {
          assert fetched[i] == init[i];
        }
      }
    }
  }

  /** The response body of `GET /audit-logs`. */
  datatype AuditPage = AuditPage(logs: seq<AuditEntry>, total: nat)

  /** The `forEach` over the fetched entries that applies the `endDate` filter. */
  method FilterAuditLogs(fetched: seq<AuditEntry>, endDate: Option<int>) returns (body: AuditPage)
    ensures body.logs == KeptLogs(fetched, endDate)
    ensures body.total == |body.logs|
  {
    var logs: seq<AuditEntry> := [];
    var i := 0;
    while i < |fetched|
      invariant 0 <= i <= |fetched|
      invariant logs == KeptLogs(fetched[..i], endDate)
    {
      assert fetched[..i + 1][..i] == fetched[..i];
      var logData := fetched[i];
      if !(endDate.Some? && logData.timestamp.Some? && logData.timestamp.value > endDate.value) {
        logs := logs + [logData];
      }
      i := i + 1;
    }
    assert fetched[..|fetched|] == fetched;
    body := AuditPage(logs, |logs|);
  }
}
