/**
 * The Firestore database as sequential state: one field per collection, and the invariant
 * the handlers and jobs keep between them.
 *
 * The invariant is the violation ledger: each contract's `violationCount` equals the number
 * of violation records for it whose writer also increments the count (the geo check and the
 * scheduled sweep; the HTTP expiry check increments nothing). Next to it: every version
 * count is at least 1, and at most one more than the length of the version history (a clause
 * edit that fails after its snapshot leaves a version without a count).
 */
module Store {
  import opened Wrappers
  import opened Seqs
  import opened Records

  /** How many records of `vs` are about contract `id` and satisfy `p`. */
  function CountWhere(vs: seq<Violation>, id: string, p: Violation -> bool): nat {
    if vs == [] then 0
    else CountWhere(vs[..|vs| - 1], id, p) + (if vs[|vs| - 1].contractId == id && p(vs[|vs| - 1]) then 1 else 0)
  }

  lemma CountWhereAppend(vs: seq<Violation>, v: Violation, id: string, p: Violation -> bool)
    ensures CountWhere(vs + [v], id, p) == CountWhere(vs, id, p) + (if v.contractId == id && p(v) then 1 else 0)
  {
    assert (vs + [v])[..|vs|] == vs;
  }

  /** A contract no record names has no records counted. */
  lemma {:induction false} CountWhereUnnamed(vs: seq<Violation>, id: string, p: Violation -> bool)
    requires forall i :: 0 <= i < |vs| ==> vs[i].contractId != id
    ensures CountWhere(vs, id, p) == 0
  {
    if vs != [] {
      CountWhereUnnamed(vs[..|vs| - 1], id, p);
    }
  }

  /** The stored version history of a contract; a contract never updated has none. */
  function VersionsIn(versions: map<string, seq<Version>>, id: string): seq<Version> {
    if id in versions then versions[id] else []
  }

  /** The stored edit history of a contract. */
  function EditsIn(edits: map<string, seq<Edit>>, id: string): seq<Edit> {
    if id in edits then edits[id] else []
  }

  /** One contract agrees with the ledger and with its version history. */
  predicate Balanced(c: Contract, id: string, history: seq<Version>, vs: seq<Violation>) {
    && c.violationCount == CountWhere(vs, id, Charged)
    && 1 <= c.versionCount <= |history| + 1
    && (c.expiryViolationRecorded ==> CountWhere(vs, id, SweepRecord) > 0)
  }

  /**
   * Document-id order: a query without `orderBy` returns the documents of a collection sorted
   * by id, compared character by character, a proper prefix first.
   */
  predicate IdBefore(a: string, b: string)
    decreases |a|
  {
    if a == [] then b != []
    else b != [] && (a[0] < b[0] || (a[0] == b[0] && IdBefore(a[1..], b[1..])))
  }

  lemma {:induction false} IdBeforeIrreflexive(a: string)
    ensures !IdBefore(a, a)
    decreases |a|
  {
    if a != [] {
      IdBeforeIrreflexive(a[1..]);
    }
  }

  lemma {:induction false} IdBeforeTransitive(a: string, b: string, c: string)
    requires IdBefore(a, b) && IdBefore(b, c)
    ensures IdBefore(a, c)
    decreases |a|
  {
    if a != [] && a[0] == b[0] && b[0] == c[0] {
      IdBeforeTransitive(a[1..], b[1..], c[1..]);
    }
  }

  /** Two different ids are always ordered one way or the other. */
  lemma {:induction false} IdBeforeTotal(a: string, b: string)
    requires a != b
    ensures IdBefore(a, b) || IdBefore(b, a)
    decreases |a|
  {
    if a != [] && b != [] && a[0] == b[0] {
      assert a == [a[0]] + a[1..] && b == [b[0]] + b[1..];
      IdBeforeTotal(a[1..], b[1..]);
    }
  }

  /** The ids are in query order. */
  predicate IdOrdered(ids: seq<string>) {
    forall i, j :: 0 <= i < j < |ids| ==> IdBefore(ids[i], ids[j])
  }

  /** Where a new id goes: before the first stored id that sorts after it. */
  function IdPosition(ids: seq<string>, id: string): (k: nat)
    ensures k <= |ids|
    ensures forall j :: 0 <= j < k ==> !IdBefore(id, ids[j])
    ensures k < |ids| ==> IdBefore(id, ids[k])
  {
    if ids == [] then 0
    else if IdBefore(id, ids[0]) then 0
    else 1 + IdPosition(ids[1..], id)
  }

  /** The ids after `contracts.add` under the new id `id`. */
  function InsertById(ids: seq<string>, id: string): seq<string> {
    ids[..IdPosition(ids, id)] + [id] + ids[IdPosition(ids, id)..]
  }

  /** Where each id ends up after the insertion. */
  lemma InsertByIdAt(ids: seq<string>, id: string)
    ensures var k := IdPosition(ids, id);
      && |InsertById(ids, id)| == |ids| + 1
      && InsertById(ids, id)[k] == id
      && (forall i :: 0 <= i < k ==> InsertById(ids, id)[i] == ids[i])
      && (forall i :: k < i <= |ids| ==> InsertById(ids, id)[i] == ids[i - 1])
  {
  }

  /** The insertion adds exactly `id`. */
  lemma InsertByIdContents(ids: seq<string>, id: string)
    ensures forall x :: x in InsertById(ids, id) <==> x in ids || x == id
  {
    var k := IdPosition(ids, id);
    assert ids == ids[..k] + ids[k..];
  }

  /** Ids in document-id order are distinct. */
  lemma OrderedDistinct(ids: seq<string>)
    requires IdOrdered(ids)
    ensures Distinct(ids)
  {
    forall i, j | 0 <= i < j < |ids|
      ensures ids[i] != ids[j]
    {
      IdBeforeIrreflexive(ids[i]);
    }
    PairwiseDistinct(ids);
  }

  /** Every id stored before the insertion point sorts before the new one. */
  lemma BeforeInsertionPoint(ids: seq<string>, id: string)
    requires id !in ids
    ensures forall i :: 0 <= i < IdPosition(ids, id) ==> IdBefore(ids[i], id)
  {
    forall i | 0 <= i < IdPosition(ids, id)
      ensures IdBefore(ids[i], id)
    {
      IdBeforeTotal(ids[i], id);
    }
  }

  /** Inserting a new id into ordered ids keeps them ordered. */
  lemma InsertByIdOrdered(ids: seq<string>, id: string)
    requires IdOrdered(ids) && id !in ids
    ensures IdOrdered(InsertById(ids, id))
  {
    var k := IdPosition(ids, id);
    var r := InsertById(ids, id);
    InsertByIdAt(ids, id);
    BeforeInsertionPoint(ids, id);
    forall i, j | 0 <= i < j < |r|
      ensures IdBefore(r[i], r[j])
    {
      if j < k {
        assert r[i] == ids[i] && r[j] == ids[j];
      } else if j == k {
        assert r[i] == ids[i] && r[j] == id;
      } else if i < k {
        assert r[i] == ids[i] && r[j] == ids[j - 1];
      } else if i == k {
        assert r[j] == ids[j - 1];
        if j - 1 > k {
          IdBeforeTransitive(id, ids[k], ids[j - 1]);
        }
      } else {
        assert r[i] == ids[i - 1] && r[j] == ids[j - 1];
      }
    }
  }

  /** The store invariant, on the values of the collections. */
  ghost predicate Consistent(ids: seq<string>, contracts: map<string, Contract>,
                             versions: map<string, seq<Version>>, edits: map<string, seq<Edit>>,
                             vs: seq<Violation>)
  {
    && Distinct(ids)
    && IdOrdered(ids)
    && (forall k :: k in ids <==> k in contracts)
    && versions.Keys <= contracts.Keys
    && edits.Keys <= contracts.Keys
    && (forall v :: v in vs ==> v.contractId in contracts)
    && (forall k :: k in contracts ==> Balanced(contracts[k], k, VersionsIn(versions, k), vs))
  }

  /** `db.collection("contracts").get()`: every contract once, in the order of `ids`. */
  function DocsOf(ids: seq<string>, contracts: map<string, Contract>): (docs: seq<Doc>)
    requires forall i :: 0 <= i < |ids| ==> ids[i] in contracts
    ensures |docs| == |ids|
    ensures forall i :: 0 <= i < |ids| ==> docs[i].id == ids[i] && docs[i].contract == contracts[ids[i]]
  {
    seq(|ids|, i requires 0 <= i < |ids| => Doc(ids[i], contracts[ids[i]]))
  }

  class ContractStore {
    /** The document ids of `contracts`, in the order a query returns them (`IdOrdered`). */
    var ids: seq<string>
    var contracts: map<string, Contract>
    var versions: map<string, seq<Version>>
    var edits: map<string, seq<Edit>>
    var violations: seq<Violation>
    /** `settings/notifications`, None when that document does not exist. */
    var settings: Option<NotificationSettings>
    var notifications: seq<Notification>
    var reports: seq<Report>
    var users: map<string, UserProfile>
    var auditLogs: seq<AuditEntry>

    ghost predicate Valid()
      reads this
    {
      Consistent(ids, contracts, versions, edits, violations)
    }

    /** A database with no contracts and no violations. */
    constructor (settings: Option<NotificationSettings>, users: map<string, UserProfile>)
      ensures Valid()
      ensures this.ids == [] && this.contracts == map[] && this.violations == []
      ensures this.versions == map[] && this.edits == map[]
      ensures this.settings == settings && this.users == users
      ensures this.notifications == [] && this.reports == [] && this.auditLogs == []
    {
      this.ids := [];
      this.contracts := map[];
      this.versions := map[];
      this.edits := map[];
      this.violations := [];
      this.settings := settings;
      this.notifications := [];
      this.reports := [];
      this.users := users;
      this.auditLogs := [];
    }

    /** A query snapshot of `contracts`. */
    function Snapshot(): (docs: seq<Doc>)
      reads this
      requires Valid()
      ensures |docs| == |ids|
      ensures forall i :: 0 <= i < |docs| ==> docs[i].id == ids[i] && docs[i].contract == contracts[ids[i]]
    {
      DocsOf(ids, contracts)
    }

    /** `contracts/{id}/versions.add(v)`. */
    method AddVersion(id: string, v: Version)
      requires Valid() && id in contracts
      modifies this
      ensures Valid()
      ensures versions == old(versions)[id := old(VersionsOf(id)) + [v]]
      ensures unchanged(`ids, `contracts, `edits, `violations, `settings, `notifications, `reports, `users, `auditLogs)
    {
      AddVersionPreserves(ids, contracts, versions, edits, violations, id, v);
      versions := versions[id := VersionsOf(id) + [v]];
    }

    /** `contracts/{id}/edits.add(e)`. */
    method AddEdit(id: string, e: Edit)
      requires Valid() && id in contracts
      modifies this
      ensures Valid()
      ensures edits == old(edits)[id := old(EditsOf(id)) + [e]]
      ensures unchanged(`ids, `contracts, `versions, `violations, `settings, `notifications, `reports, `users, `auditLogs)
    {
      AddEditPreserves(ids, contracts, versions, edits, violations, id, e);
      edits := edits[id := EditsOf(id) + [e]];
    }

    /** `notifications.add(n)`. */
    method AddNotification(n: Notification)
      requires Valid()
      modifies this
      ensures Valid()
      ensures notifications == old(notifications) + [n]
      ensures unchanged(`ids, `contracts, `versions, `edits, `violations, `settings, `reports, `users, `auditLogs)
    {
      notifications := notifications + [n];
    }

    /** `reports.add(r)`. */
    method AddReport(r: Report)
      requires Valid()
      modifies this
      ensures Valid()
      ensures reports == old(reports) + [r]
      ensures unchanged(`ids, `contracts, `versions, `edits, `violations, `settings, `notifications, `users, `auditLogs)
    {
      reports := reports + [r];
    }

    /** `users/{id}.set(p)` or `.update(...)`: `p` is the whole profile afterwards. */
    method PutUser(id: string, p: UserProfile)
      requires Valid()
      modifies this
      ensures Valid()
      ensures users == old(users)[id := p]
      ensures unchanged(`ids, `contracts, `versions, `edits, `violations, `settings, `notifications, `reports, `auditLogs)
    {
      users := users[id := p];
    }

    /** `audit_logs.add(e)`. */
    method AddAuditEntry(e: AuditEntry)
      requires Valid()
      modifies this
      ensures Valid()
      ensures auditLogs == old(auditLogs) + [e]
      ensures unchanged(`ids, `contracts, `versions, `edits, `violations, `settings, `notifications, `reports, `users)
    {
      auditLogs := auditLogs + [e];
    }

    /** `contracts/{id}.update(...)`, which must leave the contract balanced. */
    method UpdateContract(id: string, c: Contract)
      requires Valid() && id in contracts
      requires Balanced(c, id, VersionsOf(id), violations)
      modifies this
      ensures Valid()
      ensures contracts == old(contracts)[id := c]
      ensures unchanged(`ids, `versions, `edits, `violations, `settings, `notifications, `reports, `users, `auditLogs)
    {
      ReplacePreserves(ids, contracts, versions, edits, violations, id, c);
      contracts := contracts[id := c];
    }

    /** `contracts.add(c)` under the generated id `id`, which takes its place in id order. */
    method AddContract(id: string, c: Contract)
      requires Valid() && id !in contracts
      requires c.violationCount == 0 && c.versionCount == 1 && !c.expiryViolationRecorded
      modifies this
      ensures Valid()
      ensures ids == InsertById(old(ids), id) && contracts == old(contracts)[id := c]
      ensures unchanged(`versions, `edits, `violations, `settings, `notifications, `reports, `users, `auditLogs)
    {
      AddContractPreserves(ids, contracts, versions, edits, violations, id, c);
      ids := InsertById(ids, id);
      contracts := contracts[id := c];
    }

    /** `violations.add(v)` for a record that charges no contract. */
    method AddNotice(v: Violation)
      requires Valid() && v.contractId in contracts && !Charged(v) && !SweepRecord(v)
      modifies this
      ensures Valid()
      ensures violations == old(violations) + [v]
      ensures unchanged(`ids, `contracts, `versions, `edits, `settings, `notifications, `reports, `users, `auditLogs)
    {
      AppendUnchargedPreserves(ids, contracts, versions, edits, violations, v);
      violations := violations + [v];
    }

    /**
     * `violations.add(v)` followed by the update of the contract it names, which raises
     * `violationCount` by one; `updated` is that contract after the update.
     */
    method AddCharged(v: Violation, updated: Contract)
      requires Valid() && v.contractId in contracts && Charged(v)
      requires updated.violationCount == contracts[v.contractId].violationCount + 1
      requires updated.versionCount == contracts[v.contractId].versionCount
      requires updated.expiryViolationRecorded ==> contracts[v.contractId].expiryViolationRecorded || SweepRecord(v)
      modifies this
      ensures Valid()
      ensures violations == old(violations) + [v]
      ensures contracts == old(contracts)[v.contractId := updated]
      ensures unchanged(`ids, `versions, `edits, `settings, `notifications, `reports, `users, `auditLogs)
    {
      AppendChargedPreserves(ids, contracts, versions, edits, violations, v, updated);
      violations := violations + [v];
      contracts := contracts[v.contractId := updated];
    }

    function VersionsOf(id: string): seq<Version>
      reads this
    {
      VersionsIn(versions, id)
    }

    function EditsOf(id: string): seq<Edit>
      reads this
    {
      EditsIn(edits, id)
    }
  }

  /** Replacing one contract by a balanced one keeps the invariant. */
  lemma ReplacePreserves(ids: seq<string>, cs: map<string, Contract>, versions: map<string, seq<Version>>,
                         edits: map<string, seq<Edit>>, vs: seq<Violation>, id: string, c: Contract)
    requires Consistent(ids, cs, versions, edits, vs) && id in cs
    requires Balanced(c, id, VersionsIn(versions, id), vs)
    ensures Consistent(ids, cs[id := c], versions, edits, vs)
  {
  }

  /** Appending to a contract's version history keeps the invariant. */
  lemma AddVersionPreserves(ids: seq<string>, cs: map<string, Contract>, versions: map<string, seq<Version>>,
                            edits: map<string, seq<Edit>>, vs: seq<Violation>, id: string, v: Version)
    requires Consistent(ids, cs, versions, edits, vs) && id in cs
    ensures Consistent(ids, cs, versions[id := VersionsIn(versions, id) + [v]], edits, vs)
  {
    var versions' := versions[id := VersionsIn(versions, id) + [v]];
    forall k | k in cs
      ensures Balanced(cs[k], k, VersionsIn(versions', k), vs)
    {
      assert |VersionsIn(versions', k)| >= |VersionsIn(versions, k)|;
    }
  }

  /** Appending to a contract's edit history keeps the invariant. */
  lemma AddEditPreserves(ids: seq<string>, cs: map<string, Contract>, versions: map<string, seq<Version>>,
                         edits: map<string, seq<Edit>>, vs: seq<Violation>, id: string, e: Edit)
    requires Consistent(ids, cs, versions, edits, vs) && id in cs
    ensures Consistent(ids, cs, versions, edits[id := EditsIn(edits, id) + [e]], vs)
  {
  }

  /** A new contract, added under a fresh id, keeps the invariant. */
  lemma AddContractPreserves(ids: seq<string>, cs: map<string, Contract>, versions: map<string, seq<Version>>,
                             edits: map<string, seq<Edit>>, vs: seq<Violation>, id: string, c: Contract)
    requires Consistent(ids, cs, versions, edits, vs) && id !in cs
    requires c.violationCount == 0 && c.versionCount == 1 && !c.expiryViolationRecorded
    ensures Consistent(InsertById(ids, id), cs[id := c], versions, edits, vs)
  {
    assert forall i :: 0 <= i < |vs| ==> vs[i].contractId != id;
    CountWhereUnnamed(vs, id, Charged);
    InsertByIdContents(ids, id);
    InsertByIdOrdered(ids, id);
    OrderedDistinct(InsertById(ids, id));
    forall k | k in cs[id := c]
      ensures Balanced(cs[id := c][k], k, VersionsIn(versions, k), vs)
    {
      if k == id {
        assert VersionsIn(versions, k) == [];
      }
    }
  }

  /**
   * Appending a record that charges no contract (an HTTP expiry notice) keeps the invariant:
   * no count moves.
   */
  lemma AppendUnchargedPreserves(ids: seq<string>, cs: map<string, Contract>, versions: map<string, seq<Version>>,
                                 edits: map<string, seq<Edit>>, vs: seq<Violation>, v: Violation)
    requires Consistent(ids, cs, versions, edits, vs)
    requires v.contractId in cs && !Charged(v) && !SweepRecord(v)
    ensures Consistent(ids, cs, versions, edits, vs + [v])
  {
    forall k | k in cs
      ensures Balanced(cs[k], k, VersionsIn(versions, k), vs + [v])
    {
      CountWhereAppend(vs, v, k, Charged);
      CountWhereAppend(vs, v, k, SweepRecord);
    }
    assert forall w :: w in vs + [v] ==> w in vs || w == v;
  }

  /**
   * Appending a charged record together with the matching `violationCount` increment keeps
   * the invariant; `updated` is the contract after the increment.
   */
  lemma AppendChargedPreserves(ids: seq<string>, cs: map<string, Contract>, versions: map<string, seq<Version>>,
                               edits: map<string, seq<Edit>>, vs: seq<Violation>, v: Violation, updated: Contract)
    requires Consistent(ids, cs, versions, edits, vs)
    requires v.contractId in cs && Charged(v)
    requires updated.violationCount == cs[v.contractId].violationCount + 1
    requires updated.versionCount == cs[v.contractId].versionCount
    requires updated.expiryViolationRecorded ==> cs[v.contractId].expiryViolationRecorded || SweepRecord(v)
    ensures Consistent(ids, cs[v.contractId := updated], versions, edits, vs + [v])
  {
    var cs' := cs[v.contractId := updated];
    forall k | k in cs'
      ensures Balanced(cs'[k], k, VersionsIn(versions, k), vs + [v])
    {
      CountWhereAppend(vs, v, k, Charged);
      CountWhereAppend(vs, v, k, SweepRecord);
    }
    assert forall w :: w in vs + [v] ==> w in vs || w == v;
  }
}
