/**
 * The two handlers that write contracts: `POST /analyze-contract` (store a new contract or
 * re-analyse an existing one) and `POST /edit-contract-clause`. Both keep the prior state of
 * an existing contract as a version record before they change it, and both raise
 * `versionCount` by exactly one per completed update.
 *
 * The text extractor and the clause rewriter are parameters: `extraction` is what the
 * extractor's reply amounts to, `rewrite` is the rewriter's text (None when the request
 * failed). `newId` is the id Firestore generates for an added document.
 */
module ContractApi {
  import opened Wrappers
  import opened Records
  import opened Store

  const ValidFormats: seq<string> := ["text", "pdf", "docx"]

  /** `!contractFormat || validFormats.includes(contractFormat)`. */
  predicate FormatAccepted(format: string) {
    format == "" || format in ValidFormats
  }

  /** The contract after a re-analysis: new details and text, written now, one version more. */
  function Reanalysed(existing: Contract, details: Details, text: string, now: int): Contract {
    existing.(details := details, originalText := text, timestamp := now, versionCount := existing.versionCount + 1)
  }

  /** The body of a successful analysis: `{ id, contractDetails }`. */
  datatype Analyzed = Analyzed(id: string, contractDetails: Details)

  /**
   * `POST /analyze-contract`. An empty `contractId` stores a new contract; a non-empty
   * one re-analyses that contract, keeping its prior state as a version.
   */
  method AnalyzeContract(db: ContractStore, contractText: string, contractFormat: string, contractId: string,
                         extraction: Extraction, newId: string, now: int)
    returns (r: Result<Analyzed, ApiError>)
    requires db.Valid()
    requires newId !in db.contracts
    modifies db
    ensures db.Valid()
    // the order of the checks, and nothing written on any error
    ensures contractText == "" ==> r == Err(BadRequest)
    ensures contractText != "" && !FormatAccepted(contractFormat) ==> r == Err(BadRequest)
    ensures contractText != "" && FormatAccepted(contractFormat) ==>
              (extraction.RequestFailed? ==> r == Err(InternalError))
              && (extraction.Unparseable? ==> r == Err(InvalidJsonResponse))
              && (extraction.Parsed? && contractId != "" && contractId !in old(db.contracts) ==> r == Err(NotFound))
    ensures r.Ok? <==> contractText != "" && FormatAccepted(contractFormat) && extraction.Parsed?
                       && (contractId == "" || contractId in old(db.contracts))
    ensures r.Err? ==> unchanged(db)
    ensures unchanged(db`edits, db`violations, db`settings, db`notifications, db`reports, db`users, db`auditLogs)
    // an update: one version holding the prior state, then the new details and text, one more version
    ensures r.Ok? && contractId != "" ==>
              && r.value == Analyzed(contractId, extraction.details)
              && db.ids == old(db.ids)
              && db.versions == old(db.versions)[contractId :=
                   old(db.VersionsOf(contractId)) + [SnapshotOf(old(db.contracts[contractId]), now, None)]]
              && db.contracts == old(db.contracts)[contractId :=
                   Reanalysed(old(db.contracts[contractId]), extraction.details, contractText, now)]
    // a new contract: version 1, no violations, no history
    ensures r.Ok? && contractId == "" ==>
              && r.value == Analyzed(newId, extraction.details)
              && db.ids == InsertById(old(db.ids), newId)
              && db.versions == old(db.versions)
              && db.contracts == old(db.contracts)[newId := NewContract(extraction.details, contractText, now)]
  {
    if contractText == "" || !FormatAccepted(contractFormat) {
      return Err(BadRequest);
    }
    match extraction {
      case RequestFailed =>
        return Err(InternalError);
      case Unparseable =>
        return Err(InvalidJsonResponse);
      case Parsed(details) =>
        if contractId != "" {
          if contractId !in db.contracts {
            return Err(NotFound);
          }
          var existing := db.contracts[contractId];
          db.AddVersion(contractId, SnapshotOf(existing, now, None));
          db.UpdateContract(contractId, Reanalysed(existing, details, contractText, now));
          return Ok(Analyzed(contractId, details));
        } else {
          var created := NewContract(details, contractText, now);
          db.AddContract(newId, created);
          return Ok(Analyzed(newId, details));
        }
    }
  }

  /** The `editReason` of the version a clause edit writes. */
  function EditReason(clauseEdit: string, clauseType: string): string {
    "Manual clause " + clauseEdit + ": " + clauseType
  }

  /**
   * The `switch (clauseEdit)`: add and edit need a non-empty content, remove does not look
   * at it, nothing else passes.
   */
  predicate EditAccepted(clauseEdit: string, clauseContent: Option<string>) {
    ((clauseEdit == "add" || clauseEdit == "edit") && clauseContent.Some? && clauseContent.value != "")
    || clauseEdit == "remove"
  }

  /** `req.body.userId || "anonymous"`. */
  function Performer(userId: string): string {
    if userId == "" then "anonymous" else userId
  }

  /** The details a completed edit keeps: the re-extracted ones, or the prior ones when the reply did not parse. */
  function DetailsAfterEdit(reextraction: Extraction, prior: Details): Details {
    if reextraction.Parsed? then reextraction.details else prior
  }

  /** The contract after a completed clause edit. */
  function ClauseEdited(prior: Contract, text: string, details: Details, clauseEdit: string, clauseType: string,
                        now: int): Contract
  {
    prior.(originalText := text, details := details, timestamp := now, versionCount := prior.versionCount + 1,
           lastEdit := Some(LastEdit(clauseEdit, clauseType)))
  }

  /**
   * The clause edit reaches the `update` of the contract: the request names a stored
   * contract, the edit passes the `switch`, and both requests answered.
   */
  predicate Rewritten(contracts: map<string, Contract>, contractId: string, clauseEdit: string, clauseType: string,
                      clauseContent: Option<string>, rewrite: Option<string>, reextraction: Extraction)
  {
    contractId != "" && clauseEdit != "" && clauseType != "" && contractId in contracts
    && EditAccepted(clauseEdit, clauseContent) && rewrite.Some? && !reextraction.RequestFailed?
  }

  /** The body of a successful clause edit. */
  datatype Edited = Edited(contractId: string, updatedContractDetails: Details)

  /**
   * `POST /edit-contract-clause`. Once the contract is found, the version snapshot is
   * written first, whatever happens next: an unknown edit type, missing content or a
   * failed request still leave that version behind.
   *
   * `clauseContent` is None when the body has no such field. A remove does not test it, so
   * a remove without content rewrites the contract and then fails on the edit record:
   * Firestore refuses a field whose value is `undefined`, and the handler's catch answers
   * 500. The contract stays rewritten and no edit record is written.
   */
  method EditContractClause(db: ContractStore, contractId: string, clauseEdit: string, clauseType: string,
                            clauseContent: Option<string>, rewrite: Option<string>, reextraction: Extraction,
                            userId: string, now: int)
    returns (r: Result<Edited, ApiError>)
    requires db.Valid()
    modifies db
    ensures db.Valid()
    ensures unchanged(db`ids, db`violations, db`settings, db`notifications, db`reports, db`users, db`auditLogs)
    ensures contractId == "" || clauseEdit == "" || clauseType == "" ==> r == Err(BadRequest) && unchanged(db)
    ensures contractId != "" && clauseEdit != "" && clauseType != "" && contractId !in old(db.contracts) ==>
              r == Err(NotFound) && unchanged(db)
    // once the contract is found, the snapshot is always written
    ensures contractId != "" && clauseEdit != "" && clauseType != "" && contractId in old(db.contracts) ==>
              db.versions == old(db.versions)[contractId := old(db.VersionsOf(contractId))
                               + [SnapshotOf(old(db.contracts[contractId]), now, Some(EditReason(clauseEdit, clauseType)))]]
    // the failures after the snapshot
    ensures contractId != "" && contractId in old(db.contracts) && clauseType != "" && clauseEdit != "" && !EditAccepted(clauseEdit, clauseContent) ==>
              r == Err(BadRequest)
    ensures contractId != "" && contractId in old(db.contracts) && clauseType != "" && EditAccepted(clauseEdit, clauseContent) ==>
              (rewrite.None? || reextraction.RequestFailed? || clauseContent.None? <==> r == Err(InternalError))
    // the contract is rewritten iff the edit passed and both requests answered
    ensures Rewritten(old(db.contracts), contractId, clauseEdit, clauseType, clauseContent, rewrite, reextraction) ==>
              db.contracts == old(db.contracts)[contractId :=
                ClauseEdited(old(db.contracts[contractId]), rewrite.value,
                             DetailsAfterEdit(reextraction, old(db.contracts[contractId]).details), clauseEdit, clauseType, now)]
    ensures !Rewritten(old(db.contracts), contractId, clauseEdit, clauseType, clauseContent, rewrite, reextraction) ==>
              db.contracts == old(db.contracts)
    // a rewrite without content is answered 500 and leaves no edit record
    ensures Rewritten(old(db.contracts), contractId, clauseEdit, clauseType, clauseContent, rewrite, reextraction) && clauseContent.None? ==>
              r == Err(InternalError)
    ensures r.Err? ==> db.edits == old(db.edits)
    ensures r.Ok? <==> Rewritten(old(db.contracts), contractId, clauseEdit, clauseType, clauseContent, rewrite, reextraction)
                       && clauseContent.Some?
    // a completed edit: new text, new or kept details, one more version, one edit record
    ensures r.Ok? ==>
              && r.value == Edited(contractId, DetailsAfterEdit(reextraction, old(db.contracts[contractId]).details))
              && db.edits == old(db.edits)[contractId := old(db.EditsOf(contractId))
                   + [Edit(clauseEdit, clauseType, clauseContent.value, now, Performer(userId))]]
  {
    if contractId == "" || clauseEdit == "" || clauseType == "" {
      return Err(BadRequest);
    }
    if contractId !in db.contracts {
      return Err(NotFound);
    }
    var prior := db.contracts[contractId];
    var version := SnapshotOf(prior, now, Some(EditReason(clauseEdit, clauseType)));
    db.AddVersion(contractId, version);

    if !EditAccepted(clauseEdit, clauseContent) {
      return Err(BadRequest);
    }
    if rewrite.None? {
      return Err(InternalError);
    }
    var updatedText := rewrite.value;
    if reextraction.RequestFailed? {
      return Err(InternalError);
    }
    var details := DetailsAfterEdit(reextraction, prior.details);
    var updated := ClauseEdited(prior, updatedText, details, clauseEdit, clauseType, now);
    db.UpdateContract(contractId, updated);
    if clauseContent.None? {
      return Err(InternalError);
    }
    db.AddEdit(contractId, Edit(clauseEdit, clauseType, clauseContent.value, now, Performer(userId)));
    return Ok(Edited(contractId, details));
  }
}
