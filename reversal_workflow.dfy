/** The reversal handler of lambda_function/process_reversal.py as functions over the two
    tables: what one invocation answers and which table entries it leaves changed. The
    class in module ReversalHandler performs the same steps in place and is proved equal
    to `Handle` below. */
module ReversalWorkflow {
  import opened ReversalTypes

  /** The request once its body has been read, with Reason and Initiator defaulted. */
  datatype Parsed = Parsed(transactionId: string, reversalAmount: int, reason: string, initiator: string)

  /** What validation decides: go on with the stored transaction, or answer at once. */
  datatype Verdict = Proceed(transaction: Transaction) | Reject(response: Response)

  /** A transaction that the handler may reverse: present, with Status exactly "COMPLETED". */
  predicate Eligible(transactions: map<string, Transaction>, id: string)
  {
    id in transactions && transactions[id].status == Some(Completed)
  }

  /** The invocation gets as far as reading the transaction: the body holds a
      TransactionID and a numeric ReversalAmount, and the read does not fail. The store
      refuses an empty string as a key, so a read with an empty TransactionID fails too. */
  predicate ReachesRead(ev: Event, fault: Option<StoreCall>)
  {
    ev.Body? && ev.transactionId.Some? && ev.reversalAmount.Some? && ev.transactionId.value != ""
    && fault != Some(GetTransaction)
  }

  /** `e` is the entry the handler writes for request `p`, whatever its Status. */
  predicate Records(e: AuditEntry, auditId: string, p: Parsed, timestamp: string)
  {
    && e.auditId == auditId
    && e.transactionId == p.transactionId
    && e.action == ReversalAction
    && e.initiator == p.initiator
    && e.timestamp == timestamp
    && e.metadata == Metadata(p.reversalAmount, p.reason)
  }

  /** Each transaction is either untouched or was COMPLETED and differs only in a Status
      of REFUNDED; no transaction is added or removed. */
  predicate OnlyRefunds(before: map<string, Transaction>, after: map<string, Transaction>)
  {
    && after.Keys == before.Keys
    && forall k :: k in before ==>
         after[k] == before[k]
         || (before[k].status == Some(Completed) && after[k] == before[k].(status := Some(Refunded)))
  }

  /** As `OnlyRefunds`, with `id` the only transaction that may have changed. */
  predicate RefundedOnly(before: map<string, Transaction>, after: map<string, Transaction>, id: string)
  {
    && OnlyRefunds(before, after)
    && forall k :: k in before && k != id ==> after[k] == before[k]
  }

  /** Every audit entry under an id other than `auditId` is as it was. */
  predicate OtherEntriesKept(before: map<string, AuditEntry>, after: map<string, AuditEntry>, auditId: string)
  {
    after - {auditId} == before - {auditId}
  }

  /** Reads the body: TransactionID and ReversalAmount must be there, Reason defaults to
      "No reason provided" and Initiator to "System". */
  function Parse(ev: Event): (r: Option<Parsed>)
    ensures r.Some? <==> ev.Body? && ev.transactionId.Some? && ev.reversalAmount.Some?
    ensures r.Some? ==> r.value.transactionId == ev.transactionId.value && r.value.reversalAmount == ev.reversalAmount.value
    ensures r.Some? && ev.reason.Some? ==> r.value.reason == ev.reason.value
    ensures r.Some? && ev.reason.None? ==> r.value.reason == DefaultReason
    ensures r.Some? && ev.initiator.Some? ==> r.value.initiator == ev.initiator.value
    ensures r.Some? && ev.initiator.None? ==> r.value.initiator == DefaultInitiator
  {
    match ev
    case MalformedBody => None
    case Body(id, amount, reason, initiator) =>
      if id.None? || amount.None? then None
      else
        var reason' := if reason.Some? then reason.value else DefaultReason;
        var initiator' := if initiator.Some? then initiator.value else DefaultInitiator;
        Some(Parsed(id.value, amount.value, reason', initiator'))
  }

  /** The checks made before anything is written: existence, then Status, then Amount.
      A missing Status, or a missing or non-numeric Amount once Status is "COMPLETED",
      raises and so answers 500. */
  function Validate(transactions: map<string, Transaction>, p: Parsed): (v: Verdict)
    ensures v == Reject(NotFound) <==> p.transactionId !in transactions
    ensures v == Reject(NotEligible) <==>
      p.transactionId in transactions
      && transactions[p.transactionId].status.Some?
      && transactions[p.transactionId].status.value != Completed
    ensures v == Reject(AmountExceeded) <==>
      Eligible(transactions, p.transactionId)
      && transactions[p.transactionId].amount.Some?
      && p.reversalAmount > transactions[p.transactionId].amount.value
    ensures v.Proceed? <==>
      Eligible(transactions, p.transactionId)
      && transactions[p.transactionId].amount.Some?
      && p.reversalAmount <= transactions[p.transactionId].amount.value
    ensures v.Proceed? ==> v.transaction == transactions[p.transactionId]
    ensures v.Reject? ==> v.response in {NotFound, NotEligible, AmountExceeded, InternalError}
  {
    var id := p.transactionId;
    if id !in transactions then Reject(NotFound)
    else
      var transaction := transactions[id];
      if transaction.status.None? then Reject(InternalError)
      else if transaction.status.value != Completed then Reject(NotEligible)
      else if transaction.amount.None? then Reject(InternalError)
      else if p.reversalAmount > transaction.amount.value then Reject(AmountExceeded)
      else Proceed(transaction)
  }

  /** The audit entry as first written, before the transaction is touched. */
  function NewAuditEntry(auditId: string, p: Parsed, timestamp: string): AuditEntry
  {
    AuditEntry(auditId, p.transactionId, ReversalAction, Pending, p.initiator, timestamp,
               Metadata(p.reversalAmount, p.reason))
  }

  /** The three writes, in order: put the PENDING audit entry, set the transaction's
      Status to REFUNDED, set the entry's Status to SUCCESS. `fault` names the call that
      raises, if any; the writes before it stay, nothing is undone. */
  function Commit(t: Tables, p: Parsed, auditId: string, timestamp: string, fault: Option<StoreCall>): (o: Outcome)
    requires p.transactionId in t.transactions
    requires fault != Some(GetTransaction)
    ensures o.response == Reversed <==> fault.None?
    ensures o.response != Reversed ==> o.response == InternalError
    ensures fault == Some(PutAuditEntry) ==> o.tables == t
    ensures fault != Some(PutAuditEntry) ==>
      && auditId in o.tables.audit
      && Records(o.tables.audit[auditId], auditId, p, timestamp)
      && o.tables.audit[auditId].status == (if fault.None? then Success else Pending)
    ensures OtherEntriesKept(t.audit, o.tables.audit, auditId)
    ensures o.tables.transactions.Keys == t.transactions.Keys
    ensures forall k :: k in t.transactions && k != p.transactionId ==> o.tables.transactions[k] == t.transactions[k]
    ensures fault in {None, Some(UpdateAuditEntry)} ==>
      o.tables.transactions[p.transactionId] == t.transactions[p.transactionId].(status := Some(Refunded))
    ensures fault in {Some(PutAuditEntry), Some(UpdateTransaction)} ==>
      o.tables.transactions == t.transactions
  {
    if fault == Some(PutAuditEntry) then Outcome(InternalError, t)
    else
      var audit := t.audit[auditId := NewAuditEntry(auditId, p, timestamp)];
      if fault == Some(UpdateTransaction) then Outcome(InternalError, Tables(t.transactions, audit))
      else
        var id := p.transactionId;
        var transactions := t.transactions[id := t.transactions[id].(status := Some(Refunded))];
        // the only call left that can raise is the update of the audit entry
        if fault.Some? then Outcome(InternalError, Tables(transactions, audit))
        else Outcome(Reversed, Tables(transactions, audit[auditId := audit[auditId].(status := Success)]))
  }

  /** One invocation of the handler: `auditId` and `timestamp` stand for the values the
      handler takes from the clock, `fault` for the store call that raises, if any. */
  function Handle(t: Tables, ev: Event, auditId: string, timestamp: string, fault: Option<StoreCall>): (o: Outcome)
    ensures o.response in {Reversed, NotFound, NotEligible, AmountExceeded, InternalError}
    ensures o.response in {NotFound, NotEligible, AmountExceeded} ==> o.tables == t
    ensures !ReachesRead(ev, fault) ==> o == Outcome(InternalError, t)
    ensures o.response == NotFound <==> ReachesRead(ev, fault) && ev.transactionId.value !in t.transactions
    ensures o.response == NotEligible <==>
      && ReachesRead(ev, fault)
      && ev.transactionId.value in t.transactions
      && t.transactions[ev.transactionId.value].status.Some?
      && t.transactions[ev.transactionId.value].status.value != Completed
    ensures o.response == AmountExceeded <==>
      && ReachesRead(ev, fault)
      && Eligible(t.transactions, ev.transactionId.value)
      && t.transactions[ev.transactionId.value].amount.Some?
      && ev.reversalAmount.value > t.transactions[ev.transactionId.value].amount.value
    ensures o.response == Reversed <==>
      && ReachesRead(ev, fault)
      && Eligible(t.transactions, ev.transactionId.value)
      && t.transactions[ev.transactionId.value].amount.Some?
      && ev.reversalAmount.value <= t.transactions[ev.transactionId.value].amount.value
      && fault.None?
    ensures ev.Body? && ev.transactionId.Some? ==> RefundedOnly(t.transactions, o.tables.transactions, ev.transactionId.value)
    ensures OtherEntriesKept(t.audit, o.tables.audit, auditId)
    ensures o.tables != t ==>
      && ReachesRead(ev, fault)
      && Eligible(t.transactions, ev.transactionId.value)
      && t.transactions[ev.transactionId.value].amount.Some?
      && ev.reversalAmount.value <= t.transactions[ev.transactionId.value].amount.value
      && fault != Some(PutAuditEntry)
    ensures o.response == Reversed ==>
      && o.tables.transactions[ev.transactionId.value] == t.transactions[ev.transactionId.value].(status := Some(Refunded))
      && auditId in o.tables.audit
      && Records(o.tables.audit[auditId], auditId, Parse(ev).value, timestamp)
      && o.tables.audit[auditId].status == Success
  {
    match Parse(ev)
    case None => Outcome(InternalError, t)
    case Some(p) =>
      if fault == Some(GetTransaction) || p.transactionId == "" then Outcome(InternalError, t)
      else
        match Validate(t.transactions, p)
        case Reject(response) => Outcome(response, t)
        case Proceed(_) => Commit(t, p, auditId, timestamp, fault)
  }
}
