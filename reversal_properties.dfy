/** What one invocation of the handler does in particular situations: the states left
    behind when a write raises, the order of the checks, and worked examples. */
module ReversalProperties {
  import opened ReversalTypes
  import opened ReversalWorkflow

  /** The transactions table holding one item. */
  function OneTransaction(id: string, status: string, amount: int): map<string, Transaction>
  {
    map[id := Transaction(Some(status), Some(amount), map[])]
  }

  /** A valid request for the transaction `id`, with neither Reason nor Initiator. */
  function Request(id: string, amount: int): Event
  {
    Body(Some(id), Some(amount), None, None)
  }

  /** If the update of the transaction raises, the PENDING audit entry written just
      before stays while the transaction is still COMPLETED, and the answer is 500. */
  lemma PendingEntryWithCompletedTransaction(t: Tables, ev: Event, auditId: string, timestamp: string)
    requires ReachesRead(ev, None)
    requires Eligible(t.transactions, ev.transactionId.value)
    requires t.transactions[ev.transactionId.value].amount.Some?
    requires ev.reversalAmount.value <= t.transactions[ev.transactionId.value].amount.value
    ensures var o := Handle(t, ev, auditId, timestamp, Some(UpdateTransaction));
      && o.response == InternalError
      && o.tables.transactions == t.transactions
      && Eligible(o.tables.transactions, ev.transactionId.value)
      && auditId in o.tables.audit
      && o.tables.audit[auditId].status == Pending
      && Records(o.tables.audit[auditId], auditId, Parse(ev).value, timestamp)
  {
  }

  /** If the final update of the audit entry raises, the transaction is already REFUNDED
      while its audit entry stays PENDING, and the answer is 500. */
  lemma RefundedTransactionWithPendingEntry(t: Tables, ev: Event, auditId: string, timestamp: string)
    requires ReachesRead(ev, None)
    requires Eligible(t.transactions, ev.transactionId.value)
    requires t.transactions[ev.transactionId.value].amount.Some?
    requires ev.reversalAmount.value <= t.transactions[ev.transactionId.value].amount.value
    ensures var o := Handle(t, ev, auditId, timestamp, Some(UpdateAuditEntry));
      && o.response == InternalError
      && o.tables.transactions[ev.transactionId.value].status == Some(Refunded)
      && auditId in o.tables.audit
      && o.tables.audit[auditId].status == Pending
      && Records(o.tables.audit[auditId], auditId, Parse(ev).value, timestamp)
  {
  }

  /** The handler puts the reversal amount into Metadata as a float, which the DynamoDB
      resource API refuses to serialise, so the put of the audit entry raises for every
      request that passes validation. With that put failing, each such request ends in
      500 and neither table changes; the intended outcome, with no store call raising,
      is the 200 of `Handle` (see `ReversalOfCompletedTransaction`). */
  lemma ValidatedRequestFailsAtFloatPut(t: Tables, ev: Event, auditId: string, timestamp: string)
    requires ReachesRead(ev, None)
    requires Eligible(t.transactions, ev.transactionId.value)
    requires t.transactions[ev.transactionId.value].amount.Some?
    requires ev.reversalAmount.value <= t.transactions[ev.transactionId.value].amount.value
    ensures Handle(t, ev, auditId, timestamp, Some(PutAuditEntry)) == Outcome(InternalError, t)
    ensures Handle(t, ev, auditId, timestamp, None).response == Reversed
  {
  }

  /** The store refuses an empty TransactionID as a key, so the read raises and the
      answer is 500, not 404, with nothing changed. */
  lemma EmptyTransactionIdFailsRead(t: Tables, amount: int, auditId: string, timestamp: string)
    ensures Handle(t, Request("", amount), auditId, timestamp, None) == Outcome(InternalError, t)
  {
  }

  /** Status is checked before Amount: a transaction that is not COMPLETED is refused as
      not eligible even when the amount asked for exceeds its own. */
  lemma StatusCheckedBeforeAmount(t: Tables, id: string, amount: int, auditId: string, timestamp: string)
    requires id != "" && id in t.transactions
    requires t.transactions[id].status.Some? && t.transactions[id].status.value != Completed
    requires t.transactions[id].amount.Some? && amount > t.transactions[id].amount.value
    ensures Handle(t, Request(id, amount), auditId, timestamp, None) == Outcome(NotEligible, t)
  {
  }

  /** The Status comparison is exact: "completed" and "SUCCESS" are not eligible. */
  lemma StatusIsCaseSensitive(auditId: string, timestamp: string)
    ensures var t := Tables(OneTransaction("T1", "completed", 100), map[]);
      Handle(t, Request("T1", 40), auditId, timestamp, None) == Outcome(NotEligible, t)
    ensures var t := Tables(OneTransaction("T1", "SUCCESS", 100), map[]);
      Handle(t, Request("T1", 40), auditId, timestamp, None) == Outcome(NotEligible, t)
  {
  }

  /** A reversal of exactly the original amount is accepted. */
  lemma FullAmountAccepted(auditId: string, timestamp: string)
    ensures Handle(Tables(OneTransaction("T1", Completed, 100), map[]), Request("T1", 100), auditId, timestamp, None).response
            == Reversed
  {
  }

  /** A COMPLETED transaction of 100.00, reversed by 40.00: the transaction becomes
      REFUNDED and one audit entry is left, with Status SUCCESS and the default reason
      and initiator. */
  lemma ReversalOfCompletedTransaction(timestamp: string)
    ensures var o := Handle(Tables(OneTransaction("T1", Completed, 10000), map[]), Request("T1", 4000), "audit-1", timestamp, None);
      && o.response == Reversed
      && o.tables.transactions == OneTransaction("T1", Refunded, 10000)
      && o.tables.audit == map["audit-1" := AuditEntry("audit-1", "T1", ReversalAction, Success, DefaultInitiator, timestamp,
                                                       Metadata(4000, DefaultReason))]
  {
  }

  /** A PENDING transaction is not eligible. */
  lemma PendingTransactionRefused(auditId: string, timestamp: string)
    ensures var t := Tables(OneTransaction("T2", Pending, 5000), map[]);
      Handle(t, Request("T2", 1000), auditId, timestamp, None) == Outcome(NotEligible, t)
  {
  }

  /** 25.00 out of a 20.00 transaction exceeds the original amount. */
  lemma ExcessiveAmountRefused(auditId: string, timestamp: string)
    ensures var t := Tables(OneTransaction("T3", Completed, 2000), map[]);
      Handle(t, Request("T3", 2500), auditId, timestamp, None) == Outcome(AmountExceeded, t)
  {
  }

  /** An unknown TransactionID is not found. */
  lemma UnknownTransactionNotFound(auditId: string, timestamp: string)
    ensures var t := Tables(OneTransaction("T1", Completed, 100), map[]);
      Handle(t, Request("T404", 10), auditId, timestamp, None) == Outcome(NotFound, t)
  {
  }
}
