/** The reversal handler as it runs: a store object holding the Transactions and the
    AuditTrail tables, and one method per invocation that validates the request and then
    writes to the tables in place, in the handler's order. */
module ReversalHandler {
  import opened ReversalTypes
  import opened ReversalWorkflow

  class ReversalTables {
    var transactions: map<string, Transaction>
    var audit: map<string, AuditEntry>

    constructor (transactions: map<string, Transaction>, audit: map<string, AuditEntry>)
      ensures this.transactions == transactions && this.audit == audit
    {
      this.transactions := transactions;
      this.audit := audit;
    }

    /** The contents of both tables. */
    function Snapshot(): Tables
      reads this
    {
      Tables(transactions, audit)
    }

    /** One invocation. `auditId` and `timestamp` are the values the handler takes from
        the clock; `fault` is the store call that raises, if any. Every exception ends in
        500 and leaves the writes made before it in place. */
    method Handler(ev: Event, auditId: string, timestamp: string, fault: Option<StoreCall>) returns (response: Response)
      modifies this
      ensures Outcome(response, Snapshot()) == Handle(old(Snapshot()), ev, auditId, timestamp, fault)
    {
      if ev.MalformedBody? || ev.transactionId.None? || ev.reversalAmount.None? {
        return InternalError;
      }
      var transactionId := ev.transactionId.value;
      var reversalAmount := ev.reversalAmount.value;
      var reason := if ev.reason.Some? then ev.reason.value else DefaultReason;
      var initiator := if ev.initiator.Some? then ev.initiator.value else DefaultInitiator;

      // Step 1: read the transaction; the store refuses an empty key
      if fault == Some(GetTransaction) || transactionId == "" {
        return InternalError;
      }
      if transactionId !in transactions {
        return NotFound;
      }
      var transaction := transactions[transactionId];

      // Step 2: Status, then Amount
      if transaction.status.None? {
        return InternalError;
      }
      if transaction.status.value != Completed {
        return NotEligible;
      }
      if transaction.amount.None? {
        return InternalError;
      }
      if reversalAmount > transaction.amount.value {
        return AmountExceeded;
      }

      // Step 3: record the attempt as PENDING
      var entry := AuditEntry(auditId, transactionId, ReversalAction, Pending, initiator, timestamp,
                              Metadata(reversalAmount, reason));
      if fault == Some(PutAuditEntry) {
        return InternalError;
      }
      audit := audit[auditId := entry];

      // Step 4: mark the transaction REFUNDED
      if fault == Some(UpdateTransaction) {
        return InternalError;
      }
      transactions := transactions[transactionId := transactions[transactionId].(status := Some(Refunded))];

      // Step 5: mark the audit entry SUCCESS; this update is the only call left that can raise
      if fault.Some? {
        return InternalError;
      }
      audit := audit[auditId := audit[auditId].(status := Success)];
      return Reversed;
    }
  }
}
