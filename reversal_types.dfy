/** Values the reversal handler reads and writes: the request it is given, the items of
    the Transactions and AuditTrail tables, the store calls that may fail, and the HTTP
    responses it returns. Amounts are whole numbers of the smallest currency unit. */
module ReversalTypes {

  datatype Option<+T> = None | Some(value: T)

  /** An item of the Transactions table, keyed by its TransactionID. `status` and `amount`
      are the attributes the handler reads; `None` stands for an attribute that is missing
      (and, for the amount, one that is not a number). Every other attribute of the item
      is kept in `others`. */
  datatype Transaction = Transaction(status: Option<string>, amount: Option<int>, others: map<string, string>)

  /** The Metadata attribute of an audit entry. */
  datatype Metadata = Metadata(reversalAmount: int, reason: string)

  /** An item of the AuditTrail table, keyed by its AuditID. */
  datatype AuditEntry = AuditEntry(
    auditId: string,
    transactionId: string,
    action: string,
    status: string,
    initiator: string,
    timestamp: string,
    metadata: Metadata)

  /** The incoming event. `MalformedBody` is a body that is absent or not a JSON object;
      otherwise each field is `None` when its key is missing (and, for the amount, when
      its value is not a number; for the TransactionID, when it is not a string, which
      the store refuses as a key). */
  datatype Event =
    | MalformedBody
    | Body(transactionId: Option<string>, reversalAmount: Option<int>, reason: Option<string>, initiator: Option<string>)

  /** The store calls the handler makes, in the order it makes them. */
  datatype StoreCall = GetTransaction | PutAuditEntry | UpdateTransaction | UpdateAuditEntry

  datatype Body = Message(text: string) | Error(text: string)

  datatype Response = Response(statusCode: int, body: Body)

  /** The two tables the handler works on. */
  datatype Tables = Tables(transactions: map<string, Transaction>, audit: map<string, AuditEntry>)

  /** What one invocation returns and the tables it leaves behind. */
  datatype Outcome = Outcome(response: Response, tables: Tables)

  const Completed := "COMPLETED"
  const Refunded := "REFUNDED"
  const Pending := "PENDING"
  const Success := "SUCCESS"
  const ReversalAction := "REVERSAL"
  const DefaultReason := "No reason provided"
  const DefaultInitiator := "System"

  const Reversed := Response(200, Message("Transaction reversed successfully"))
  const NotFound := Response(404, Error("Transaction not found"))
  const NotEligible := Response(400, Error("Transaction is not eligible for reversal"))
  const AmountExceeded := Response(400, Error("Reversal amount exceeds original transaction amount"))
  const InternalError := Response(500, Error("An internal server error occurred"))
}
