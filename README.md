# Process-Reversal: the reversal handler in Dafny

This project models the AWS Lambda handler that reverses (refunds) a completed
financial transaction. The handler works on two DynamoDB tables:

- **Transactions**, keyed by `TransactionID`. Each item has a `Status` and an `Amount`.
- **AuditTrail**, keyed by `AuditID`. Each item records one reversal attempt.

For a request naming a transaction and a reversal amount, the handler does the following:

1. It reads the transaction. If the transaction is missing, it answers 404.
2. If `Status` is not exactly `"COMPLETED"`, it answers 400 "not eligible".
3. If the amount asked for exceeds the stored `Amount`, it answers a different 400.
4. Otherwise it makes three writes, in this order:
   - it puts a PENDING audit entry;
   - it sets the transaction's `Status` to REFUNDED;
   - it sets the audit entry's `Status` to SUCCESS.

   Then it answers 200.

Any exception leads to 500. Writes made before the exception stay in place, because nothing is rolled back.

As written, the handler stores the reversal amount in the audit entry as a float. The DynamoDB
resource API refuses to serialise floats, so the audit put raises on every request that passes
validation. Such a request therefore ends in 500 with nothing written. The model describes the
three writes as the code evidently intends them. The float put is the case where the put
raises; see "## Findings".

Modules:

- `ReversalTypes` (reversal_types.dfy) holds the items, the request event, the store calls, the responses and the handler's constants.
- `ReversalWorkflow` (reversal_workflow.dfy) describes one invocation as functions over the two tables:
  - `Parse` reads the body and applies the defaults;
  - `Validate` makes the three checks, in the handler's order;
  - `Commit` makes the three writes, and the call named by `fault` raises;
  - `Handle` puts these together.
- `ReversalHandler` (reversal_handler.dfy) holds the class `ReversalTables`. The class keeps the two tables as `map` fields. Its method `Handler` runs the handler step by step: early returns, then three in-place map updates. It is proved to give the same response and tables as `Handle`.
- `ReversalProperties` (reversal_properties.dfy) covers one invocation: the partial states a failing write leaves behind, the order of the checks, and worked examples.
- `ReversalRuns` (reversal_runs.dfy) covers many invocations run one after another on the same tables, where each read sees every earlier write:
  - a transaction is reversed at most once;
  - a transaction changes only from COMPLETED to REFUNDED;
  - audit entries survive unless their id is used again.

Modelling choices:

- Amounts are integers, counted in the smallest currency unit.
- The audit id and the timestamp come from the clock in the handler. Here they are parameters.
- A failing DynamoDB call is given as the parameter `fault: Option<StoreCall>`, which names the call that raises. A call that raises is taken to have changed nothing.
- A body that cannot be parsed, or a missing `TransactionID` or `ReversalAmount`, leads to the 500 path.
- DynamoDB refuses an empty string as a key, so an empty `TransactionID` makes the read raise. The answer is 500, not 404.
- A stored item without `Status` leads to 500 (a `KeyError` in the handler). So does an item whose `Amount` is missing or not numeric, once its `Status` is COMPLETED.

What the handler does not do, and the model therefore does not do either:

- It does not normalise Status. Only the exact string `"COMPLETED"` is eligible; case and whitespace are not adjusted, and there is no SUCCESS-equivalent status.
- It has no idempotency key, no conditional write and no 409 response. When the retry's read sees the earlier write, a retry of a request that already succeeded is answered 400 "not eligible", not with the earlier success (`RetryAfterReversal`).
- Its 200 body holds only the message. It carries no `AuditID`.
- It does not check that the reversal amount is positive, so a zero or negative amount is accepted when the transaction is COMPLETED.
- It never marks an audit entry FAILED. A failure after the audit put leaves the entry PENDING.

## Model

| member | source | states |
|---|---|---|
| ReversalWorkflow.Parse | lambda_function/process_reversal.py:16-20 | The request goes on exactly when the body holds a TransactionID and a numeric ReversalAmount. Reason defaults to "No reason provided" and Initiator defaults to "System"; given values are kept. |
| ReversalWorkflow.Validate | lambda_function/process_reversal.py:26-48 | 404 exactly when the id is absent. "Not eligible" exactly when Status is present and not exactly "COMPLETED", whatever the amount. "Exceeds" exactly when the transaction is eligible and the amount is strictly greater than Amount. Otherwise, apart from a missing attribute (500), it proceeds with the stored item. |
| ReversalWorkflow.Commit | lambda_function/process_reversal.py:50-95 | The answer is 200 exactly when no write raises, and 500 otherwise. A failed put changes nothing. After the put, the entry under the audit id holds the request's TransactionID, REVERSAL, Initiator, Timestamp and Metadata; its Status is SUCCESS only if every write succeeded and PENDING otherwise. Other audit entries and other transactions are untouched. The target becomes REFUNDED exactly when the transaction update was reached and did not raise. |
| ReversalWorkflow.Handle | lambda_function/process_reversal.py:13-95 | The response is one of the five fixed responses. The 404, 400 and 200 answers each hold exactly under their stated conditions; an empty or missing TransactionID, or a failed read, gives 500. A 400 or 404 leaves both tables unchanged. The tables change only when the request passed every check and the put did not raise, so a 500 raised before the put (a missing Status or Amount included) leaves them unchanged. On 200 the target is REFUNDED and the audit entry is SUCCESS with the request's data. Otherwise a transaction changes only from COMPLETED to REFUNDED, and audit entries under other ids are kept. |
| ReversalHandler.ReversalTables.Handler | lambda_function/process_reversal.py:13-95 | The in-place handler returns the response of `Handle`, and it leaves both tables as `Handle` describes them. |
| ReversalProperties.PendingEntryWithCompletedTransaction | lambda_function/process_reversal.py:65-95 | If the transaction update raises, the answer is 500. A PENDING audit entry for the request remains while the transaction is still COMPLETED. |
| ReversalProperties.RefundedTransactionWithPendingEntry | lambda_function/process_reversal.py:68-95 | If the final audit update raises, the answer is 500. The transaction is already REFUNDED while its audit entry stays PENDING. |
| ReversalProperties.ValidatedRequestFailsAtFloatPut | lambda_function/process_reversal.py:18-65 | For every request that passes validation, a put that raises (as the float in Metadata makes it, as written) gives 500 with both tables unchanged, where the intended run with no store call raising gives 200. |
| ReversalProperties.EmptyTransactionIdFailsRead | lambda_function/process_reversal.py:27 | An empty TransactionID makes the read raise: 500 and nothing changed, never 404. |
| ReversalProperties.StatusCheckedBeforeAmount | lambda_function/process_reversal.py:38-48 | A non-COMPLETED transaction with an excessive amount gets "not eligible", and nothing changes. |
| ReversalProperties.StatusIsCaseSensitive | lambda_function/process_reversal.py:38-42 | "completed" and "SUCCESS" are refused as not eligible. |
| ReversalProperties.FullAmountAccepted | lambda_function/process_reversal.py:44-48 | A reversal of exactly the original amount succeeds. |
| ReversalProperties.ReversalOfCompletedTransaction | lambda_function/process_reversal.py:50-86 | Worked example: 40.00 out of a COMPLETED 100.00 gives 200. T1 becomes REFUNDED, and a single SUCCESS entry remains with the default reason and initiator. |
| ReversalProperties.PendingTransactionRefused | lambda_function/process_reversal.py:38-42 | Worked example: a PENDING transaction gets "not eligible", and nothing changes. |
| ReversalProperties.ExcessiveAmountRefused | lambda_function/process_reversal.py:44-48 | Worked example: 25.00 out of 20.00 gets "exceeds original amount", and nothing changes. |
| ReversalProperties.UnknownTransactionNotFound | lambda_function/process_reversal.py:27-33 | Worked example: an unknown id gets 404, and nothing changes. |
| ReversalRuns.Run | lambda_function/process_reversal.py:65-81 | Over any sequence of invocations, no transaction is added or removed. Each one is untouched or went from COMPLETED to REFUNDED with its Amount and other attributes kept. No audit id disappears. |
| ReversalRuns.AtMostOneReversal | lambda_function/process_reversal.py:38-73 | Run one after another, with each read seeing every earlier write, the handler answers 200 for a given transaction at most once. It never answers 200 if the transaction was not COMPLETED at the start. |
| ReversalRuns.RetryAfterReversal | lambda_function/process_reversal.py:38-73 | When the retry's read sees the first call's write, resubmitting a request that succeeded gets "not eligible" (or 500) and leaves the transactions as the first call left them. |
| ReversalRuns.EntriesKeptUnlessIdReused | lambda_function/process_reversal.py:51-81 | An audit entry whose id no later invocation uses is never changed. |
| ReversalRuns.ReusedAuditIdLosesSuccessEntry | lambda_function/process_reversal.py:51-81 | Because the put is unconditional, a later invocation that gets the same clock-derived id overwrites a SUCCESS record with a PENDING record about another transaction. |

## Left out

- The DynamoDB client, the table lookup and the environment variables (lambda_function/process_reversal.py:1-11, 23-24) are left out: they are foreign I/O. The two tables are maps.
- JSON decoding of the body and JSON encoding of responses are left out. The request is an already-parsed `Event`, and a response is its status code and its message.
- Float conversion and comparison are left out: amounts are integers. For example, a reversal amount of NaN, which compares false against every amount, cannot be expressed in the model. The effect of the float on the audit put is recorded under "## Findings". There it is modelled as the put raising; the serialiser itself is not modelled.
- The clock (audit id and timestamp from `datetime.utcnow()`) is left out: both are parameters.
- The error log printed on an exception is left out, because it is output only.
- Concurrent invocations are left out: the model runs invocations one after another.
- DynamoDB's behaviour when `update_item` targets a missing key (it creates the item) is left out. In a sequential run both updates target items the handler has just read or written.
- ReversalRuns.AtMostOneReversal, ReversalRuns.RetryAfterReversal: the store is modelled with reads that see every earlier write. The handler's `get_item` (lambda_function/process_reversal.py:27) is an eventually consistent read and does not guarantee that. A request sent after an earlier one returned 200 can still read a stale `"COMPLETED"`. It would then write a second audit entry and answer 200 again, because the update at line 68 is not conditional on Status.
- A store call that raises is taken to have changed nothing. A write that lands and then raises is not modelled: for example, the SUCCESS update at line 76 applied, then the client's retries exhausted, giving SUCCESS with a 500. `Commit`'s "SUCCESS only if every write succeeded" holds only under this assumption.
- The audit id is taken as given. In the handler it always starts with `audit-`, so the store's refusal of an empty key never applies to it.
- An explicit JSON `null` for Reason or Initiator is left out. `body.get` would return `None` there rather than the default, and the model has only "absent" and "given string".

## Findings

| source | as written | input that shows it | evidently intended | confidence | as-written member | corrected member |
|---|---|---|---|---|---|---|
| lambda_function/process_reversal.py:18-65 | `reversal_amount` is a float and goes into `Metadata.ReversalAmount`. The DynamoDB resource API refuses floats, so `put_item` raises and every validated request answers 500 with nothing written | T1 is COMPLETED with Amount 100.00, and the request asks to reverse 40.00 from T1 | The PENDING entry is written, T1 becomes REFUNDED, the entry becomes SUCCESS, and the answer is 200 | not executed; this rests on the DynamoDB serialiser, which is not part of this model | ReversalProperties.ValidatedRequestFailsAtFloatPut | ReversalProperties.ReversalOfCompletedTransaction |
