/** Successive invocations of the handler against the same two tables, one after the
    other, as a deployed function is called again and again. */
module ReversalRuns {
  import opened ReversalTypes
  import opened ReversalWorkflow

  /** The inputs of one invocation: the event, the clock-derived audit id and timestamp,
      and the store call that raises, if any. */
  datatype Invocation = Invocation(event: Event, auditId: string, timestamp: string, fault: Option<StoreCall>)

  /** The tables after a run and the response of each invocation in turn. */
  datatype Trace = Trace(final: Tables, responses: seq<Response>)

  /** The request of `ev` names the transaction `id`. */
  predicate Targets(ev: Event, id: string)
  {
    ev.Body? && ev.transactionId == Some(id)
  }

  /** The invocations `calls`, one after the other, from the tables `t`. */
  function Run(t: Tables, calls: seq<Invocation>): (r: Trace)
    ensures |r.responses| == |calls|
    ensures OnlyRefunds(t.transactions, r.final.transactions)
    ensures t.audit.Keys <= r.final.audit.Keys
    decreases |calls|
  {
    if calls == [] then Trace(t, [])
    else
      var c := calls[0];
      var o := Handle(t, c.event, c.auditId, c.timestamp, c.fault);
      var rest := Run(o.tables, calls[1..]);
      Trace(rest.final, [o.response] + rest.responses)
  }

  /** The number of invocations among `calls` that reversed the transaction `id`. */
  function Reversals(calls: seq<Invocation>, responses: seq<Response>, id: string): nat
    requires |responses| == |calls|
    decreases |calls|
  {
    if calls == [] then 0
    else
      (if Targets(calls[0].event, id) && responses[0] == Reversed then 1 else 0)
      + Reversals(calls[1..], responses[1..], id)
  }

  /** Run sequentially, the handler reverses a transaction at most once, and only one
      that was COMPLETED when the run began. */
  lemma {:induction false} AtMostOneReversal(t: Tables, calls: seq<Invocation>, id: string)
    ensures Reversals(calls, Run(t, calls).responses, id) <= if Eligible(t.transactions, id) then 1 else 0
    decreases |calls|
  {
    if calls != [] {
      var c := calls[0];
      var o := Handle(t, c.event, c.auditId, c.timestamp, c.fault);
      AtMostOneReversal(o.tables, calls[1..], id);
      var r := Run(t, calls);
      assert r.responses[1..] == Run(o.tables, calls[1..]).responses;
      if Eligible(o.tables.transactions, id) {
        assert Eligible(t.transactions, id);
        assert !(Targets(c.event, id) && o.response == Reversed);
      }
    }
  }

  /** A retry of a request that succeeded is never reversed a second time: the
      transaction is REFUNDED by then, so the retry is refused as not eligible (or fails). */
  lemma RetryAfterReversal(t: Tables, ev: Event, first: Invocation, retry: Invocation)
    requires first.event == ev && retry.event == ev
    requires Handle(t, ev, first.auditId, first.timestamp, first.fault).response == Reversed
    ensures var o := Run(t, [first, retry]);
      o.responses[1] in {NotEligible, InternalError}
      && o.final.transactions == Handle(t, ev, first.auditId, first.timestamp, first.fault).tables.transactions
  {
    var o1 := Handle(t, ev, first.auditId, first.timestamp, first.fault);
    var o2 := Handle(o1.tables, ev, retry.auditId, retry.timestamp, retry.fault);
    assert o1.tables.transactions[ev.transactionId.value].status == Some(Refunded);
    assert o2.tables == o1.tables;
    assert [first, retry][1..] == [retry] && [retry][1..] == [];
    assert Run(o1.tables, [retry]) == Trace(o2.tables, [o2.response]);
  }

  /** An audit entry whose id no later invocation uses is never changed: the audit trail
      only grows as long as each invocation gets an id of its own. */
  lemma {:induction false} EntriesKeptUnlessIdReused(t: Tables, calls: seq<Invocation>, ids: set<string>)
    requires ids <= t.audit.Keys
    requires forall i :: 0 <= i < |calls| ==> calls[i].auditId !in ids
    ensures var final := Run(t, calls).final;
      forall a :: a in ids ==> a in final.audit && final.audit[a] == t.audit[a]
    decreases |calls|
  {
    if calls != [] {
      var c := calls[0];
      var o := Handle(t, c.event, c.auditId, c.timestamp, c.fault);
      assert c.auditId !in ids;
      forall a | a in ids
        ensures a in o.tables.audit && o.tables.audit[a] == t.audit[a]
      {
        assert a in t.audit - {c.auditId};
      }
      EntriesKeptUnlessIdReused(o.tables, calls[1..], ids);
    }
  }

  /** The audit id is derived from the clock and written with an unconditional put, so an
      invocation that gets the id of an earlier one overwrites its entry: here a SUCCESS
      record of the reversal of T1 is replaced by a PENDING record about T2. */
  lemma ReusedAuditIdLosesSuccessEntry()
    ensures var t := Tables(map["T1" := Transaction(Some(Completed), Some(10000), map[]),
                                "T2" := Transaction(Some(Completed), Some(5000), map[])], map[]);
      var first := Invocation(Body(Some("T1"), Some(4000), None, None), "audit-1", "t1", None);
      var second := Invocation(Body(Some("T2"), Some(1000), None, None), "audit-1", "t2", Some(UpdateTransaction));
      var r := Run(t, [first, second]);
      && r.responses == [Reversed, InternalError]
      && r.final.transactions["T1"].status == Some(Refunded)
      && r.final.audit.Keys == {"audit-1"}
      && r.final.audit["audit-1"].transactionId == "T2"
      && r.final.audit["audit-1"].status == Pending
  {
    var t := Tables(map["T1" := Transaction(Some(Completed), Some(10000), map[]),
                        "T2" := Transaction(Some(Completed), Some(5000), map[])], map[]);
    var first := Invocation(Body(Some("T1"), Some(4000), None, None), "audit-1", "t1", None);
    var second := Invocation(Body(Some("T2"), Some(1000), None, None), "audit-1", "t2", Some(UpdateTransaction));
    var o1 := Handle(t, first.event, "audit-1", "t1", None);
    var o2 := Handle(o1.tables, second.event, "audit-1", "t2", Some(UpdateTransaction));
    assert [first, second][1..] == [second];
    assert Run(o1.tables, [second]) == Trace(o2.tables, [o2.response]);
  }
}
