/** Splitting the client history into the operations handed to the
    linearizability checker and the stale (serializable) reads checked
    against the replayed history. */
module Categorize {
  import opened Model

  /** A Range pinned to a non-zero revision: checked against the replay. */
  predicate IsSerializable(op: Operation)
  {
    op.Input.Range? && op.Input.Revision != 0
  }

  /** Everything except a failed read takes part in linearization. */
  predicate IsLinearizable(op: Operation, isRead: EtcdRequest -> bool)
  {
    op.Output.Error == "" || !isRead(op.Input)
  }

  /** The copy of an operation given to porcupine: a failed operation may
      take effect at any later time, so it never returns. */
  function ForLinearization(op: Operation): (r: Operation)
  {
    if op.Output.Error != "" then op.(Return := MaxInt64) else op
  }

  /** The linearizable list after scanning `ops`. */
  function Linearizable(ops: seq<Operation>, isRead: EtcdRequest -> bool): (linearizable: seq<Operation>)
    decreases |ops|
  {
    if ops == [] then []
    else
      var op := ops[|ops| - 1];
      var init := Linearizable(ops[..|ops| - 1], isRead);
      if IsLinearizable(op, isRead) then init + [ForLinearization(op)] else init
  }

  /** The serializable list after scanning `ops`. */
  function Serializable(ops: seq<Operation>): (serializable: seq<Operation>)
    decreases |ops|
  {
    if ops == [] then []
    else
      var op := ops[|ops| - 1];
      var init := Serializable(ops[..|ops| - 1]);
      if IsSerializable(op) then init + [op] else init
  }

  /** The categorizer: one pass over all reports appending to two lists.
      The reports are values, so the caller's copy is never altered. */
  method PrepareAndCategorizeOperations(reports: seq<ClientReport>, isRead: EtcdRequest -> bool)
    returns (linearizable: seq<Operation>, serializable: seq<Operation>)
    ensures linearizable == Linearizable(AllOps(reports), isRead)
    ensures serializable == Serializable(AllOps(reports))
  {
    linearizable, serializable := [], [];
    var i := 0;
    while i < |reports|
      invariant 0 <= i <= |reports|
      invariant linearizable == Linearizable(AllOps(reports[..i]), isRead)
      invariant serializable == Serializable(AllOps(reports[..i]))
    {
      ghost var done := AllOps(reports[..i]);
      linearizable, serializable := CategorizeReport(reports[i].KeyValue, isRead, linearizable, serializable);
      AllOpsStep(reports, i);
      LinearizableConcat(done, reports[i].KeyValue, isRead);
      SerializableConcat(done, reports[i].KeyValue);
      i := i + 1;
    }
    assert reports[..i] == reports;
  }

  /** The inner loop over one report's operations, appending to the lists
      built so far. */
  method CategorizeReport(
    kv: seq<Operation>, isRead: EtcdRequest -> bool, linearizable0: seq<Operation>, serializable0: seq<Operation>)
    returns (linearizable: seq<Operation>, serializable: seq<Operation>)
    ensures linearizable == linearizable0 + Linearizable(kv, isRead)
    ensures serializable == serializable0 + Serializable(kv)
  {
    linearizable, serializable := linearizable0, serializable0;
    var j := 0;
    while j < |kv|
      invariant 0 <= j <= |kv|
      invariant linearizable == linearizable0 + Linearizable(kv[..j], isRead)
      invariant serializable == serializable0 + Serializable(kv[..j])
    {
      var op := kv[j];
      assert kv[..j + 1] == kv[..j] + [op];
      CategorizeSnoc(kv[..j], op, isRead);
      if op.Input.Range? && op.Input.Revision != 0 {
        serializable := serializable + [op];
      }
      if op.Output.Error == "" || !isRead(op.Input) {
        if op.Output.Error != "" {
          op := op.(Return := MaxInt64);
        }
        linearizable := linearizable + [op];
      }
      j := j + 1;
    }
    assert kv[..j] == kv;
  }

  /** One more scanned operation extends each list by at most that one. */
  lemma CategorizeSnoc(ops: seq<Operation>, op: Operation, isRead: EtcdRequest -> bool)
    ensures Linearizable(ops + [op], isRead)
         == if IsLinearizable(op, isRead) then Linearizable(ops, isRead) + [ForLinearization(op)]
            else Linearizable(ops, isRead)
    ensures Serializable(ops + [op])
         == if IsSerializable(op) then Serializable(ops) + [op] else Serializable(ops)
  {
    assert (ops + [op])[..|ops|] == ops;
  }

  /** Categorizing a concatenation categorizes each part, in order: both
      lists keep the scan order of the reports. */
  lemma {:induction false} LinearizableConcat(a: seq<Operation>, b: seq<Operation>, isRead: EtcdRequest -> bool)
    ensures Linearizable(a + b, isRead) == Linearizable(a, isRead) + Linearizable(b, isRead)
    decreases |b|
  {
    if b == [] {
      assert a + b == a;
    } else {
      var b' := b[..|b| - 1];
      assert (a + b)[..|a + b| - 1] == a + b';
      LinearizableConcat(a, b', isRead);
    }
  }

  lemma {:induction false} SerializableConcat(a: seq<Operation>, b: seq<Operation>)
    ensures Serializable(a + b) == Serializable(a) + Serializable(b)
    decreases |b|
  {
    if b == [] {
      assert a + b == a;
    } else {
      var b' := b[..|b| - 1];
      assert (a + b)[..|a + b| - 1] == a + b';
      SerializableConcat(a, b');
    }
  }

  /** An operation is in the serializable list iff it was scanned and is a
      Range on a non-zero revision, whether or not it failed; it is copied
      unchanged. */
  lemma {:induction false} SerializableMembership(ops: seq<Operation>, op: Operation)
    ensures op in Serializable(ops) <==> op in ops && op.Input.Range? && op.Input.Revision != 0
    decreases |ops|
  {
    if ops != [] {
      var init := ops[..|ops| - 1];
      SerializableMembership(init, op);
      assert ops == init + [ops[|ops| - 1]];
    }
  }

  /** The linearizable list holds exactly the porcupine copies of the
      scanned operations that succeeded or are not reads. */
  lemma {:induction false} LinearizableMembership(ops: seq<Operation>, isRead: EtcdRequest -> bool, x: Operation)
    ensures x in Linearizable(ops, isRead)
        <==> exists op :: op in ops && (op.Output.Error == "" || !isRead(op.Input)) && x == ForLinearization(op)
    decreases |ops|
  {
    if ops != [] {
      var init := ops[..|ops| - 1];
      var last := ops[|ops| - 1];
      LinearizableMembership(init, isRead, x);
      assert ops == init + [last];
      if exists op :: op in ops && IsLinearizable(op, isRead) && x == ForLinearization(op) {
        var op :| op in ops && IsLinearizable(op, isRead) && x == ForLinearization(op);
        if op != last {
          assert op in init;
        }
      }
    }
  }

  /** Only the return time of a failed operation is rewritten: every entry
      of the linearizable list is a scanned operation with the same client,
      call time, request and response; a failed entry never returns
      (MaxInt64) and a successful one keeps its return time. A failed read
      never reaches the list. */
  lemma LinearizableRewritesOnlyReturn(ops: seq<Operation>, isRead: EtcdRequest -> bool, x: Operation)
    requires x in Linearizable(ops, isRead)
    ensures x.Output.Error == "" || !isRead(x.Input)
    ensures x.Output.Error != "" ==> x.Return == MaxInt64
    ensures exists op :: op in ops && op.ClientId == x.ClientId && op.Call == x.Call
                      && op.Input == x.Input && op.Output == x.Output
                      && (x.Output.Error == "" ==> op.Return == x.Return)
  {
    LinearizableMembership(ops, isRead, x);
  }

  /** A successful Range on a non-zero revision lands in both lists,
      unchanged. */
  lemma SuccessfulStaleReadInBoth(ops: seq<Operation>, isRead: EtcdRequest -> bool, op: Operation)
    requires op in ops && op.Input.Range? && op.Input.Revision != 0 && op.Output.Error == ""
    ensures op in Linearizable(ops, isRead) && op in Serializable(ops)
  {
    LinearizableMembership(ops, isRead, op);
    SerializableMembership(ops, op);
  }

  /** A failed read leaves no trace in the linearizable list: no entry
      carries its request together with a failed response. */
  lemma FailedReadNeverLinearizable(ops: seq<Operation>, isRead: EtcdRequest -> bool, op: Operation)
    requires op.Output.Error != "" && isRead(op.Input)
    ensures forall x :: x in Linearizable(ops, isRead) ==> x.Input != op.Input || x.Output.Error == ""
  {
    forall x | x in Linearizable(ops, isRead)
      ensures x.Input != op.Input || x.Output.Error == ""
    {
      LinearizableRewritesOnlyReturn(ops, isRead, x);
    }
  }
}
