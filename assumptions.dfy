/** The checks run before any linearization: the store starts empty, the
    persisted requests agree with what clients sent, and every client's
    operations are well-formed, non-overlapping intervals. */
module Assumptions {
  import opened Model

  // ---------------------------------------------------------------------
  // Empty database at start

  /** A write that the store answered with revision 2, the first revision
      after the empty initial state. */
  predicate WritesRevisionTwo(op: Operation, isRead: EtcdRequest -> bool)
  {
    op.Output.Revision == 2 && !isRead(op.Input)
  }

  predicate StartsFromEmptyDatabase(reports: seq<ClientReport>, isRead: EtcdRequest -> bool)
  {
    exists r, op :: r in reports && op in r.KeyValue && WritesRevisionTwo(op, isRead)
  }

  /** Succeeds iff some operation of some report is a non-read answered
      with revision 2; the search stops at the first such operation. */
  method ValidateEmptyDatabaseAtStart(reports: seq<ClientReport>, isRead: EtcdRequest -> bool)
    returns (err: Option<ValidationError>)
    ensures err.None? <==> StartsFromEmptyDatabase(reports, isRead)
    ensures err.Some? ==> err.value == NonEmptyDatabaseAtStart
  {
    var i := 0;
    while i < |reports|
      invariant 0 <= i <= |reports|
      invariant forall r, op :: r in reports[..i] && op in r.KeyValue ==> !WritesRevisionTwo(op, isRead)
    {
      var kv := reports[i].KeyValue;
      var j := 0;
      while j < |kv|
        invariant 0 <= j <= |kv|
        invariant forall op :: op in kv[..j] ==> !WritesRevisionTwo(op, isRead)
      {
        var op := kv[j];
        if op.Output.Revision == 2 && !isRead(op.Input) {
          assert StartsFromEmptyDatabase(reports, isRead) by {
            assert reports[i] in reports && op in reports[i].KeyValue && WritesRevisionTwo(op, isRead);
          }
          return None;
        }
        assert kv[..j + 1] == kv[..j] + [op];
        j := j + 1;
      }
      assert kv[..j] == kv;
      assert reports[..i + 1] == reports[..i] + [reports[i]];
      i := i + 1;
    }
    assert reports[..i] == reports;
    return Some(NonEmptyDatabaseAtStart);
  }

  // ---------------------------------------------------------------------
  // Persisted requests match client requests

  /** A write the client saw succeed. */
  predicate SuccessfulWrite(op: Operation, isRead: EtcdRequest -> bool)
  {
    op.Output.Error == "" && !isRead(op.Input)
  }

  predicate HasSuccessfulWrite(ops: seq<Operation>, isRead: EtcdRequest -> bool)
  {
    exists op :: op in ops && SuccessfulWrite(op, isRead)
  }

  /** The keys of the clientRequests map after scanning `ops`. */
  function SentRequests(ops: seq<Operation>): (sent: set<EtcdRequest>)
    decreases |ops|
  {
    if ops == [] then {}
    else SentRequests(ops[..|ops| - 1]) + {ops[|ops| - 1].Input}
  }

  /** The first persisted request, other than a LeaseGrant, that no client
      sent. */
  function FirstUnsentPersisted(persisted: seq<EtcdRequest>, sent: set<EtcdRequest>): (unsent: Option<EtcdRequest>)
    decreases |persisted|
  {
    if persisted == [] then None
    else if !persisted[0].LeaseGrant? && persisted[0] !in sent then Some(persisted[0])
    else FirstUnsentPersisted(persisted[1..], sent)
  }

  /** firstOp after scanning `ops`: None stands for Go's zero Operation,
      whose Call is 0, so an operation with Call 0 is also replaced. */
  function EarliestWrite(ops: seq<Operation>, isRead: EtcdRequest -> bool): (firstOp: Option<Operation>)
    decreases |ops|
  {
    if ops == [] then None
    else
      var op := ops[|ops| - 1];
      var prev := EarliestWrite(ops[..|ops| - 1], isRead);
      if SuccessfulWrite(op, isRead) && (prev.None? || prev.value.Call == 0 || op.Call < prev.value.Call)
      then Some(op)
      else prev
  }

  /** lastOp after scanning `ops`, with the same zero-value convention. */
  function LatestWrite(ops: seq<Operation>, isRead: EtcdRequest -> bool): (lastOp: Option<Operation>)
    decreases |ops|
  {
    if ops == [] then None
    else
      var op := ops[|ops| - 1];
      var prev := LatestWrite(ops[..|ops| - 1], isRead);
      if SuccessfulWrite(op, isRead) && (prev.None? || prev.value.Call == 0 || op.Call > prev.value.Call)
      then Some(op)
      else prev
  }

  /** The source reaches the firstOp/lastOp dereference only when every
      persisted non-LeaseGrant request was sent; it panics there when no
      successful write set firstOp. This is the condition under which it
      does not panic. */
  predicate PersistedMatchCanRun(ops: seq<Operation>, persisted: seq<EtcdRequest>, isRead: EtcdRequest -> bool)
  {
    HasSuccessfulWrite(ops, isRead) || FirstUnsentPersisted(persisted, SentRequests(ops)).Some?
  }

  /** The result of validatePersistedRequestMatchClientRequests on the
      scanned operations. */
  function PersistedMatchClientRequests(ops: seq<Operation>, persisted: seq<EtcdRequest>, isRead: EtcdRequest -> bool)
    : (err: Option<ValidationError>)
    requires PersistedMatchCanRun(ops, persisted, isRead)
  {
    var unsent := FirstUnsentPersisted(persisted, SentRequests(ops));
    if unsent.Some? then Some(RequestNotSentByClient(unsent.value))
    else
      WriteSelectionDefined(ops, isRead);
      var first := EarliestWrite(ops, isRead).value;
      var last := LatestWrite(ops, isRead).value;
      if first.Input !in persisted then Some(FirstWriteNotPersisted(first.Input))
      else if last.Input !in persisted then Some(LastWriteNotPersisted(last.Input))
      else None
  }

  /** The request sets are keyed by structural equality (the source keys
      them by the JSON encoding). Persisted requests are scanned in their
      own order; persisted LeaseGrant requests are never rejected. */
  method ValidatePersistedRequestMatchClientRequests(
    reports: seq<ClientReport>, persisted: seq<EtcdRequest>, isRead: EtcdRequest -> bool)
    returns (err: Option<ValidationError>)
    requires PersistedMatchCanRun(AllOps(reports), persisted, isRead)
    ensures err == PersistedMatchClientRequests(AllOps(reports), persisted, isRead)
  {
    var persistedRequestSet := BuildPersistedRequestSet(persisted);
    var clientRequests := BuildClientRequests(reports);
    var k := 0;
    while k < |persisted|
      invariant 0 <= k <= |persisted|
      invariant FirstUnsentPersisted(persisted, clientRequests.Keys)
             == FirstUnsentPersisted(persisted[k..], clientRequests.Keys)
    {
      var request := persisted[k];
      var found := request in clientRequests;
      assert persisted[k..][1..] == persisted[k + 1..];
      if !request.LeaseGrant? && !found {
        return Some(RequestNotSentByClient(request));
      }
      k := k + 1;
    }
    var firstOp, lastOp := SelectFirstAndLastWrite(reports, isRead);
    WriteSelectionDefined(AllOps(reports), isRead);
    if firstOp.value.Input !in persistedRequestSet {
      return Some(FirstWriteNotPersisted(firstOp.value.Input));
    }
    if lastOp.value.Input !in persistedRequestSet {
      return Some(LastWriteNotPersisted(lastOp.value.Input));
    }
    return None;
  }

  /** The set of persisted requests (the source's persistedRequestSet). */
  method BuildPersistedRequestSet(persisted: seq<EtcdRequest>) returns (persistedRequestSet: set<EtcdRequest>)
    ensures forall q :: q in persistedRequestSet <==> q in persisted
  {
    persistedRequestSet := {};
    var i := 0;
    while i < |persisted|
      invariant 0 <= i <= |persisted|
      invariant forall q :: q in persistedRequestSet <==> q in persisted[..i]
    {
      assert persisted[..i + 1] == persisted[..i] + [persisted[i]];
      persistedRequestSet := persistedRequestSet + {persisted[i]};
      i := i + 1;
    }
    assert persisted[..i] == persisted;
  }

  /** The clientRequests map: every request a client issued, including
      reads and failed operations, as a key. */
  method BuildClientRequests(reports: seq<ClientReport>) returns (clientRequests: map<EtcdRequest, Operation>)
    ensures clientRequests.Keys == SentRequests(AllOps(reports))
  {
    clientRequests := map[];
    var i := 0;
    while i < |reports|
      invariant 0 <= i <= |reports|
      invariant clientRequests.Keys == SentRequests(AllOps(reports[..i]))
    {
      clientRequests := AddClientRequests(reports[i].KeyValue, clientRequests, AllOps(reports[..i]));
      AllOpsStep(reports, i);
      i := i + 1;
    }
    assert reports[..i] == reports;
  }

  /** The inner loop of BuildClientRequests, over one report. */
  method AddClientRequests(kv: seq<Operation>, clientRequests0: map<EtcdRequest, Operation>, ghost done: seq<Operation>)
    returns (clientRequests: map<EtcdRequest, Operation>)
    requires clientRequests0.Keys == SentRequests(done)
    ensures clientRequests.Keys == SentRequests(done + kv)
  {
    clientRequests := clientRequests0;
    var j := 0;
    assert done + kv[..0] == done;
    while j < |kv|
      invariant 0 <= j <= |kv|
      invariant clientRequests.Keys == SentRequests(done + kv[..j])
    {
      var op := kv[j];
      assert done + kv[..j + 1] == (done + kv[..j]) + [op];
      assert ((done + kv[..j]) + [op])[..|done + kv[..j]|] == done + kv[..j];
      clientRequests := clientRequests[op.Input := op];
      j := j + 1;
    }
    assert kv[..j] == kv;
  }

  /** The running firstOp / lastOp selection over successful writes. */
  method SelectFirstAndLastWrite(reports: seq<ClientReport>, isRead: EtcdRequest -> bool)
    returns (firstOp: Option<Operation>, lastOp: Option<Operation>)
    ensures firstOp == EarliestWrite(AllOps(reports), isRead)
    ensures lastOp == LatestWrite(AllOps(reports), isRead)
  {
    firstOp, lastOp := None, None;
    var i := 0;
    while i < |reports|
      invariant 0 <= i <= |reports|
      invariant firstOp == EarliestWrite(AllOps(reports[..i]), isRead)
      invariant lastOp == LatestWrite(AllOps(reports[..i]), isRead)
    {
      firstOp, lastOp := SelectInReport(reports[i].KeyValue, isRead, firstOp, lastOp, AllOps(reports[..i]));
      AllOpsStep(reports, i);
      i := i + 1;
    }
    assert reports[..i] == reports;
  }

  /** The inner loop of SelectFirstAndLastWrite, over one report. */
  method SelectInReport(
    kv: seq<Operation>, isRead: EtcdRequest -> bool, firstOp0: Option<Operation>, lastOp0: Option<Operation>,
    ghost done: seq<Operation>)
    returns (firstOp: Option<Operation>, lastOp: Option<Operation>)
    requires firstOp0 == EarliestWrite(done, isRead) && lastOp0 == LatestWrite(done, isRead)
    ensures firstOp == EarliestWrite(done + kv, isRead) && lastOp == LatestWrite(done + kv, isRead)
  {
    firstOp, lastOp := firstOp0, lastOp0;
    var j := 0;
    assert done + kv[..0] == done;
    while j < |kv|
      invariant 0 <= j <= |kv|
      invariant firstOp == EarliestWrite(done + kv[..j], isRead)
      invariant lastOp == LatestWrite(done + kv[..j], isRead)
    {
      var op := kv[j];
      assert done + kv[..j + 1] == (done + kv[..j]) + [op];
      assert ((done + kv[..j]) + [op])[..|done + kv[..j]|] == done + kv[..j];
      if op.Output.Error == "" && !isRead(op.Input) {
        if firstOp.None? || firstOp.value.Call == 0 || op.Call < firstOp.value.Call {
          firstOp := Some(op);
        }
        if lastOp.None? || lastOp.value.Call == 0 || op.Call > lastOp.value.Call {
          lastOp := Some(op);
        }
      }
      j := j + 1;
    }
    assert kv[..j] == kv;
  }

  lemma {:induction false} SentRequestsMembership(ops: seq<Operation>, q: EtcdRequest)
    ensures q in SentRequests(ops) <==> exists op :: op in ops && op.Input == q
    decreases |ops|
  {
    if ops != [] {
      var init := ops[..|ops| - 1];
      var last := ops[|ops| - 1];
      SentRequestsMembership(init, q);
      assert ops == init + [last];
      if exists op :: op in ops && op.Input == q {
        var op :| op in ops && op.Input == q;
        if op != last {
          assert op in init;
        }
      }
    }
  }

  /** No unsent request is reported iff every persisted request other than
      a LeaseGrant is in `sent`; a reported one is persisted, not a
      LeaseGrant and not sent. */
  lemma {:induction false} FirstUnsentPersistedSpec(persisted: seq<EtcdRequest>, sent: set<EtcdRequest>)
    ensures FirstUnsentPersisted(persisted, sent).None?
        <==> forall q :: q in persisted && !q.LeaseGrant? ==> q in sent
    ensures FirstUnsentPersisted(persisted, sent).Some? ==>
              var q := FirstUnsentPersisted(persisted, sent).value;
              q in persisted && !q.LeaseGrant? && q !in sent
    decreases |persisted|
  {
    if persisted != [] {
      FirstUnsentPersistedSpec(persisted[1..], sent);
      assert persisted == [persisted[0]] + persisted[1..];
    }
  }

  /** firstOp and lastOp are set exactly when there is a successful write,
      and each is one. */
  lemma {:induction false} WriteSelectionDefined(ops: seq<Operation>, isRead: EtcdRequest -> bool)
    ensures EarliestWrite(ops, isRead).Some? <==> HasSuccessfulWrite(ops, isRead)
    ensures LatestWrite(ops, isRead).Some? <==> HasSuccessfulWrite(ops, isRead)
    ensures EarliestWrite(ops, isRead).Some? ==>
              EarliestWrite(ops, isRead).value in ops && SuccessfulWrite(EarliestWrite(ops, isRead).value, isRead)
    ensures LatestWrite(ops, isRead).Some? ==>
              LatestWrite(ops, isRead).value in ops && SuccessfulWrite(LatestWrite(ops, isRead).value, isRead)
    decreases |ops|
  {
    if ops != [] {
      var init := ops[..|ops| - 1];
      var last := ops[|ops| - 1];
      WriteSelectionDefined(init, isRead);
      assert ops == init + [last];
      if HasSuccessfulWrite(ops, isRead) && !SuccessfulWrite(last, isRead) {
        var op :| op in ops && SuccessfulWrite(op, isRead);
        assert op in init;
      }
    }
  }

  /** `f` is the successful write with the smallest Call, the first one
      scanned among those tied for it. */
  ghost predicate IsFirstEarliestWrite(ops: seq<Operation>, isRead: EtcdRequest -> bool, f: Operation)
  {
    && SuccessfulWrite(f, isRead)
    && (forall w :: w in ops && SuccessfulWrite(w, isRead) ==> f.Call <= w.Call)
    && exists k :: 0 <= k < |ops| && ops[k] == f
         && forall j :: 0 <= j < k && SuccessfulWrite(ops[j], isRead) ==> f.Call < ops[j].Call
  }

  /** `l` is the successful write with the largest Call, the first one
      scanned among those tied for it. */
  ghost predicate IsFirstLatestWrite(ops: seq<Operation>, isRead: EtcdRequest -> bool, l: Operation)
  {
    && SuccessfulWrite(l, isRead)
    && (forall w :: w in ops && SuccessfulWrite(w, isRead) ==> w.Call <= l.Call)
    && exists k :: 0 <= k < |ops| && ops[k] == l
         && forall j :: 0 <= j < k && SuccessfulWrite(ops[j], isRead) ==> ops[j].Call < l.Call
  }

  /** When no successful write has Call 0 (Go's "unset" value for firstOp),
      firstOp is the first-scanned write with the smallest call time. */
  lemma {:induction false} EarliestWriteIsFirstMinimum(ops: seq<Operation>, isRead: EtcdRequest -> bool)
    requires forall op :: op in ops && SuccessfulWrite(op, isRead) ==> op.Call != 0
    ensures EarliestWrite(ops, isRead).Some? ==> IsFirstEarliestWrite(ops, isRead, EarliestWrite(ops, isRead).value)
    decreases |ops|
  {
    if ops != [] {
      var n := |ops| - 1;
      var init := ops[..n];
      var last := ops[n];
      assert ops == init + [last];
      EarliestWriteIsFirstMinimum(init, isRead);
      WriteSelectionDefined(init, isRead);
      var prev := EarliestWrite(init, isRead);
      if SuccessfulWrite(last, isRead) && (prev.None? || prev.value.Call == 0 || last.Call < prev.value.Call) {
        forall w | w in ops && SuccessfulWrite(w, isRead) ensures last.Call <= w.Call {
          if w != last {
            assert w in init;
          }
        }
        forall j | 0 <= j < n && SuccessfulWrite(ops[j], isRead) ensures last.Call < ops[j].Call {
          assert init[j] == ops[j];
        }
      } else if prev.Some? {
        var f := prev.value;
        var k :| 0 <= k < |init| && init[k] == f
                 && forall j :: 0 <= j < k && SuccessfulWrite(init[j], isRead) ==> f.Call < init[j].Call;
        assert ops[k] == f;
        forall j | 0 <= j < k && SuccessfulWrite(ops[j], isRead) ensures f.Call < ops[j].Call {
          assert init[j] == ops[j];
        }
        forall w | w in ops && SuccessfulWrite(w, isRead) ensures f.Call <= w.Call {
          if w != last {
            assert w in init;
          }
        }
      }
    }
  }

  /** Symmetrically, lastOp is the first-scanned write with the largest
      call time. */
  lemma {:induction false} LatestWriteIsFirstMaximum(ops: seq<Operation>, isRead: EtcdRequest -> bool)
    requires forall op :: op in ops && SuccessfulWrite(op, isRead) ==> op.Call != 0
    ensures LatestWrite(ops, isRead).Some? ==> IsFirstLatestWrite(ops, isRead, LatestWrite(ops, isRead).value)
    decreases |ops|
  {
    if ops != [] {
      var n := |ops| - 1;
      var init := ops[..n];
      var last := ops[n];
      assert ops == init + [last];
      LatestWriteIsFirstMaximum(init, isRead);
      WriteSelectionDefined(init, isRead);
      var prev := LatestWrite(init, isRead);
      if SuccessfulWrite(last, isRead) && (prev.None? || prev.value.Call == 0 || last.Call > prev.value.Call) {
        forall w | w in ops && SuccessfulWrite(w, isRead) ensures w.Call <= last.Call {
          if w != last {
            assert w in init;
          }
        }
        forall j | 0 <= j < n && SuccessfulWrite(ops[j], isRead) ensures ops[j].Call < last.Call {
          assert init[j] == ops[j];
        }
      } else if prev.Some? {
        var l := prev.value;
        var k :| 0 <= k < |init| && init[k] == l
                 && forall j :: 0 <= j < k && SuccessfulWrite(init[j], isRead) ==> init[j].Call < l.Call;
        assert ops[k] == l;
        forall j | 0 <= j < k && SuccessfulWrite(ops[j], isRead) ensures ops[j].Call < l.Call {
          assert init[j] == ops[j];
        }
        forall w | w in ops && SuccessfulWrite(w, isRead) ensures w.Call <= l.Call {
          if w != last {
            assert w in init;
          }
        }
      }
    }
  }

  /** Every persisted request other than a LeaseGrant equals some request a
      client issued (reads and failed operations included). */
  ghost predicate PersistedRequestsWereSent(ops: seq<Operation>, persisted: seq<EtcdRequest>)
  {
    forall q :: q in persisted && !q.LeaseGrant? ==> exists op :: op in ops && op.Input == q
  }

  /** The ground truth agrees with the clients: every persisted request was
      sent, and the earliest and the latest successful write were both
      persisted. */
  ghost predicate PersistedMatch(ops: seq<Operation>, persisted: seq<EtcdRequest>, isRead: EtcdRequest -> bool)
  {
    && HasSuccessfulWrite(ops, isRead)
    && PersistedRequestsWereSent(ops, persisted)
    && EarliestWrite(ops, isRead).Some? && EarliestWrite(ops, isRead).value.Input in persisted
    && LatestWrite(ops, isRead).Some? && LatestWrite(ops, isRead).value.Input in persisted
  }

  /** The check passes iff every persisted non-LeaseGrant request was sent by
      a client and both the earliest and the latest successful write are
      persisted; a request named as unsent is persisted, is not a
      LeaseGrant and was sent by no client; without a successful write the
      only possible error is an unsent request. */
  lemma PersistedMatchCharacterization(ops: seq<Operation>, persisted: seq<EtcdRequest>, isRead: EtcdRequest -> bool)
    requires PersistedMatchCanRun(ops, persisted, isRead)
    ensures PersistedMatchClientRequests(ops, persisted, isRead).None? <==> PersistedMatch(ops, persisted, isRead)
    ensures !HasSuccessfulWrite(ops, isRead) ==>
              PersistedMatchClientRequests(ops, persisted, isRead).Some?
              && PersistedMatchClientRequests(ops, persisted, isRead).value.RequestNotSentByClient?
    ensures var e := PersistedMatchClientRequests(ops, persisted, isRead);
            e.Some? && e.value.RequestNotSentByClient? ==>
              e.value.Request in persisted && !e.value.Request.LeaseGrant?
              && forall op :: op in ops ==> op.Input != e.value.Request
  {
    WriteSelectionDefined(ops, isRead);
    var sent := SentRequests(ops);
    FirstUnsentPersistedSpec(persisted, sent);
    forall q ensures q in sent <==> exists op :: op in ops && op.Input == q {
      SentRequestsMembership(ops, q);
    }
  }

  // ---------------------------------------------------------------------
  // Non-concurrent client requests

  function LookupOrZero(m: map<int, int64>, k: int): (v: int64)
  {
    if k in m then m[k] else 0
  }

  /** The Return of the last operation of `clientId` in `ops`; 0 if none. */
  function LastReturn(ops: seq<Operation>, clientId: int): (lastReturn: int64)
    decreases |ops|
  {
    if ops == [] then 0
    else if ops[|ops| - 1].ClientId == clientId then ops[|ops| - 1].Return
    else LastReturn(ops[..|ops| - 1], clientId)
  }

  /** The error for `op`, given the return time of its client's previous
      operation, if it violates one of the two conditions. */
  function Violation(op: Operation, lastReturn: int64): (err: Option<ValidationError>)
  {
    if op.Call <= lastReturn then Some(ConcurrentRequest(op.ClientId))
    else if op.Return <= op.Call then Some(EndsBeforeStarts(op))
    else None
  }

  /** The first violation met while scanning `ops`. */
  function FirstConcurrencyViolation(ops: seq<Operation>): (e: Option<ValidationError>)
    ensures e.Some? ==> e.value.ConcurrentRequest? || e.value.EndsBeforeStarts?
    decreases |ops|
  {
    if ops == [] then None
    else
      var init := ops[..|ops| - 1];
      var e := FirstConcurrencyViolation(init);
      if e.Some? then e
      else Violation(ops[|ops| - 1], LastReturn(init, ops[|ops| - 1].ClientId))
  }

  /** The k-th scanned operation starts after its client's previous one
      returned and returns after it starts. */
  ghost predicate WellFormedAt(ops: seq<Operation>, k: int)
    requires 0 <= k < |ops|
  {
    LastReturn(ops[..k], ops[k].ClientId) < ops[k].Call < ops[k].Return
  }

  ghost predicate NonConcurrent(ops: seq<Operation>)
  {
    forall k :: 0 <= k < |ops| ==> WellFormedAt(ops, k)
  }

  /** The per-client scan with the lastClientRequestReturn map. */
  method ValidateNonConcurrentClientRequests(reports: seq<ClientReport>) returns (err: Option<ValidationError>)
    ensures err == FirstConcurrencyViolation(AllOps(reports))
  {
    var lastClientRequestReturn: map<int, int64> := map[];
    var i := 0;
    while i < |reports|
      invariant 0 <= i <= |reports|
      invariant FirstConcurrencyViolation(AllOps(reports[..i])).None?
      invariant TracksLastReturn(lastClientRequestReturn, AllOps(reports[..i]))
    {
      AllOpsStep(reports, i);
      err, lastClientRequestReturn :=
        CheckReportNonConcurrent(reports[i].KeyValue, lastClientRequestReturn, AllOps(reports[..i]));
      if err.Some? {
        AllOpsPrefix(reports, i + 1);
        ViolationPersists(AllOps(reports[..i + 1]), AllOps(reports[i + 1..]));
        return err;
      }
      i := i + 1;
    }
    assert reports[..i] == reports;
    return None;
  }

  /** The inner loop of ValidateNonConcurrentClientRequests, over one
      report, stopping at the first violation. */
  method CheckReportNonConcurrent(kv: seq<Operation>, last0: map<int, int64>, ghost done: seq<Operation>)
    returns (err: Option<ValidationError>, lastClientRequestReturn: map<int, int64>)
    requires FirstConcurrencyViolation(done).None?
    requires TracksLastReturn(last0, done)
    ensures err == FirstConcurrencyViolation(done + kv)
    ensures err.None? ==> TracksLastReturn(lastClientRequestReturn, done + kv)
  {
    lastClientRequestReturn := last0;
    ghost var scanned := done;
    var j := 0;
    while j < |kv|
      invariant 0 <= j <= |kv|
      invariant scanned == done + kv[..j]
      invariant FirstConcurrencyViolation(scanned).None?
      invariant TracksLastReturn(lastClientRequestReturn, scanned)
    {
      var op := kv[j];
      var lastRequest := if op.ClientId in lastClientRequestReturn then lastClientRequestReturn[op.ClientId] else 0;
      assert lastRequest == LookupOrZero(lastClientRequestReturn, op.ClientId);
      NonConcurrencySnoc(scanned, op);
      assert kv[..j + 1] == kv[..j] + [op];
      assert done + kv[..j + 1] == scanned + [op];
      assert lastRequest == LastReturn(scanned, op.ClientId);
      if op.Call <= lastRequest || op.Return <= op.Call {
        ViolationInReport(done, kv, j);
        if op.Call <= lastRequest {
          return Some(ConcurrentRequest(op.ClientId)), lastClientRequestReturn;
        }
        return Some(EndsBeforeStarts(op)), lastClientRequestReturn;
      }
      TracksLastReturnStep(lastClientRequestReturn, scanned, op);
      lastClientRequestReturn := lastClientRequestReturn[op.ClientId := op.Return];
      scanned := scanned + [op];
      j := j + 1;
    }
    assert kv[..j] == kv;
    err := None;
  }

  /** The map holds, for every client, the Return of its last scanned
      operation, and Go's zero value for a client not seen yet. */
  ghost predicate TracksLastReturn(m: map<int, int64>, ops: seq<Operation>)
  {
    forall c :: LookupOrZero(m, c) == LastReturn(ops, c)
  }

  /** A violation at the j-th operation of a report, with none before it,
      is the violation of the whole report. */
  lemma ViolationInReport(done: seq<Operation>, kv: seq<Operation>, j: nat)
    requires j < |kv|
    requires FirstConcurrencyViolation(done + kv[..j + 1]).Some?
    ensures FirstConcurrencyViolation(done + kv) == FirstConcurrencyViolation(done + kv[..j + 1])
  {
    SplitAfter(done, kv, j + 1);
    ViolationPersists(done + kv[..j + 1], kv[j + 1..]);
  }

  /** One more scanned operation: its client's last return becomes its
      own. */
  lemma TracksLastReturnStep(m: map<int, int64>, ops: seq<Operation>, op: Operation)
    requires TracksLastReturn(m, ops)
    ensures TracksLastReturn(m[op.ClientId := op.Return], ops + [op])
  {
    forall c ensures LookupOrZero(m[op.ClientId := op.Return], c) == LastReturn(ops + [op], c) {
      assert (ops + [op])[..|ops|] == ops;
    }
  }

  /** One more scanned operation is checked only if no earlier violation
      was found. */
  lemma NonConcurrencySnoc(ops: seq<Operation>, op: Operation)
    ensures FirstConcurrencyViolation(ops + [op])
         == if FirstConcurrencyViolation(ops).Some? then FirstConcurrencyViolation(ops)
            else Violation(op, LastReturn(ops, op.ClientId))
  {
    assert (ops + [op])[..|ops|] == ops;
  }

  /** Once a violation is found, scanning further does not change it. */
  lemma {:induction false} ViolationPersists(a: seq<Operation>, b: seq<Operation>)
    ensures FirstConcurrencyViolation(a).Some? ==> FirstConcurrencyViolation(a + b) == FirstConcurrencyViolation(a)
    decreases |b|
  {
    if b == [] {
      assert a + b == a;
    } else {
      var b' := b[..|b| - 1];
      assert (a + b)[..|a + b| - 1] == a + b';
      ViolationPersists(a, b');
    }
  }

  /** The scan finds no violation iff every operation is well-formed. */
  lemma {:induction false} NonConcurrencyCharacterization(ops: seq<Operation>)
    ensures FirstConcurrencyViolation(ops).None? <==> NonConcurrent(ops)
    decreases |ops|
  {
    if ops != [] {
      var n := |ops| - 1;
      var init := ops[..n];
      NonConcurrencyCharacterization(init);
      forall k | 0 <= k < n ensures WellFormedAt(ops, k) == WellFormedAt(init, k) {
        assert ops[..k] == init[..k];
      }
      assert ops[..n] == init;
      assert WellFormedAt(ops, n) <==> Violation(ops[n], LastReturn(init, ops[n].ClientId)).None?;
      if !NonConcurrent(init) {
        var k :| 0 <= k < n && !WellFormedAt(init, k);
        assert !WellFormedAt(ops, k);
      }
    }
  }

  /** The k-th operation is the first ill-formed one, and the scan
      reports the violation it makes. */
  ghost predicate FirstViolationAt(ops: seq<Operation>, k: int)
  {
    && 0 <= k < |ops|
    && !WellFormedAt(ops, k)
    && (forall j :: 0 <= j < k ==> WellFormedAt(ops, j))
    && FirstConcurrencyViolation(ops) == Violation(ops[k], LastReturn(ops[..k], ops[k].ClientId))
  }

  /** A reported violation is the one made by the first ill-formed
      operation: a ConcurrentRequest naming its client when it starts no
      later than the client's previous return, otherwise EndsBeforeStarts
      naming it. */
  lemma {:induction false} FirstViolationReported(ops: seq<Operation>)
    requires FirstConcurrencyViolation(ops).Some?
    ensures exists k :: FirstViolationAt(ops, k)
    decreases |ops|
  {
    var n := |ops| - 1;
    var init := ops[..n];
    if FirstConcurrencyViolation(init).Some? {
      FirstViolationReported(init);
      var k :| FirstViolationAt(init, k);
      assert ops[..k] == init[..k];
      forall j | 0 <= j < k ensures WellFormedAt(ops, j) {
        assert ops[..j] == init[..j];
        assert WellFormedAt(init, j);
      }
      assert FirstViolationAt(ops, k);
    } else {
      NonConcurrencyCharacterization(init);
      forall j | 0 <= j < n ensures WellFormedAt(ops, j) {
        assert ops[..j] == init[..j];
        assert WellFormedAt(init, j);
      }
      assert FirstViolationAt(ops, n);
    }
  }

  /** LastReturn names some operation of the client at or after any given one. */
  lemma {:induction false} LastReturnWitness(ops: seq<Operation>, j: int)
    requires 0 <= j < |ops|
    ensures exists m :: j <= m < |ops| && ops[m].ClientId == ops[j].ClientId
                        && LastReturn(ops, ops[j].ClientId) == ops[m].Return
    decreases |ops|
  {
    var n := |ops| - 1;
    if ops[n].ClientId != ops[j].ClientId {
      LastReturnWitness(ops[..n], j);
      var m :| j <= m < n && ops[..n][m].ClientId == ops[j].ClientId
               && LastReturn(ops[..n], ops[j].ClientId) == ops[..n][m].Return;
      assert ops[m] == ops[..n][m];
    }
  }

  /** What the check guarantees to the linearizability checker: on a
      history that passes, any two operations of the same client are
      disjoint intervals in scan order. */
  lemma {:induction false} PerClientSequential(ops: seq<Operation>, j: int, k: int)
    requires FirstConcurrencyViolation(ops).None?
    requires 0 <= j < k < |ops| && ops[j].ClientId == ops[k].ClientId
    ensures ops[j].Call < ops[j].Return < ops[k].Call
    decreases k
  {
    NonConcurrencyCharacterization(ops);
    assert WellFormedAt(ops, j) && WellFormedAt(ops, k);
    var prefix := ops[..k];
    assert prefix[j] == ops[j];
    LastReturnWitness(prefix, j);
    var m :| j <= m < k && prefix[m].ClientId == ops[j].ClientId
             && LastReturn(prefix, ops[j].ClientId) == prefix[m].Return;
    assert prefix[m] == ops[m];
    if m > j {
      PerClientSequential(ops, j, m);
      assert WellFormedAt(ops, m);
    }
  }

  // ---------------------------------------------------------------------
  // The aggregate check

  /** The persisted check runs only with ground truth and only after the
      empty-database check passed; this is the condition under which the
      aggregate check does not panic. */
  predicate AssumptionsCanRun(reports: seq<ClientReport>, persisted: Option<seq<EtcdRequest>>, isRead: EtcdRequest -> bool)
  {
    persisted.Some? && StartsFromEmptyDatabase(reports, isRead) ==>
      PersistedMatchCanRun(AllOps(reports), persisted.value, isRead)
  }

  /** The assumptions run in a fixed order and the first error is returned:
      empty database, then (with ground truth only) the persisted match,
      then non-concurrency. */
  function CheckValidationAssumptions(
    reports: seq<ClientReport>, persisted: Option<seq<EtcdRequest>>, isRead: EtcdRequest -> bool)
    : (err: Option<ValidationError>)
    requires AssumptionsCanRun(reports, persisted, isRead)
    ensures err.None? <==>
              && StartsFromEmptyDatabase(reports, isRead)
              && (persisted.Some? ==> PersistedMatch(AllOps(reports), persisted.value, isRead))
              && NonConcurrent(AllOps(reports))
    ensures err == Some(NonEmptyDatabaseAtStart) <==> !StartsFromEmptyDatabase(reports, isRead)
    ensures err.Some? && (err.value.RequestNotSentByClient? || err.value.FirstWriteNotPersisted?
                          || err.value.LastWriteNotPersisted?) ==>
              && persisted.Some?
              && StartsFromEmptyDatabase(reports, isRead)
              && err == PersistedMatchClientRequests(AllOps(reports), persisted.value, isRead)
    ensures StartsFromEmptyDatabase(reports, isRead) && persisted.Some?
            && PersistedMatchClientRequests(AllOps(reports), persisted.value, isRead).Some? ==>
              err == PersistedMatchClientRequests(AllOps(reports), persisted.value, isRead)
    ensures StartsFromEmptyDatabase(reports, isRead)
            && (persisted.Some? ==> PersistedMatch(AllOps(reports), persisted.value, isRead)) ==>
              err == FirstConcurrencyViolation(AllOps(reports))
    ensures err.Some? && (err.value.ConcurrentRequest? || err.value.EndsBeforeStarts?) ==>
              && StartsFromEmptyDatabase(reports, isRead)
              && (persisted.Some? ==> PersistedMatch(AllOps(reports), persisted.value, isRead))
              && err == FirstConcurrencyViolation(AllOps(reports))
  {
    var ops := AllOps(reports);
    NonConcurrencyCharacterization(ops);
    if !StartsFromEmptyDatabase(reports, isRead) then Some(NonEmptyDatabaseAtStart)
    else if persisted.Some? then
      PersistedMatchCharacterization(ops, persisted.value, isRead);
      var e := PersistedMatchClientRequests(ops, persisted.value, isRead);
      if e.Some? then e else FirstConcurrencyViolation(ops)
    else FirstConcurrencyViolation(ops)
  }
}
