/** The records the validator consumes: etcd requests and responses, the
    client-observed operations that wrap them, and the per-client reports
    that group those operations. */
module Model {

  /** Go's int64, used for timestamps and revisions. */
  newtype int64 = x: int | -0x8000_0000_0000_0000 <= x < 0x8000_0000_0000_0000

  /** math.MaxInt64: the "never returned" marker given to failed operations. */
  const MaxInt64: int64 := 0x7FFF_FFFF_FFFF_FFFF

  datatype Option<T> = None | Some(value: T)

  /** A comparison guarding a transaction. */
  datatype Comparison = Comparison(Key: string, ExpectedRevision: int64)

  /** One step of a transaction branch. */
  datatype TxnOperation =
    | RangeOperation(Key: string, End: string, Limit: int64)
    | PutOperation(Key: string, Value: string, LeaseId: int64)
    | DeleteOperation(Key: string)

  /** A request as a closed tagged union. The validator only inspects the
      variant, the revision of a Range and structural equality; every
      other field is there so that two different requests stay different. */
  datatype EtcdRequest =
    | Range(Key: string, End: string, Limit: int64, Revision: int64)
    | Txn(Conditions: seq<Comparison>, OnSuccess: seq<TxnOperation>, OnFailure: seq<TxnOperation>)
    | LeaseGrant(LeaseId: int64)
    | LeaseRevoke(LeaseId: int64)
    | Defragment
    | Compact(CompactRevision: int64)

  /** A response as the client saw it: an error string ("" when the call
      succeeded) and the revision the store reported. */
  datatype MaybeEtcdResponse = MaybeEtcdResponse(Error: string, Revision: int64)

  /** A porcupine operation: one call issued by one client. */
  datatype Operation = Operation(
    ClientId: int,
    Input: EtcdRequest,
    Call: int64,
    Output: MaybeEtcdResponse,
    Return: int64)

  /** The key-value history of one simulated client, in call order. */
  datatype ClientReport = ClientReport(ClientId: int, KeyValue: seq<Operation>)

  /** Every error the validation pipeline can report. */
  datatype ValidationError =
    | NonEmptyDatabaseAtStart
    | RequestNotSentByClient(Request: EtcdRequest)
    | FirstWriteNotPersisted(Request: EtcdRequest)
    | LastWriteNotPersisted(Request: EtcdRequest)
    | ConcurrentRequest(ClientId: int)
    | EndsBeforeStarts(Op: Operation)
    | FailedLinearization
    | FailedWatch(Cause: string)
    | FailedSerializable(Cause: string)

  /** The operations of all reports in the order the validator scans them:
      report by report, and within a report in KeyValue order. */
  function AllOps(reports: seq<ClientReport>): (ops: seq<Operation>)
  {
    if reports == [] then []
    else AllOps(reports[..|reports| - 1]) + reports[|reports| - 1].KeyValue
  }

  lemma AllOpsStep(reports: seq<ClientReport>, i: nat)
    requires i < |reports|
    ensures AllOps(reports[..i + 1]) == AllOps(reports[..i]) + reports[i].KeyValue
  {
    assert reports[..i + 1][..i] == reports[..i];
  }

  /** Scanning the concatenation of two report lists scans one after the other. */
  lemma {:induction false} AllOpsConcat(a: seq<ClientReport>, b: seq<ClientReport>)
    ensures AllOps(a + b) == AllOps(a) + AllOps(b)
    decreases |b|
  {
    if b == [] {
      assert a + b == a;
    } else {
      var b' := b[..|b| - 1];
      assert (a + b)[..|a + b| - 1] == a + b';
      AllOpsConcat(a, b');
    }
  }

  /** An operation is scanned exactly when some report holds it. */
  lemma {:induction false} AllOpsMembership(reports: seq<ClientReport>, op: Operation)
    ensures op in AllOps(reports) <==> exists r :: r in reports && op in r.KeyValue
    decreases |reports|
  {
    if reports != [] {
      var init := reports[..|reports| - 1];
      var last := reports[|reports| - 1];
      AllOpsMembership(init, op);
      assert reports == init + [last];
      if op in AllOps(reports) && op !in last.KeyValue {
        var r :| r in init && op in r.KeyValue;
        assert r in reports;
      }
      if exists r :: r in reports && op in r.KeyValue {
        var r :| r in reports && op in r.KeyValue;
        if r != last {
          assert r in init;
        }
      }
    }
  }

  lemma SplitAfter<T>(a: seq<T>, b: seq<T>, n: nat)
    requires n <= |b|
    ensures a + b == (a + b[..n]) + b[n..]
  {
    assert b == b[..n] + b[n..];
  }

  /** The scan of all reports is the scan of the first i, then of the rest. */
  lemma AllOpsPrefix(reports: seq<ClientReport>, i: nat)
    requires i <= |reports|
    ensures AllOps(reports) == AllOps(reports[..i]) + AllOps(reports[i..])
  {
    assert reports == reports[..i] + reports[i..];
    AllOpsConcat(reports[..i], reports[i..]);
  }
}
