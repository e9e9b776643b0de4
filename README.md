# etcd robustness validation: a Dafny model

This project models the validation stage of etcd's robustness test suite,
`tests/robustness/validate/validate.go`. After a test run, each simulated
client hands in a report: a history of key-value operations. Each operation
records the client id, the request, the call time, the response (an error
string and a revision) and the return time. The database may also supply
ground truth: the list of requests it persisted. The validator works in
three steps:

1. It checks its own assumptions:
   - the store started empty;
   - the persisted requests agree with what the clients sent;
   - every client's operations are well-formed intervals that do not
     overlap.
2. It splits the history into:
   - the operations handed to the linearizability checker, porcupine. Failed
     reads are dropped. A failed operation that was not a read is given
     return time `math.MaxInt64`.
   - the stale reads: Range requests pinned to a non-zero revision.
3. It runs porcupine. If there is ground truth, it also runs the watch check
   and the stale-read check against a replay of the persisted requests.

The model has four modules:

- `Model` (model.dfy) holds the records:
  - the request types, closed as one tagged union, and the response;
  - porcupine operations and client reports;
  - the error kinds the validator reports;
  - `AllOps`, the order in which every loop of the validator visits
    operations: report by report, and within a report in history order.
- `Categorize` (categorize.dfy) models `prepareAndCategorizeOperations`:
  - two specification functions, `Linearizable` and `Serializable`, over the
    scanned operations;
  - the imperative double loop, proved to build exactly those two lists.
- `Assumptions` (assumptions.dfy) models `checkValidationAssumptions` and
  its three checks. Each check is an imperative method with loop invariants,
  proved equal to a specification function. Lemmas characterize each
  specification function declaratively.
- `Validate` (validate.dfy) models `ValidateAndReturnVisualize` as a
  function over those specifications.

A few things are represented differently from the Go code:

- The code this stage calls but that is not part of this model is passed in
  as function-valued fields of one `Collaborators` value:
  - `IsRead` on requests;
  - `patchLinearizableOperations`;
  - the porcupine check with its timeout;
  - `model.NewReplay`;
  - `validateWatch`;
  - `validateSerializableOperations`.
- A nil `persistedRequests` slice is `None`; a non-nil one, even an empty
  one, is `Some`.
- Times and revisions are the `int64` newtype.
- `math.MaxInt64` is the constant `MaxInt64`.
- Go's zero-valued `firstOp`/`lastOp` is `None`.
- Where Go nests a loop over a report inside a loop over reports, the inner
  loop is a helper method over one report that continues from the outer
  loop's state. The helpers are `CategorizeReport`, `AddClientRequests`,
  `SelectInReport` and `CheckReportNonConcurrent`. The order of visits is
  unchanged.

Three behaviours of the code worth noting:

- A successful Range on a non-zero revision goes into both lists, the
  linearizable one and the serializable one. It is not withheld from
  linearization (`SuccessfulStaleReadInBoth`).
- A persisted request only has to equal some request a client issued. That
  request may be a read or a failed operation. It does not have to be a
  successful write.
- A failed operation's return time is `math.MaxInt64`. It is not an
  unbounded value.

## Model

| member | source | states |
|---|---|---|
| Model.AllOpsMembership | tests/robustness/validate/validate.go:69-70 | an operation is visited by the report-by-report scan iff some report holds it |
| Model.AllOpsConcat | tests/robustness/validate/validate.go:69-70 | scanning two lists of reports in sequence scans their operations in sequence |
| Categorize.PrepareAndCategorizeOperations | tests/robustness/validate/validate.go:68-89 | the two returned lists are exactly the linearizable and serializable categorizations of all scanned operations, in scan order |
| Categorize.CategorizeReport | tests/robustness/validate/validate.go:70-86 | categorizing one report appends that report's categorization to each list built so far |
| Categorize.LinearizableConcat | tests/robustness/validate/validate.go:68-88 | the linearizable list of a concatenated history is the concatenation of the lists of its parts, so scan order is kept |
| Categorize.SerializableConcat | tests/robustness/validate/validate.go:68-88 | the serializable list of a concatenated history is the concatenation of the lists of its parts |
| Categorize.SerializableMembership | tests/robustness/validate/validate.go:73-76 | an operation is in the serializable list iff it was scanned and is a Range on a non-zero revision, whether or not it failed; it is copied unchanged |
| Categorize.LinearizableMembership | tests/robustness/validate/validate.go:77-85 | an entry is in the linearizable list iff it is the porcupine copy of a scanned operation that succeeded or is not a read |
| Categorize.LinearizableRewritesOnlyReturn | tests/robustness/validate/validate.go:78-84 | each linearizable entry is not a failed read; a failed entry returns at MaxInt64; the entry matches a scanned operation in client, call time, request and response, and in return time when it succeeded |
| Categorize.SuccessfulStaleReadInBoth | tests/robustness/validate/validate.go:73-85 | a successful Range on a non-zero revision lands unchanged in both lists |
| Categorize.FailedReadNeverLinearizable | tests/robustness/validate/validate.go:77-78 | no linearizable entry carries a failed read's request with a failed response |
| Assumptions.ValidateEmptyDatabaseAtStart | tests/robustness/validate/validate.go:110-121 | no error iff some report holds a non-read answered with revision 2; otherwise the error is the non-empty-database error |
| Assumptions.ValidatePersistedRequestMatchClientRequests | tests/robustness/validate/validate.go:123-189 | on every input where the source does not panic (a successful write exists, or an unsent persisted request is found first), the method's result equals the specification `PersistedMatchClientRequests` of all scanned operations |
| Assumptions.BuildPersistedRequestSet | tests/robustness/validate/validate.go:124-131 | the set holds exactly the persisted requests |
| Assumptions.BuildClientRequests | tests/robustness/validate/validate.go:132-142 | the map's keys are exactly the requests of all scanned operations |
| Assumptions.AddClientRequests | tests/robustness/validate/validate.go:133-141 | adding one report's requests extends the keys to the requests of the operations scanned so far plus that report |
| Assumptions.SelectFirstAndLastWrite | tests/robustness/validate/validate.go:156-171 | firstOp and lastOp are the running earliest and latest successful write of all scanned operations |
| Assumptions.SelectInReport | tests/robustness/validate/validate.go:157-170 | selecting over one report continues the running earliest/latest write selection from the state left by earlier reports |
| Assumptions.SentRequestsMembership | tests/robustness/validate/validate.go:132-142 | a request is a key of clientRequests iff some scanned operation issued it |
| Assumptions.FirstUnsentPersistedSpec | tests/robustness/validate/validate.go:144-154 | no request is reported iff every persisted non-LeaseGrant request was sent; a reported one is persisted, not a LeaseGrant and not sent |
| Assumptions.WriteSelectionDefined | tests/robustness/validate/validate.go:156-172 | firstOp and lastOp are set iff there is a successful write, and each is a scanned successful write |
| Assumptions.EarliestWriteIsFirstMinimum | tests/robustness/validate/validate.go:164-166 | firstOp has the smallest call time among successful writes and is the first scanned of those tied for it (no write has Call 0) |
| Assumptions.LatestWriteIsFirstMaximum | tests/robustness/validate/validate.go:167-169 | lastOp has the largest call time among successful writes and is the first scanned of those tied for it (no write has Call 0) |
| Assumptions.PersistedMatchCharacterization | tests/robustness/validate/validate.go:123-189 | the persisted check passes iff there is a successful write, every persisted non-LeaseGrant request was sent and both the earliest and latest successful write were persisted; a request named as unsent was persisted, is no LeaseGrant and no client sent it; without a successful write the only error is an unsent request |
| Assumptions.FirstConcurrencyViolation | tests/robustness/validate/validate.go:196-201 | the error the scan reports is a concurrent-request or an ends-before-starts error |
| Assumptions.ValidateNonConcurrentClientRequests | tests/robustness/validate/validate.go:191-206 | the method's result equals the first violation of the scan over all reports, as given by `FirstConcurrencyViolation` |
| Assumptions.CheckReportNonConcurrent | tests/robustness/validate/validate.go:194-203 | checking one report yields the first violation of the history scanned so far plus that report; if there is none, the map holds every client's last return time |
| Assumptions.TracksLastReturnStep | tests/robustness/validate/validate.go:202 | recording an operation's return time under its client keeps lastClientRequestReturn equal to each client's last return time |
| Assumptions.ViolationPersists | tests/robustness/validate/validate.go:196-201 | once a violation is found, scanning more operations does not change the reported error |
| Assumptions.NonConcurrencyCharacterization | tests/robustness/validate/validate.go:191-206 | the check passes iff every operation starts after its client's previous operation returned and returns after it starts |
| Assumptions.FirstViolationReported | tests/robustness/validate/validate.go:196-201 | a reported error is the violation of the first ill-formed operation: concurrent-request naming its client, else ends-before-starts naming it |
| Assumptions.PerClientSequential | tests/robustness/validate/validate.go:191-206 | on a history that passes, any two operations of one client are disjoint intervals in scan order |
| Assumptions.CheckValidationAssumptions | tests/robustness/validate/validate.go:91-108 | no error iff the store started empty, (with ground truth) the persisted match holds, and no client overlaps; the empty-database error is returned iff that check fails; a persisted-match error arises only with ground truth, after the empty-database check passed, and is that check's error; once the store started empty, a failing persisted check returns its own error, and once that also passes the result is the non-concurrency check's first violation or none; a concurrency error arises only after all earlier checks passed, the persisted match included, and is the first violation of the scan |
| Validate.ValidateAndReturnVisualize | tests/robustness/validate/validate.go:30-62 | a failed assumption is returned alone; otherwise the linearization result is attached, the error is FailedLinearization iff porcupine's verdict is not Ok; after an Ok verdict with ground truth, a watch failure yields FailedWatch carrying the watch's own error, and a serializable failure after a passing watch yields FailedSerializable carrying its own error; and there is no error iff porcupine says Ok and, with ground truth, watch and then serializable validation pass; success implies the store started empty, no client overlaps and, with ground truth, the persisted match (including both boundary writes) holds; watch/serializable errors occur only with ground truth after linearization succeeded |
| Validate.AssumptionFailureRunsNothingElse | tests/robustness/validate/validate.go:31-34 | on a failed assumption no collaborator other than the read classifier affects the result, and no linearization is attached |
| Validate.NoGroundTruthSkipsReplay | tests/robustness/validate/validate.go:39-59 | without ground truth, patching, replay, watch and serializable validation do not affect the result, and neither of their errors is reported |

## Left out

- The porcupine linearizability search is an uninterpreted collaborator, and so is the visualization. So are `patchLinearizableOperations`, `model.NewReplay`, `validateWatch` and `validateSerializableOperations`. Their source is not part of this model.
- The requests' `IsRead` classification is a parameter, because `model.EtcdRequest.IsRead` is not part of this model.
- JSON marshalling of requests is replaced by structural equality of request values. The marshal error paths at lines 126-129, 136-139, 172-175 and 180-183 are not modelled. Marshalling these plain structs does not fail.
- At line 144, Go visits `persistedRequestSet` in map order, which is unspecified. The model scans the persisted requests in slice order. The verdict does not depend on the order. Which unsent request an error names can differ. `PersistedMatchCharacterization` states what holds for any named request.
- At line 172, the source dereferences `firstOp.Input`. It gets there only when the loop at lines 144-154 found no unsent persisted request. If there was also no successful write, `firstOp` is the zero `Operation`, its `Input` is nil, and the type assertion panics. The model requires exactly that this cannot happen: a successful write exists, or an unsent persisted request is reported first (`PersistedMatchCanRun` on the persisted check, and `AssumptionsCanRun` on `CheckValidationAssumptions` and `ValidateAndReturnVisualize`).
- EarliestWriteIsFirstMinimum: stated only for histories where no successful write has call time 0. The source treats `Call == 0` as "unset" (lines 164 and 167), and `EarliestWrite` keeps that behaviour literally.
- LatestWriteIsFirstMaximum: stated only for histories where no successful write has call time 0, for the same reason.
- BuildClientRequests: states only the keys of `clientRequests`. The source never reads the stored operations.
- Error messages, their `%w` wrapping and the zap logger are reduced to the `ValidationError` variants and their payloads.
- The timeout is an integer passed through to the porcupine collaborator. The `time.Duration` behaviour is not modelled.
- The watch events in each client report are not modelled. Only `validateWatch` reads them, and it is a collaborator.
- The fields of `model.EtcdRequest` are a simplified tagged union. The validator reads only the type, a Range's revision and equality of whole requests.
- `Config` is only passed through to the watch validator.
- Go slices are modelled as values. The categorizer's `op.Return` rewrite changes a loop-local copy, so the caller's reports are unchanged, and value semantics capture that.
