/** The validation entry point: assumptions, categorization, patching,
    linearization, and the replay-based watch and serializable checks. */
module Validate {
  import opened Model
  import opened Categorize
  import opened Assumptions

  /** porcupine's verdict. Anything but Ok is a failure. */
  datatype CheckResult = Ok | Unknown | Illegal

  /** What the linearizability checker hands back: its verdict and an
      opaque visualization. */
  datatype LinearizationResult = LinearizationResult(Linearizable: CheckResult, Visualization: string)

  datatype Config = Config(ExpectRevisionUnique: bool)

  /** The validator's outcome. Linearization is None when the checker never
      ran (Go leaves the field at its zero value). */
  datatype Result = Result(Error: Option<ValidationError>, Linearization: Option<LinearizationResult>)

  /** The code this stage calls but whose source is not part of the model:
      request classification, patching of failed writes, the porcupine
      check (with its timeout), replay construction, and the watch and
      serializable validators, which report an error message or nothing. */
  datatype Collaborators<!Replay> = Collaborators(
    IsRead: EtcdRequest -> bool,
    PatchLinearizableOperations: (seq<Operation>, seq<ClientReport>, seq<EtcdRequest>) -> seq<Operation>,
    ValidateLinearizableOperations: (seq<Operation>, int) -> LinearizationResult,
    NewReplay: seq<EtcdRequest> -> Replay,
    ValidateWatch: (Config, seq<ClientReport>, Replay) -> Option<string>,
    ValidateSerializableOperations: (seq<Operation>, Replay) -> Option<string>)

  /** The operations handed to porcupine: the linearizable list, patched
      against the ground truth only when there is one. */
  function LinearizationInput<Replay>(
    env: Collaborators<Replay>, reports: seq<ClientReport>, persisted: Option<seq<EtcdRequest>>)
    : (ops: seq<Operation>)
  {
    var linearizable := Linearizable(AllOps(reports), env.IsRead);
    if persisted.Some? then env.PatchLinearizableOperations(linearizable, reports, persisted.value)
    else linearizable
  }

  /** The pipeline. A failed assumption is returned alone. Otherwise the
      linearization result is always attached, and the error is set iff the
      verdict is not Ok or, with ground truth, the watch or then the
      serializable validation fails. */
  function ValidateAndReturnVisualize<Replay>(
    env: Collaborators<Replay>, cfg: Config, reports: seq<ClientReport>,
    persisted: Option<seq<EtcdRequest>>, timeout: int)
    : (res: Result)
    requires AssumptionsCanRun(reports, persisted, env.IsRead)
    ensures CheckValidationAssumptions(reports, persisted, env.IsRead).Some? ==>
              res == Result(CheckValidationAssumptions(reports, persisted, env.IsRead), None)
    ensures CheckValidationAssumptions(reports, persisted, env.IsRead).None? ==>
              var linearization := env.ValidateLinearizableOperations(LinearizationInput(env, reports, persisted), timeout);
              && res.Linearization == Some(linearization)
              && (res.Error == Some(FailedLinearization) <==> linearization.Linearizable != Ok)
              && (res.Error.None? <==>
                    && linearization.Linearizable == Ok
                    && (persisted.Some? ==>
                          var replay := env.NewReplay(persisted.value);
                          && env.ValidateWatch(cfg, reports, replay).None?
                          && env.ValidateSerializableOperations(Serializable(AllOps(reports)), replay).None?))
    ensures res.Error.None? ==>
              && StartsFromEmptyDatabase(reports, env.IsRead)
              && NonConcurrent(AllOps(reports))
              && (persisted.Some? ==> PersistedMatch(AllOps(reports), persisted.value, env.IsRead))
    ensures res.Error.Some? && (res.Error.value.FailedWatch? || res.Error.value.FailedSerializable?) ==>
              && persisted.Some?
              && res.Linearization.Some? && res.Linearization.value.Linearizable == Ok
    ensures CheckValidationAssumptions(reports, persisted, env.IsRead).None?
            && env.ValidateLinearizableOperations(LinearizationInput(env, reports, persisted), timeout).Linearizable == Ok
            && persisted.Some? ==>
              var replay := env.NewReplay(persisted.value);
              var watch := env.ValidateWatch(cfg, reports, replay);
              var stale := env.ValidateSerializableOperations(Serializable(AllOps(reports)), replay);
              && (watch.Some? ==> res.Error == Some(FailedWatch(watch.value)))
              && (watch.None? && stale.Some? ==> res.Error == Some(FailedSerializable(stale.value)))
    ensures res.Error.Some? && res.Error.value.FailedSerializable? ==>
              env.ValidateWatch(cfg, reports, env.NewReplay(persisted.value)).None?
  {
    var assumptions := CheckValidationAssumptions(reports, persisted, env.IsRead);
    if assumptions.Some? then Result(assumptions, None)
    else
      var serializable := Serializable(AllOps(reports));
      var linearization := env.ValidateLinearizableOperations(LinearizationInput(env, reports, persisted), timeout);
      if linearization.Linearizable != Ok then Result(Some(FailedLinearization), Some(linearization))
      else if persisted.Some? then
        var replay := env.NewReplay(persisted.value);
        var watch := env.ValidateWatch(cfg, reports, replay);
        if watch.Some? then Result(Some(FailedWatch(watch.value)), Some(linearization))
        else
          var stale := env.ValidateSerializableOperations(serializable, replay);
          if stale.Some? then Result(Some(FailedSerializable(stale.value)), Some(linearization))
          else Result(None, Some(linearization))
      else Result(None, Some(linearization))
  }

  /** A failed assumption stops the pipeline: no collaborator other than
      the request classifier influences the result. */
  lemma AssumptionFailureRunsNothingElse<Replay>(
    env: Collaborators<Replay>, env': Collaborators<Replay>, cfg: Config, reports: seq<ClientReport>,
    persisted: Option<seq<EtcdRequest>>, timeout: int)
    requires env.IsRead == env'.IsRead
    requires AssumptionsCanRun(reports, persisted, env.IsRead)
    requires CheckValidationAssumptions(reports, persisted, env.IsRead).Some?
    ensures ValidateAndReturnVisualize(env, cfg, reports, persisted, timeout)
         == ValidateAndReturnVisualize(env', cfg, reports, persisted, timeout)
    ensures ValidateAndReturnVisualize(env, cfg, reports, persisted, timeout).Linearization.None?
  {
  }

  /** Without ground truth, patching, replay, watch and serializable
      validation never run: changing them changes nothing, and neither of
      their error kinds can be reported. */
  lemma NoGroundTruthSkipsReplay<Replay>(
    env: Collaborators<Replay>, env': Collaborators<Replay>, cfg: Config, reports: seq<ClientReport>, timeout: int)
    requires env.IsRead == env'.IsRead
    requires env.ValidateLinearizableOperations == env'.ValidateLinearizableOperations
    ensures AssumptionsCanRun(reports, None, env.IsRead)
    ensures ValidateAndReturnVisualize(env, cfg, reports, None, timeout)
         == ValidateAndReturnVisualize(env', cfg, reports, None, timeout)
    ensures var res := ValidateAndReturnVisualize(env, cfg, reports, None, timeout);
            res.Error.Some? ==> !res.Error.value.FailedWatch? && !res.Error.value.FailedSerializable?
  {
  }
}
