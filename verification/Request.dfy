/** Policies, architecture selection, and the build request sealed over an admitted resolution. */
module Request {
  import opened Bytes
  import opened IdentityWriters
  import opened Records
  import opened Identities
  import opened Resolution
  import opened Admission

  // ---------------------------------------------------------------- policies

  datatype EnvironmentPolicy = EnvironmentPolicy(
    parallelism: Uint32, fileCreationMask: Uint32, sourceDateEpoch: Option<Int64>, identity: Text)

  datatype BuildPolicy = BuildPolicy(environment: EnvironmentPolicy, identity: Text)

  /** The values a hermetic environment may have; 0x1FF is octal 0777. */
  predicate Hermetic(parallelism: Uint32, fileCreationMask: Uint32, sourceDateEpoch: Option<Int64>) {
    && parallelism > 0 && fileCreationMask <= 0x1FF
    && (sourceDateEpoch.Some? ==> sourceDateEpoch.value >= 0)
  }

  function EnvironmentRecordOf(e: EnvironmentPolicy): Record {
    EnvironmentRecord(e.parallelism, e.fileCreationMask, e.sourceDateEpoch)
  }

  ghost predicate BoundEnvironment(sha256: Hash, e: EnvironmentPolicy) {
    && Hermetic(e.parallelism, e.fileCreationMask, e.sourceDateEpoch)
    && e.identity == Identify(sha256, EnvironmentRecordOf(e))
  }

  ghost predicate BoundPolicy(sha256: Hash, policy: BuildPolicy) {
    && BoundEnvironment(sha256, policy.environment)
    && policy.identity == Identify(sha256, PolicyRecord(policy.environment.identity))
  }

  /** environment_policy::hermetic: refuses exactly what is not hermetic, and keeps every value it is given. */
  method MakeEnvironment(sha256: Hash, parallelism: Uint32, fileCreationMask: Uint32, sourceDateEpoch: Option<Int64>)
    returns (r: Result<EnvironmentPolicy>)
    ensures r == if parallelism > 0 && fileCreationMask <= 511 && (sourceDateEpoch.Some? ==> sourceDateEpoch.value >= 0)
                 then Success(EnvironmentPolicy(
                        parallelism, fileCreationMask, sourceDateEpoch,
                        Identify(sha256, EnvironmentRecord(parallelism, fileCreationMask, sourceDateEpoch))))
                 else Failure(InvalidModel)
    ensures r.Success? ==> BoundEnvironment(sha256, r.value)
  {
    if parallelism == 0 || fileCreationMask > 0x1FF || (sourceDateEpoch.Some? && sourceDateEpoch.value < 0) {
      return Failure(InvalidModel);
    }
    var id := EnvironmentId(sha256, parallelism, fileCreationMask, sourceDateEpoch);
    return Success(EnvironmentPolicy(parallelism, fileCreationMask, sourceDateEpoch, id));
  }

  method MakePolicy(sha256: Hash, environment: EnvironmentPolicy) returns (policy: BuildPolicy)
    ensures policy.environment == environment
    ensures policy.identity == Identify(sha256, PolicyRecord(environment.identity))
    ensures BoundEnvironment(sha256, environment) <==> BoundPolicy(sha256, policy)
  {
    var id := PolicyId(sha256, environment.identity);
    return BuildPolicy(environment, id);
  }

  // ---------------------------------------------------------------- architectures

  /** An empty declaration is no restriction, not an empty allow-list. */
  predicate Allows(declared: seq<Text>, selected: Text) {
    declared == [] || selected in declared
  }

  predicate ArchitecturesAllowed(recipe: Recipe, chosen: Architectures) {
    Allows(recipe.buildArchitectures, chosen.build) && Allows(recipe.targetArchitectures, chosen.target)
  }

  function SelectArchitectures(recipe: Recipe, build: Text, target: Text): (r: Result<Architectures>) {
    if !Allows(recipe.buildArchitectures, build) then Failure(InvalidRequest)
    else if !Allows(recipe.targetArchitectures, target) then Failure(InvalidRequest)
    else Success(Architectures(build, target))
  }

  // ---------------------------------------------------------------- requests

  datatype BuildRequest = BuildRequest(
    subject: SelectedPackage, source: Source, inputs: BuildInputSet, architectures: Architectures,
    policy: BuildPolicy, identity: Text)

  function InputRecordOf(input: BuildInput): Record {
    InputRecord(input.scope, input.requirement.identity, input.selection.identity)
  }

  function InputSetRecordOf(s: BuildInputSet): Record {
    InputSetRecord(s.resolution, s.subject.identity, Ids(s.inputs))
  }

  function RequestRecordOf(r: BuildRequest): Record {
    RequestRecord(r.source.identity, r.inputs.identity, r.architectures.build, r.architectures.target,
                  r.policy.identity)
  }

  /** What a resolution must be for a request to be sealed over it. */
  ghost predicate Requestable(res: ResolutionResult, subject: Text) {
    && Admissible(res, subject)
    && ArchitecturesAllowed(SourceOf(res, subject).recipe,
                            Architectures(res.buildArchitecture,
                                          res.selectedTarget(Selected(res.selections, subject).value.environment)))
  }

  /** The request sealed over a resolution: the chosen architectures are those of the resolution request. */
  ghost predicate SealedOver(sha256: Hash, res: ResolutionResult, subject: Text, policy: BuildPolicy, r: BuildRequest) {
    && IsAdmission(sha256, res, subject, r.inputs)
    && Some(r.subject) == Selected(res.selections, subject)
    && r.source == SourceOf(res, subject)
    && r.architectures == Architectures(res.buildArchitecture, res.selectedTarget(r.subject.environment))
    && ArchitecturesAllowed(r.source.recipe, r.architectures)
    && r.policy == policy
    && r.identity == Identify(sha256, RequestRecordOf(r))
  }

  /** Succeeds exactly on admissible resolutions whose architectures the source allows. */
  method SealRequest(sha256: Hash, before: (Requirement, Requirement) -> bool, res: ResolutionResult, subject: Text,
                     policy: BuildPolicy)
    returns (r: Result<BuildRequest>)
    ensures r.Success? <==> Requestable(res, subject)
    ensures r.Success? ==> SealedOver(sha256, res, subject, policy, r.value)
    ensures r.Failure? ==> r.error == InvalidRequest
  {
    var admitted := Admit(sha256, before, res, subject);
    if admitted.Failure? {
      return Failure(InvalidRequest);
    }
    var inputs := admitted.value;
    var chosen := inputs.subject;
    assert chosen.candidate.Some?;
    var source := chosen.candidate.value.source;
    var selected := SelectArchitectures(source.recipe, chosen.architectures.build, chosen.architectures.target);
    if selected.Failure? {
      return Failure(InvalidRequest);
    }
    var architectures := selected.value;
    var id := RequestId(sha256, source.identity, inputs.identity, architectures.build, architectures.target,
                        policy.identity);
    return Success(BuildRequest(chosen, source, inputs, architectures, policy, id));
  }
}
