/** Sealed artifacts and build results, and what a result's identity binds. */
module BuildResults {
  import opened Bytes
  import opened IdentityWriters
  import opened Payload
  import opened Records
  import RecordDecoder
  import opened Identities
  import opened Resolution
  import opened Request
  import opened RequestTheorems

  datatype SealedArtifact = SealedArtifact(compression: Compression, byteCount: Uint64, digest: Text, identity: Text)

  /** A success carries payload, artifact and binding; a failure carries its evidence and none of them. */
  datatype BuildResult =
    | Succeeded(request: BuildRequest, execution: Text, payload: PayloadManifest, artifact: SealedArtifact,
                binding: Text, identity: Text)
    | Failed(request: BuildRequest, execution: Text, failure: Text, identity: Text)

  function ArtifactRecordOf(a: SealedArtifact): Record {
    ArtifactRecord(a.compression, a.byteCount, a.digest)
  }

  function BindingRecordOf(request: BuildRequest, payload: PayloadManifest, artifact: SealedArtifact): Record {
    BindingRecord(request.identity, payload.identity, artifact.identity, artifact.digest)
  }

  /** The record of a result itself. */
  function ResultRecordOf(r: BuildResult): Record {
    match r
    case Succeeded(request, execution, payload, artifact, binding, _) =>
      SuccessRecord(request.identity, payload.identity, artifact.identity, binding, execution)
    case Failed(request, execution, failure, _) =>
      FailureRecord(request.identity, execution, failure)
  }

  ghost predicate BoundManifest(sha256: Hash, m: PayloadManifest) {
    Sealable(m.entries) && m.identity == Identify(sha256, ManifestRecord(m.entries))
  }

  ghost predicate BoundArtifact(sha256: Hash, a: SealedArtifact) {
    a.identity == Identify(sha256, ArtifactRecordOf(a))
  }

  /** Every identity inside a result is that of the record under it. */
  ghost predicate BoundResult(sha256: Hash, r: BuildResult) {
    && BoundRequest(sha256, r.request)
    && r.identity == Identify(sha256, ResultRecordOf(r))
    && (r.Succeeded? ==>
          BoundManifest(sha256, r.payload) && BoundArtifact(sha256, r.artifact) &&
          r.binding == Identify(sha256, BindingRecordOf(r.request, r.payload, r.artifact)))
  }

  method MakeArtifact(sha256: Hash, compression: Compression, byteCount: Uint64, digest: Text)
    returns (a: SealedArtifact)
    ensures BoundArtifact(sha256, a)
    ensures a.compression == compression && a.byteCount == byteCount && a.digest == digest
    ensures a.identity == Identify(sha256, ArtifactRecord(compression, byteCount, digest))
  {
    var id := ArtifactId(sha256, compression, byteCount, digest);
    return SealedArtifact(compression, byteCount, digest, id);
  }

  /** A success over bound parts is bound: its binding and its identity are those of the records of its parts. */
  method Succeed(sha256: Hash, request: BuildRequest, payload: PayloadManifest, artifact: SealedArtifact,
                 execution: Text)
    returns (r: BuildResult)
    ensures r.Succeeded? && r.request == request && r.payload == payload && r.artifact == artifact
    ensures r.execution == execution
    ensures r.binding == Identify(sha256, BindingRecord(request.identity, payload.identity, artifact.identity,
                                                        artifact.digest))
    ensures r.identity == Identify(sha256, SuccessRecord(request.identity, payload.identity, artifact.identity,
                                                         r.binding, execution))
    ensures BoundRequest(sha256, request) && BoundManifest(sha256, payload) && BoundArtifact(sha256, artifact) <==>
            BoundResult(sha256, r)
  {
    var binding := BindingId(sha256, request.identity, payload.identity, artifact.identity, artifact.digest);
    var id := SuccessId(sha256, request.identity, payload.identity, artifact.identity, binding, execution);
    return Succeeded(request, execution, payload, artifact, binding, id);
  }

  method Fail(sha256: Hash, request: BuildRequest, execution: Text, failure: Text) returns (r: BuildResult)
    ensures r.Failed? && r.request == request && r.execution == execution && r.failure == failure
    ensures r.identity == Identify(sha256, FailureRecord(request.identity, execution, failure))
    ensures BoundRequest(sha256, request) <==> BoundResult(sha256, r)
  {
    var id := FailureId(sha256, request.identity, execution, failure);
    return Failed(request, execution, failure, id);
  }

  // ---------------------------------------------------------------- what a result's identity binds

  /** Everything a result says, down to the leaves. */
  datatype ResultFacts =
    | SuccessFacts(request: RequestFacts, execution: Text, entries: seq<PayloadEntry>, compression: Compression,
                   byteCount: Uint64, digest: Text)
    | FailureFacts(request: RequestFacts, execution: Text, failure: Text)

  function ResultFactsOf(r: BuildResult): ResultFacts {
    match r
    case Succeeded(request, execution, payload, artifact, _, _) =>
      SuccessFacts(RequestFactsOf(request), execution, payload.entries, artifact.compression, artifact.byteCount,
                   artifact.digest)
    case Failed(request, execution, failure, _) =>
      FailureFacts(RequestFactsOf(request), execution, failure)
  }

  /** The records hashed into a result above its request. */
  function OwnRecords(r: BuildResult): seq<Record> {
    match r
    case Succeeded(request, _, payload, artifact, _, _) =>
      [ResultRecordOf(r), BindingRecordOf(request, payload, artifact), ManifestRecord(payload.entries),
       ArtifactRecordOf(artifact)]
    case Failed(_, _, _, _) => [ResultRecordOf(r)]
  }

  /** The records hashed into a result, in a fixed order for each outcome. */
  function ResultRecords(r: BuildResult): seq<Record> {
    OwnRecords(r) + RequestRecords(r.request)
  }

  /** The records of one list stand in another from an offset on. */
  predicate StandsIn(part: seq<Record>, whole: seq<Record>, offset: nat) {
    |whole| >= offset + |part| && forall k :: 0 <= k < |part| ==> whole[offset + k] == part[k]
  }

  lemma PartsStand(r: BuildResult)
    ensures StandsIn(OwnRecords(r), ResultRecords(r), 0)
    ensures StandsIn(RequestRecords(r.request), ResultRecords(r), |OwnRecords(r)|)
  {
  }

  /** A collision of parts that stand at one offset is a collision of the wholes. */
  lemma CollisionOfPart(sha256: Hash, a: seq<Record>, b: seq<Record>, p: seq<Record>, q: seq<Record>, offset: nat)
    requires StandsIn(p, a, offset) && StandsIn(q, b, offset) && !Collision(sha256, a, b)
    ensures !Collision(sha256, p, q)
  {
    forall k
      ensures !CollideAt(sha256, p, q, k)
    {
      assert !CollideAt(sha256, a, b, offset + k);
    }
  }

  /** Without a collision of results of one outcome, there is none of their own records or of their requests'. */
  lemma CollisionOfParts(sha256: Hash, a: BuildResult, b: BuildResult)
    requires (a.Succeeded? <==> b.Succeeded?) && !Collision(sha256, ResultRecords(a), ResultRecords(b))
    ensures !Collision(sha256, OwnRecords(a), OwnRecords(b))
    ensures !Collision(sha256, RequestRecords(a.request), RequestRecords(b.request))
  {
    PartsStand(a);
    PartsStand(b);
    var p, q := ResultRecords(a), ResultRecords(b);
    CollisionOfPart(sha256, p, q, OwnRecords(a), OwnRecords(b), 0);
    CollisionOfPart(sha256, p, q, RequestRecords(a.request), RequestRecords(b.request), |OwnRecords(a)|);
  }

  /** One manifest identity means one list of entries, or a collision. */
  lemma ManifestIdentityBinds(sha256: Hash, a: PayloadManifest, b: PayloadManifest)
    requires BoundManifest(sha256, a) && BoundManifest(sha256, b)
    ensures a.identity == b.identity <==>
            a == b || Collide(sha256, ManifestRecord(a.entries), ManifestRecord(b.entries))
  {
    SameIdentity(sha256, ManifestRecord(a.entries), ManifestRecord(b.entries));
  }

  /** One artifact identity means one artifact, or a collision. */
  lemma ArtifactIdentityBinds(sha256: Hash, a: SealedArtifact, b: SealedArtifact)
    requires BoundArtifact(sha256, a) && BoundArtifact(sha256, b)
    ensures a.identity == b.identity <==> a == b || Collide(sha256, ArtifactRecordOf(a), ArtifactRecordOf(b))
  {
    SameIdentity(sha256, ArtifactRecordOf(a), ArtifactRecordOf(b));
  }

  lemma OwnRecordsApart(sha256: Hash, a: BuildResult, b: BuildResult)
    requires a.Succeeded? && b.Succeeded? && !Collision(sha256, OwnRecords(a), OwnRecords(b))
    ensures !Collide(sha256, BindingRecordOf(a.request, a.payload, a.artifact),
                     BindingRecordOf(b.request, b.payload, b.artifact))
    ensures !Collide(sha256, ManifestRecord(a.payload.entries), ManifestRecord(b.payload.entries))
    ensures !Collide(sha256, ArtifactRecordOf(a.artifact), ArtifactRecordOf(b.artifact))
  {
    assert !CollideAt(sha256, OwnRecords(a), OwnRecords(b), 1);
    assert !CollideAt(sha256, OwnRecords(a), OwnRecords(b), 2);
    assert !CollideAt(sha256, OwnRecords(a), OwnRecords(b), 3);
  }

  lemma SuccessIdentityBinds(sha256: Hash, a: BuildResult, b: BuildResult)
    requires BoundResult(sha256, a) && BoundResult(sha256, b) && a.Succeeded? && b.Succeeded?
    requires a.identity == b.identity && !Collision(sha256, OwnRecords(a), OwnRecords(b))
    ensures a.request.identity == b.request.identity && a.execution == b.execution && a.binding == b.binding
    ensures a.payload == b.payload && a.artifact == b.artifact
  {
    SameRecordAt(sha256, OwnRecords(a), OwnRecords(b), 0);
    OwnRecordsApart(sha256, a, b);
    ManifestIdentityBinds(sha256, a.payload, b.payload);
    ArtifactIdentityBinds(sha256, a.artifact, b.artifact);
  }

  lemma FailureIdentityBinds(sha256: Hash, a: BuildResult, b: BuildResult)
    requires BoundResult(sha256, a) && BoundResult(sha256, b) && a.Failed? && b.Failed?
    requires a.identity == b.identity && !Collision(sha256, OwnRecords(a), OwnRecords(b))
    ensures a.request.identity == b.request.identity && a.execution == b.execution && a.failure == b.failure
  {
    SameRecordAt(sha256, OwnRecords(a), OwnRecords(b), 0);
  }

  /** A success and a failure never share a record, so sharing an identity is a collision. */
  lemma OutcomesStayApart(sha256: Hash, a: BuildResult, b: BuildResult)
    requires BoundResult(sha256, a) && BoundResult(sha256, b) && a.Succeeded? && b.Failed?
    ensures RecordBytes(ResultRecordOf(a)) != RecordBytes(ResultRecordOf(b))
    ensures a.identity == b.identity ==> Collide(sha256, ResultRecordOf(a), ResultRecordOf(b))
  {
    SameIdentity(sha256, ResultRecordOf(a), ResultRecordOf(b));
    RecordDecoder.RecordsAreInjective(ResultRecordOf(a), ResultRecordOf(b));
  }

  lemma SameOutcome(sha256: Hash, a: BuildResult, b: BuildResult)
    requires BoundResult(sha256, a) && BoundResult(sha256, b) && a.identity == b.identity
    requires !Collision(sha256, ResultRecords(a), ResultRecords(b))
    ensures a.Succeeded? <==> b.Succeeded?
  {
    SameRecordAt(sha256, ResultRecords(a), ResultRecords(b), 0);
    assert ResultRecords(a)[0] == ResultRecordOf(a) && ResultRecords(b)[0] == ResultRecordOf(b);
  }

  /** Results with one identity have one outcome and state the same facts, down to payload entries and resolver
      edges; or a record of one collides with its counterpart in the other. */
  lemma ResultIdentityBinds(sha256: Hash, a: BuildResult, b: BuildResult)
    requires BoundResult(sha256, a) && BoundResult(sha256, b) && a.identity == b.identity
    ensures ResultFactsOf(a) == ResultFactsOf(b) || Collision(sha256, ResultRecords(a), ResultRecords(b))
  {
    if !Collision(sha256, ResultRecords(a), ResultRecords(b)) {
      SameOutcome(sha256, a, b);
      CollisionOfParts(sha256, a, b);
      if a.Succeeded? {
        SuccessIdentityBinds(sha256, a, b);
      } else {
        FailureIdentityBinds(sha256, a, b);
      }
      RequestIdentityBinds(sha256, a.request, b.request);
    }
  }

  /** Results that state the same facts have one identity. */
  lemma SameFactsSameResult(sha256: Hash, a: BuildResult, b: BuildResult)
    requires BoundResult(sha256, a) && BoundResult(sha256, b) && ResultFactsOf(a) == ResultFactsOf(b)
    ensures a.identity == b.identity && ResultRecords(a) == ResultRecords(b)
  {
    SameFactsSameRequest(sha256, a.request, b.request);
  }

  lemma BindingBindsOwn(sha256: Hash, a: BuildResult, b: BuildResult)
    requires BoundResult(sha256, a) && BoundResult(sha256, b) && a.Succeeded? && b.Succeeded?
    requires a.binding == b.binding && !Collision(sha256, OwnRecords(a), OwnRecords(b))
    ensures a.request.identity == b.request.identity && a.payload == b.payload && a.artifact == b.artifact
  {
    OwnRecordsApart(sha256, a, b);
    SameIdentity(sha256, BindingRecordOf(a.request, a.payload, a.artifact),
                 BindingRecordOf(b.request, b.payload, b.artifact));
    ManifestIdentityBinds(sha256, a.payload, b.payload);
    ArtifactIdentityBinds(sha256, a.artifact, b.artifact);
  }

  /** The binding alone fixes request, payload and artifact. */
  lemma BindingBinds(sha256: Hash, a: BuildResult, b: BuildResult)
    requires BoundResult(sha256, a) && BoundResult(sha256, b) && a.Succeeded? && b.Succeeded?
    requires a.binding == b.binding
    ensures Collision(sha256, ResultRecords(a), ResultRecords(b)) ||
            (RequestFactsOf(a.request) == RequestFactsOf(b.request) && a.payload == b.payload &&
             a.artifact == b.artifact)
  {
    if !Collision(sha256, ResultRecords(a), ResultRecords(b)) {
      CollisionOfParts(sha256, a, b);
      BindingBindsOwn(sha256, a, b);
      RequestIdentityBinds(sha256, a.request, b.request);
    }
  }

  /** From a result identity back to the run that began it: the same resolution, subject and policy. */
  lemma ResultIdentityReachesResolution(
    sha256: Hash, resA: ResolutionResult, subjectA: Text, policyA: BuildPolicy, a: BuildResult,
    resB: ResolutionResult, subjectB: Text, policyB: BuildPolicy, b: BuildResult)
    requires BoundPolicy(sha256, policyA) && SealedOver(sha256, resA, subjectA, policyA, a.request)
    requires BoundPolicy(sha256, policyB) && SealedOver(sha256, resB, subjectB, policyB, b.request)
    requires BoundResult(sha256, a) && BoundResult(sha256, b) && a.identity == b.identity
    ensures Collision(sha256, ResultRecords(a), ResultRecords(b)) ||
            (resA.identity == resB.identity && subjectA == subjectB && policyA == policyB &&
             ResultFactsOf(a) == ResultFactsOf(b))
  {
    if !Collision(sha256, ResultRecords(a), ResultRecords(b)) {
      ResultIdentityBinds(sha256, a, b);
      SameFactsSameRequest(sha256, a.request, b.request);
      SameOutcome(sha256, a, b);
      CollisionOfParts(sha256, a, b);
      SealedIdentityBinds(sha256, resA, subjectA, policyA, a.request, resB, subjectB, policyB, b.request);
    }
  }

  // ---------------------------------------------------------------- in fields

  /** That two results state the same facts means that these fields agree. */
  lemma SameResultFactsInFields(a: BuildResult, b: BuildResult)
    ensures ResultFactsOf(a) == ResultFactsOf(b) <==>
            && RequestFactsOf(a.request) == RequestFactsOf(b.request)
            && a.execution == b.execution
            && (a.Succeeded? <==> b.Succeeded?)
            && (a.Succeeded? && b.Succeeded? ==>
                  a.payload.entries == b.payload.entries && a.artifact.compression == b.artifact.compression &&
                  a.artifact.byteCount == b.artifact.byteCount && a.artifact.digest == b.artifact.digest)
            && (a.Failed? && b.Failed? ==> a.failure == b.failure)
  {
  }

  /** The records of a result, one by one: its own, then those of its request. */
  lemma ResultRecordsInFields(r: BuildResult)
    ensures r.Succeeded? ==>
              ResultRecords(r) ==
              [SuccessRecord(r.request.identity, r.payload.identity, r.artifact.identity, r.binding, r.execution),
               BindingRecord(r.request.identity, r.payload.identity, r.artifact.identity, r.artifact.digest),
               ManifestRecord(r.payload.entries),
               ArtifactRecord(r.artifact.compression, r.artifact.byteCount, r.artifact.digest)] +
              RequestRecords(r.request)
    ensures r.Failed? ==>
              ResultRecords(r) ==
              [FailureRecord(r.request.identity, r.execution, r.failure)] + RequestRecords(r.request)
  {
  }
}
