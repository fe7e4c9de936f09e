/** Requests in the fields of the facts: when a resolution is sealed, what the sealed request holds, and what the
    words used of request identities mean. */
module RequestFields {
  import opened Bytes
  import opened Sequences
  import opened IdentityWriters
  import opened Records
  import opened Identities
  import opened Resolution
  import opened Admission
  import opened AdmissionFields
  import opened Request
  import opened RequestTheorems

  // ---------------------------------------------------------------- sealing

  /** The source of the subject at a position restricts neither architecture against the resolution request: each
      declared list is empty or names the requested architecture. */
  ghost predicate DeclaredAt(res: ResolutionResult, at: int)
    requires 0 <= at < |res.selections| && res.selections[at].candidate.Some?
  {
    var recipe := res.selections[at].candidate.value.source.recipe;
    && (recipe.buildArchitectures == [] ||
        exists i :: 0 <= i < |recipe.buildArchitectures| && recipe.buildArchitectures[i] == res.buildArchitecture)
    && (recipe.targetArchitectures == [] ||
        exists i :: 0 <= i < |recipe.targetArchitectures| &&
                    recipe.targetArchitectures[i] == res.selectedTarget(res.selections[at].environment))
  }

  lemma AllowsInFields(declared: seq<Text>, selected: Text)
    ensures Allows(declared, selected) <==>
            declared == [] || exists i :: 0 <= i < |declared| && declared[i] == selected
  {
  }

  /** The verdict of seal, in fields. */
  lemma RequestableInFields(res: ResolutionResult, subject: Text)
    ensures Requestable(res, subject) <==>
            Admissible(res, subject) && exists at :: SubjectAt(res, subject, at) && DeclaredAt(res, at)
  {
    if Admissible(res, subject) {
      var at := SubjectPosition(res, subject);
      forall k | SubjectAt(res, subject, k)
        ensures Requestable(res, subject) <==> DeclaredAt(res, k)
      {
        SubjectInFields(res, subject, k);
        var recipe := SourceOf(res, subject).recipe;
        AllowsInFields(recipe.buildArchitectures, res.buildArchitecture);
        AllowsInFields(recipe.targetArchitectures, res.selectedTarget(res.selections[k].environment));
      }
    }
  }

  /** A source that declares no architectures is sealed for any. */
  lemma UndeclaredIsUnrestricted(res: ResolutionResult, subject: Text, at: int)
    requires Admissible(res, subject) && SubjectAt(res, subject, at)
    requires res.selections[at].candidate.value.source.recipe.buildArchitectures == []
    requires res.selections[at].candidate.value.source.recipe.targetArchitectures == []
    ensures Requestable(res, subject)
  {
    assert DeclaredAt(res, at);
    RequestableInFields(res, subject);
  }

  /** The sealed request, in fields. */
  lemma SealedInFields(sha256: Hash, res: ResolutionResult, subject: Text, policy: BuildPolicy, r: BuildRequest,
                       at: int)
    requires SubjectAt(res, subject, at)
    ensures SealedOver(sha256, res, subject, policy, r) <==>
            && IsAdmission(sha256, res, subject, r.inputs)
            && r.subject == res.selections[at]
            && r.source == res.selections[at].candidate.value.source
            && r.architectures.build == res.buildArchitecture
            && r.architectures.target == res.selectedTarget(res.selections[at].environment)
            && DeclaredAt(res, at)
            && r.policy == policy
            && r.identity == Identify(sha256, RequestRecord(r.source.identity, r.inputs.identity,
                                                            r.architectures.build, r.architectures.target,
                                                            policy.identity))
  {
    SubjectInFields(res, subject, at);
    var recipe := SourceOf(res, subject).recipe;
    AllowsInFields(recipe.buildArchitectures, res.buildArchitecture);
    AllowsInFields(recipe.targetArchitectures, res.selectedTarget(res.selections[at].environment));
  }

  // ---------------------------------------------------------------- identities

  /** A bound request, in fields. */
  lemma BoundInFields(sha256: Hash, r: BuildRequest)
    ensures BoundRequest(sha256, r) <==>
            && r.identity == Identify(sha256, RequestRecord(r.source.identity, r.inputs.identity,
                                                            r.architectures.build, r.architectures.target,
                                                            r.policy.identity))
            && r.inputs.identity ==
               Identify(sha256, InputSetRecord(r.inputs.resolution, r.inputs.subject.identity,
                                               seq(|r.inputs.inputs|, i requires 0 <= i < |r.inputs.inputs| =>
                                                 r.inputs.inputs[i].identity)))
            && (forall k :: 0 <= k < |r.inputs.inputs| ==>
                  var i := r.inputs.inputs[k];
                  i.identity == Identify(sha256, InputRecord(i.scope, i.requirement.identity, i.selection.identity)))
            && r.policy.identity == Identify(sha256, PolicyRecord(r.policy.environment.identity))
            && (var e := r.policy.environment;
                && e.identity ==
                   Identify(sha256, EnvironmentRecord(e.parallelism, e.fileCreationMask, e.sourceDateEpoch))
                && e.parallelism > 0 && e.fileCreationMask <= 511
                && (e.sourceDateEpoch.Some? ==> e.sourceDateEpoch.value >= 0))
  {
    assert Ids(r.inputs.inputs) == seq(|r.inputs.inputs|, i requires 0 <= i < |r.inputs.inputs| =>
                                     r.inputs.inputs[i].identity);
  }

  /** That two requests state the same facts means that these fields agree. */
  lemma SameFactsInFields(a: BuildRequest, b: BuildRequest)
    ensures RequestFactsOf(a) == RequestFactsOf(b) <==>
            && a.source.identity == b.source.identity
            && a.inputs.resolution == b.inputs.resolution
            && a.inputs.subject.identity == b.inputs.subject.identity
            && |a.inputs.inputs| == |b.inputs.inputs|
            && (forall k :: 0 <= k < |a.inputs.inputs| ==>
                  var i, j := a.inputs.inputs[k], b.inputs.inputs[k];
                  && i.scope == j.scope && i.requirement.identity == j.requirement.identity
                  && i.selection.identity == j.selection.identity)
            && a.architectures.build == b.architectures.build
            && a.architectures.target == b.architectures.target
            && a.policy.environment.parallelism == b.policy.environment.parallelism
            && a.policy.environment.fileCreationMask == b.policy.environment.fileCreationMask
            && a.policy.environment.sourceDateEpoch == b.policy.environment.sourceDateEpoch
  {
    var p, q := MapOver(FactsOfInput, a.inputs.inputs), MapOver(FactsOfInput, b.inputs.inputs);
    assert |p| == |a.inputs.inputs| && |q| == |b.inputs.inputs|;
    if p == q {
      forall k | 0 <= k < |p|
        ensures FactsOfInput(a.inputs.inputs[k]) == FactsOfInput(b.inputs.inputs[k])
      {
        assert p[k] == q[k];
      }
    }
  }

  /** The records of a request, one by one. */
  lemma RecordsInFields(r: BuildRequest)
    ensures var records := RequestRecords(r);
            && |records| == 4 + |r.inputs.inputs|
            && records[0] == RequestRecord(r.source.identity, r.inputs.identity, r.architectures.build,
                                           r.architectures.target, r.policy.identity)
            && records[1] == PolicyRecord(r.policy.environment.identity)
            && records[2] == EnvironmentRecord(r.policy.environment.parallelism,
                                               r.policy.environment.fileCreationMask,
                                               r.policy.environment.sourceDateEpoch)
            && records[3] == InputSetRecord(r.inputs.resolution, r.inputs.subject.identity, Ids(r.inputs.inputs))
            && forall k :: 0 <= k < |r.inputs.inputs| ==>
                 records[4 + k] == InputRecord(r.inputs.inputs[k].scope, r.inputs.inputs[k].requirement.identity,
                                               r.inputs.inputs[k].selection.identity)
  {
    InputRecordsFollow(r);
  }

  /** A collision of lists of records: at one position the octets differ and the digests agree. */
  lemma CollisionInFields(sha256: Hash, a: seq<Record>, b: seq<Record>)
    ensures Collision(sha256, a, b) <==>
            exists k :: 0 <= k < |a| && k < |b| && RecordBytes(a[k]) != RecordBytes(b[k]) &&
                        sha256(RecordBytes(a[k])) == sha256(RecordBytes(b[k]))
  {
    if k :| CollideAt(sha256, a, b, k) {
      assert RecordBytes(a[k]) != RecordBytes(b[k]);
    }
    if k :| 0 <= k < |a| && k < |b| && RecordBytes(a[k]) != RecordBytes(b[k]) &&
            sha256(RecordBytes(a[k])) == sha256(RecordBytes(b[k])) {
      assert CollideAt(sha256, a, b, k);
    }
  }
}
