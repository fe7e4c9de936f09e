/** What the identity of a sealed request binds, and what sealing does not depend on. */
module RequestTheorems {
  import opened Bytes
  import opened Sequences
  import opened IdentityWriters
  import opened Records
  import opened Identities
  import opened Resolution
  import opened Admission
  import opened AdmissionInvariance
  import opened Request

  // ---------------------------------------------------------------- what a request's identity binds

  /** Every identity inside a request is that of the record under it. */
  ghost predicate BoundRequest(sha256: Hash, r: BuildRequest) {
    && r.identity == Identify(sha256, RequestRecordOf(r))
    && r.inputs.identity == Identify(sha256, InputSetRecordOf(r.inputs))
    && BoundInputs(sha256, r.inputs.inputs)
    && BoundPolicy(sha256, r.policy)
  }

  ghost predicate BoundInputs(sha256: Hash, inputs: seq<BuildInput>) {
    forall k :: 0 <= k < |inputs| ==> inputs[k].identity == Identify(sha256, InputRecordOf(inputs[k]))
  }

  lemma AdmittedInputsAreBound(sha256: Hash, res: ResolutionResult, subject: Text, s: BuildInputSet)
    requires IsAdmission(sha256, res, subject, s)
    ensures BoundInputs(sha256, s.inputs)
  {
    var offered := MapOver(InputOf(sha256, res, subject), Active(res, subject));
    var wrapped := MapOver(Wrap, s.inputs);
    SamePermutedMembers(wrapped, offered);
    forall k | 0 <= k < |s.inputs|
      ensures s.inputs[k].identity == Identify(sha256, InputRecordOf(s.inputs[k]))
    {
      assert wrapped[k] in offered;
      var j :| 0 <= j < |offered| && offered[j] == wrapped[k];
      assert InputOf(sha256, res, subject)(Active(res, subject)[j]) == Some(s.inputs[k]);
    }
  }

  /** Sealing with a made policy gives a bound request, and one for the named subject. */
  lemma SealedIsBound(sha256: Hash, res: ResolutionResult, subject: Text, policy: BuildPolicy, r: BuildRequest)
    requires SealedOver(sha256, res, subject, policy, r) && BoundPolicy(sha256, policy)
    ensures BoundRequest(sha256, r) && r.subject == r.inputs.subject && r.subject.identity == subject
  {
    AdmittedInputsAreBound(sha256, res, subject, r.inputs);
    TheOneFits(Named(subject), res.selections);
  }

  /** What one input says. */
  datatype InputFacts = InputFacts(scope: InputScope, edge: Text, selection: Text)

  /** Everything a request says, down to the leaves. */
  datatype RequestFacts = RequestFacts(
    source: Text, resolution: Text, subject: Text, inputs: seq<InputFacts>, architectures: Architectures,
    parallelism: Uint32, fileCreationMask: Uint32, sourceDateEpoch: Option<Int64>)

  function FactsOfInput(input: BuildInput): InputFacts {
    InputFacts(input.scope, input.requirement.identity, input.selection.identity)
  }

  function RequestFactsOf(r: BuildRequest): RequestFacts {
    RequestFacts(r.source.identity, r.inputs.resolution, r.inputs.subject.identity,
                 MapOver(FactsOfInput, r.inputs.inputs), r.architectures,
                 r.policy.environment.parallelism, r.policy.environment.fileCreationMask,
                 r.policy.environment.sourceDateEpoch)
  }

  function FixedRecords(r: BuildRequest): (records: seq<Record>)
    ensures |records| == 4
  {
    [RequestRecordOf(r), PolicyRecord(r.policy.environment.identity), EnvironmentRecordOf(r.policy.environment),
     InputSetRecordOf(r.inputs)]
  }

  /** The records hashed into a request, in a fixed order. */
  function RequestRecords(r: BuildRequest): (records: seq<Record>)
    ensures |records| == 4 + |r.inputs.inputs|
  {
    FixedRecords(r) + MapOver(InputRecordOf, r.inputs.inputs)
  }

  /** Two lists of records hold, at one position, different records with one digest. */
  ghost predicate CollideAt(sha256: Hash, a: seq<Record>, b: seq<Record>, k: int) {
    0 <= k < |a| && k < |b| && Collide(sha256, a[k], b[k])
  }

  ghost predicate Collision(sha256: Hash, a: seq<Record>, b: seq<Record>) {
    exists k :: CollideAt(sha256, a, b, k)
  }

  /** Where there is no collision, equal identities at a position mean equal records there. */
  lemma SameRecordAt(sha256: Hash, a: seq<Record>, b: seq<Record>, k: int)
    requires 0 <= k < |a| && k < |b| && !Collision(sha256, a, b)
    requires Identify(sha256, a[k]) == Identify(sha256, b[k])
    ensures a[k] == b[k]
  {
    SameIdentity(sha256, a[k], b[k]);
    assert !CollideAt(sha256, a, b, k);
  }

  /** The policy records stand second and third. */
  predicate PolicyRecordsIn(policy: BuildPolicy, records: seq<Record>) {
    && |records| >= 4 && records[1] == PolicyRecord(policy.environment.identity)
    && records[2] == EnvironmentRecordOf(policy.environment)
  }

  lemma PolicyRecordsFollow(r: BuildRequest)
    ensures PolicyRecordsIn(r.policy, RequestRecords(r))
  {
  }

  lemma SamePolicy(sha256: Hash, a: BuildPolicy, b: BuildPolicy, p: seq<Record>, q: seq<Record>)
    requires BoundPolicy(sha256, a) && BoundPolicy(sha256, b)
    requires PolicyRecordsIn(a, p) && PolicyRecordsIn(b, q) && !Collision(sha256, p, q)
    requires a.identity == b.identity
    ensures EnvironmentRecordOf(a.environment) == EnvironmentRecordOf(b.environment)
  {
    SameRecordAt(sha256, p, q, 1);
    SameRecordAt(sha256, p, q, 2);
  }

  lemma SameInputs(sha256: Hash, a: BuildRequest, b: BuildRequest)
    requires BoundRequest(sha256, a) && BoundRequest(sha256, b)
    requires !Collision(sha256, RequestRecords(a), RequestRecords(b))
    requires Ids(a.inputs.inputs) == Ids(b.inputs.inputs)
    ensures MapOver(FactsOfInput, a.inputs.inputs) == MapOver(FactsOfInput, b.inputs.inputs)
  {
    var p, q := a.inputs.inputs, b.inputs.inputs;
    InputRecordsFollow(a);
    InputRecordsFollow(b);
    SameInputsIn(sha256, p, q, RequestRecords(a), RequestRecords(b));
  }

  /** The input records stand after the four fixed ones. */
  ghost predicate InputRecordsIn(inputs: seq<BuildInput>, records: seq<Record>) {
    |records| == 4 + |inputs| && forall k :: 0 <= k < |inputs| ==> records[4 + k] == InputRecordOf(inputs[k])
  }

  lemma After<T>(front: seq<T>, back: seq<T>, k: nat)
    requires k < |back|
    ensures (front + back)[|front| + k] == back[k]
  {
  }

  lemma InputRecordsFollow(r: BuildRequest)
    ensures InputRecordsIn(r.inputs.inputs, RequestRecords(r))
  {
    var inputs, records := r.inputs.inputs, RequestRecords(r);
    var front, back := FixedRecords(r), MapOver(InputRecordOf, inputs);
    forall k | 0 <= k < |inputs|
      ensures records[4 + k] == InputRecordOf(inputs[k])
    {
      After(front, back, k);
    }
  }

  lemma SameInputsIn(sha256: Hash, p: Vector<BuildInput>, q: Vector<BuildInput>, a: seq<Record>, b: seq<Record>)
    requires InputRecordsIn(p, a) && InputRecordsIn(q, b) && !Collision(sha256, a, b)
    requires BoundInputs(sha256, p) && BoundInputs(sha256, q) && Ids(p) == Ids(q)
    ensures MapOver(FactsOfInput, p) == MapOver(FactsOfInput, q)
  {
    assert |p| == |Ids(p)| == |Ids(q)| == |q|;
    forall k | 0 <= k < |p|
      ensures FactsOfInput(p[k]) == FactsOfInput(q[k])
    {
      assert Ids(p)[k] == Ids(q)[k];
      SameRecordAt(sha256, a, b, 4 + k);
    }
  }

  /** Requests with one identity state the same facts, or a record of one collides with its counterpart. */
  lemma RequestIdentityBinds(sha256: Hash, a: BuildRequest, b: BuildRequest)
    requires BoundRequest(sha256, a) && BoundRequest(sha256, b) && a.identity == b.identity
    ensures RequestFactsOf(a) == RequestFactsOf(b) || Collision(sha256, RequestRecords(a), RequestRecords(b))
  {
    var p, q := RequestRecords(a), RequestRecords(b);
    if !Collision(sha256, p, q) {
      SameRecordAt(sha256, p, q, 0);
      PolicyRecordsFollow(a);
      PolicyRecordsFollow(b);
      SamePolicy(sha256, a.policy, b.policy, p, q);
      SameRecordAt(sha256, p, q, 3);
      SameInputs(sha256, a, b);
    }
  }

  /** Requests that state the same facts have one identity. */
  lemma SameFactsSameRequest(sha256: Hash, a: BuildRequest, b: BuildRequest)
    requires BoundRequest(sha256, a) && BoundRequest(sha256, b) && RequestFactsOf(a) == RequestFactsOf(b)
    ensures a.identity == b.identity && RequestRecords(a) == RequestRecords(b)
  {
    var p, q := a.inputs.inputs, b.inputs.inputs;
    assert |p| == |MapOver(FactsOfInput, p)| == |q|;
    forall k | 0 <= k < |p|
      ensures InputRecordOf(p[k]) == InputRecordOf(q[k]) && p[k].identity == q[k].identity
    {
      assert MapOver(FactsOfInput, p)[k] == MapOver(FactsOfInput, q)[k];
    }
    assert Ids(p) == Ids(q);
    assert MapOver(InputRecordOf, p) == MapOver(InputRecordOf, q);
  }

  // ---------------------------------------------------------------- over two runs

  /** Two runs of sealing that end in one identity started from the same resolution identity, subject and policy
      values, and chose the same architectures and inputs; or a record of one collides with its counterpart. */
  lemma SealedIdentityBinds(
    sha256: Hash, resA: ResolutionResult, subjectA: Text, policyA: BuildPolicy, a: BuildRequest,
    resB: ResolutionResult, subjectB: Text, policyB: BuildPolicy, b: BuildRequest)
    requires BoundPolicy(sha256, policyA) && SealedOver(sha256, resA, subjectA, policyA, a)
    requires BoundPolicy(sha256, policyB) && SealedOver(sha256, resB, subjectB, policyB, b)
    requires a.identity == b.identity && !Collision(sha256, RequestRecords(a), RequestRecords(b))
    ensures resA.identity == resB.identity && subjectA == subjectB && policyA == policyB
    ensures SourceOf(resA, subjectA).identity == SourceOf(resB, subjectB).identity
    ensures a.architectures == b.architectures
    ensures MapOver(FactsOfInput, a.inputs.inputs) == MapOver(FactsOfInput, b.inputs.inputs)
  {
    SealedIsBound(sha256, resA, subjectA, policyA, a);
    SealedIsBound(sha256, resB, subjectB, policyB, b);
    RequestIdentityBinds(sha256, a, b);
  }

  /** Resolutions that look the same to admission give the same verdict on sealing, and the same request identity,
      although the order of selections, edges, goals, requirements and declared architectures may differ. */
  lemma SealingIgnoresOrder(sha256: Hash, resA: ResolutionResult, resB: ResolutionResult, subject: Text)
    requires SameView(resA, resB, subject)
    ensures Requestable(resA, subject) <==> Requestable(resB, subject)
    ensures forall policy, a, b ::
              SealedOver(sha256, resA, subject, policy, a) && SealedOver(sha256, resB, subject, policy, b) ==>
              a.identity == b.identity
  {
    SameVerdict(resA, resB, subject);
    assert SameSelection(Selected(resA.selections, subject), Selected(resB.selections, subject));
    if Admissible(resA, subject) {
      var p, q := SourceOf(resA, subject).recipe, SourceOf(resB, subject).recipe;
      SamePermutedMembers(p.buildArchitectures, q.buildArchitectures);
      SamePermutedMembers(p.targetArchitectures, q.targetArchitectures);
    }
    forall policy, a, b |
      SealedOver(sha256, resA, subject, policy, a) && SealedOver(sha256, resB, subject, policy, b)
      ensures a.identity == b.identity
    {
      SameInputSetIdentity(sha256, resA, resB, subject, a.inputs, b.inputs);
    }
  }
}
