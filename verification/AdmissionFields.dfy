/** Admission in the fields of the resolver's facts: the same verdict, said by positions and comparisons of fields
    alone, with no definition shared with the loops. */
module AdmissionFields {
  import opened Bytes
  import opened Sequences
  import opened IdentityWriters
  import opened Records
  import opened Identities
  import opened Resolution
  import opened Admission
  import opened AdmissionTheorems

  // ---------------------------------------------------------------- reference definition

  /** The selection at k has the identity, and no other selection has. */
  ghost predicate StandsAlone(selections: seq<SelectedPackage>, id: Text, k: int) {
    0 <= k < |selections| && forall j :: 0 <= j < |selections| ==> (selections[j].identity == id <==> j == k)
  }

  /** The selection at a position is the subject, agrees with its catalog candidate, and has the architectures of the
      resolution request. */
  ghost predicate SubjectAt(res: ResolutionResult, subject: Text, at: int) {
    && StandsAlone(res.selections, subject, at)
    && var s := res.selections[at];
    && s.candidate.Some?
    && s.candidate.value.source.identity == s.sourceSnapshot
    && s.candidate.value.release == s.release
    && s.candidate.value.package == s.package
    && s.architectures.build == res.buildArchitecture
    && s.architectures.target == res.selectedTarget(s.environment)
  }

  ghost predicate InCheckGoal(goals: seq<Goal>, subject: Text) {
    exists i, j ::
      0 <= i < |goals| && goals[i].kind == CheckKind && 0 <= j < |goals[i].members| && goals[i].members[j] == subject
  }

  /** The edge at k satisfies the requirement with the selection at q; any other edge of the subject in that scope
      names one selection too, of another package. */
  ghost predicate SatisfiedAt(res: ResolutionResult, subject: Text, r: Requirement, k: int, q: int) {
    && 0 <= k < |res.edges| && StandsAlone(res.selections, res.edges[k].required, q)
    && res.edges[k].issuer == subject && res.edges[k].environment == BuildEnvironment
    && res.edges[k].scope == r.scope && res.selections[q].package == r.package
    && forall j :: 0 <= j < |res.edges| && j != k && res.edges[j].issuer == subject &&
                   res.edges[j].environment == BuildEnvironment && res.edges[j].scope == r.scope ==>
         exists p :: StandsAlone(res.selections, res.edges[j].required, p) && res.selections[p].package != r.package
  }

  /** ... and both carry the authority the requirement asks for. */
  ghost predicate AuthorisedAt(res: ResolutionResult, subject: Text, source: Text, r: Requirement, k: int, q: int) {
    && SatisfiedAt(res, subject, r, k, q)
    && res.selections[q].environment == BuildEnvironment
    && res.edges[k].authority.kind == CatalogAuthority
    && res.edges[k].authority.catalogSource == Some(source)
    && res.edges[k].authority.catalogOrigins == r.origins
    && (r.scope.kind == BuildKind || r.scope.kind == CheckKind)
  }

  /** The subject, and for each active requirement the positions of its edge and of the selection that requires:
      edge identities differ, and every build or check edge of the subject has the identity of one of them. */
  ghost predicate AdmittedAt(res: ResolutionResult, subject: Text, reqs: seq<Requirement>, at: int, edgeAt: seq<int>,
                             selectionAt: seq<int>)
  {
    && SubjectAt(res, subject, at)
    && var source := res.selections[at].candidate.value.source;
    && reqs == source.recipe.buildRequirements +
               (if InCheckGoal(res.goals, subject) then source.recipe.checkRequirements else [])
    && |edgeAt| == |selectionAt| == |reqs|
    && (forall n :: 0 <= n < |reqs| ==>
          AuthorisedAt(res, subject, source.identity, reqs[n], edgeAt[n], selectionAt[n]))
    && (forall m, n :: 0 <= m < n < |reqs| ==> res.edges[edgeAt[m]].identity != res.edges[edgeAt[n]].identity)
    && (forall k :: 0 <= k < |res.edges| && res.edges[k].issuer == subject &&
                    res.edges[k].environment == BuildEnvironment &&
                    (res.edges[k].scope.kind == BuildKind || res.edges[k].scope.kind == CheckKind) ==>
          exists n :: 0 <= n < |reqs| && res.edges[edgeAt[n]].identity == res.edges[k].identity)
  }

  // ---------------------------------------------------------------- selections, subject, goals

  lemma SelectedAlone(selections: seq<SelectedPackage>, id: Text, k: int)
    requires StandsAlone(selections, id, k)
    ensures Selected(selections, id) == Some(selections[k])
  {
    OnlyAtMakesOne(Named(id), selections, k);
  }

  lemma AloneSelected(selections: seq<SelectedPackage>, id: Text) returns (k: nat)
    requires Selected(selections, id).Some?
    ensures StandsAlone(selections, id, k) && Selected(selections, id) == Some(selections[k])
  {
    k := PositionOfTheOne(Named(id), selections);
  }

  lemma CheckMemberInFields(goals: seq<Goal>, subject: Text)
    ensures CheckMember(goals, subject) <==> InCheckGoal(goals, subject)
  {
    if CheckMember(goals, subject) {
      var g :| g in goals && g.kind == CheckKind && subject in g.members;
      var i :| 0 <= i < |goals| && goals[i] == g;
      var j :| 0 <= j < |g.members| && g.members[j] == subject;
    }
    if i, j :| 0 <= i < |goals| && goals[i].kind == CheckKind && 0 <= j < |goals[i].members| &&
               goals[i].members[j] == subject {
      assert goals[i] in goals && subject in goals[i].members;
    }
  }

  // ---------------------------------------------------------------- requirements

  lemma SatisfiedMatches(res: ResolutionResult, subject: Text, r: Requirement, k: int, q: int)
    requires SatisfiedAt(res, subject, r, k, q)
    ensures MatchOf(res, subject, r) == Some(res.edges[k])
    ensures Selected(res.selections, res.edges[k].required) == Some(res.selections[q])
    ensures ScopeResolves(res, subject, r)
  {
    var fits := Fits(res.selections, subject, r);
    SelectedAlone(res.selections, res.edges[k].required, q);
    forall j | 0 <= j < |res.edges| && j != k && Direct(res.edges[j], subject) && res.edges[j].scope == r.scope
      ensures Selected(res.selections, res.edges[j].required).Some? && !fits(res.edges[j])
    {
      var p :| StandsAlone(res.selections, res.edges[j].required, p) && res.selections[p].package != r.package;
      SelectedAlone(res.selections, res.edges[j].required, p);
    }
    assert forall j :: 0 <= j < |res.edges| && fits(res.edges[j]) ==> j == k;
    OnlyAtMakesOne(fits, res.edges, k);
  }

  lemma MatchIsSatisfied(res: ResolutionResult, subject: Text, r: Requirement) returns (k: nat, q: nat)
    requires MatchOf(res, subject, r).Some? && ScopeResolves(res, subject, r)
    ensures SatisfiedAt(res, subject, r, k, q)
  {
    var fits := Fits(res.selections, subject, r);
    k := PositionOfTheOne(fits, res.edges);
    q := AloneSelected(res.selections, res.edges[k].required);
    forall j | 0 <= j < |res.edges| && j != k && res.edges[j].issuer == subject &&
               res.edges[j].environment == BuildEnvironment && res.edges[j].scope == r.scope
      ensures exists p ::
                StandsAlone(res.selections, res.edges[j].required, p) && res.selections[p].package != r.package
    {
      assert res.edges[j] in res.edges && !fits(res.edges[j]);
      var p := AloneSelected(res.selections, res.edges[j].required);
    }
  }

  /** Being authorised, in fields. */
  lemma AuthorisedInFields(res: ResolutionResult, subject: Text, source: Text, r: Requirement)
    ensures Authorised(res, subject, source, r) <==> exists k, q :: AuthorisedAt(res, subject, source, r, k, q)
  {
    if Authorised(res, subject, source, r) {
      var k, q := MatchIsSatisfied(res, subject, r);
      SatisfiedMatches(res, subject, r, k, q);
      assert AuthorisedAt(res, subject, source, r, k, q);
    }
    if k, q :| AuthorisedAt(res, subject, source, r, k, q) {
      SatisfiedMatches(res, subject, r, k, q);
    }
  }

  // ---------------------------------------------------------------- the verdict

  lemma SubjectInFields(res: ResolutionResult, subject: Text, at: int)
    requires SubjectAt(res, subject, at)
    ensures SubjectAgrees(res, subject) && Selected(res.selections, subject) == Some(res.selections[at])
    ensures SourceOf(res, subject) == res.selections[at].candidate.value.source
  {
    SelectedAlone(res.selections, subject, at);
  }

  lemma SubjectPosition(res: ResolutionResult, subject: Text) returns (at: nat)
    requires SubjectAgrees(res, subject)
    ensures SubjectAt(res, subject, at)
  {
    at := AloneSelected(res.selections, subject);
  }

  lemma {:induction false} Positions(res: ResolutionResult, subject: Text, source: Text, reqs: seq<Requirement>)
    returns (edgeAt: seq<int>, selectionAt: seq<int>)
    requires AllAuthorised(res, subject, source, reqs)
    ensures |edgeAt| == |selectionAt| == |reqs|
    ensures forall n :: 0 <= n < |reqs| ==>
              AuthorisedAt(res, subject, source, reqs[n], edgeAt[n], selectionAt[n])
  {
    if reqs == [] {
      edgeAt, selectionAt := [], [];
    } else {
      var front, last := reqs[..|reqs| - 1], reqs[|reqs| - 1];
      assert last in reqs;
      edgeAt, selectionAt := Positions(res, subject, source, front);
      AuthorisedInFields(res, subject, source, last);
      var k, q :| AuthorisedAt(res, subject, source, last, k, q);
      edgeAt, selectionAt := edgeAt + [k], selectionAt + [q];
    }
  }

  /** Where each requirement's edge is known, the matched identities are those of these edges. */
  lemma MatchedIdsAt(res: ResolutionResult, subject: Text, source: Text, reqs: seq<Requirement>, edgeAt: seq<int>,
                     selectionAt: seq<int>)
    requires |edgeAt| == |selectionAt| == |reqs|
    requires forall n :: 0 <= n < |reqs| ==>
               AuthorisedAt(res, subject, source, reqs[n], edgeAt[n], selectionAt[n])
    ensures forall n :: 0 <= n < |reqs| ==>
              0 <= edgeAt[n] < |res.edges| && MatchedIds(res, subject, reqs)[n] == res.edges[edgeAt[n]].identity
    ensures AllAuthorised(res, subject, source, reqs)
  {
    forall n | 0 <= n < |reqs|
      ensures 0 <= edgeAt[n] < |res.edges| && MatchedId(res, subject)(reqs[n]) == res.edges[edgeAt[n]].identity
      ensures Authorised(res, subject, source, reqs[n])
    {
      SatisfiedMatches(res, subject, reqs[n], edgeAt[n], selectionAt[n]);
      AuthorisedInFields(res, subject, source, reqs[n]);
    }
  }

  /** Distinct matched identities that cover the direct edges are distinct and covering at their positions. */
  lemma AccountedAt(res: ResolutionResult, subject: Text, source: Text, reqs: seq<Requirement>, edgeAt: seq<int>)
    requires Accounted(res, subject, source, reqs) && |edgeAt| == |reqs|
    requires forall n :: 0 <= n < |reqs| ==>
               0 <= edgeAt[n] < |res.edges| && MatchedIds(res, subject, reqs)[n] == res.edges[edgeAt[n]].identity
    ensures forall m, n :: 0 <= m < n < |reqs| ==> res.edges[edgeAt[m]].identity != res.edges[edgeAt[n]].identity
    ensures forall k :: 0 <= k < |res.edges| && DirectInput(res.edges[k], subject) ==>
              exists n :: 0 <= n < |reqs| && res.edges[edgeAt[n]].identity == res.edges[k].identity
  {
    var ids := MatchedIds(res, subject, reqs);
    forall m, n | 0 <= m < n < |reqs|
      ensures res.edges[edgeAt[m]].identity != res.edges[edgeAt[n]].identity
    {
      assert ids[m] != ids[n];
    }
    forall k | 0 <= k < |res.edges| && DirectInput(res.edges[k], subject)
      ensures exists n :: 0 <= n < |reqs| && res.edges[edgeAt[n]].identity == res.edges[k].identity
    {
      assert res.edges[k] in res.edges && res.edges[k].identity in ids;
      var n :| 0 <= n < |ids| && ids[n] == res.edges[k].identity;
      assert res.edges[edgeAt[n]].identity == res.edges[k].identity;
    }
  }

  lemma AdmittedHasPositions(res: ResolutionResult, subject: Text)
    returns (at: nat, edgeAt: seq<int>, selectionAt: seq<int>)
    requires Admissible(res, subject)
    ensures AdmittedAt(res, subject, Active(res, subject), at, edgeAt, selectionAt)
  {
    var reqs, source := Active(res, subject), SourceOf(res, subject).identity;
    at := SubjectPosition(res, subject);
    SubjectInFields(res, subject, at);
    CheckMemberInFields(res.goals, subject);
    edgeAt, selectionAt := Positions(res, subject, source, reqs);
    MatchedIdsAt(res, subject, source, reqs, edgeAt, selectionAt);
    AccountedAt(res, subject, source, reqs, edgeAt);
  }

  lemma PositionsAdmit(res: ResolutionResult, subject: Text, reqs: seq<Requirement>, at: int, edgeAt: seq<int>,
                       selectionAt: seq<int>)
    requires AdmittedAt(res, subject, reqs, at, edgeAt, selectionAt)
    ensures Admissible(res, subject) && reqs == Active(res, subject)
  {
    SubjectInFields(res, subject, at);
    CheckMemberInFields(res.goals, subject);
    var source := SourceOf(res, subject).identity;
    MatchedIdsAt(res, subject, source, reqs, edgeAt, selectionAt);
    var ids := MatchedIds(res, subject, reqs);
    assert Distinct(ids);
    forall e | e in res.edges && DirectInput(e, subject)
      ensures e.identity in ids
    {
      var k :| 0 <= k < |res.edges| && res.edges[k] == e;
      var n :| 0 <= n < |reqs| && res.edges[edgeAt[n]].identity == res.edges[k].identity;
      assert ids[n] == e.identity;
    }
  }

  /** The verdict of admit, in fields: there are a subject and positions for each active requirement. */
  lemma AdmissibleInFields(res: ResolutionResult, subject: Text)
    ensures Admissible(res, subject) <==>
            exists reqs, at, edgeAt, selectionAt :: AdmittedAt(res, subject, reqs, at, edgeAt, selectionAt)
  {
    if Admissible(res, subject) {
      var at, edgeAt, selectionAt := AdmittedHasPositions(res, subject);
    }
    if reqs, at, edgeAt, selectionAt :| AdmittedAt(res, subject, reqs, at, edgeAt, selectionAt) {
      PositionsAdmit(res, subject, reqs, at, edgeAt, selectionAt);
    }
  }

  // ---------------------------------------------------------------- the admitted set

  /** The input of an active requirement, from its positions. */
  function InputAt(sha256: Hash, res: ResolutionResult, r: Requirement, k: int, q: int): BuildInput
    requires 0 <= k < |res.edges| && 0 <= q < |res.selections|
  {
    var scope := if r.scope.kind == BuildKind then BuildInputs else CheckInputs;
    BuildInput(scope, res.edges[k], res.selections[q],
               Identify(sha256, InputRecord(scope, res.edges[k].identity, res.selections[q].identity)))
  }

  function InputsAt(sha256: Hash, res: ResolutionResult, reqs: seq<Requirement>, edgeAt: seq<int>,
                    selectionAt: seq<int>): (inputs: seq<BuildInput>)
    requires |edgeAt| == |selectionAt| == |reqs|
    requires forall n :: 0 <= n < |reqs| ==> 0 <= edgeAt[n] < |res.edges| && 0 <= selectionAt[n] < |res.selections|
    ensures |inputs| == |reqs|
  {
    seq(|reqs|, n requires 0 <= n < |reqs| => InputAt(sha256, res, reqs[n], edgeAt[n], selectionAt[n]))
  }

  lemma OfferAt(sha256: Hash, res: ResolutionResult, subject: Text, source: Text, r: Requirement, k: int, q: int)
    requires AuthorisedAt(res, subject, source, r, k, q)
    ensures InputOf(sha256, res, subject)(r) == Some(InputAt(sha256, res, r, k, q))
  {
    SatisfiedMatches(res, subject, r, k, q);
  }

  lemma OfferedAt(sha256: Hash, res: ResolutionResult, subject: Text, reqs: seq<Requirement>, at: int,
                  edgeAt: seq<int>, selectionAt: seq<int>)
    requires AdmittedAt(res, subject, reqs, at, edgeAt, selectionAt)
    ensures MapOver(InputOf(sha256, res, subject), reqs) ==
            MapOver(Wrap, InputsAt(sha256, res, reqs, edgeAt, selectionAt))
  {
    var source := res.selections[at].candidate.value.source.identity;
    forall n | 0 <= n < |reqs|
      ensures InputOf(sha256, res, subject)(reqs[n]) ==
              Some(InputAt(sha256, res, reqs[n], edgeAt[n], selectionAt[n]))
    {
      OfferAt(sha256, res, subject, source, reqs[n], edgeAt[n], selectionAt[n]);
    }
  }

  /** The admitted set, in fields: the subject's selection, one input for each active requirement, in the order of
      their identities, and the identity of their list. */
  lemma AdmissionInFields(sha256: Hash, res: ResolutionResult, subject: Text, s: BuildInputSet,
                          reqs: seq<Requirement>, at: int, edgeAt: seq<int>, selectionAt: seq<int>)
    requires IsAdmission(sha256, res, subject, s) && AdmittedAt(res, subject, reqs, at, edgeAt, selectionAt)
    ensures s.subject == res.selections[at] && s.resolution == res.identity
    ensures multiset(s.inputs) == multiset(InputsAt(sha256, res, reqs, edgeAt, selectionAt))
    ensures forall i, j :: 0 <= i < j < |s.inputs| ==> !LexLess(s.inputs[j].identity, s.inputs[i].identity)
    ensures s.identity ==
            Identify(sha256, InputSetRecord(res.identity, subject,
                                            seq(|s.inputs|, i requires 0 <= i < |s.inputs| => s.inputs[i].identity)))
  {
    PositionsAdmit(res, subject, reqs, at, edgeAt, selectionAt);
    SelectedAlone(res.selections, subject, at);
    OfferedAt(sha256, res, subject, reqs, at, edgeAt, selectionAt);
    MapInjective(Wrap, s.inputs, InputsAt(sha256, res, reqs, edgeAt, selectionAt));
    forall i, j | 0 <= i < j < |s.inputs|
      ensures !LexLess(s.inputs[j].identity, s.inputs[i].identity)
    {
      assert !InputLess(s.inputs[j], s.inputs[i]);
    }
    assert Ids(s.inputs) == seq(|s.inputs|, i requires 0 <= i < |s.inputs| => s.inputs[i].identity);
  }
}
