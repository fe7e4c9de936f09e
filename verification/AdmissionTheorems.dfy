/** Theorems about admissible resolutions: exact accounting, activation of checks, and what does not matter. */
module AdmissionTheorems {
  import opened Bytes
  import opened Sequences
  import opened Resolution
  import opened Admission

  // ---------------------------------------------------------------- one edge for each requirement

  function IsDirectInput(subject: Text): Edge -> bool {
    (e: Edge) => DirectInput(e, subject)
  }

  function DirectInputs(edges: seq<Edge>, subject: Text): seq<Edge> {
    Filter(IsDirectInput(subject), edges)
  }

  function IdentityOfEdge(e: Edge): Text {
    e.identity
  }

  /** The direct input edges have pairwise distinct identities. */
  ghost predicate DistinctDirectIds(edges: seq<Edge>, subject: Text) {
    Distinct(MapOver(IdentityOfEdge, DirectInputs(edges, subject)))
  }

  ghost function MatchFor(res: ResolutionResult, subject: Text): Requirement -> Option<Edge> {
    (r: Requirement) => MatchOf(res, subject, r)
  }

  function Present(e: Edge): Option<Edge> {
    Some(e)
  }

  /** The matched edges are the direct input edges, each once: a bijection between requirements and edges. */
  ghost predicate OneToOne(res: ResolutionResult, subject: Text)
    requires SubjectAgrees(res, subject)
  {
    multiset(MapOver(MatchFor(res, subject), Active(res, subject))) ==
    multiset(MapOver(Present, DirectInputs(res.edges, subject)))
  }

  lemma MatchedEdge(res: ResolutionResult, subject: Text, source: Text, r: Requirement) returns (m: Edge)
    requires Authorised(res, subject, source, r)
    ensures MatchOf(res, subject, r) == Some(m) && m in res.edges
    ensures DirectInput(m, subject) && m.scope == r.scope
    ensures SamePackage(res.selections, m.required, r.package)
    ensures MatchedId(res, subject)(r) == m.identity
  {
    var fits := Fits(res.selections, subject, r);
    m := TheOne(fits, res.edges);
    TheOneFits(fits, res.edges);
  }

  /** Which requirement accounts for a direct input edge. */
  lemma RequirementFor(res: ResolutionResult, subject: Text, e: Edge) returns (r: Requirement, m: Edge)
    requires Admissible(res, subject) && e in res.edges && DirectInput(e, subject)
    ensures r in Active(res, subject) && MatchOf(res, subject, r) == Some(m)
    ensures m in res.edges && DirectInput(m, subject) && m.identity == e.identity && m.scope == r.scope
  {
    var reqs := Active(res, subject);
    var ids := MatchedIds(res, subject, reqs);
    assert e.identity in ids;
    var k :| 0 <= k < |ids| && ids[k] == e.identity;
    r := reqs[k];
    assert r in reqs;
    m := MatchedEdge(res, subject, SourceOf(res, subject).identity, r);
  }

  lemma DirectInputsMembers(edges: seq<Edge>, subject: Text)
    ensures forall e :: e in DirectInputs(edges, subject) <==> e in edges && DirectInput(e, subject)
  {
    FilterMembers(IsDirectInput(subject), edges);
  }

  lemma DistinctIdsIdentify(edges: seq<Edge>, subject: Text, a: Edge, b: Edge)
    requires DistinctDirectIds(edges, subject)
    requires a in edges && b in edges && DirectInput(a, subject) && DirectInput(b, subject)
    ensures a.identity == b.identity <==> a == b
  {
    var direct := DirectInputs(edges, subject);
    DirectInputsMembers(edges, subject);
    assert a in direct && b in direct;
    var i :| 0 <= i < |direct| && direct[i] == a;
    var j :| 0 <= j < |direct| && direct[j] == b;
    var ids := MapOver(IdentityOfEdge, direct);
    assert ids[i] == a.identity && ids[j] == b.identity;
  }

  /** With distinct identities an edge is matched by the requirement that accounts for it. */
  lemma RequirementMatching(res: ResolutionResult, subject: Text, e: Edge) returns (r: Requirement)
    requires Admissible(res, subject) && DistinctDirectIds(res.edges, subject)
    requires e in res.edges && DirectInput(e, subject)
    ensures r in Active(res, subject) && MatchOf(res, subject, r) == Some(e)
  {
    var m;
    r, m := RequirementFor(res, subject, e);
    DistinctIdsIdentify(res.edges, subject, m, e);
  }

  function IdOrNone(e: Option<Edge>): Text {
    match e case Some(x) => x.identity case None => []
  }

  lemma MatchedIdsFromEdges(res: ResolutionResult, subject: Text, reqs: seq<Requirement>)
    ensures MapOver(IdOrNone, MapOver(MatchFor(res, subject), reqs)) == MatchedIds(res, subject, reqs)
  {
  }

  lemma DirectIdsFromEdges(direct: seq<Edge>)
    ensures MapOver(IdOrNone, MapOver(Present, direct)) == MapOver(IdentityOfEdge, direct)
  {
  }

  lemma DistinctImages<T, U>(f: T -> U, xs: seq<T>)
    requires Distinct(MapOver(f, xs))
    ensures Distinct(xs)
  {
    forall i, j | 0 <= i < j < |xs|
      ensures xs[i] != xs[j]
    {
      assert MapOver(f, xs)[i] != MapOver(f, xs)[j];
    }
  }

  /** The relationship DESIGN.md calls one-to-one holds of an admitted resolution exactly when the direct input
      edges have distinct identities; then there are as many of them as active requirements. */
  lemma AdmittedOneToOne(res: ResolutionResult, subject: Text)
    requires Admissible(res, subject)
    ensures OneToOne(res, subject) <==> DistinctDirectIds(res.edges, subject)
    ensures OneToOne(res, subject) ==> |Active(res, subject)| == |DirectInputs(res.edges, subject)|
  {
    var matched := MapOver(MatchFor(res, subject), Active(res, subject));
    var present := MapOver(Present, DirectInputs(res.edges, subject));
    MatchedIdsFromEdges(res, subject, Active(res, subject));
    DirectIdsFromEdges(DirectInputs(res.edges, subject));
    if OneToOne(res, subject) {
      MapPermuted(IdOrNone, matched, present);
      DistinctPermuted(MapOver(IdOrNone, matched), MapOver(IdOrNone, present));
      assert |multiset(matched)| == |multiset(present)|;
    }
    if DistinctDirectIds(res.edges, subject) {
      DistinctImages(IdOrNone, matched);
      DistinctImages(IdOrNone, present);
      MatchedArePresent(res, subject);
      DistinctSameMembers(matched, present);
    }
  }

  lemma MatchIsPresent(res: ResolutionResult, subject: Text, r: Requirement)
    requires Admissible(res, subject) && r in Active(res, subject)
    ensures MatchFor(res, subject)(r) in MapOver(Present, DirectInputs(res.edges, subject))
  {
    var direct := DirectInputs(res.edges, subject);
    DirectInputsMembers(res.edges, subject);
    var e := MatchedEdge(res, subject, SourceOf(res, subject).identity, r);
    var j :| 0 <= j < |direct| && direct[j] == e;
    assert MapOver(Present, direct)[j] == Some(e);
  }

  lemma PresentIsMatch(res: ResolutionResult, subject: Text, e: Edge)
    requires Admissible(res, subject) && DistinctDirectIds(res.edges, subject)
    requires e in DirectInputs(res.edges, subject)
    ensures Present(e) in MapOver(MatchFor(res, subject), Active(res, subject))
  {
    DirectInputsMembers(res.edges, subject);
    var reqs := Active(res, subject);
    var r := RequirementMatching(res, subject, e);
    var k :| 0 <= k < |reqs| && reqs[k] == r;
    assert MapOver(MatchFor(res, subject), reqs)[k] == Some(e);
  }

  lemma MappedMembers<T, U>(f: T -> U, xs: seq<T>, ys: seq<U>)
    requires forall x :: x in xs ==> f(x) in ys
    ensures forall y :: y in MapOver(f, xs) ==> y in ys
  {
    forall y | y in MapOver(f, xs)
      ensures y in ys
    {
      var k :| 0 <= k < |xs| && MapOver(f, xs)[k] == y;
      assert xs[k] in xs;
    }
  }

  lemma MatchedArePresent(res: ResolutionResult, subject: Text)
    requires Admissible(res, subject) && DistinctDirectIds(res.edges, subject)
    ensures forall m :: m in MapOver(MatchFor(res, subject), Active(res, subject)) <==>
                        m in MapOver(Present, DirectInputs(res.edges, subject))
  {
    var reqs, direct := Active(res, subject), DirectInputs(res.edges, subject);
    forall r | r in reqs
      ensures MatchFor(res, subject)(r) in MapOver(Present, direct)
    {
      MatchIsPresent(res, subject, r);
    }
    forall e | e in direct
      ensures Present(e) in MapOver(MatchFor(res, subject), reqs)
    {
      PresentIsMatch(res, subject, e);
    }
    MappedMembers(MatchFor(res, subject), reqs, MapOver(Present, direct));
    MappedMembers(Present, direct, MapOver(MatchFor(res, subject), reqs));
  }

  lemma SameFits(res: ResolutionResult, subject: Text, r: Requirement, q: Requirement)
    requires r.scope == q.scope && r.package == q.package
    ensures MatchOf(res, subject, r) == MatchOf(res, subject, q)
  {
    FilterSame(Fits(res.selections, subject, r), Fits(res.selections, subject, q), res.edges);
  }

  /** No two active requirements of an admitted resolution share scope and package. */
  lemma AdmittedRequirementsDiffer(res: ResolutionResult, subject: Text, i: nat, j: nat)
    requires Admissible(res, subject) && i < j < |Active(res, subject)|
    ensures Active(res, subject)[i].scope != Active(res, subject)[j].scope ||
            Active(res, subject)[i].package != Active(res, subject)[j].package
  {
    var r, q := Active(res, subject)[i], Active(res, subject)[j];
    assert MatchedIds(res, subject, Active(res, subject))[i] != MatchedIds(res, subject, Active(res, subject))[j];
    assert MatchedId(res, subject)(r) != MatchedId(res, subject)(q);
    if r.scope == q.scope && r.package == q.package {
      SameFits(res, subject, r, q);
    }
  }

  // ---------------------------------------------------------------- exactness

  /** Removing an edge leaves a requirement's match alone, unless it is the match. */
  lemma RemainingMatch(res: ResolutionResult, subject: Text, k: nat, r: Requirement)
    requires k < |res.edges| && MatchOf(res, subject, r).Some?
    ensures MatchOf(Removed(res, k), subject, r) ==
            if MatchOf(res, subject, r) == Some(res.edges[k]) then None else MatchOf(res, subject, r)
  {
    var fits := Fits(res.selections, subject, r);
    var before, after := Filter(fits, res.edges), Filter(fits, Removed(res, k).edges);
    assert res.edges[k] in res.edges;
    TheOneFits(fits, res.edges);
    FilterRemoveAt(fits, res.edges, k);
    assert |multiset(before)| == 1 && |multiset(after)| == |after|;
    if MatchOf(res, subject, r) != Some(res.edges[k]) {
      SingletonPermuted(before, after);
    }
  }

  function Removed(res: ResolutionResult, k: nat): ResolutionResult
    requires k < |res.edges|
  {
    res.(edges := Without(res.edges, k))
  }

  /** An admitted resolution stays admissible without an edge exactly when that edge fits no active requirement. */
  lemma RemovalVerdict(res: ResolutionResult, subject: Text, k: nat)
    requires Admissible(res, subject) && k < |res.edges|
    ensures Admissible(Removed(res, k), subject) <==>
            forall r :: r in Active(res, subject) ==> !Fits(res.selections, subject, r)(res.edges[k])
  {
    var less, reqs, source := Removed(res, k), Active(res, subject), SourceOf(res, subject).identity;
    assert Active(less, subject) == reqs;
    assert res.edges[k] in res.edges;
    forall r | r in reqs
      ensures MatchOf(less, subject, r) ==
              if Fits(res.selections, subject, r)(res.edges[k]) then None else MatchOf(res, subject, r)
    {
      assert Authorised(res, subject, source, r);
      TheOneFits(Fits(res.selections, subject, r), res.edges);
      RemainingMatch(res, subject, k, r);
    }
    if r :| r in reqs && Fits(res.selections, subject, r)(res.edges[k]) {
      assert !Authorised(less, subject, source, r);
    } else {
      StaysAccounted(res, subject, source, reqs, less);
    }
  }

  /** Fewer edges and the same matches keep the accounts. */
  lemma StaysAccounted(res: ResolutionResult, subject: Text, source: Text, reqs: seq<Requirement>,
                       less: ResolutionResult)
    requires Accounted(res, subject, source, reqs) && less == res.(edges := less.edges)
    requires forall e :: e in less.edges ==> e in res.edges
    requires forall r :: r in reqs ==> MatchOf(less, subject, r) == MatchOf(res, subject, r)
    ensures Accounted(less, subject, source, reqs)
  {
    SameMatchedIds(res, less, subject, reqs);
    forall r | r in reqs
      ensures Authorised(less, subject, source, r)
    {
      assert Authorised(res, subject, source, r);
    }
  }

  lemma SameMatchedIds(a: ResolutionResult, b: ResolutionResult, subject: Text, reqs: seq<Requirement>)
    requires forall r :: r in reqs ==> MatchOf(a, subject, r) == MatchOf(b, subject, r)
    ensures MatchedIds(a, subject, reqs) == MatchedIds(b, subject, reqs)
  {
    forall k | 0 <= k < |reqs|
      ensures MatchedIds(a, subject, reqs)[k] == MatchedIds(b, subject, reqs)[k]
    {
      assert reqs[k] in reqs;
    }
  }

  /** With distinct identities, taking any direct input edge away makes an admitted resolution inadmissible. */
  lemma RemovalIsRejected(res: ResolutionResult, subject: Text, k: nat)
    requires Admissible(res, subject) && DistinctDirectIds(res.edges, subject)
    requires k < |res.edges| && DirectInput(res.edges[k], subject)
    ensures !Admissible(Removed(res, k), subject)
  {
    assert res.edges[k] in res.edges;
    var r := RequirementMatching(res, subject, res.edges[k]);
    TheOneFits(Fits(res.selections, subject, r), res.edges);
    RemovalVerdict(res, subject, k);
  }

  function Inserted(res: ResolutionResult, k: nat, e: Edge): ResolutionResult
    requires k <= |res.edges|
  {
    res.(edges := res.edges[..k] + [e] + res.edges[k..])
  }

  /** An inserted edge that fits a requirement makes its match ambiguous; any other leaves it as it was. */
  lemma InsertedMatch(res: ResolutionResult, subject: Text, k: nat, e: Edge, r: Requirement)
    requires k <= |res.edges| && MatchOf(res, subject, r).Some?
    ensures MatchOf(Inserted(res, k, e), subject, r) ==
            if Fits(res.selections, subject, r)(e) then None else MatchOf(res, subject, r)
  {
    var fits := Fits(res.selections, subject, r);
    var a, b := res.edges[..k], res.edges[k..];
    FilterAround(fits, Inserted(res, k, e).edges, a, e, b);
    FilterAppend(fits, a, b);
    assert res.edges == a + b;
    assert Filter(fits, a) + [] + Filter(fits, b) == Filter(fits, a) + Filter(fits, b);
  }

  /** What an extra edge may be: it makes no match ambiguous, resolves if its scope is looked at, and, if it is a
      direct input, it repeats the identity of a direct input already there. */
  ghost predicate Harmless(res: ResolutionResult, subject: Text, reqs: seq<Requirement>, e: Edge) {
    && (forall r :: r in reqs ==> !Fits(res.selections, subject, r)(e))
    && (forall r :: r in reqs && Direct(e, subject) && e.scope == r.scope ==>
          Selected(res.selections, e.required).Some?)
    && (DirectInput(e, subject) ==> DirectIdentity(res.edges, subject, e.identity))
  }

  /** Some direct input edge has the identity. */
  ghost predicate DirectIdentity(edges: seq<Edge>, subject: Text, id: Text) {
    exists x :: x in edges && DirectInput(x, subject) && x.identity == id
  }

  /** In an accounted resolution the matched identities are those of the direct input edges. */
  lemma MatchedIdsAreDirect(res: ResolutionResult, subject: Text, source: Text, reqs: seq<Requirement>, id: Text)
    requires Accounted(res, subject, source, reqs)
    ensures id in MatchedIds(res, subject, reqs) <==> DirectIdentity(res.edges, subject, id)
  {
    var ids := MatchedIds(res, subject, reqs);
    if id in ids {
      var k :| 0 <= k < |ids| && ids[k] == id;
      assert reqs[k] in reqs;
      var m := MatchedEdge(res, subject, source, reqs[k]);
    }
  }

  lemma InsertedMembers(res: ResolutionResult, k: nat, e: Edge)
    requires k <= |res.edges|
    ensures forall x :: x in Inserted(res, k, e).edges <==> x in res.edges || x == e
  {
    assert res.edges == res.edges[..k] + res.edges[k..];
  }

  /** An admitted resolution stays admissible with one more edge exactly when that edge is harmless. */
  lemma InsertionVerdict(res: ResolutionResult, subject: Text, k: nat, e: Edge)
    requires Admissible(res, subject) && k <= |res.edges|
    ensures Admissible(Inserted(res, k, e), subject) <==> Harmless(res, subject, Active(res, subject), e)
  {
    var more, reqs, source := Inserted(res, k, e), Active(res, subject), SourceOf(res, subject).identity;
    assert Active(more, subject) == reqs;
    InsertedMembers(res, k, e);
    forall r | r in reqs
      ensures MatchOf(more, subject, r) ==
              if Fits(res.selections, subject, r)(e) then None else MatchOf(res, subject, r)
    {
      assert Authorised(res, subject, source, r);
      InsertedMatch(res, subject, k, e, r);
    }
    if r :| r in reqs && Fits(res.selections, subject, r)(e) {
      assert !Authorised(more, subject, source, r);
    } else {
      SameMatchedIds(res, more, subject, reqs);
      OneMoreAccounted(res, subject, source, reqs, more, e);
    }
  }

  lemma OneMoreAccounted(res: ResolutionResult, subject: Text, source: Text, reqs: seq<Requirement>,
                         more: ResolutionResult, e: Edge)
    requires Accounted(res, subject, source, reqs) && more == res.(edges := more.edges)
    requires forall x :: x in more.edges <==> x in res.edges || x == e
    requires forall r :: r in reqs ==> MatchOf(more, subject, r) == MatchOf(res, subject, r)
    requires MatchedIds(more, subject, reqs) == MatchedIds(res, subject, reqs)
    requires forall r :: r in reqs ==> !Fits(res.selections, subject, r)(e)
    ensures Accounted(more, subject, source, reqs) <==> Harmless(res, subject, reqs, e)
  {
    MatchedIdsAreDirect(res, subject, source, reqs, e.identity);
    forall r | r in reqs
      ensures Authorised(more, subject, source, r) <==>
              (Direct(e, subject) && e.scope == r.scope ==> Selected(res.selections, e.required).Some?)
    {
      assert Authorised(res, subject, source, r);
    }
  }

  /** So adding a direct input edge with an identity of its own is rejected, wherever it is put. */
  lemma InsertionIsRejected(res: ResolutionResult, subject: Text, k: nat, e: Edge)
    requires Admissible(res, subject) && k <= |res.edges| && DirectInput(e, subject)
    requires forall x :: x in res.edges ==> x.identity != e.identity
    ensures !Admissible(Inserted(res, k, e), subject)
  {
    InsertionVerdict(res, subject, k, e);
  }

  // ---------------------------------------------------------------- activation of checks

  /** One edge list cannot serve a subject both inside and outside check goals, if its source has checks. */
  lemma ActivationIsExact(res: ResolutionResult, subject: Text, inside: seq<Goal>, outside: seq<Goal>)
    requires SubjectAgrees(res, subject) && SourceOf(res, subject).recipe.checkRequirements != []
    requires CheckMember(inside, subject) && !CheckMember(outside, subject)
    ensures !(Admissible(res.(goals := inside), subject) && Admissible(res.(goals := outside), subject))
  {
    var on, off := res.(goals := inside), res.(goals := outside);
    var recipe := SourceOf(res, subject).recipe;
    var builds, checks := recipe.buildRequirements, recipe.checkRequirements;
    var all, some := Active(on, subject), Active(off, subject);
    assert all == builds + checks && some == builds + [];
    if Admissible(on, subject) {
      var last := |builds|;
      assert all[last] == checks[0] && all[last] in all;
      var e := MatchedEdge(on, subject, SourceOf(on, subject).identity, checks[0]);
      forall i | 0 <= i < |some|
        ensures MatchedIds(off, subject, some)[i] != e.identity
      {
        assert all[i] == some[i];
        assert MatchedIds(on, subject, all)[i] != MatchedIds(on, subject, all)[last];
        assert MatchOf(on, subject, some[i]) == MatchOf(off, subject, some[i]);
      }
      assert e.identity !in MatchedIds(off, subject, some);
    }
  }

  /** libpkgsource keeps build requirements in build scopes and check requirements in check scopes. */
  ghost predicate OwnScopes(recipe: Recipe) {
    && (forall r :: r in recipe.buildRequirements ==> r.scope.kind == BuildKind)
    && (forall r :: r in recipe.checkRequirements ==> r.scope.kind == CheckKind)
  }

  lemma BuildsOnly(res: ResolutionResult, subject: Text, r: Requirement)
    requires SubjectAgrees(res, subject) && OwnScopes(SourceOf(res, subject).recipe)
    requires !CheckMember(res.goals, subject) && r in Active(res, subject)
    ensures r.scope.kind == BuildKind
  {
    var builds := SourceOf(res, subject).recipe.buildRequirements;
    assert builds + [] == builds;
  }

  ghost predicate BuildIdentity(edges: seq<Edge>, subject: Text, id: Text) {
    exists b :: b in edges && Direct(b, subject) && b.scope.kind == BuildKind && b.identity == id
  }

  lemma RemovedAndPutBack(res: ResolutionResult, k: nat)
    requires k < |res.edges|
    ensures Inserted(Removed(res, k), k, res.edges[k]) == res
    ensures forall x :: x in res.edges <==> x in Removed(res, k).edges || x == res.edges[k]
  {
    var less := Without(res.edges, k);
    assert less[..k] == res.edges[..k] && less[k..] == res.edges[k + 1..];
    assert res.edges == less[..k] + [res.edges[k]] + less[k..];
    InsertedMembers(Removed(res, k), k, res.edges[k]);
  }

  /** Outside every check goal, a resolution with a check edge is admitted exactly when it is without that edge and a
      direct build edge has the identity of the check edge. */
  lemma DormantCheckVerdict(res: ResolutionResult, subject: Text, k: nat)
    requires SubjectAgrees(res, subject) && OwnScopes(SourceOf(res, subject).recipe)
    requires !CheckMember(res.goals, subject) && k < |res.edges|
    requires Direct(res.edges[k], subject) && res.edges[k].scope.kind == CheckKind
    ensures Admissible(res, subject) <==>
            Admissible(Removed(res, k), subject) && BuildIdentity(res.edges, subject, res.edges[k].identity)
  {
    var e, less := res.edges[k], Removed(res, k);
    assert e in res.edges && Active(less, subject) == Active(res, subject);
    RemovedAndPutBack(res, k);
    forall r | r in Active(res, subject)
      ensures r.scope.kind == BuildKind
    {
      BuildsOnly(res, subject, r);
    }
    if Admissible(res, subject) {
      RemovalVerdict(res, subject, k);
      var r, m := RequirementFor(res, subject, e);
    }
    if Admissible(less, subject) {
      InsertionVerdict(less, subject, k, e);
    }
  }

  /** So it is rejected when no direct build edge has its identity. */
  lemma DormantCheckIsRejected(res: ResolutionResult, subject: Text, e: Edge)
    requires SubjectAgrees(res, subject) && OwnScopes(SourceOf(res, subject).recipe)
    requires !CheckMember(res.goals, subject)
    requires e in res.edges && Direct(e, subject) && e.scope.kind == CheckKind
    requires forall b :: b in res.edges && Direct(b, subject) && b.scope.kind == BuildKind ==> b.identity != e.identity
    ensures !Admissible(res, subject)
  {
    var k :| 0 <= k < |res.edges| && res.edges[k] == e;
    DormantCheckVerdict(res, subject, k);
  }

  /** A requirement of a subject inside a check goal needs its edge. */
  lemma MissingCheckIsRejected(res: ResolutionResult, subject: Text, c: Requirement)
    requires SubjectAgrees(res, subject) && CheckMember(res.goals, subject)
    requires c in SourceOf(res, subject).recipe.checkRequirements
    requires forall e :: e in res.edges && Direct(e, subject) && e.scope == c.scope ==>
               !SamePackage(res.selections, e.required, c.package)
    ensures !Admissible(res, subject)
  {
    var fits := Fits(res.selections, subject, c);
    FilterMembers(fits, res.edges);
    NoneKept(fits, res.edges);
    assert MatchOf(res, subject, c).None?;
    assert c in Active(res, subject);
  }
}
