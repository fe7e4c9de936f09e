/** Admission of direct build inputs: what a resolution must be, and the loops that decide it. */
module Admission {
  import opened Bytes
  import opened Sequences
  import opened IdentityWriters
  import opened Records
  import opened Identities
  import opened Resolution

  datatype BuildInput = BuildInput(scope: InputScope, requirement: Edge, selection: SelectedPackage, identity: Text)

  datatype BuildInputSet = BuildInputSet(
    subject: SelectedPackage, resolution: Text, inputs: Vector<BuildInput>, identity: Text)

  // ---------------------------------------------------------------- what admission demands

  ghost function Named(id: Text): SelectedPackage -> bool {
    (s: SelectedPackage) => s.identity == id
  }

  /** The selection with an identity, when exactly one has it. */
  ghost function Selected(selections: seq<SelectedPackage>, id: Text): Option<SelectedPackage> {
    if ExactlyOne(Named(id), selections) then Some(TheOne(Named(id), selections)) else None
  }

  predicate Direct(e: Edge, subject: Text) {
    e.issuer == subject && e.environment == BuildEnvironment
  }

  predicate DirectInput(e: Edge, subject: Text) {
    Direct(e, subject) && (e.scope.kind == BuildKind || e.scope.kind == CheckKind)
  }

  ghost predicate SamePackage(selections: seq<SelectedPackage>, id: Text, package: Text) {
    Selected(selections, id).Some? && Selected(selections, id).value.package == package
  }

  /** The edges that could satisfy a requirement: the subject's own, of its scope, for its package. */
  ghost function Fits(selections: seq<SelectedPackage>, subject: Text, r: Requirement): Edge -> bool {
    (e: Edge) => Direct(e, subject) && e.scope == r.scope && SamePackage(selections, e.required, r.package)
  }

  /** The edge that satisfies a requirement, when exactly one could. */
  ghost function MatchOf(res: ResolutionResult, subject: Text, r: Requirement): Option<Edge> {
    var fits := Fits(res.selections, subject, r);
    if ExactlyOne(fits, res.edges) then Some(TheOne(fits, res.edges)) else None
  }

  /** Every direct edge of the requirement's scope names exactly one selection. */
  ghost predicate ScopeResolves(res: ResolutionResult, subject: Text, r: Requirement) {
    forall e :: e in res.edges && Direct(e, subject) && e.scope == r.scope ==>
      Selected(res.selections, e.required).Some?
  }

  predicate Witnessed(w: Witness, source: Text, r: Requirement) {
    w.kind == CatalogAuthority && w.catalogSource == Some(source) && w.catalogOrigins == r.origins
  }

  function InputScopeFrom(scope: Scope): Option<InputScope> {
    match scope.kind
    case BuildKind => Some(BuildInputs)
    case CheckKind => Some(CheckInputs)
    case OtherKind(_) => None
  }

  ghost predicate Authorised(res: ResolutionResult, subject: Text, source: Text, r: Requirement) {
    && ScopeResolves(res, subject, r)
    && var m := MatchOf(res, subject, r);
    && m.Some?
    && var p := Selected(res.selections, m.value.required);
    && p.Some? && p.value.environment == BuildEnvironment
    && Witnessed(m.value.authority, source, r)
    && InputScopeFrom(r.scope).Some?
  }

  ghost function MatchedId(res: ResolutionResult, subject: Text): Requirement -> Text {
    (r: Requirement) => match MatchOf(res, subject, r) case Some(e) => e.identity case None => []
  }

  ghost function MatchedIds(res: ResolutionResult, subject: Text, reqs: seq<Requirement>): (ids: seq<Text>)
    ensures |ids| == |reqs|
  {
    MapOver(MatchedId(res, subject), reqs)
  }

  ghost predicate AllAuthorised(res: ResolutionResult, subject: Text, source: Text, reqs: seq<Requirement>) {
    forall r :: r in reqs ==> Authorised(res, subject, source, r)
  }

  ghost predicate NothingUndeclared(res: ResolutionResult, subject: Text, reqs: seq<Requirement>) {
    forall e :: e in res.edges && DirectInput(e, subject) ==> e.identity in MatchedIds(res, subject, reqs)
  }

  /** The requirements and the direct input edges account for each other. */
  ghost predicate Accounted(res: ResolutionResult, subject: Text, source: Text, reqs: seq<Requirement>) {
    && AllAuthorised(res, subject, source, reqs)
    && Distinct(MatchedIds(res, subject, reqs))
    && NothingUndeclared(res, subject, reqs)
  }

  ghost predicate CheckMember(goals: seq<Goal>, subject: Text) {
    exists g :: g in goals && g.kind == CheckKind && subject in g.members
  }

  /** Build requirements are always active; check requirements when the subject belongs to a check goal. */
  ghost function ActiveRequirements(goals: seq<Goal>, subject: Text, recipe: Recipe): seq<Requirement> {
    recipe.buildRequirements + if CheckMember(goals, subject) then recipe.checkRequirements else []
  }

  predicate AgreesWithCatalog(s: SelectedPackage) {
    && s.candidate.Some?
    && s.candidate.value.source.identity == s.sourceSnapshot
    && s.candidate.value.release == s.release
    && s.candidate.value.package == s.package
  }

  function ExpectedArchitectures(res: ResolutionResult, environment: Environment): Architectures {
    Architectures(res.buildArchitecture, res.selectedTarget(environment))
  }

  /** The subject: one catalog-backed selection that agrees with its catalog authority and the request. */
  ghost predicate SubjectAgrees(res: ResolutionResult, subject: Text) {
    && var s := Selected(res.selections, subject);
    && s.Some? && AgreesWithCatalog(s.value)
    && s.value.architectures == ExpectedArchitectures(res, s.value.environment)
  }

  ghost function SourceOf(res: ResolutionResult, subject: Text): Source
    requires SubjectAgrees(res, subject)
  {
    Selected(res.selections, subject).value.candidate.value.source
  }

  ghost function Active(res: ResolutionResult, subject: Text): seq<Requirement>
    requires SubjectAgrees(res, subject)
  {
    ActiveRequirements(res.goals, subject, SourceOf(res, subject).recipe)
  }

  ghost predicate Admissible(res: ResolutionResult, subject: Text) {
    && SubjectAgrees(res, subject)
    && Accounted(res, subject, SourceOf(res, subject).identity, Active(res, subject))
  }

  // ---------------------------------------------------------------- what admission yields

  ghost function InputOf(sha256: Hash, res: ResolutionResult, subject: Text): Requirement -> Option<BuildInput> {
    (r: Requirement) =>
      var m := MatchOf(res, subject, r);
      var scope := InputScopeFrom(r.scope);
      if m.None? || scope.None? then None
      else
        var p := Selected(res.selections, m.value.required);
        if p.None? then None
        else Some(BuildInput(scope.value, m.value, p.value,
                             Identify(sha256, InputRecord(scope.value, m.value.identity, p.value.identity))))
  }

  function Wrap(input: BuildInput): Option<BuildInput> {
    Some(input)
  }

  function IdOf(input: BuildInput): Text {
    input.identity
  }

  function Ids(inputs: Vector<BuildInput>): Vector<Text> {
    MapOver(IdOf, inputs)
  }

  function InputLess(a: BuildInput, b: BuildInput): bool {
    LexLess(a.identity, b.identity)
  }

  /** The admitted set: one input for each active requirement, in the order of their identities. */
  ghost predicate IsAdmission(sha256: Hash, res: ResolutionResult, subject: Text, s: BuildInputSet) {
    && Admissible(res, subject)
    && Some(s.subject) == Selected(res.selections, subject)
    && s.resolution == res.identity
    && multiset(MapOver(Wrap, s.inputs)) == multiset(MapOver(InputOf(sha256, res, subject), Active(res, subject)))
    && SortedBy(InputLess, s.inputs)
    && s.identity == Identify(sha256, InputSetRecord(res.identity, subject, Ids(s.inputs)))
  }

  // ---------------------------------------------------------------- helpers of admit

  lemma FilterPrefixShorter<T>(p: T -> bool, xs: seq<T>, k: nat)
    requires k <= |xs|
    ensures |Filter(p, xs[..k])| <= |Filter(p, xs)|
  {
    FilterAppend(p, xs[..k], xs[k..]);
    assert xs == xs[..k] + xs[k..];
  }

  lemma FilterNext<T>(p: T -> bool, xs: seq<T>, k: nat)
    requires k < |xs|
    ensures Filter(p, xs[..k + 1]) == Filter(p, xs[..k]) + if p(xs[k]) then [xs[k]] else []
  {
    assert xs[..k + 1] == xs[..k] + [xs[k]];
    FilterSnoc(p, xs[..k], xs[k]);
  }

  function ListOf<T>(found: Option<T>): seq<T> {
    match found
    case None => []
    case Some(x) => [x]
  }

  /** Finds the selection with an identity; a second one, or none, is an error. */
  method RequireSelection(selections: seq<SelectedPackage>, id: Text) returns (found: Option<SelectedPackage>)
    ensures found == Selected(selections, id)
  {
    var result: Option<SelectedPackage> := None;
    for i := 0 to |selections|
      invariant Filter(Named(id), selections[..i]) == ListOf(result)
    {
      FilterNext(Named(id), selections, i);
      FilterPrefixShorter(Named(id), selections, i + 1);
      if selections[i].identity == id {
        if result.Some? {
          return None;
        }
        result := Some(selections[i]);
      }
    }
    assert selections[..|selections|] == selections;
    return result;
  }

  method IsCheckGoalMember(goals: seq<Goal>, subject: Text) returns (member: bool)
    ensures member <==> CheckMember(goals, subject)
  {
    for i := 0 to |goals|
      invariant forall k :: 0 <= k < i && goals[k].kind == CheckKind ==> subject !in goals[k].members
    {
      if goals[i].kind == CheckKind {
        for j := 0 to |goals[i].members|
          invariant subject !in goals[i].members[..j]
        {
          if goals[i].members[j] == subject {
            assert goals[i] in goals;
            return true;
          }
        }
        assert goals[i].members[..|goals[i].members|] == goals[i].members;
      }
    }
    return false;
  }

  /** The active requirements, sorted by the order libpkgsource gives them. */
  method DirectRequirements(before: (Requirement, Requirement) -> bool, recipe: Recipe, includeCheck: bool)
    returns (result: seq<Requirement>)
    ensures multiset(result) ==
            multiset(recipe.buildRequirements + if includeCheck then recipe.checkRequirements else [])
    ensures |result| < TWO_64
    ensures StrictWeakOrder(before) ==> SortedBy(before, result)
  {
    result := recipe.buildRequirements;
    if includeCheck {
      result := result + recipe.checkRequirements;
    }
    assert includeCheck || recipe.buildRequirements + [] == recipe.buildRequirements;
    result := Sort(before, result);
  }

  /** The edges before an index that could satisfy a requirement. */
  ghost function FitsBefore(res: ResolutionResult, subject: Text, r: Requirement, i: nat): seq<Edge>
    requires i <= |res.edges|
  {
    Filter(Fits(res.selections, subject, r), res.edges[..i])
  }

  lemma FitsNext(res: ResolutionResult, subject: Text, r: Requirement, i: nat)
    requires i < |res.edges|
    ensures FitsBefore(res, subject, r, i + 1) == FitsBefore(res, subject, r, i) +
              if Fits(res.selections, subject, r)(res.edges[i]) then [res.edges[i]] else []
  {
    FilterNext(Fits(res.selections, subject, r), res.edges, i);
  }

  lemma AmbiguousMatch(res: ResolutionResult, subject: Text, r: Requirement, i: nat)
    requires i <= |res.edges| && |FitsBefore(res, subject, r, i)| > 1
    ensures MatchOf(res, subject, r).None?
  {
    FilterPrefixShorter(Fits(res.selections, subject, r), res.edges, i);
  }

  lemma MatchAtEnd(res: ResolutionResult, subject: Text, r: Requirement, found: Option<Edge>)
    requires FitsBefore(res, subject, r, |res.edges|) == ListOf(found)
    ensures MatchOf(res, subject, r) == found
  {
    assert res.edges[..|res.edges|] == res.edges;
  }

  /** Every direct edge of the requirement's scope before an index names exactly one selection. */
  ghost predicate ResolvesBefore(res: ResolutionResult, subject: Text, r: Requirement, i: nat)
    requires i <= |res.edges|
  {
    forall k :: 0 <= k < i && Direct(res.edges[k], subject) && res.edges[k].scope == r.scope ==>
      Selected(res.selections, res.edges[k].required).Some?
  }

  lemma UnresolvedScope(res: ResolutionResult, subject: Text, r: Requirement, i: nat)
    requires i < |res.edges| && Direct(res.edges[i], subject) && res.edges[i].scope == r.scope
    requires Selected(res.selections, res.edges[i].required).None?
    ensures !ScopeResolves(res, subject, r)
  {
    assert res.edges[i] in res.edges;
  }

  /** The inner loop of admit: the one edge that satisfies a requirement, and the selection it requires. */
  method FindMatch(res: ResolutionResult, subject: Text, r: Requirement)
    returns (found: Option<(Edge, SelectedPackage)>)
    ensures found.Some? <==> ScopeResolves(res, subject, r) && MatchOf(res, subject, r).Some?
    ensures found.Some? ==> MatchOf(res, subject, r) == Some(found.value.0) &&
                            Selected(res.selections, found.value.0.required) == Some(found.value.1)
  {
    var match': Option<Edge> := None;
    var required: Option<SelectedPackage> := None;
    for i := 0 to |res.edges|
      invariant FitsBefore(res, subject, r, i) == ListOf(match')
      invariant ResolvesBefore(res, subject, r, i)
      invariant match'.Some? <==> required.Some?
      invariant match'.Some? ==> Selected(res.selections, match'.value.required) == required
    {
      var edge := res.edges[i];
      FitsNext(res, subject, r, i);
      if edge.issuer == subject && edge.environment == BuildEnvironment && edge.scope == r.scope {
        var selected := RequireSelection(res.selections, edge.required);
        if selected.None? {
          UnresolvedScope(res, subject, r, i);
          return None;
        }
        if selected.value.package == r.package {
          if match'.Some? {
            AmbiguousMatch(res, subject, r, i + 1);
            return None;
          }
          match', required := Some(edge), selected;
        }
      }
    }
    MatchAtEnd(res, subject, r, match');
    return if match'.None? then None else Some((match'.value, required.value));
  }

  // ---------------------------------------------------------------- admit

  lemma InputOrderIsStrict()
    ensures StrictWeakOrder(InputLess)
  {
    forall x: BuildInput
      ensures !InputLess(x, x)
    {
      LexLessIrreflexive(x.identity);
    }
    forall x: BuildInput, y: BuildInput
      ensures InputLess(x, y) ==> !InputLess(y, x)
    {
      LexLessIrreflexive(x.identity);
      if InputLess(x, y) && InputLess(y, x) {
        LexLessTransitive(x.identity, y.identity, x.identity);
      }
    }
    forall x: BuildInput, y: BuildInput, z: BuildInput
      ensures !InputLess(y, x) && !InputLess(z, y) ==> !InputLess(z, x)
    {
      LexLessTotal(x.identity, y.identity);
      LexLessTotal(y.identity, z.identity);
      if InputLess(x, y) && InputLess(z, x) {
        LexLessTransitive(z.identity, x.identity, y.identity);
      }
    }
  }

  /** The order in which requirements are met does not matter. */
  lemma AccountedPermuted(res: ResolutionResult, subject: Text, source: Text, a: seq<Requirement>, b: seq<Requirement>)
    requires multiset(a) == multiset(b)
    ensures Accounted(res, subject, source, a) <==> Accounted(res, subject, source, b)
  {
    SamePermutedMembers(a, b);
    MapPermuted(MatchedId(res, subject), a, b);
    DistinctPermuted(MatchedIds(res, subject, a), MatchedIds(res, subject, b));
    SamePermutedMembers(MatchedIds(res, subject, a), MatchedIds(res, subject, b));
  }

  /** What admit has established for a requirement when it comes to record its edge. */
  ghost predicate GrantedBy(res: ResolutionResult, subject: Text, source: Text, r: Requirement, g: Grant) {
    && ScopeResolves(res, subject, r)
    && MatchOf(res, subject, r) == Some(g.edge)
    && Selected(res.selections, g.edge.required) == Some(g.selection)
    && g.selection.environment == BuildEnvironment
    && Witnessed(g.edge.authority, source, r)
  }

  datatype Grant = Grant(edge: Edge, selection: SelectedPackage)

  ghost predicate AllGranted(res: ResolutionResult, subject: Text, source: Text, reqs: seq<Requirement>,
                             grants: seq<Grant>)
    requires |grants| <= |reqs|
  {
    forall k :: 0 <= k < |grants| ==> GrantedBy(res, subject, source, reqs[k], grants[k])
  }

  function EdgeId(g: Grant): Text {
    g.edge.identity
  }

  function InputFor(sha256: Hash, scope: InputScope, g: Grant): BuildInput {
    BuildInput(scope, g.edge, g.selection, Identify(sha256, InputRecord(scope, g.edge.identity, g.selection.identity)))
  }

  lemma GrantSettles(sha256: Hash, res: ResolutionResult, subject: Text, source: Text, r: Requirement, g: Grant)
    requires GrantedBy(res, subject, source, r, g)
    ensures MatchedId(res, subject)(r) == g.edge.identity
    ensures Authorised(res, subject, source, r) <==> InputScopeFrom(r.scope).Some?
    ensures InputScopeFrom(r.scope).Some? ==>
              InputOf(sha256, res, subject)(r) == Some(InputFor(sha256, InputScopeFrom(r.scope).value, g))
  {
  }

  /** The steps of the loop for one requirement, up to recording its edge. */
  method GrantRequirement(res: ResolutionResult, subject: Text, source: Text, r: Requirement)
    returns (granted: Option<Grant>)
    ensures granted.Some? ==> GrantedBy(res, subject, source, r, granted.value)
    ensures granted.None? ==> !Authorised(res, subject, source, r)
  {
    var found := FindMatch(res, subject, r);
    if found.None? {
      return None;
    }
    var (edge, required) := found.value;
    if required.environment != BuildEnvironment || !Witnessed(edge.authority, source, r) {
      return None;
    }
    return Some(Grant(edge, required));
  }

  lemma NotAuthorised(res: ResolutionResult, subject: Text, source: Text, reqs: seq<Requirement>, i: nat)
    requires i < |reqs| && !Authorised(res, subject, source, reqs[i])
    ensures !Accounted(res, subject, source, reqs)
  {
    assert reqs[i] in reqs;
  }

  lemma MatchedTwice(sha256: Hash, res: ResolutionResult, subject: Text, source: Text, reqs: seq<Requirement>,
                     grants: seq<Grant>, g: Grant, consumed: set<Text>)
    requires |grants| < |reqs| && AllGranted(res, subject, source, reqs, grants)
    requires GrantedBy(res, subject, source, reqs[|grants|], g)
    requires Recorded(grants, consumed) && g.edge.identity in consumed
    ensures !Accounted(res, subject, source, reqs)
  {
    var k :| 0 <= k < |grants| && grants[k].edge.identity == g.edge.identity;
    GrantSettles(sha256, res, subject, source, reqs[k], grants[k]);
    GrantSettles(sha256, res, subject, source, reqs[|grants|], g);
    assert MatchedIds(res, subject, reqs)[k] == MatchedIds(res, subject, reqs)[|grants|];
  }

  /** consumed holds the identities of the recorded edges, each recorded once. */
  ghost predicate Recorded(grants: seq<Grant>, consumed: set<Text>) {
    && (forall j, k :: 0 <= j < k < |grants| ==> grants[j].edge.identity != grants[k].edge.identity)
    && consumed == set k | 0 <= k < |grants| :: grants[k].edge.identity
  }

  lemma RecordNext(grants: seq<Grant>, consumed: set<Text>, g: Grant)
    requires Recorded(grants, consumed) && g.edge.identity !in consumed
    ensures Recorded(grants + [g], consumed + {g.edge.identity})
  {
    var next, now := grants + [g], consumed + {g.edge.identity};
    forall x
      ensures x in now <==> x in (set k | 0 <= k < |next| :: next[k].edge.identity)
    {
      if x in consumed {
        var k :| 0 <= k < |grants| && grants[k].edge.identity == x;
        assert next[k].edge.identity == x;
      }
      if x == g.edge.identity {
        assert next[|grants|].edge.identity == x;
      }
    }
  }

  lemma GrantNext(res: ResolutionResult, subject: Text, source: Text, reqs: seq<Requirement>, grants: seq<Grant>,
                  g: Grant)
    requires |grants| < |reqs| && AllGranted(res, subject, source, reqs, grants)
    requires GrantedBy(res, subject, source, reqs[|grants|], g)
    ensures AllGranted(res, subject, source, reqs, grants + [g])
  {
  }

  lemma InputNext(sha256: Hash, reqs: seq<Requirement>, grants: seq<Grant>, inputs: seq<BuildInput>, g: Grant,
                  input: BuildInput)
    requires |grants| < |reqs| && InputsAre(sha256, reqs, grants, inputs)
    requires InputScopeFrom(reqs[|grants|].scope).Some?
    requires input == InputFor(sha256, InputScopeFrom(reqs[|grants|].scope).value, g)
    ensures InputsAre(sha256, reqs, grants + [g], inputs + [input])
  {
  }

  ghost predicate InputsAre(sha256: Hash, reqs: seq<Requirement>, grants: seq<Grant>, inputs: seq<BuildInput>)
    requires |grants| <= |reqs|
  {
    && |inputs| == |grants|
    && forall k :: 0 <= k < |grants| ==>
         InputScopeFrom(reqs[k].scope).Some? &&
         inputs[k] == InputFor(sha256, InputScopeFrom(reqs[k].scope).value, grants[k])
  }

  lemma MatchedAtEnd(sha256: Hash, res: ResolutionResult, subject: Text, source: Text, reqs: seq<Requirement>,
                     grants: seq<Grant>, inputs: seq<BuildInput>)
    requires |grants| == |reqs| && AllGranted(res, subject, source, reqs, grants)
    requires InputsAre(sha256, reqs, grants, inputs)
    ensures AllAuthorised(res, subject, source, reqs)
    ensures MatchedIds(res, subject, reqs) == MapOver(EdgeId, grants)
    ensures MapOver(Wrap, inputs) == MapOver(InputOf(sha256, res, subject), reqs)
  {
    forall k | 0 <= k < |reqs|
      ensures MatchedId(res, subject)(reqs[k]) == grants[k].edge.identity
      ensures Authorised(res, subject, source, reqs[k])
      ensures InputOf(sha256, res, subject)(reqs[k]) == Some(inputs[k])
    {
      GrantSettles(sha256, res, subject, source, reqs[k], grants[k]);
    }
  }

  lemma RecordedAtEnd(grants: seq<Grant>, consumed: set<Text>)
    requires Recorded(grants, consumed)
    ensures Distinct(MapOver(EdgeId, grants))
    ensures forall x :: x in consumed <==> x in MapOver(EdgeId, grants)
  {
    var ids := MapOver(EdgeId, grants);
    forall x
      ensures x in consumed <==> x in ids
    {
      if x in consumed {
        var k :| 0 <= k < |grants| && grants[k].edge.identity == x;
        assert ids[k] == x;
      }
      if x in ids {
        var k :| 0 <= k < |ids| && ids[k] == x;
        assert grants[k].edge.identity == x;
      }
    }
  }

  /** The requirement loop of admit. */
  method MatchRequirements(sha256: Hash, res: ResolutionResult, subject: Text, source: Text, reqs: seq<Requirement>)
    returns (ok: bool, consumed: set<Text>, inputs: seq<BuildInput>)
    ensures !ok ==> !Accounted(res, subject, source, reqs)
    ensures ok ==> AllAuthorised(res, subject, source, reqs) && Distinct(MatchedIds(res, subject, reqs))
    ensures ok ==> forall x :: x in consumed <==> x in MatchedIds(res, subject, reqs)
    ensures ok ==> MapOver(Wrap, inputs) == MapOver(InputOf(sha256, res, subject), reqs)
  {
    ghost var grants: seq<Grant> := [];
    consumed, inputs := {}, [];
    for i := 0 to |reqs|
      invariant |grants| == i && AllGranted(res, subject, source, reqs, grants)
      invariant Recorded(grants, consumed)
      invariant InputsAre(sha256, reqs, grants, inputs)
    {
      var granted := GrantRequirement(res, subject, source, reqs[i]);
      if granted.None? {
        NotAuthorised(res, subject, source, reqs, i);
        return false, consumed, inputs;
      }
      var g := granted.value;
      if g.edge.identity in consumed {
        MatchedTwice(sha256, res, subject, source, reqs, grants, g, consumed);
        return false, consumed, inputs;
      }
      RecordNext(grants, consumed, g);
      consumed := consumed + {g.edge.identity};
      var scope := InputScopeFrom(reqs[i].scope);
      if scope.None? {
        GrantSettles(sha256, res, subject, source, reqs[i], g);
        NotAuthorised(res, subject, source, reqs, i);
        return false, consumed, inputs;
      }
      var id := InputId(sha256, scope.value, g.edge.identity, g.selection.identity);
      var input := BuildInput(scope.value, g.edge, g.selection, id);
      GrantNext(res, subject, source, reqs, grants, g);
      InputNext(sha256, reqs, grants, inputs, g, input);
      grants, inputs := grants + [g], inputs + [input];
    }
    MatchedAtEnd(sha256, res, subject, source, reqs, grants, inputs);
    RecordedAtEnd(grants, consumed);
    return true, consumed, inputs;
  }

  /** The second sweep of admit: no direct build or check edge is left over. */
  method AllConsumed(edges: seq<Edge>, subject: Text, consumed: set<Text>) returns (ok: bool)
    ensures ok <==> forall e :: e in edges && DirectInput(e, subject) ==> e.identity in consumed
  {
    for i := 0 to |edges|
      invariant forall k :: 0 <= k < i && DirectInput(edges[k], subject) ==> edges[k].identity in consumed
    {
      if DirectInput(edges[i], subject) && edges[i].identity !in consumed {
        assert edges[i] in edges;
        return false;
      }
    }
    return true;
  }

  /** Succeeds exactly on the admissible resolutions, whatever order libpkgsource sorts requirements in. */
  method Admit(sha256: Hash, before: (Requirement, Requirement) -> bool, res: ResolutionResult, subject: Text)
    returns (r: Result<BuildInputSet>)
    ensures r.Success? <==> Admissible(res, subject)
    ensures r.Success? ==> IsAdmission(sha256, res, subject, r.value)
    ensures r.Failure? ==> r.error == InvalidRequest
  {
    var found := RequireSelection(res.selections, subject);
    if found.None? || !AgreesWithCatalog(found.value) ||
       found.value.architectures != ExpectedArchitectures(res, found.value.environment) {
      return Failure(InvalidRequest);
    }
    var source := found.value.candidate.value.source;
    var member := IsCheckGoalMember(res.goals, subject);
    var reqs := DirectRequirements(before, source.recipe, member);
    AccountedPermuted(res, subject, source.identity, reqs, Active(res, subject));
    var ok, consumed, inputs := MatchRequirements(sha256, res, subject, source.identity, reqs);
    if !ok {
      return Failure(InvalidRequest);
    }
    ok := AllConsumed(res.edges, subject, consumed);
    if !ok {
      return Failure(InvalidRequest);
    }
    InputOrderIsStrict();
    var sorted := Sort(InputLess, inputs);
    MapPermuted(Wrap, inputs, sorted);
    MapPermuted(InputOf(sha256, res, subject), reqs, Active(res, subject));
    var id := InputSetId(sha256, res.identity, subject, Ids(sorted));
    return Success(BuildInputSet(found.value, res.identity, sorted, id));
  }

  /** The inputs of one scope, in the order of the set. */
  method ForScope(s: BuildInputSet, scope: InputScope) returns (result: seq<BuildInput>)
    ensures result == InScope(scope, s.inputs)
  {
    result := [];
    for i := 0 to |s.inputs|
      invariant result == InScope(scope, s.inputs[..i])
    {
      FilterNext(HasScope(scope), s.inputs, i);
      if s.inputs[i].scope == scope {
        result := result + [s.inputs[i]];
      }
    }
    assert s.inputs[..|s.inputs|] == s.inputs;
  }

  function HasScope(scope: InputScope): BuildInput -> bool {
    (i: BuildInput) => i.scope == scope
  }

  function InScope(scope: InputScope, inputs: seq<BuildInput>): seq<BuildInput> {
    Filter(HasScope(scope), inputs)
  }
}
