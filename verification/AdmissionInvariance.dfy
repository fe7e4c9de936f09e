/** What admission does not depend on, how the admitted inputs divide by scope, and a resolution that shows
    why distinct edge identities matter. */
module AdmissionInvariance {
  import opened Bytes
  import opened Numbers
  import opened Sequences
  import opened IdentityWriters
  import opened Records
  import opened Identities
  import opened Resolution
  import opened Admission
  import opened AdmissionTheorems

  // ---------------------------------------------------------------- two views of one resolution

  /** The same selection, but for the order of its source's declaration lists. */
  ghost predicate Reordered(x: SelectedPackage, y: SelectedPackage) {
    && y == x.(candidate := y.candidate)
    && (x.candidate.Some? <==> y.candidate.Some?)
    && (x.candidate.Some? ==> ReorderedCandidate(x.candidate.value, y.candidate.value))
  }

  ghost predicate ReorderedCandidate(x: Candidate, y: Candidate) {
    && x.release == y.release && x.package == y.package && x.source.identity == y.source.identity
    && multiset(x.source.recipe.buildRequirements) == multiset(y.source.recipe.buildRequirements)
    && multiset(x.source.recipe.checkRequirements) == multiset(y.source.recipe.checkRequirements)
    && multiset(x.source.recipe.buildArchitectures) == multiset(y.source.recipe.buildArchitectures)
    && multiset(x.source.recipe.targetArchitectures) == multiset(y.source.recipe.targetArchitectures)
  }

  ghost predicate SameSelection(x: Option<SelectedPackage>, y: Option<SelectedPackage>) {
    (x.Some? <==> y.Some?) && (x.Some? ==> Reordered(x.value, y.value))
  }

  /** All that admission sees of two resolutions agrees, up to order. */
  ghost predicate SameView(a: ResolutionResult, b: ResolutionResult, subject: Text) {
    && a.identity == b.identity
    && a.buildArchitecture == b.buildArchitecture
    && (forall environment :: a.selectedTarget(environment) == b.selectedTarget(environment))
    && (forall id: Text :: SameSelection(Selected(a.selections, id), Selected(b.selections, id)))
    && multiset(DirectInputs(a.edges, subject)) == multiset(DirectInputs(b.edges, subject))
    && (CheckMember(a.goals, subject) <==> CheckMember(b.goals, subject))
  }

  lemma {:induction false} FilterWithin<T>(p: T -> bool, q: T -> bool, xs: seq<T>)
    requires forall x :: x in xs && p(x) ==> q(x)
    ensures Filter(p, Filter(q, xs)) == Filter(p, xs)
  {
    if xs != [] {
      var front, last := xs[..|xs| - 1], xs[|xs| - 1];
      FilterWithin(p, q, front);
      FilterSnoc(p, Filter(q, front), last);
    }
  }

  lemma FitsWithinDirect(res: ResolutionResult, subject: Text, r: Requirement)
    requires InputScopeFrom(r.scope).Some?
    ensures Filter(Fits(res.selections, subject, r), DirectInputs(res.edges, subject)) ==
            Filter(Fits(res.selections, subject, r), res.edges)
  {
    FilterWithin(Fits(res.selections, subject, r), IsDirectInput(subject), res.edges);
  }

  lemma SameMatch(a: ResolutionResult, b: ResolutionResult, subject: Text, r: Requirement)
    requires SameView(a, b, subject) && InputScopeFrom(r.scope).Some?
    ensures MatchOf(a, subject, r) == MatchOf(b, subject, r)
  {
    var fa, fb := Fits(a.selections, subject, r), Fits(b.selections, subject, r);
    var da, db := DirectInputs(a.edges, subject), DirectInputs(b.edges, subject);
    FitsWithinDirect(a, subject, r);
    FitsWithinDirect(b, subject, r);
    forall e: Edge
      ensures fa(e) == fb(e)
    {
      assert SameSelection(Selected(a.selections, e.required), Selected(b.selections, e.required));
    }
    FilterSame(fa, fb, db);
    OnePermuted(fa, da, db);
  }

  lemma SameScopeResolves(a: ResolutionResult, b: ResolutionResult, subject: Text, r: Requirement)
    requires SameView(a, b, subject) && InputScopeFrom(r.scope).Some? && ScopeResolves(a, subject, r)
    ensures ScopeResolves(b, subject, r)
  {
    DirectInputsMembers(a.edges, subject);
    DirectInputsMembers(b.edges, subject);
    SamePermutedMembers(DirectInputs(a.edges, subject), DirectInputs(b.edges, subject));
    forall e | e in b.edges && Direct(e, subject) && e.scope == r.scope
      ensures Selected(b.selections, e.required).Some?
    {
      assert e in DirectInputs(b.edges, subject);
      assert SameSelection(Selected(a.selections, e.required), Selected(b.selections, e.required));
    }
  }

  lemma SameViewSymmetric(a: ResolutionResult, b: ResolutionResult, subject: Text)
    requires SameView(a, b, subject)
    ensures SameView(b, a, subject)
  {
    forall id: Text
      ensures SameSelection(Selected(b.selections, id), Selected(a.selections, id))
    {
      assert SameSelection(Selected(a.selections, id), Selected(b.selections, id));
    }
  }

  lemma SameAuthorised(a: ResolutionResult, b: ResolutionResult, subject: Text, source: Text, r: Requirement)
    requires SameView(a, b, subject) && Authorised(a, subject, source, r)
    ensures Authorised(b, subject, source, r)
    ensures MatchedId(a, subject)(r) == MatchedId(b, subject)(r)
  {
    SameMatch(a, b, subject, r);
    SameScopeResolves(a, b, subject, r);
    var m := MatchOf(a, subject, r).value;
    assert SameSelection(Selected(a.selections, m.required), Selected(b.selections, m.required));
  }

  lemma SameAccounted(a: ResolutionResult, b: ResolutionResult, subject: Text, source: Text, reqs: seq<Requirement>)
    requires SameView(a, b, subject) && Accounted(a, subject, source, reqs)
    ensures Accounted(b, subject, source, reqs)
  {
    forall k | 0 <= k < |reqs|
      ensures Authorised(b, subject, source, reqs[k])
      ensures MatchedId(a, subject)(reqs[k]) == MatchedId(b, subject)(reqs[k])
    {
      assert reqs[k] in reqs;
      SameAuthorised(a, b, subject, source, reqs[k]);
    }
    assert MatchedIds(a, subject, reqs) == MatchedIds(b, subject, reqs);
    DirectInputsMembers(a.edges, subject);
    DirectInputsMembers(b.edges, subject);
    SamePermutedMembers(DirectInputs(a.edges, subject), DirectInputs(b.edges, subject));
  }

  lemma SameActive(a: ResolutionResult, b: ResolutionResult, subject: Text)
    requires SameView(a, b, subject) && SubjectAgrees(a, subject)
    ensures SubjectAgrees(b, subject) && SourceOf(a, subject).identity == SourceOf(b, subject).identity
    ensures multiset(Active(a, subject)) == multiset(Active(b, subject))
  {
    assert SameSelection(Selected(a.selections, subject), Selected(b.selections, subject));
  }

  lemma AdmissibleCarries(a: ResolutionResult, b: ResolutionResult, subject: Text)
    requires SameView(a, b, subject) && Admissible(a, subject)
    ensures Admissible(b, subject)
  {
    SameActive(a, b, subject);
    var source := SourceOf(a, subject).identity;
    SameAccounted(a, b, subject, source, Active(a, subject));
    AccountedPermuted(b, subject, source, Active(a, subject), Active(b, subject));
  }

  /** Resolutions that look the same to admission get the same verdict. */
  lemma SameVerdict(a: ResolutionResult, b: ResolutionResult, subject: Text)
    requires SameView(a, b, subject)
    ensures Admissible(a, subject) <==> Admissible(b, subject)
  {
    SameViewSymmetric(a, b, subject);
    if Admissible(a, subject) {
      AdmissibleCarries(a, b, subject);
    }
    if Admissible(b, subject) {
      AdmissibleCarries(b, a, subject);
    }
  }

  // ---------------------------------------------------------------- the same inputs

  /** An admitted input, its selection reduced to the identity. */
  datatype InputLine = InputLine(scope: InputScope, requirement: Edge, selection: Text, identity: Text)

  function LineOf(input: BuildInput): InputLine {
    InputLine(input.scope, input.requirement, input.selection.identity, input.identity)
  }

  function LineIfAny(input: Option<BuildInput>): Option<InputLine> {
    match input
    case None => None
    case Some(i) => Some(LineOf(i))
  }

  function WrapLine(line: InputLine): Option<InputLine> {
    Some(line)
  }

  function LineId(line: InputLine): Text {
    line.identity
  }

  function Lines(inputs: seq<BuildInput>): seq<InputLine> {
    MapOver(LineOf, inputs)
  }

  ghost function LineFor(sha256: Hash, res: ResolutionResult, subject: Text): Requirement -> Option<InputLine> {
    (r: Requirement) => LineIfAny(InputOf(sha256, res, subject)(r))
  }

  lemma LinesAdmitted(sha256: Hash, res: ResolutionResult, subject: Text, s: BuildInputSet)
    requires IsAdmission(sha256, res, subject, s)
    ensures multiset(MapOver(WrapLine, Lines(s.inputs))) ==
            multiset(MapOver(LineFor(sha256, res, subject), Active(res, subject)))
  {
    var offered := MapOver(InputOf(sha256, res, subject), Active(res, subject));
    MapPermuted(LineIfAny, MapOver(Wrap, s.inputs), offered);
    assert MapOver(LineIfAny, MapOver(Wrap, s.inputs)) == MapOver(WrapLine, Lines(s.inputs));
    assert MapOver(LineIfAny, offered) == MapOver(LineFor(sha256, res, subject), Active(res, subject));
  }

  lemma SameLine(sha256: Hash, a: ResolutionResult, b: ResolutionResult, subject: Text, source: Text, r: Requirement)
    requires SameView(a, b, subject) && Authorised(a, subject, source, r)
    ensures LineFor(sha256, a, subject)(r) == LineFor(sha256, b, subject)(r)
  {
    SameMatch(a, b, subject, r);
    var m := MatchOf(a, subject, r).value;
    assert MatchOf(b, subject, r) == Some(m);
    assert SameSelection(Selected(a.selections, m.required), Selected(b.selections, m.required));
    var p, q := Selected(a.selections, m.required).value, Selected(b.selections, m.required).value;
    assert p.identity == q.identity;
    var scope := InputScopeFrom(r.scope).value;
    var id := Identify(sha256, InputRecord(scope, m.identity, p.identity));
    assert InputOf(sha256, a, subject)(r) == Some(BuildInput(scope, m, p, id));
    assert InputOf(sha256, b, subject)(r) == Some(BuildInput(scope, m, q, id));
  }

  lemma SameLineEach(sha256: Hash, a: ResolutionResult, b: ResolutionResult, subject: Text)
    requires SameView(a, b, subject) && Admissible(a, subject)
    ensures MapOver(LineFor(sha256, a, subject), Active(a, subject)) ==
            MapOver(LineFor(sha256, b, subject), Active(a, subject))
  {
    var reqs := Active(a, subject);
    forall k | 0 <= k < |reqs|
      ensures LineFor(sha256, a, subject)(reqs[k]) == LineFor(sha256, b, subject)(reqs[k])
    {
      assert reqs[k] in reqs;
      SameLine(sha256, a, b, subject, SourceOf(a, subject).identity, reqs[k]);
    }
  }

  lemma SameLines(sha256: Hash, a: ResolutionResult, b: ResolutionResult, subject: Text, sa: BuildInputSet,
                  sb: BuildInputSet)
    requires SameView(a, b, subject)
    requires IsAdmission(sha256, a, subject, sa) && IsAdmission(sha256, b, subject, sb)
    ensures multiset(Lines(sa.inputs)) == multiset(Lines(sb.inputs))
  {
    LinesAdmitted(sha256, a, subject, sa);
    LinesAdmitted(sha256, b, subject, sb);
    SameActive(a, b, subject);
    MapPermuted(LineFor(sha256, b, subject), Active(a, subject), Active(b, subject));
    SameLineEach(sha256, a, b, subject);
    MapInjective(WrapLine, Lines(sa.inputs), Lines(sb.inputs));
  }

  predicate TextLess(a: Text, b: Text) {
    LexLess(a, b)
  }

  /** Sorting identities leaves one order only. */
  lemma {:induction false} SortedUnique(a: seq<Text>, b: seq<Text>)
    requires SortedBy(TextLess, a) && SortedBy(TextLess, b) && multiset(a) == multiset(b)
    ensures a == b
    decreases |a|
  {
    if a == [] {
      assert |multiset(b)| == 0;
    } else {
      LeastAgree(a, b);
      RestsAgree(a, b);
      SortedUnique(a[1..], b[1..]);
      assert a == [a[0]] + a[1..] && b == [b[0]] + b[1..];
    }
  }

  lemma LeastAgree(a: seq<Text>, b: seq<Text>)
    requires SortedBy(TextLess, a) && SortedBy(TextLess, b) && multiset(a) == multiset(b) && a != []
    ensures b != [] && a[0] == b[0]
  {
    var k := PositionOfFirst(a, b);
    var j := PositionOfFirst(b, a);
    LexLessTotal(a[0], b[0]);
  }

  lemma RestsAgree(a: seq<Text>, b: seq<Text>)
    requires multiset(a) == multiset(b) && a != [] && b != [] && a[0] == b[0]
    ensures multiset(a[1..]) == multiset(b[1..])
  {
    assert a == [a[0]] + a[1..] && b == [b[0]] + b[1..];
    assert multiset(a[1..]) == multiset(a) - multiset{a[0]};
    assert multiset(b[1..]) == multiset(b) - multiset{b[0]};
  }

  /** Then the admitted sets have the same ordered identities, and so the same identity. */
  lemma SameInputSetIdentity(sha256: Hash, a: ResolutionResult, b: ResolutionResult, subject: Text,
                             sa: BuildInputSet, sb: BuildInputSet)
    requires SameView(a, b, subject)
    requires IsAdmission(sha256, a, subject, sa) && IsAdmission(sha256, b, subject, sb)
    ensures Ids(sa.inputs) == Ids(sb.inputs) && sa.identity == sb.identity
  {
    SameLines(sha256, a, b, subject, sa, sb);
    MapPermuted(LineId, Lines(sa.inputs), Lines(sb.inputs));
    assert MapOver(LineId, Lines(sa.inputs)) == Ids(sa.inputs);
    assert MapOver(LineId, Lines(sb.inputs)) == Ids(sb.inputs);
    SortedIds(sa.inputs);
    SortedIds(sb.inputs);
    SortedUnique(Ids(sa.inputs), Ids(sb.inputs));
  }

  lemma SortedIds(inputs: Vector<BuildInput>)
    requires SortedBy(InputLess, inputs)
    ensures SortedBy(TextLess, Ids(inputs))
  {
    forall i, j | 0 <= i < j < |inputs|
      ensures !TextLess(Ids(inputs)[j], Ids(inputs)[i])
    {
      assert !InputLess(inputs[j], inputs[i]);
    }
  }

  /** With distinct input identities the lists agree line for line: in scope, edge, and the identities of selection
      and input. */
  lemma SameInputList(sha256: Hash, a: ResolutionResult, b: ResolutionResult, subject: Text, sa: BuildInputSet,
                      sb: BuildInputSet)
    requires SameView(a, b, subject)
    requires IsAdmission(sha256, a, subject, sa) && IsAdmission(sha256, b, subject, sb)
    requires Distinct(Ids(sa.inputs))
    ensures Lines(sa.inputs) == Lines(sb.inputs)
  {
    SameInputSetIdentity(sha256, a, b, subject, sa, sb);
    SameLines(sha256, a, b, subject, sa, sb);
    assert MapOver(LineId, Lines(sa.inputs)) == Ids(sa.inputs);
    assert MapOver(LineId, Lines(sb.inputs)) == Ids(sb.inputs);
    KeyedListsAgree(LineId, Lines(sa.inputs), Lines(sb.inputs));
  }

  /** Where every name stands for the very same selection, as it does however selections, edges and goals are
      permuted and whatever other edges there are, the admitted inputs themselves are the same. */
  lemma SameAdmission(sha256: Hash, a: ResolutionResult, b: ResolutionResult, subject: Text, sa: BuildInputSet,
                      sb: BuildInputSet)
    requires SameView(a, b, subject)
    requires forall id: Text :: Selected(a.selections, id) == Selected(b.selections, id)
    requires IsAdmission(sha256, a, subject, sa) && IsAdmission(sha256, b, subject, sb)
    ensures multiset(sa.inputs) == multiset(sb.inputs)
    ensures Distinct(Ids(sa.inputs)) ==> sa == sb
  {
    SameInputSetIdentity(sha256, a, b, subject, sa, sb);
    SameOffers(sha256, a, b, subject);
    MapInjective(Wrap, sa.inputs, sb.inputs);
    if Distinct(Ids(sa.inputs)) {
      KeyedListsAgree(IdOf, sa.inputs, sb.inputs);
    }
  }

  lemma SameOffers(sha256: Hash, a: ResolutionResult, b: ResolutionResult, subject: Text)
    requires SameView(a, b, subject) && Admissible(a, subject)
    requires forall id: Text :: Selected(a.selections, id) == Selected(b.selections, id)
    ensures SubjectAgrees(b, subject) && Active(a, subject) == Active(b, subject)
    ensures MapOver(InputOf(sha256, a, subject), Active(a, subject)) ==
            MapOver(InputOf(sha256, b, subject), Active(b, subject))
  {
    assert SubjectAgrees(b, subject);
    var reqs := Active(a, subject);
    forall k | 0 <= k < |reqs|
      ensures InputOf(sha256, a, subject)(reqs[k]) == InputOf(sha256, b, subject)(reqs[k])
    {
      assert reqs[k] in reqs;
      SameMatch(a, b, subject, reqs[k]);
    }
  }

  // ---------------------------------------------------------------- order and frame

  lemma SelectedReordered(x: Option<SelectedPackage>)
    ensures SameSelection(x, x)
  {
  }

  /** Permuting selections, edges and goals changes nothing admission sees, nor any selection it finds. */
  lemma OrderDoesNotMatter(a: ResolutionResult, b: ResolutionResult, subject: Text)
    requires b == a.(selections := b.selections, edges := b.edges, goals := b.goals)
    requires multiset(a.selections) == multiset(b.selections)
    requires multiset(a.edges) == multiset(b.edges) && multiset(a.goals) == multiset(b.goals)
    ensures SameView(a, b, subject)
    ensures forall id: Text :: Selected(a.selections, id) == Selected(b.selections, id)
  {
    forall id: Text
      ensures Selected(a.selections, id) == Selected(b.selections, id)
    {
      OnePermuted(Named(id), a.selections, b.selections);
    }
    FilterPermuted(IsDirectInput(subject), a.edges, b.edges);
    SamePermutedMembers(a.goals, b.goals);
  }

  /** Nor does permuting the declaration lists of the sources its selections retain. */
  lemma RequirementOrderDoesNotMatter(a: ResolutionResult, f: SelectedPackage -> SelectedPackage, subject: Text)
    requires forall s :: s in a.selections ==> Reordered(s, f(s))
    ensures SameView(a, a.(selections := MapOver(f, a.selections)), subject)
  {
    forall id: Text
      ensures SameSelection(Selected(a.selections, id), Selected(MapOver(f, a.selections), id))
    {
      FilterMapped(Named(id), f, a.selections);
      FilterMembers(Named(id), a.selections);
      if ExactlyOne(Named(id), a.selections) {
        TheOneFits(Named(id), a.selections);
      }
    }
  }

  lemma {:induction false} FilterMapped(p: SelectedPackage -> bool, f: SelectedPackage -> SelectedPackage,
                                        xs: seq<SelectedPackage>)
    requires forall x :: x in xs ==> p(f(x)) == p(x)
    ensures Filter(p, MapOver(f, xs)) == MapOver(f, Filter(p, xs))
  {
    if xs != [] {
      var front, last := xs[..|xs| - 1], xs[|xs| - 1];
      FilterMapped(p, f, front);
      assert MapOver(f, xs) == MapOver(f, front) + [f(last)];
      FilterSnoc(p, MapOver(f, front), f(last));
      assert last in xs;
    }
  }

  /** Edges of other issuers, of non-build environments, or of scopes other than build and check may come and go. */
  lemma OtherEdgesDoNotMatter(a: ResolutionResult, edges: seq<Edge>, subject: Text)
    requires multiset(DirectInputs(a.edges, subject)) == multiset(DirectInputs(edges, subject))
    ensures SameView(a, a.(edges := edges), subject)
  {
    forall id: Text
      ensures SameSelection(Selected(a.selections, id), Selected(a.selections, id))
    {
      SelectedReordered(Selected(a.selections, id));
    }
  }

  // ---------------------------------------------------------------- projection by scope

  /** The two projections hold every input once. */
  lemma {:induction false} ProjectionConserves(inputs: seq<BuildInput>)
    ensures multiset(InScope(BuildInputs, inputs)) + multiset(InScope(CheckInputs, inputs)) == multiset(inputs)
  {
    if inputs != [] {
      var front, last := inputs[..|inputs| - 1], inputs[|inputs| - 1];
      ProjectionConserves(front);
      assert inputs == front + [last];
      FilterSnoc(HasScope(BuildInputs), front, last);
      FilterSnoc(HasScope(CheckInputs), front, last);
    }
  }

  lemma {:induction false} FilterSorted<T>(less: (T, T) -> bool, p: T -> bool, xs: seq<T>)
    requires SortedBy(less, xs)
    ensures SortedBy(less, Filter(p, xs))
  {
    if xs != [] {
      var front, last := xs[..|xs| - 1], xs[|xs| - 1];
      FilterSorted(less, p, front);
      FilterMembers(p, front);
      var kept := Filter(p, front);
      forall i | 0 <= i < |kept|
        ensures !less(last, kept[i])
      {
        assert kept[i] in front;
        var k :| 0 <= k < |front| && front[k] == kept[i];
        assert xs[k] == front[k];
      }
    }
  }

  /** Each projection keeps the canonical order and holds inputs of its own scope only. */
  lemma ProjectionIsCanonical(scope: InputScope, inputs: seq<BuildInput>)
    requires SortedBy(InputLess, inputs)
    ensures SortedBy(InputLess, InScope(scope, inputs))
    ensures forall i :: i in InScope(scope, inputs) <==> i in inputs && i.scope == scope
  {
    FilterSorted(InputLess, HasScope(scope), inputs);
    FilterMembers(HasScope(scope), inputs);
  }

  function OfScope(scope: InputScope): Option<BuildInput> -> bool {
    (i: Option<BuildInput>) => i.Some? && i.value.scope == scope
  }

  function AsksFor(scope: InputScope): Requirement -> bool {
    (r: Requirement) => InputScopeFrom(r.scope) == Some(scope)
  }

  lemma {:induction false} FilterThrough<T, U>(p: U -> bool, q: T -> bool, f: T -> U, xs: seq<T>)
    requires forall x :: x in xs ==> p(f(x)) == q(x)
    ensures |Filter(p, MapOver(f, xs))| == |Filter(q, xs)|
  {
    if xs != [] {
      var front, last := xs[..|xs| - 1], xs[|xs| - 1];
      FilterThrough(p, q, f, front);
      assert MapOver(f, xs) == MapOver(f, front) + [f(last)];
      FilterSnoc(p, MapOver(f, front), f(last));
      assert last in xs;
    }
  }

  lemma {:induction false} FilterConstant<T>(p: T -> bool, xs: seq<T>, all: bool)
    requires forall x :: x in xs ==> p(x) == all
    ensures Filter(p, xs) == if all then xs else []
  {
    if xs != [] {
      var front, last := xs[..|xs| - 1], xs[|xs| - 1];
      FilterConstant(p, front, all);
      assert xs == front + [last];
    }
  }

  lemma OfferedScope(sha256: Hash, res: ResolutionResult, subject: Text, scope: InputScope)
    requires Admissible(res, subject)
    ensures |Filter(OfScope(scope), MapOver(InputOf(sha256, res, subject), Active(res, subject)))| ==
            |Filter(AsksFor(scope), Active(res, subject))|
  {
    var reqs := Active(res, subject);
    forall r | r in reqs
      ensures OfScope(scope)(InputOf(sha256, res, subject)(r)) == AsksFor(scope)(r)
    {
      assert Authorised(res, subject, SourceOf(res, subject).identity, r);
    }
    FilterThrough(OfScope(scope), AsksFor(scope), InputOf(sha256, res, subject), reqs);
  }

  /** A scope's projection has as many inputs as there are active requirements asking for that scope. */
  lemma ProjectionSize(sha256: Hash, res: ResolutionResult, subject: Text, s: BuildInputSet, scope: InputScope)
    requires IsAdmission(sha256, res, subject, s)
    ensures |InScope(scope, s.inputs)| == |Filter(AsksFor(scope), Active(res, subject))|
  {
    var reqs, wrapped := Active(res, subject), MapOver(Wrap, s.inputs);
    var offered := MapOver(InputOf(sha256, res, subject), reqs);
    FilterThrough(OfScope(scope), HasScope(scope), Wrap, s.inputs);
    FilterPermuted(OfScope(scope), wrapped, offered);
    assert |multiset(Filter(OfScope(scope), wrapped))| == |multiset(Filter(OfScope(scope), offered))|;
    OfferedScope(sha256, res, subject, scope);
  }

  /** Where requirement lists keep to their own scopes, the projections count them: every build requirement, and
      every check requirement if checks are active. */
  lemma ProjectionSizes(sha256: Hash, res: ResolutionResult, subject: Text, s: BuildInputSet)
    requires IsAdmission(sha256, res, subject, s) && OwnScopes(SourceOf(res, subject).recipe)
    ensures var recipe := SourceOf(res, subject).recipe;
            && |InScope(BuildInputs, s.inputs)| == |recipe.buildRequirements|
            && |InScope(CheckInputs, s.inputs)| ==
               if CheckMember(res.goals, subject) then |recipe.checkRequirements| else 0
  {
    var recipe := SourceOf(res, subject).recipe;
    var checks := if CheckMember(res.goals, subject) then recipe.checkRequirements else [];
    forall scope: InputScope
      ensures |InScope(scope, s.inputs)| == if scope.BuildInputs? then |recipe.buildRequirements| else |checks|
    {
      ProjectionSize(sha256, res, subject, s, scope);
      FilterAppend(AsksFor(scope), recipe.buildRequirements, checks);
      FilterConstant(AsksFor(scope), recipe.buildRequirements, scope.BuildInputs?);
      FilterConstant(AsksFor(scope), checks, scope.CheckInputs?);
    }
  }

  // ---------------------------------------------------------------- two edges under one identity

  /** A SHA-256 text: one digit throughout. */
  function Digits(c: Byte): (id: Text)
    ensures IsHexDigit(c) ==> CanonicalSha256Hex(id)
  {
    seq(64, _ => c)
  }

  const SUBJECT: Text := Digits('0')
  const NEEDED: Text := Digits('1')
  const SOURCE: Text := Digits('2')
  const EDGE: Text := Digits('3')
  const RELEASE: Text := Digits('4')

  /** Every identity in the resolution is a SHA-256 text. */
  ghost predicate CanonicalIdentities(res: ResolutionResult) {
    && CanonicalSha256Hex(res.identity)
    && (forall s :: s in res.selections ==>
          CanonicalSha256Hex(s.identity) && CanonicalSha256Hex(s.release) && CanonicalSha256Hex(s.sourceSnapshot))
    && (forall e :: e in res.edges ==>
          CanonicalSha256Hex(e.identity) && CanonicalSha256Hex(e.issuer) && CanonicalSha256Hex(e.required))
  }

  /** One build requirement, its edge, and a check edge that carries the same identity. */
  function TwinEdges(): ResolutionResult {
    var architectures := Architectures("x86_64", "x86_64");
    var scope := Scope(BuildKind, []);
    var source := Source(SOURCE, RecipeLists([Requirement(scope, "tool", [])], [], [], []));
    var authority := Witness(CatalogAuthority, Some(SOURCE), []);
    ResolutionResult(
      Digits('5'), "x86_64", (environment: Environment) => "x86_64",
      [SelectedPackage(SUBJECT, "example", TargetEnvironment, architectures, RELEASE, SOURCE,
                       Some(Candidate(source, RELEASE, "example"))),
       SelectedPackage(NEEDED, "tool", BuildEnvironment, architectures, RELEASE, Digits('6'), None)],
      [Edge(EDGE, SUBJECT, NEEDED, scope, BuildEnvironment, authority),
       Edge(EDGE, SUBJECT, NEEDED, Scope(CheckKind, []), BuildEnvironment, authority)],
      [])
  }

  lemma TwinSelections()
    ensures Selected(TwinEdges().selections, SUBJECT) == Some(TwinEdges().selections[0])
    ensures Selected(TwinEdges().selections, NEEDED) == Some(TwinEdges().selections[1])
  {
    assert SUBJECT[0] != NEEDED[0];
    OnlyAtMakesOne(Named(SUBJECT), TwinEdges().selections, 0);
    OnlyAtMakesOne(Named(NEEDED), TwinEdges().selections, 1);
  }

  lemma TwinMatch(r: Requirement)
    requires r == Requirement(Scope(BuildKind, []), "tool", [])
    ensures MatchOf(TwinEdges(), SUBJECT, r) == Some(TwinEdges().edges[0])
    ensures Authorised(TwinEdges(), SUBJECT, SOURCE, r)
  {
    TwinSelections();
    OnlyAtMakesOne(Fits(TwinEdges().selections, SUBJECT, r), TwinEdges().edges, 0);
  }

  lemma TwinAccounts(r: Requirement)
    requires r == Requirement(Scope(BuildKind, []), "tool", [])
    ensures Accounted(TwinEdges(), SUBJECT, SOURCE, [r])
    ensures DirectInputs(TwinEdges().edges, SUBJECT) == TwinEdges().edges
  {
    TwinMatch(r);
    assert MatchedIds(TwinEdges(), SUBJECT, [r]) == [EDGE];
    FilterConstant(IsDirectInput(SUBJECT), TwinEdges().edges, true);
  }

  lemma TwinSubject(r: Requirement)
    requires r == Requirement(Scope(BuildKind, []), "tool", [])
    ensures SubjectAgrees(TwinEdges(), SUBJECT) && SourceOf(TwinEdges(), SUBJECT).identity == SOURCE
    ensures Active(TwinEdges(), SUBJECT) == [r] && OwnScopes(SourceOf(TwinEdges(), SUBJECT).recipe)
  {
    TwinSelections();
  }

  /** More direct edges than requirements rule out a bijection. */
  lemma LooseEdge(res: ResolutionResult, subject: Text, source: Text, reqs: seq<Requirement>)
    requires SubjectAgrees(res, subject) && source == SourceOf(res, subject).identity && reqs == Active(res, subject)
    requires Accounted(res, subject, source, reqs) && |DirectInputs(res.edges, subject)| > |reqs|
    ensures Admissible(res, subject) && !OneToOne(res, subject)
  {
    AdmittedOneToOne(res, subject);
  }

  lemma TwinIdentities()
    ensures CanonicalIdentities(TwinEdges())
  {
  }

  /** Such a resolution is admitted with a dormant check edge no requirement asked for: consumed edges are remembered
      by identity, so the leftover one passes the second sweep. */
  lemma TwinEdgesAreAdmitted()
    ensures CanonicalIdentities(TwinEdges())
    ensures Admissible(TwinEdges(), SUBJECT) && !OneToOne(TwinEdges(), SUBJECT)
    ensures |Active(TwinEdges(), SUBJECT)| == 1 && |DirectInputs(TwinEdges().edges, SUBJECT)| == 2
    ensures OwnScopes(SourceOf(TwinEdges(), SUBJECT).recipe) && !CheckMember(TwinEdges().goals, SUBJECT)
    ensures var e := TwinEdges().edges[1]; Direct(e, SUBJECT) && e.scope.kind == CheckKind
  {
    var r := Requirement(Scope(BuildKind, []), "tool", []);
    TwinIdentities();
    TwinSubject(r);
    TwinAccounts(r);
    LooseEdge(TwinEdges(), SUBJECT, SOURCE, [r]);
  }
}
