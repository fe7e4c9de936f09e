/** Laws of admission in the fields of the facts: which goals activate checks, and which facts may come and go. */
module AdmissionLaws {
  import opened Bytes
  import opened Sequences
  import opened IdentityWriters
  import opened Resolution
  import opened Admission
  import opened AdmissionTheorems
  import opened AdmissionInvariance
  import opened AdmissionFields

  // ---------------------------------------------------------------- goals

  /** Checks are active exactly for the members of check goals: otherwise the build requirements are all there is. */
  lemma ActivationInFields(res: ResolutionResult, subject: Text, at: int)
    requires SubjectAt(res, subject, at)
    ensures SubjectAgrees(res, subject)
    ensures var recipe := res.selections[at].candidate.value.source.recipe;
            && ((forall i :: 0 <= i < |res.goals| && res.goals[i].kind == CheckKind ==>
                   subject !in res.goals[i].members)
                ==> Active(res, subject) == recipe.buildRequirements)
            && ((exists i :: 0 <= i < |res.goals| && res.goals[i].kind == CheckKind && subject in res.goals[i].members)
                ==> Active(res, subject) == recipe.buildRequirements + recipe.checkRequirements)
  {
    SubjectInFields(res, subject, at);
    CheckMemberInFields(res.goals, subject);
    var builds := res.selections[at].candidate.value.source.recipe.buildRequirements;
    assert builds + [] == builds;
    if i :| 0 <= i < |res.goals| && res.goals[i].kind == CheckKind && subject in res.goals[i].members {
      var j :| 0 <= j < |res.goals[i].members| && res.goals[i].members[j] == subject;
      assert InCheckGoal(res.goals, subject);
    }
  }

  lemma SameCheckGoals(a: seq<Goal>, b: seq<Goal>, subject: Text)
    requires forall g: Goal :: g.kind == CheckKind ==> (g in a <==> g in b)
    ensures CheckMember(a, subject) <==> CheckMember(b, subject)
  {
    if g :| g in a && g.kind == CheckKind && subject in g.members {
      assert g in b;
    }
    if g :| g in b && g.kind == CheckKind && subject in g.members {
      assert g in a;
    }
  }

  lemma OtherGoalsKeepView(res: ResolutionResult, goals: seq<Goal>, subject: Text)
    requires forall g: Goal :: g.kind == CheckKind ==> (g in res.goals <==> g in goals)
    ensures SameView(res, res.(goals := goals), subject)
  {
    SameCheckGoals(res.goals, goals, subject);
    forall id: Text
      ensures SameSelection(Selected(res.selections, id), Selected(res.selections, id))
    {
      SelectedReordered(Selected(res.selections, id));
    }
  }

  /** Goals of other kinds may come and go, and so may repetitions of a check goal. */
  lemma OtherGoalsDoNotMatter(res: ResolutionResult, goals: seq<Goal>, subject: Text)
    requires forall g: Goal :: g.kind == CheckKind ==> (g in res.goals <==> g in goals)
    ensures Admissible(res, subject) <==> Admissible(res.(goals := goals), subject)
  {
    OtherGoalsKeepView(res, goals, subject);
    SameVerdict(res, res.(goals := goals), subject);
  }

  // ---------------------------------------------------------------- order

  /** Selections, edges and goals in another order get the same verdict. */
  lemma PermutedFactsSameVerdict(res: ResolutionResult, selections: seq<SelectedPackage>, edges: seq<Edge>,
                                 goals: seq<Goal>, subject: Text)
    requires multiset(res.selections) == multiset(selections)
    requires multiset(res.edges) == multiset(edges) && multiset(res.goals) == multiset(goals)
    ensures Admissible(res, subject) <==>
            Admissible(res.(selections := selections, edges := edges, goals := goals), subject)
  {
    var other := res.(selections := selections, edges := edges, goals := goals);
    OrderDoesNotMatter(res, other, subject);
    SameVerdict(res, other, subject);
  }

  // ---------------------------------------------------------------- edges of others

  lemma {:induction false} FilterCount<T>(p: T -> bool, xs: seq<T>, x: T)
    ensures multiset(Filter(p, xs))[x] == if p(x) then multiset(xs)[x] else 0
  {
    if xs != [] {
      var front, last := xs[..|xs| - 1], xs[|xs| - 1];
      FilterCount(p, front, x);
      assert xs == front + [last];
    }
  }

  /** Both lists hold the subject's build and check edges of the build environment equally often. */
  ghost predicate SameInputEdges(a: seq<Edge>, b: seq<Edge>, subject: Text) {
    forall e: Edge ::
      e.issuer == subject && e.environment == BuildEnvironment &&
      (e.scope.kind == BuildKind || e.scope.kind == CheckKind) ==>
        multiset(a)[e] == multiset(b)[e]
  }

  lemma OtherEdgesKeepView(res: ResolutionResult, edges: seq<Edge>, subject: Text)
    requires SameInputEdges(res.edges, edges, subject)
    ensures SameView(res, res.(edges := edges), subject)
  {
    var p := IsDirectInput(subject);
    forall e: Edge
      ensures multiset(Filter(p, res.edges))[e] == multiset(Filter(p, edges))[e]
    {
      FilterCount(p, res.edges, e);
      FilterCount(p, edges, e);
    }
    assert multiset(DirectInputs(res.edges, subject)) == multiset(DirectInputs(edges, subject));
    OtherEdgesDoNotMatter(res, edges, subject);
  }

  /** Edges of another issuer, of another environment, or of another kind of scope may come and go without changing
      the verdict, ... */
  lemma ForeignEdgesDoNotMatter(res: ResolutionResult, edges: seq<Edge>, subject: Text)
    requires SameInputEdges(res.edges, edges, subject)
    ensures Admissible(res, subject) <==> Admissible(res.(edges := edges), subject)
  {
    OtherEdgesKeepView(res, edges, subject);
    SameVerdict(res, res.(edges := edges), subject);
  }

  /** ... or the admitted inputs. */
  lemma ForeignEdgesKeepInputs(sha256: Hash, res: ResolutionResult, edges: seq<Edge>, subject: Text, s: BuildInputSet,
                               t: BuildInputSet)
    requires SameInputEdges(res.edges, edges, subject)
    requires IsAdmission(sha256, res, subject, s) && IsAdmission(sha256, res.(edges := edges), subject, t)
    ensures multiset(s.inputs) == multiset(t.inputs) && s.identity == t.identity
  {
    OtherEdgesKeepView(res, edges, subject);
    SameAdmission(sha256, res, res.(edges := edges), subject, s, t);
    SameInputSetIdentity(sha256, res, res.(edges := edges), subject, s, t);
  }

  /** In particular one such edge, put anywhere. */
  lemma ForeignEdgeIgnored(res: ResolutionResult, k: nat, e: Edge, subject: Text)
    requires k <= |res.edges|
    requires e.issuer != subject || e.environment != BuildEnvironment ||
             (e.scope.kind != BuildKind && e.scope.kind != CheckKind)
    ensures Admissible(res.(edges := res.edges[..k] + [e] + res.edges[k..]), subject) <==> Admissible(res, subject)
  {
    var edges := res.edges[..k] + [e] + res.edges[k..];
    assert res.edges == res.edges[..k] + res.edges[k..];
    assert multiset(edges) == multiset(res.edges) + multiset{e};
    OtherEdgesKeepView(res, edges, subject);
    SameVerdict(res, res.(edges := edges), subject);
  }
}
