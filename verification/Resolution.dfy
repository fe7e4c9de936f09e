/** The foreign facts admission reads: resolver results and the source declarations they retain.
    Identities, package names, architecture names and declaration origins are opaque texts. */
module Resolution {
  import opened Bytes

  datatype ScopeKind = BuildKind | CheckKind | OtherKind(tag: nat)

  /** A requirement scope is compared as a whole, and asked for its kind. */
  datatype Scope = Scope(kind: ScopeKind, detail: Text)

  datatype Environment = BuildEnvironment | TargetEnvironment

  datatype Architectures = Architectures(build: Text, target: Text)

  datatype Requirement = Requirement(scope: Scope, package: Text, origins: seq<Text>)

  datatype RecipeLists = RecipeLists(
    buildRequirements: seq<Requirement>, checkRequirements: seq<Requirement>,
    buildArchitectures: seq<Text>, targetArchitectures: seq<Text>)

  /** Both requirement lists together fit one std::vector. */
  type Recipe = r: RecipeLists | |r.buildRequirements| + |r.checkRequirements| < TWO_64
    witness RecipeLists([], [], [], [])

  datatype Source = Source(identity: Text, recipe: Recipe)

  /** The catalog authority a selection may retain. */
  datatype Candidate = Candidate(source: Source, release: Text, package: Text)

  datatype SelectedPackage = SelectedPackage(
    identity: Text, package: Text, environment: Environment, architectures: Architectures,
    release: Text, sourceSnapshot: Text, candidate: Option<Candidate>)

  datatype AuthorityKind = CatalogAuthority | OtherAuthority(tag: nat)

  datatype Witness = Witness(kind: AuthorityKind, catalogSource: Option<Text>, catalogOrigins: seq<Text>)

  datatype Edge = Edge(
    identity: Text, issuer: Text, required: Text, scope: Scope, environment: Environment, authority: Witness)

  /** A resolved goal: the kind of its scope, and the selections that are its members. */
  datatype Goal = Goal(kind: ScopeKind, members: seq<Text>)

  /** selectedTarget is the request's choice of target architecture for an environment. */
  datatype ResolutionResult = ResolutionResult(
    identity: Text, buildArchitecture: Text, selectedTarget: Environment -> Text,
    selections: seq<SelectedPackage>, edges: seq<Edge>, goals: seq<Goal>)
}
