# A verified model of libpkgbuild

libpkgbuild admits the facts a package resolver produced, seals a build request over them, and seals a build
result over that request. Each value carries an identity: the SHA-256 text of a canonical record of what the value
says, where the record holds the identities of the values below it. This project models that chain and proves what
the library promises of it, from the octets written to the digest up to the result.

* `Bytes`, `Numbers`, `Encoding`, `IdentityWriters` (files `Bytes.dfy`, `Numbers.dfy`, `Encoding.dfy`,
  `IdentityWriter.dfy`): machine values, big-endian numbers, hexadecimal text, the record encoding, and the mutable
  writer that feeds the digest. SHA-256 is a parameter of type `Hash`, an arbitrary function from octets to 32
  octets. Nothing is assumed of it; in particular it is not taken to be injective, which no such function is.
* `Codecs`, `Records`, `RecordDecoder`, `Schemas` (file `Schema.dfy`), `Identities`: every record the library hashes, the writes that spell it, a
  decoder, and the identity functions, each driving a writer. The decoder exists only in this project. It inverts the
  encoder exactly, so no two records share their octets; and all records follow one schema, so none begins another.
* `PayloadPaths` (file `PayloadPath.dfy`), `Payload`: path parsing, entry factories and manifest rules.
* `Resolution`, `Admission`, `AdmissionTheorems`, `AdmissionInvariance`: the resolver's facts, the admission loops,
  and theorems over all resolutions.
* `Request`, `RequestTheorems`, `BuildResults` (file `BuildResult.dfy`): policies, requests, results, and what their
  identities bind.
* `AdmissionFields`, `AdmissionLaws`, `RequestFields`, `PathBytes`, `RecordOctets`: the same verdicts and values said a
  second time, by positions, field comparisons and literal octets, and proved equal to the first. They share no
  definition with the methods, so a slip in a definition that a method and its contract have in common fails there.
* `Sequences`: filtering, counting, permutation and sorting.

`Admissible` says without loops what a resolution must be: each name stands for exactly one selection, each active
requirement has exactly one fitting edge with the right authority, matched identities are distinct, and no direct
build or check edge goes unmatched by identity. "Exactly one" is counted by filtering, and
`Sequences.ExactlyOneByPosition` gives its meaning by position. `Admit` succeeds exactly on admissible resolutions, and
`AdmissionFields.AdmissibleInFields` says what these are with nothing but fields and positions.

Statements about equal identities have the form "the facts agree, or these two records collide". A collision is
always between a record of the one value and the record at the same place in the other, with different octets and
one digest. The bare existence of a collision would be a truism.

## Where code and design differ

* `DESIGN.md:32-33` speaks of a one-to-one relationship between source requirements and resolver edges. `admit`
  remembers consumed edges by identity and never compares the identities of different edges, so two edges under one
  identity pass the second sweep together. The model follows the code. `AdmittedOneToOne` proves that an admitted
  resolution is one-to-one exactly when the subject's direct build and check edges have distinct identities, and
  `TwinEdgesAreAdmitted` gives a resolution that is admitted and is not one-to-one. `RemovalVerdict` and
  `InsertionVerdict` say, with no assumption on identities, which edges may go and which may come.
* For the same reason a dormant check edge, one of a subject outside every check goal, can be admitted; the leftover
  edge of `TwinEdges` is one. `DormantCheckVerdict` gives the exact condition: such a resolution is admitted exactly
  when it is admitted without the edge and a direct build edge carries the edge's identity.
* `payload_manifest::seal` rejects a hard link that targets itself. That check never changes the verdict: the rules
  in `Sealable` have no such clause, and `CheckManifest`, which has it, agrees with them on every list.

## Model

| member | source | states |
|---|---|---|
| Numbers.MagnitudeOfBigEndian | src/identity_support.cpp:51-58 | every number that fits the width is recovered from its big-endian octets |
| Numbers.BigEndianOfMagnitude | src/identity_support.cpp:51-58 | a byte string is the only one of its length that spells its number |
| Numbers.BigEndianGrows | src/identity_support.cpp:54-56 | each turn of the byte loop, which takes the value shifted by one octet more, puts the next octet in front |
| Numbers.HexRoundTrip | src/identity_support.cpp:76-80 | rendered digests are lowercase hexadecimal and read back to the same octets |
| Numbers.HexOfFromHex | src/identity_support.cpp:84-93 | every accepted text is the rendering of the octets it spells, so texts and digests correspond one to one |
| Numbers.HexKeepsOrder | src/identity.cpp:22-24 | rendering preserves the order of equally long byte strings |
| Numbers.IdentityOrderIsDigestOrder | src/identity.cpp:16-24 | `<` and `==` of two SHA-256 texts are `<` and `==` of the 256-bit numbers they spell |
| Bytes.LexLessTransitive | src/identity.cpp:22-24 | the string order on identities is transitive |
| Bytes.LexLessTotal | src/identity.cpp:16-24 | any two identities are equal or ordered |
| Bytes.LexLessInOctets | src/identity.cpp:22-24 | one text is less than another exactly when they agree up to a place where the first ends or has the smaller octet |
| Encoding.NumberReadsBack | src/identity_support.cpp:51-58 | the octets of a number are read back as that number, and no other octets are |
| Encoding.BooleanReadsBack | src/identity_support.cpp:60-63 | the octets of a boolean are read back as it, and no other octets are |
| Encoding.TextReadsBack | src/identity_support.cpp:45-49 | the length prefix decides where a text ends, whatever follows: framed texts are prefix-free |
| Encoding.UniqueReadability | src/identity_support.cpp:45-63 | two sequences of writes under one schema with the same octets are the same writes |
| Encoding.DomainSeparation | src/request.cpp:57 | records with different leading tags never share their octets, whatever follows the tags |
| IdentityWriters.IdentityIsCanonical | src/identity_support.cpp:65-82 | an identity text passes the SHA-256 text check and spells the digest of the writes |
| IdentityWriters.IdentityDeterminesDigest | src/identity_support.cpp:65-82 | identity texts are equal exactly when digests are |
| IdentityWriters.IdentityWriter.constructor | src/identity_support.cpp:29-37 | a new writer is open and has written nothing |
| IdentityWriters.IdentityWriter.WriteNumber | src/identity_support.cpp:51-58 | the filled byte array spells the number: the absorbed octets are those of the log with the number added |
| IdentityWriters.IdentityWriter.WriteText | src/identity_support.cpp:45-49 | the absorbed octets are those of the log with the length-prefixed text added |
| IdentityWriters.IdentityWriter.WriteBoolean | src/identity_support.cpp:60-63 | the absorbed octets are those of the log with the boolean added |
| IdentityWriters.IdentityWriter.Finish | src/identity_support.cpp:65-82 | the first call renders the digest of everything written, any later one fails, and none changes the log |
| IdentityWriters.FromSha256 | src/identity_support.cpp:84-93 | accepts exactly 64 lowercase hexadecimal digits and returns them unchanged |
| RecordDecoder.TypeNamesReadBack | src/model.cpp:124-136 | the seven entry-type words are distinct and read back |
| RecordDecoder.ScopeNamesReadBack | src/model.cpp:106-113 | the two scope words are distinct and read back |
| RecordDecoder.CompressionNamesReadBack | src/model.cpp:139-148 | the four compression words are distinct and read back |
| RecordDecoder.SignedReadsBack | src/model.cpp:63 | signed seconds survive the cast to unsigned |
| RecordDecoder.DomainTagsReadBack | src/model.cpp:83 | the nine domain tags are distinct and read back |
| RecordDecoder.EntryUndone | src/model.cpp:53-78 | an entry of any type, with any of its four optional fields, is read back from its own octets and from no others |
| RecordDecoder.ManifestReadsBack | src/model.cpp:80-88 | a manifest of any length is read back entry for entry, and only from its own octets |
| RecordDecoder.InputSetReadsBack | src/request.cpp:64-77 | an input-set record of any length is read back, and only from its own octets |
| RecordDecoder.EnvironmentReadsBack | src/model.cpp:34-51 | an environment record is read back with or without its epoch |
| RecordDecoder.ArtifactReadsBack | src/model.cpp:90-102 | an artifact record is read back, and only from its own octets |
| RecordDecoder.RecordOfTextsInverts | src/result.cpp:26-56 | the outcome word tells a success record from a failure record under their common tag; each record made of texts is recovered from its texts |
| RecordDecoder.RecordReadsBack | src/result.cpp:13-56 | decoding yields a record exactly from the octets hashed for it, over all records of the library |
| RecordDecoder.RecordsAreInjective | src/result.cpp:13-56 | no two records, of one kind or of two, are hashed from the same octets |
| Schemas.FieldsFollowOneSchema | src/identity_support.cpp:45-63 | any two records of the library are written to one schema: equal writes so far mean the same kind of write next, and neither is a proper beginning of the other |
| Schemas.RecordsArePrefixFree | src/identity_support.cpp:45-63 | octets that begin with a record determine the record and what follows it |
| RecordOctets.NumberOctets | src/identity_support.cpp:51-58 | a number is eight octets whose weighted sum, the most significant first, is the number |
| RecordOctets.FieldOctets | src/identity_support.cpp:45-63 | a text is its length as a number and then its octets, a boolean the number one or zero, and writes follow one another |
| RecordOctets.IdentityDigits | src/identity_support.cpp:65-82 | an identity is 64 digits, two of `0123456789abcdef` for each octet of the digest of the record's octets |
| RecordOctets.InputOctets | src/request.cpp:51-62 | the octets hashed for a build input and for a check input, word by word |
| RecordOctets.InputSetOctets | src/request.cpp:64-77 | the octets hashed for an input set: tag, resolution, subject, count, and the input identities in order |
| RecordOctets.EnvironmentOctets | src/model.cpp:34-51 | the octets hashed for an environment, with its four constants and an epoch in two's complement |
| RecordOctets.PolicyOctets | src/request.cpp:79-88 | the octets hashed for a policy, with the layout word |
| RecordOctets.RequestOctets | src/request.cpp:90-104 | the octets hashed for a request |
| RecordOctets.EntryOctets | src/model.cpp:53-78 | the writes of an entry in order, with the seven type words, seconds in two's complement and the four optional fields |
| RecordOctets.ManifestOctets | src/model.cpp:80-88 | the octets hashed for a manifest: tag, count, and the writes of each entry in order |
| RecordOctets.ArtifactOctets | src/model.cpp:90-102 | the octets hashed for an artifact, with the encoding word and the four compression words |
| RecordOctets.BindingOctets | src/result.cpp:13-24 | the octets hashed for a binding |
| RecordOctets.SuccessOctets | src/result.cpp:26-42 | the octets hashed for a success |
| RecordOctets.FailureOctets | src/result.cpp:44-56 | the octets hashed for a failure |
| Identities.SameIdentity | src/identity_support.cpp:65-82 | two records have one identity exactly when they are the same record or collide |
| Identities.IdentifyIsCanonical | src/identity.cpp:13-15 | every computed identity is accepted by `from_sha256` |
| Identities.InputId | src/request.cpp:51-62 | the writes spell the record of scope, edge identity and selection identity |
| Identities.InputSetId | src/request.cpp:64-77 | the loop's writes spell the record of resolution, subject and the ordered input identities |
| Identities.EnvironmentId | src/model.cpp:34-51 | the writes spell the record of parallelism, mask and optional epoch, with the constants of the vocabulary |
| Identities.PolicyId | src/request.cpp:79-88 | the writes spell the record of the environment identity |
| Identities.RequestId | src/request.cpp:90-104 | the writes spell the record of source, input set, architectures and policy |
| Identities.WritePayloadEntry | src/model.cpp:53-78 | appends exactly the fields of the entry to the log |
| Identities.ManifestId | src/model.cpp:80-88 | the loop's writes spell the record of the entries in order |
| Identities.ArtifactId | src/model.cpp:90-102 | the writes spell the record of compression, byte count and digest |
| Identities.BindingId | src/result.cpp:13-24 | the writes spell the record of request, payload, artifact and complete digest |
| Identities.SuccessId | src/result.cpp:26-42 | the writes spell the success record |
| Identities.FailureId | src/result.cpp:44-56 | the writes spell the failure record |
| Identities.SealManifest | src/model.cpp:353-379 | succeeds exactly on sealable lists, keeps the order, and identifies the list |
| PayloadPaths.JoinSplit | src/model.cpp:210-228 | splitting at slashes loses nothing |
| PayloadPaths.SplitShape | src/model.cpp:212-228 | there is one component more than there are slashes, and none holds a slash |
| PayloadPaths.SplitJoin | src/model.cpp:231-236 | slash-free components that are joined split back to themselves |
| PayloadPaths.KeepComponents | src/model.cpp:210-228 | the index loop computes the scan of all components and always leaves by its break |
| PayloadPaths.JoinComponents | src/model.cpp:231-236 | the loop's test for an empty result puts a slash between components and nowhere else |
| PayloadPaths.ScanIsSplit | src/model.cpp:212-228 | scanning from any index is scanning the components of the split |
| PayloadPaths.Parse | src/model.cpp:206-238 | accepts exactly non-empty relative inputs without NUL, LF, CR or `..` component and with a component to keep; returns the normal form; inspects one component more than there are slashes unless a component is refused |
| PayloadPaths.NormalFormComponents | src/model.cpp:225-236 | the components of the output are the kept components of the input |
| PayloadPaths.NormalFormIsNormal | src/model.cpp:206-238 | the output has no leading, trailing or doubled slash, no `.` or `..` component and no forbidden byte |
| PayloadPaths.NormalFormsAreFixedPoints | src/model.cpp:206-238 | the normal forms are exactly the accepted inputs that parsing returns unchanged |
| PayloadPaths.ParsingIsIdempotent | src/model.cpp:206-238 | parsing a parsed path changes nothing |
| PayloadPaths.SamePathSameComponents | src/model.cpp:206-239 | two inputs parse equal exactly when their kept components are equal |
| PayloadPaths.RequireLineSafe | src/model.cpp:24-32 | accepts exactly non-empty values without NUL, LF or CR |
| PathBytes.SplitInBytes | src/model.cpp:212-228 | the components of a split are the stretches between slashes |
| PathBytes.SplitCounted | src/model.cpp:212-228 | there is one component more than the text holds slashes |
| PathBytes.JoinInBytes | src/model.cpp:231-236 | joining puts one slash between parts and nothing else |
| PathBytes.AcceptableInBytes | src/model.cpp:208-230 | what parse accepts, by bytes: non-empty, no leading slash, none of the octets NUL, LF, CR, no stretch `..`, and some stretch other than the empty one and `.` |
| PathBytes.NormalFormInBytes | src/model.cpp:230-238 | what parse yields, by bytes: no leading, trailing or doubled slash, no stretch `.` or `..`, and no NUL, LF or CR |
| PathBytes.NormalFormComponentsInBytes | src/model.cpp:225-236 | the components of the output are those of the input without the empty ones and the dots |
| Payload.FactoriesReachWellFormed | src/model.cpp:250-323 | a factory call yields an entry exactly when the entry is well formed and the call is the one its type determines |
| Payload.FactoryInFields | src/model.cpp:250-323 | each factory refuses exactly modes above 07777, nanoseconds of a second or more, and for links an empty target or one with NUL, LF or CR; and which fields it sets for its type |
| Payload.PrefixSealable | src/model.cpp:357-376 | prefixes of sealable lists are sealable, and one more entry is decided by the entries before it |
| Payload.AnchorByIndex | src/model.cpp:360-375 | the lookup among regular entries finds an anchor exactly when an earlier one exists |
| Payload.CheckManifest | src/model.cpp:353-376 | the one-pass check accepts exactly the lists with distinct paths whose hard links each have an earlier regular anchor with the same inode metadata |
| Payload.SealableInFields | src/model.cpp:357-376 | the manifest rules, by fields: distinct path texts, and for each hard link an earlier regular entry at its target path with equal mode, uid, gid, seconds and nanoseconds |
| Payload.HardLinksResolveInOneHop | src/model.cpp:362-375 | each hard link of a sealed manifest names one earlier regular entry and no other entry, so there are no chains or cycles |
| Payload.SharedAnchorSharedInode | src/model.cpp:370-374 | hard links that name one anchor agree in mode, owner, group and time |
| Payload.RearrangedManifest | src/model.cpp:357-376 | a permutation of a sealable list is sealable exactly when its links stay after their anchors |
| Sequences.ExactlyOneByPosition | src/request.cpp:26-36 | one match by counting is one matching position and no other, and the match stands there |
| Sequences.Sort | src/request.cpp:280 | sorting yields a permutation, sorted if the comparison is a strict weak order |
| Admission.RequireSelection | src/request.cpp:22-37 | returns the selection of an identity exactly when one and only one has it |
| Admission.IsCheckGoalMember | src/request.cpp:114-127 | answers whether the subject is a member of some check-scoped goal |
| Admission.DirectRequirements | src/request.cpp:129-139 | yields a permutation of the build requirements and, if asked, the check requirements, sorted by the order given |
| Admission.FindMatch | src/request.cpp:234-250 | the inner loop finds the match exactly when the requirement's scope resolves and one edge fits |
| Admission.GrantRequirement | src/request.cpp:233-258 | a requirement passes every check of the loop, or is not authorised |
| Admission.MatchRequirements | src/request.cpp:229-266 | the requirement loop succeeds with all requirements authorised and matched identities distinct, collects exactly those identities, and builds each requirement's input; or the resolution is not admissible |
| Admission.AllConsumed | src/request.cpp:268-278 | the second sweep accepts exactly when every direct build or check edge has a consumed identity |
| Admission.InputOrderIsStrict | src/request.cpp:180-181 | the order of inputs is a strict weak order |
| Admission.AccountedPermuted | src/request.cpp:227-278 | the order in which requirements are taken changes no verdict |
| Admission.Admit | src/request.cpp:208-284 | succeeds exactly on admissible resolutions; the set then holds one input for each active requirement, sorted, under the identity of its record |
| Admission.ForScope | src/request.cpp:292-299 | returns the inputs of the scope, in order, each as often as it occurs |
| AdmissionFields.AdmissibleInFields | src/request.cpp:208-278 | the verdict of admit, by fields and positions: one subject that agrees with its candidate and has the requested architectures; for each active requirement one edge and selection with equal issuer, environment, scope, package and authority, all other edges of that scope naming one selection of another package; distinct edge identities; and no build or check edge of the subject under another identity |
| AdmissionFields.AuthorisedInFields | src/request.cpp:233-258 | a requirement is authorised exactly when positions of such an edge and selection exist, with catalog authority, the source's identity and the requirement's origins |
| AdmissionFields.AdmissionInFields | src/request.cpp:262-283 | the admitted set, by fields and positions: the subject, the resolution, one input for each active requirement with the scope its kind gives, ordered by identity, and the identity of the list |
| AdmissionFields.CheckMemberInFields | src/request.cpp:118-126 | membership of a check goal, by positions and the goal's kind |
| AdmissionLaws.ActivationInFields | src/request.cpp:114-139 | outside every goal of check kind the active requirements are the build requirements; inside one they are build and check requirements |
| AdmissionLaws.OtherGoalsDoNotMatter | src/request.cpp:118-120 | goals of other kinds may come and go without changing the verdict |
| AdmissionLaws.PermutedFactsSameVerdict | src/request.cpp:208-284 | permuting selections, edges and goals does not change the verdict |
| AdmissionLaws.ForeignEdgesDoNotMatter | src/request.cpp:236-240 | edges of another issuer, another environment or another kind of scope may come and go without changing the verdict |
| AdmissionLaws.ForeignEdgesKeepInputs | src/request.cpp:268-275 | or the admitted inputs and their identity |
| AdmissionLaws.ForeignEdgeIgnored | src/request.cpp:268-275 | one such edge, inserted anywhere, does not change the verdict |
| AdmissionTheorems.AdmittedOneToOne | DESIGN.md:22-33 | an admitted resolution relates active requirements and direct edges one to one exactly when those edges have distinct identities; then they are equally many |
| AdmissionTheorems.AdmittedRequirementsDiffer | src/request.cpp:259-260 | no two active requirements of an admitted resolution share scope and package |
| AdmissionTheorems.RemovalVerdict | src/request.cpp:233-278 | an admitted resolution stays admissible without an edge exactly when that edge fits no active requirement |
| AdmissionTheorems.RemovalIsRejected | src/request.cpp:249-250 | with distinct identities, removing any direct build or check edge is rejected |
| AdmissionTheorems.InsertedMatch | src/request.cpp:244-247 | an inserted edge that fits a requirement makes it ambiguous; any other leaves its match |
| AdmissionTheorems.InsertionVerdict | src/request.cpp:233-278 | an admitted resolution stays admissible with one more edge exactly when that edge fits no active requirement, resolves where its scope is looked at, and, if a direct input, repeats the identity of a direct input already there |
| AdmissionTheorems.InsertionIsRejected | src/request.cpp:268-278 | inserting a direct build or check edge with a fresh identity is rejected |
| AdmissionTheorems.ActivationIsExact | DESIGN.md:22-29 | for a source with checks, one edge list is never admitted both with and without check-goal membership |
| AdmissionTheorems.DormantCheckVerdict | src/request.cpp:259-277 | outside every check goal, a resolution with a check edge is admitted exactly when it is without that edge and a direct build edge carries its identity |
| AdmissionTheorems.DormantCheckIsRejected | src/request.cpp:268-278 | outside every check goal, a check edge is rejected unless a direct build edge carries its identity |
| AdmissionTheorems.MissingCheckIsRejected | src/request.cpp:249-250 | inside a check goal, a check requirement without a fitting edge is rejected |
| AdmissionInvariance.SameVerdict | src/request.cpp:208-284 | resolutions that agree on what admission sees, up to order, get one verdict |
| AdmissionInvariance.SameInputSetIdentity | src/request.cpp:280-281 | and, if admitted, one ordered list of input identities and one input-set identity |
| AdmissionInvariance.SameInputList | src/request.cpp:280 | and, with distinct input identities, one sorted list as regards scope, edge, and the identities of selection and input |
| AdmissionInvariance.SameAdmission | src/request.cpp:208-284 | where every name stands for the very same selection, the admitted inputs are the same up to order, and with distinct input identities the admitted sets are equal |
| AdmissionInvariance.OrderDoesNotMatter | src/request.cpp:22-37 | permuting selections, edges and goals keeps what admission sees, and the selection every name stands for |
| AdmissionInvariance.RequirementOrderDoesNotMatter | src/request.cpp:137 | so does permuting the declaration lists of the sources |
| AdmissionInvariance.OtherEdgesDoNotMatter | src/request.cpp:268-275 | so does adding or removing edges of other issuers, of non-build environments, or of scopes other than build and check |
| AdmissionInvariance.ProjectionConserves | src/request.cpp:292-299 | the two scope projections together hold every input once |
| AdmissionInvariance.ProjectionIsCanonical | src/request.cpp:292-299 | each projection stays sorted and holds the inputs of its scope and no others |
| AdmissionInvariance.ProjectionSize | src/request.cpp:262-265 | a scope's projection is as long as there are active requirements asking for the scope |
| AdmissionInvariance.ProjectionSizes | src/request.cpp:129-139 | where requirement lists keep to their scopes, the projections count the build requirements and the active check requirements |
| AdmissionInvariance.TwinEdgesAreAdmitted | src/request.cpp:259-277 | a concrete resolution whose identities are SHA-256 texts is admitted with a build edge and a dormant check edge under one identity, and is not one-to-one |
| Request.MakeEnvironment | src/model.cpp:177-191 | succeeds exactly on positive parallelism, a mask of at most 0777 and a non-negative epoch, keeps the values and identifies their record |
| Request.MakePolicy | src/request.cpp:346-354 | the policy keeps its environment, has the identity of the record of that environment's identity, and is bound exactly when the environment is |
| Request.SealRequest | src/request.cpp:393-411 | succeeds exactly on admissible resolutions whose requested architectures the source allows, where an empty declaration allows all; the request then holds the admitted set, the retained source, those architectures and the policy, under the identity of its record |
| RequestFields.RequestableInFields | src/request.cpp:393-411 | the verdict of seal, by fields: admission, and each declared architecture list is empty or names the requested architecture |
| RequestFields.UndeclaredIsUnrestricted | src/request.cpp:106-112 | an admissible resolution whose source declares no architectures is sealed |
| RequestFields.SealedInFields | src/request.cpp:404-410 | the sealed request, by fields: its subject, source, architectures, policy, and the identity of their record |
| RequestFields.BoundInFields | src/request.cpp:51-104 | a bound request, by fields: each identity in it is that of a record of named fields |
| RequestFields.SameFactsInFields | src/request.cpp:90-104 | stating the same facts means agreement of the source, resolution and subject identities, of scope, edge and selection of each input in order, of both architectures and of the environment values |
| RequestFields.RecordsInFields | src/request.cpp:51-104 | which records are hashed into a request, one by one |
| RequestFields.CollisionInFields | src/identity_support.cpp:65-82 | a collision is a position where octets differ and digests agree |
| RequestTheorems.AdmittedInputsAreBound | src/request.cpp:262-265 | every admitted input has the identity of its own record |
| RequestTheorems.SealedIsBound | src/request.cpp:393-411 | every identity in a sealed request is that of the record under it, and its subject is the one named |
| RequestTheorems.RequestIdentityBinds | src/request.cpp:90-104 | requests with one identity agree on source, resolution, subject, the ordered scopes, edges and selections, both architectures and every environment value; or corresponding records collide |
| RequestTheorems.SameFactsSameRequest | src/request.cpp:51-104 | requests that state the same facts have one identity and the same records |
| RequestTheorems.SealedIdentityBinds | src/request.cpp:393-411 | two runs that end in one request identity, without collision, began from one resolution identity, subject, policy and source identity |
| RequestTheorems.SealingIgnoresOrder | src/request.cpp:393-411 | resolutions that agree up to order get one verdict on sealing and one request identity |
| BuildResults.MakeArtifact | src/model.cpp:392-410 | the artifact keeps its values and has the identity of their record |
| BuildResults.Succeed | src/result.cpp:95-107 | the success keeps its parts, and is bound throughout exactly when they are: its binding and its identity are those of their records |
| BuildResults.Fail | src/result.cpp:109-119 | the failure keeps its evidence, and is bound exactly when its request is |
| BuildResults.ManifestIdentityBinds | src/model.cpp:80-88 | two sealed manifests have one identity exactly when they are equal or their records collide |
| BuildResults.ArtifactIdentityBinds | src/model.cpp:90-102 | two artifacts have one identity exactly when they are equal or their records collide |
| BuildResults.OutcomesStayApart | src/result.cpp:26-56 | a success and a failure are never hashed from the same octets |
| BuildResults.ResultIdentityBinds | src/result.cpp:13-56 | results with one identity have one outcome and the same request facts, execution evidence, and payload entries and artifact, or failure evidence; or corresponding records collide |
| BuildResults.SameFactsSameResult | src/result.cpp:13-56 | results that state the same facts have one identity and the same records |
| BuildResults.BindingBinds | src/result.cpp:13-24 | the artifact binding alone fixes request facts, payload and artifact, or corresponding records collide |
| BuildResults.ResultIdentityReachesResolution | src/result.cpp:95-119 | results with one identity, sealed over two runs, began from one resolution identity, subject and policy, or corresponding records collide |
| BuildResults.SameResultFactsInFields | src/result.cpp:26-56 | stating the same facts means agreement of request facts, execution, outcome, and entries, compression, byte count and digest, or failure evidence |
| BuildResults.ResultRecordsInFields | src/result.cpp:13-56 | which records are hashed into a result, one by one |

## Left out

* The SHA-256 compression function and the OpenSSL context: the digest is an arbitrary function of the octets, and
  allocation or update failures of the context do not happen in the model.
* A write after `finish`: the library would pass a null context on; the writer's methods require an open one.
* libpkgsource and libpkgresolve: resolution, profile expansion and snapshot sealing are not part of this model. Their
  values carry the fields this library reads. Foreign identities, packages, releases, architectures and declaration
  origins are opaque texts, `selected_target` is a function of the environment, and a release is its identity.
* The order libpkgsource gives requirements is a parameter of `Admit`, whatever it answers; neither the verdict nor
  the input-set identity depends on it.
* That build requirements have build scope and check requirements check scope is a promise of libpkgsource. It is the
  named hypothesis `OwnScopes` of `DormantCheckVerdict`, `DormantCheckIsRejected` and `ProjectionSizes`, and nothing else uses it.
* `std::sort` is an insertion sort here; the proofs use only that it permutes and sorts.
* The nested loops of `admit` and the loop of `seal` are methods of their own (`FindMatch`, `GrantRequirement`,
  `MatchRequirements`, `AllConsumed`, `CheckManifest`), called in the order of the source. The seven entry factories
  are one function over what is particular to each.
* Error texts, and which of several failing checks fires first: a failure carries its error code only.
* Values outside the enumerations, and the word "unknown" for them. Locale, timezone, network, home, output layout and
  artifact encoding have one value each and are constants of the encoding.
* The branch of `build_request::seal` for a subject without a candidate: admission has rejected such a subject.
* Opaque shared storage, copies, moves, accessors, ABI and visibility macros.
* Directory-tree consistency of manifests, such as a regular file used as a parent: the library does not check it.
* That stored identities of foreign values are canonical SHA-256 texts: no theorem here needs it.
