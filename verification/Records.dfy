/** Every record the library hashes, the writes that spell it, and a decoder that reads it back. */
module Records {
  import opened Bytes
  import opened Encoding
  import opened Codecs
  import opened PayloadPaths
  import opened Payload

  datatype InputScope = BuildInputs | CheckInputs

  datatype Compression = Uncompressed | Gzip | Xz | Zstd

  /** One constructor for each identity function. Locale, timezone, network, home, output layout and
      artifact encoding are vocabularies of one word, so they are constants of the encoding. */
  datatype Record =
    | InputRecord(scope: InputScope, edge: Text, selection: Text)
    | InputSetRecord(resolution: Text, subject: Text, inputs: Vector<Text>)
    | EnvironmentRecord(parallelism: Uint32, fileCreationMask: Uint32, sourceDateEpoch: Option<Int64>)
    | PolicyRecord(environment: Text)
    | RequestRecord(source: Text, inputSet: Text, buildArchitecture: Text, targetArchitecture: Text, policy: Text)
    | ManifestRecord(entries: Vector<PayloadEntry>)
    | ArtifactRecord(compression: Compression, byteCount: Uint64, digest: Text)
    | BindingRecord(request: Text, payload: Text, artifact: Text, digest: Text)
    | SuccessRecord(request: Text, payload: Text, artifact: Text, binding: Text, execution: Text)
    | FailureRecord(request: Text, execution: Text, failure: Text)

  // ---------------------------------------------------------------- vocabularies

  /** What a record is about; success and failure share one domain. */
  datatype Domain =
    | InputDomain | InputSetDomain | EnvironmentDomain | PolicyDomain | RequestDomain
    | ManifestDomain | ArtifactDomain | BindingDomain | ResultDomain

  function DomainTag(domain: Domain): Text {
    match domain
    case InputDomain => "libpkgbuild/build-input/1"
    case InputSetDomain => "libpkgbuild/build-input-set/1"
    case EnvironmentDomain => "libpkgbuild/environment-policy/1"
    case PolicyDomain => "libpkgbuild/build-policy/1"
    case RequestDomain => "libpkgbuild/build-request/1"
    case ManifestDomain => "libpkgbuild/payload-manifest/1"
    case ArtifactDomain => "libpkgbuild/artifact/1"
    case BindingDomain => "libpkgbuild/artifact-binding/1"
    case ResultDomain => "libpkgbuild/build-result/1"
  }

  const LOCALE: Text := "C.UTF-8"
  const TIMEZONE: Text := "UTC"
  const NETWORK: Text := "denied"
  const HOME: Text := "isolated"
  const OUTPUT_LAYOUT: Text := "package-root"
  const ARTIFACT_ENCODING: Text := "package-tar"
  const SUCCEEDED: Text := "succeeded"
  const FAILED: Text := "failed"

  function ScopeName(scope: InputScope): Text {
    match scope
    case BuildInputs => "build"
    case CheckInputs => "check"
  }

  function CompressionName(compression: Compression): Text {
    match compression
    case Uncompressed => "none"
    case Gzip => "gzip"
    case Xz => "xz"
    case Zstd => "zstd"
  }

  function TypeName(entryType: EntryType): Text {
    match entryType
    case Regular => "regular"
    case Directory => "directory"
    case Symlink => "symlink"
    case Hardlink => "hardlink"
    case Fifo => "fifo"
    case CharacterDevice => "character-device"
    case BlockDevice => "block-device"
  }

  // ---------------------------------------------------------------- the writes

  function DeviceFields(device: DeviceNumber): seq<Field> {
    [NumberField(device.major), NumberField(device.minor)]
  }

  function PathText(path: Option<PayloadPath>): Option<Text> {
    match path
    case None => None
    case Some(p) => Some(p.value)
  }

  function EpochNumber(epoch: Option<Int64>): Option<Uint64> {
    match epoch
    case None => None
    case Some(n) => Some(ToUnsigned(n))
  }

  /** The writes every entry has. */
  function CommonFields(e: PayloadEntry): seq<Field> {
    [TextField(e.path.value), TextField(TypeName(e.entryType)),
     NumberField(e.mode), NumberField(e.uid), NumberField(e.gid), NumberField(e.size),
     NumberField(ToUnsigned(e.modificationTime.seconds)), NumberField(e.modificationTime.nanoseconds)]
  }

  function EntryFields(e: PayloadEntry): seq<Field> {
    CommonFields(e) + OptionalFields(OneText, e.symlinkTarget) + OptionalFields(OneText, PathText(e.hardlinkTarget)) +
    OptionalFields(DeviceFields, e.device) + OptionalFields(OneText, e.regularContent)
  }

  function DomainOf(record: Record): Domain {
    match record
    case InputRecord(_, _, _) => InputDomain
    case InputSetRecord(_, _, _) => InputSetDomain
    case EnvironmentRecord(_, _, _) => EnvironmentDomain
    case PolicyRecord(_) => PolicyDomain
    case RequestRecord(_, _, _, _, _) => RequestDomain
    case ManifestRecord(_) => ManifestDomain
    case ArtifactRecord(_, _, _) => ArtifactDomain
    case BindingRecord(_, _, _, _) => BindingDomain
    case SuccessRecord(_, _, _, _, _) => ResultDomain
    case FailureRecord(_, _, _) => ResultDomain
  }

  /** Records that are texts throughout. */
  predicate Textual(record: Record) {
    record.InputRecord? || record.PolicyRecord? || record.RequestRecord? || record.BindingRecord? ||
    record.SuccessRecord? || record.FailureRecord?
  }

  function BodyTexts(record: Record): seq<Text>
    requires Textual(record)
  {
    match record
    case InputRecord(scope, edge, selection) => [ScopeName(scope), edge, selection]
    case PolicyRecord(environment) => [environment, OUTPUT_LAYOUT]
    case RequestRecord(source, inputs, build, target, policy) => [source, inputs, build, target, policy]
    case BindingRecord(request, payload, artifact, digest) => [request, payload, artifact, digest]
    case SuccessRecord(request, payload, artifact, binding, execution) =>
      [SUCCEEDED, request, payload, artifact, binding, execution]
    case FailureRecord(request, execution, failure) => [FAILED, request, execution, failure]
  }

  /** The writes after the domain tag. */
  function Body(record: Record): seq<Field> {
    match record
    case InputSetRecord(resolution, subject, inputs) =>
      TextFields([resolution, subject]) + CountedFields(OneText, inputs)
    case EnvironmentRecord(parallelism, mask, epoch) =>
      TextFields([LOCALE, TIMEZONE, NETWORK, HOME]) + [NumberField(parallelism), NumberField(mask)] +
      OptionalFields(OneNumber, EpochNumber(epoch))
    case ManifestRecord(entries) =>
      CountedFields(EntryFields, entries)
    case ArtifactRecord(compression, byteCount, digest) =>
      TextFields([ARTIFACT_ENCODING, CompressionName(compression)]) + [NumberField(byteCount), TextField(digest)]
    case _ =>
      TextFields(BodyTexts(record))
  }

  function Fields(record: Record): seq<Field> {
    [TextField(DomainTag(DomainOf(record)))] + Body(record)
  }

  /** The octets hashed for a record. */
  function RecordBytes(record: Record): seq<Byte> {
    Encode(Fields(record))
  }
}
