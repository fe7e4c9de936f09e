/** The identity functions: each drives a fresh writer through the writes of its record. */
module Identities {
  import opened Bytes
  import opened Numbers
  import opened Encoding
  import opened Codecs
  import opened Sequences
  import opened IdentityWriters
  import opened Payload
  import opened Records
  import opened RecordDecoder

  /** The identity of a record: the text of the digest of its octets. */
  function Identify(sha256: Hash, record: Record): Text {
    IdentityOf(sha256, Fields(record))
  }

  /** Two different byte strings, the octets of these two records, with one digest. */
  ghost predicate Collide(sha256: Hash, a: Record, b: Record) {
    RecordBytes(a) != RecordBytes(b) && sha256(RecordBytes(a)) == sha256(RecordBytes(b))
  }

  /** One identity means one record, or the two records are a collision of the hash. */
  lemma SameIdentity(sha256: Hash, a: Record, b: Record)
    ensures Identify(sha256, a) == Identify(sha256, b) <==> a == b || Collide(sha256, a, b)
  {
    IdentityDeterminesDigest(sha256, Fields(a), Fields(b));
    RecordsAreInjective(a, b);
  }

  /** Every identity passes from_sha256. */
  lemma IdentifyIsCanonical(sha256: Hash, record: Record)
    ensures CanonicalSha256Hex(Identify(sha256, record))
  {
    IdentityIsCanonical(sha256, Fields(record));
  }

  /** finish and from_sha256, after the writes of a record. */
  method Finished(writer: IdentityWriter, ghost record: Record) returns (id: Text)
    requires writer.Valid() && writer.open
    requires writer.log == Fields(record)
    modifies writer
    ensures id == Identify(writer.sha256, record)
  {
    var hex := writer.Finish();
    IdentityIsCanonical(writer.sha256, writer.log);
    var checked := FromSha256(hex.value);
    id := checked.value;
  }

  method InputId(sha256: Hash, scope: InputScope, edge: Text, selection: Text) returns (id: Text)
    ensures id == Identify(sha256, InputRecord(scope, edge, selection))
  {
    var writer := new IdentityWriter(sha256);
    writer.WriteText("libpkgbuild/build-input/1");
    writer.WriteText(ScopeName(scope));
    writer.WriteText(edge);
    writer.WriteText(selection);
    id := Finished(writer, InputRecord(scope, edge, selection));
  }

  /** Writing one item of a list leaves those after it. */
  lemma ManyNext<A>(write: A -> seq<Field>, items: seq<A>, i: nat, log: seq<Field>)
    requires i < |items|
    ensures (log + write(items[i])) + ManyFields(write, items, i + 1) == log + ManyFields(write, items, i)
  {
  }

  lemma SetWrites(tag: Field, a: Field, b: Field, count: Field, fields: seq<Field>)
    ensures [] + [tag] + [a] + [b] + [count] + fields == [tag] + (([a] + [b]) + ([count] + fields))
  {
  }

  method InputSetId(sha256: Hash, resolution: Text, subject: Text, inputs: Vector<Text>) returns (id: Text)
    ensures id == Identify(sha256, InputSetRecord(resolution, subject, inputs))
  {
    var writer := new IdentityWriter(sha256);
    writer.WriteText("libpkgbuild/build-input-set/1");
    writer.WriteText(resolution);
    writer.WriteText(subject);
    writer.WriteNumber(|inputs|);
    ghost var all := writer.log + ManyFields(OneText, inputs, 0);
    for i := 0 to |inputs|
      invariant fresh(writer) && writer.sha256 == sha256 && writer.Valid() && writer.open
      invariant writer.log + ManyFields(OneText, inputs, i) == all
    {
      Regroup(writer.log, OneText(inputs[i]), ManyFields(OneText, inputs, i + 1));
      writer.WriteText(inputs[i]);
    }
    assert writer.log == all;
    TwoTexts(resolution, subject, CountedFields(OneText, inputs));
    SetWrites(TextField(DomainTag(InputSetDomain)), TextField(resolution), TextField(subject),
              NumberField(|inputs|), ManyFields(OneText, inputs, 0));
    id := Finished(writer, InputSetRecord(resolution, subject, inputs));
  }

  lemma SevenThen(a: Field, b: Field, c: Field, d: Field, e: Field, f: Field, g: Field, rest: seq<Field>)
    ensures [] + [a] + [b] + [c] + [d] + [e] + [f] + [g] + rest == [a, b, c, d, e, f, g] + rest
  {
  }

  lemma EnvironmentWrites(parallelism: Uint32, fileCreationMask: Uint32, sourceDateEpoch: Option<Int64>)
    ensures Fields(EnvironmentRecord(parallelism, fileCreationMask, sourceDateEpoch)) ==
            [TextField(DomainTag(EnvironmentDomain)), TextField(LOCALE), TextField(TIMEZONE), TextField(NETWORK),
             TextField(HOME), NumberField(parallelism), NumberField(fileCreationMask)] +
            OptionalFields(OneNumber, EpochNumber(sourceDateEpoch))
  {
  }

  method WriteEpoch(writer: IdentityWriter, epoch: Option<Int64>)
    requires writer.Valid() && writer.open
    modifies writer`absorbed, writer`log
    ensures writer.Valid() && writer.log == old(writer.log) + OptionalFields(OneNumber, EpochNumber(epoch))
  {
    writer.WriteBoolean(epoch.Some?);
    if epoch.Some? {
      writer.WriteNumber(ToUnsigned(epoch.value));
    }
  }

  method EnvironmentId(sha256: Hash, parallelism: Uint32, fileCreationMask: Uint32, sourceDateEpoch: Option<Int64>)
    returns (id: Text)
    ensures id == Identify(sha256, EnvironmentRecord(parallelism, fileCreationMask, sourceDateEpoch))
  {
    var writer := new IdentityWriter(sha256);
    writer.WriteText("libpkgbuild/environment-policy/1");
    writer.WriteText("C.UTF-8");
    writer.WriteText("UTC");
    writer.WriteText("denied");
    writer.WriteText("isolated");
    writer.WriteNumber(parallelism);
    writer.WriteNumber(fileCreationMask);
    WriteEpoch(writer, sourceDateEpoch);
    SevenThen(TextField(DomainTag(EnvironmentDomain)), TextField(LOCALE), TextField(TIMEZONE), TextField(NETWORK),
              TextField(HOME), NumberField(parallelism), NumberField(fileCreationMask),
              OptionalFields(OneNumber, EpochNumber(sourceDateEpoch)));
    EnvironmentWrites(parallelism, fileCreationMask, sourceDateEpoch);
    id := Finished(writer, EnvironmentRecord(parallelism, fileCreationMask, sourceDateEpoch));
  }

  method PolicyId(sha256: Hash, environment: Text) returns (id: Text)
    ensures id == Identify(sha256, PolicyRecord(environment))
  {
    var writer := new IdentityWriter(sha256);
    writer.WriteText("libpkgbuild/build-policy/1");
    writer.WriteText(environment);
    writer.WriteText("package-root");
    id := Finished(writer, PolicyRecord(environment));
  }

  lemma RequestWrites(source: Text, inputSet: Text, build: Text, target: Text, policy: Text)
    ensures [] + [TextField("libpkgbuild/build-request/1")] + [TextField(source)] + [TextField(inputSet)] +
            [TextField(build)] + [TextField(target)] + [TextField(policy)] ==
            Fields(RequestRecord(source, inputSet, build, target, policy))
  {
  }

  method RequestId(sha256: Hash, source: Text, inputSet: Text, build: Text, target: Text, policy: Text)
    returns (id: Text)
    ensures id == Identify(sha256, RequestRecord(source, inputSet, build, target, policy))
  {
    var writer := new IdentityWriter(sha256);
    writer.WriteText("libpkgbuild/build-request/1");
    writer.WriteText(source);
    writer.WriteText(inputSet);
    writer.WriteText(build);
    writer.WriteText(target);
    writer.WriteText(policy);
    RequestWrites(source, inputSet, build, target, policy);
    id := Finished(writer, RequestRecord(source, inputSet, build, target, policy));
  }

  method WriteOptionalText(writer: IdentityWriter, text: Option<Text>)
    requires writer.Valid() && writer.open
    modifies writer`absorbed, writer`log
    ensures writer.Valid() && writer.log == old(writer.log) + OptionalFields(OneText, text)
  {
    writer.WriteBoolean(text.Some?);
    if text.Some? {
      writer.WriteText(text.value);
    }
  }

  method WriteDevice(writer: IdentityWriter, device: Option<DeviceNumber>)
    requires writer.Valid() && writer.open
    modifies writer`absorbed, writer`log
    ensures writer.Valid() && writer.log == old(writer.log) + OptionalFields(DeviceFields, device)
  {
    writer.WriteBoolean(device.Some?);
    if device.Some? {
      writer.WriteNumber(device.value.major);
      writer.WriteNumber(device.value.minor);
    }
  }

  /** The fields every entry has. */
  method WriteCommonFields(writer: IdentityWriter, entry: PayloadEntry)
    requires writer.Valid() && writer.open
    modifies writer`absorbed, writer`log
    ensures writer.Valid()
    ensures writer.log == old(writer.log) + CommonFields(entry)
  {
    writer.WriteText(entry.path.value);
    writer.WriteText(TypeName(entry.entryType));
    writer.WriteNumber(entry.mode);
    writer.WriteNumber(entry.uid);
    writer.WriteNumber(entry.gid);
    writer.WriteNumber(entry.size);
    writer.WriteNumber(ToUnsigned(entry.modificationTime.seconds));
    writer.WriteNumber(entry.modificationTime.nanoseconds);
  }

  lemma FiveThen(log: seq<Field>, a: seq<Field>, b: seq<Field>, c: seq<Field>, d: seq<Field>, e: seq<Field>)
    ensures log + a + b + c + d + e == log + (a + b + c + d + e)
  {
  }

  method WritePayloadEntry(writer: IdentityWriter, entry: PayloadEntry)
    requires writer.Valid() && writer.open
    modifies writer`absorbed, writer`log
    ensures writer.Valid() && writer.log == old(writer.log) + EntryFields(entry)
  {
    WriteCommonFields(writer, entry);
    WriteOptionalText(writer, entry.symlinkTarget);
    WriteOptionalText(writer, PathText(entry.hardlinkTarget));
    WriteDevice(writer, entry.device);
    WriteOptionalText(writer, entry.regularContent);
    FiveThen(old(writer.log), CommonFields(entry), OptionalFields(OneText, entry.symlinkTarget),
             OptionalFields(OneText, PathText(entry.hardlinkTarget)), OptionalFields(DeviceFields, entry.device),
             OptionalFields(OneText, entry.regularContent));
  }

  /** One turn of the entry loop. */
  method WriteNextEntry(writer: IdentityWriter, entries: seq<PayloadEntry>, i: nat)
    requires writer.Valid() && writer.open && i < |entries|
    modifies writer`absorbed, writer`log
    ensures writer.Valid()
    ensures writer.log + ManyFields(EntryFields, entries, i + 1) ==
            old(writer.log) + ManyFields(EntryFields, entries, i)
  {
    ManyNext(EntryFields, entries, i, writer.log);
    WritePayloadEntry(writer, entries[i]);
  }

  method WriteEntries(writer: IdentityWriter, entries: seq<PayloadEntry>)
    requires writer.Valid() && writer.open
    modifies writer`absorbed, writer`log
    ensures writer.Valid() && writer.log == old(writer.log) + ManyFields(EntryFields, entries, 0)
  {
    ghost var all := old(writer.log) + ManyFields(EntryFields, entries, 0);
    for i := 0 to |entries|
      invariant writer.Valid() && writer.log + ManyFields(EntryFields, entries, i) == all
    {
      WriteNextEntry(writer, entries, i);
    }
  }

  /** The entry count, and then the entries. */
  method WriteCounted(writer: IdentityWriter, entries: Vector<PayloadEntry>)
    requires writer.Valid() && writer.open
    modifies writer`absorbed, writer`log
    ensures writer.Valid() && writer.log == old(writer.log) + CountedFields(EntryFields, entries)
  {
    writer.WriteNumber(|entries|);
    WriteEntries(writer, entries);
    Regroup(old(writer.log), [NumberField(|entries|)], ManyFields(EntryFields, entries, 0));
  }

  lemma ManifestWrites(entries: Vector<PayloadEntry>, counted: seq<Field>)
    requires counted == CountedFields(EntryFields, entries)
    ensures Fields(ManifestRecord(entries)) == [TextField("libpkgbuild/payload-manifest/1")] + counted
  {
    assert Body(ManifestRecord(entries)) == counted;
  }

  method ManifestId(sha256: Hash, entries: Vector<PayloadEntry>) returns (id: Text)
    ensures id == Identify(sha256, ManifestRecord(entries))
  {
    var writer := new IdentityWriter(sha256);
    writer.WriteText("libpkgbuild/payload-manifest/1");
    WriteCounted(writer, entries);
    ManifestWrites(entries, CountedFields(EntryFields, entries));
    id := Finished(writer, ManifestRecord(entries));
  }

  method ArtifactId(sha256: Hash, compression: Compression, byteCount: Uint64, digest: Text) returns (id: Text)
    ensures id == Identify(sha256, ArtifactRecord(compression, byteCount, digest))
  {
    var writer := new IdentityWriter(sha256);
    writer.WriteText("libpkgbuild/artifact/1");
    writer.WriteText("package-tar");
    writer.WriteText(CompressionName(compression));
    writer.WriteNumber(byteCount);
    writer.WriteText(digest);
    id := Finished(writer, ArtifactRecord(compression, byteCount, digest));
  }

  method BindingId(sha256: Hash, request: Text, payload: Text, artifact: Text, digest: Text) returns (id: Text)
    ensures id == Identify(sha256, BindingRecord(request, payload, artifact, digest))
  {
    var writer := new IdentityWriter(sha256);
    writer.WriteText("libpkgbuild/artifact-binding/1");
    writer.WriteText(request);
    writer.WriteText(payload);
    writer.WriteText(artifact);
    writer.WriteText(digest);
    id := Finished(writer, BindingRecord(request, payload, artifact, digest));
  }

  lemma SuccessWrites(request: Text, payload: Text, artifact: Text, binding: Text, execution: Text)
    ensures [] + [TextField("libpkgbuild/build-result/1")] + [TextField("succeeded")] + [TextField(request)] +
            [TextField(payload)] + [TextField(artifact)] + [TextField(binding)] + [TextField(execution)] ==
            Fields(SuccessRecord(request, payload, artifact, binding, execution))
  {
  }

  method SuccessId(sha256: Hash, request: Text, payload: Text, artifact: Text, binding: Text, execution: Text)
    returns (id: Text)
    ensures id == Identify(sha256, SuccessRecord(request, payload, artifact, binding, execution))
  {
    var writer := new IdentityWriter(sha256);
    writer.WriteText("libpkgbuild/build-result/1");
    writer.WriteText("succeeded");
    writer.WriteText(request);
    writer.WriteText(payload);
    writer.WriteText(artifact);
    writer.WriteText(binding);
    writer.WriteText(execution);
    SuccessWrites(request, payload, artifact, binding, execution);
    id := Finished(writer, SuccessRecord(request, payload, artifact, binding, execution));
  }

  method FailureId(sha256: Hash, request: Text, execution: Text, failure: Text) returns (id: Text)
    ensures id == Identify(sha256, FailureRecord(request, execution, failure))
  {
    var writer := new IdentityWriter(sha256);
    writer.WriteText("libpkgbuild/build-result/1");
    writer.WriteText("failed");
    writer.WriteText(request);
    writer.WriteText(execution);
    writer.WriteText(failure);
    id := Finished(writer, FailureRecord(request, execution, failure));
  }

  // ---------------------------------------------------------------- payload manifests

  datatype PayloadManifest = PayloadManifest(entries: Vector<PayloadEntry>, identity: Text)

  /** Sealing succeeds exactly on the lists that meet the manifest rules, and keeps their order. */
  method SealManifest(sha256: Hash, entries: Vector<PayloadEntry>) returns (r: Result<PayloadManifest>)
    ensures r == if Sealable(entries)
                 then Success(PayloadManifest(entries, Identify(sha256, ManifestRecord(entries))))
                 else Failure(InvalidModel)
  {
    var ok := CheckManifest(entries);
    if !ok {
      return Failure(InvalidModel);
    }
    var id := ManifestId(sha256, entries);
    return Success(PayloadManifest(entries, id));
  }
}
