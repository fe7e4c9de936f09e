/** The canonical octets, in literals: every word, every field and its place, for each record the library hashes. */
module RecordOctets {
  import opened Bytes
  import opened Numbers
  import opened Encoding
  import opened Codecs
  import opened Sequences
  import opened IdentityWriters
  import opened PayloadPaths
  import opened Payload
  import opened Records
  import opened Identities

  // ---------------------------------------------------------------- fields

  lemma MagnitudeSnoc(front: seq<Byte>, last: Byte)
    ensures Magnitude(front + [last]) == 256 * Magnitude(front) + last as int
  {
    assert (front + [last])[..|front|] == front;
  }

  lemma FourOctets(front: seq<Byte>, a: Byte, b: Byte, c: Byte, d: Byte)
    ensures Magnitude(front + [a, b, c, d]) ==
            0x1_0000_0000 * Magnitude(front) + 0x100_0000 * a as int + 0x1_0000 * b as int + 0x100 * c as int + d as int
  {
    MagnitudeSnoc(front, a);
    MagnitudeSnoc(front + [a], b);
    MagnitudeSnoc(front + [a] + [b], c);
    MagnitudeSnoc(front + [a] + [b] + [c], d);
    assert front + [a, b, c, d] == front + [a] + [b] + [c] + [d];
  }

  /** A number is eight octets, the most significant first. */
  lemma NumberOctets(n: Uint64)
    ensures var o := FieldBytes(NumberField(n));
            && |o| == 8
            && n == 0x100_0000_0000_0000 * o[0] as int + 0x1_0000_0000_0000 * o[1] as int +
                    0x100_0000_0000 * o[2] as int + 0x1_0000_0000 * o[3] as int +
                    0x100_0000 * o[4] as int + 0x1_0000 * o[5] as int + 0x100 * o[6] as int + o[7] as int
  {
    var o := NumberBytes(n);
    EightOctetsOf(n);
    FourOctets([], o[0], o[1], o[2], o[3]);
    FourOctets([o[0], o[1], o[2], o[3]], o[4], o[5], o[6], o[7]);
    assert o == [o[0], o[1], o[2], o[3]] + [o[4], o[5], o[6], o[7]];
    assert [] + [o[0], o[1], o[2], o[3]] == [o[0], o[1], o[2], o[3]];
  }

  /** A text is the number of its octets and then the octets; a boolean is the number one or zero; a sequence of
      writes is one after the other. */
  lemma FieldOctets(t: Text, flag: bool, f: Field, writes: seq<Field>)
    ensures FieldBytes(TextField(t)) == FieldBytes(NumberField(|t|)) + t
    ensures FieldBytes(BooleanField(flag)) == FieldBytes(NumberField(if flag then 1 else 0))
    ensures Encode([]) == [] && Encode([f] + writes) == FieldBytes(f) + Encode(writes)
  {
    EncodeCons(f, writes);
  }

  // ---------------------------------------------------------------- identities

  const DIGITS: seq<Byte> := "0123456789abcdef"

  lemma DigitAt(n: nat)
    requires n < 16
    ensures HexDigit(n) == DIGITS[n]
  {
  }

  lemma DigitsOf(bytes: seq<Byte>, k: nat)
    requires k < |bytes|
    ensures HexOf(bytes)[2 * k] == DIGITS[bytes[k] as int / 16]
    ensures HexOf(bytes)[2 * k + 1] == DIGITS[bytes[k] as int % 16]
  {
    HexDigitsAt(bytes, k);
    DigitAt(bytes[k] as int / 16);
    DigitAt(bytes[k] as int % 16);
  }

  lemma DigestDigits(digest: Digest)
    ensures |HexOf(digest)| == 64
    ensures forall k :: 0 <= k < 32 ==>
              HexOf(digest)[2 * k] == DIGITS[digest[k] as int / 16] &&
              HexOf(digest)[2 * k + 1] == DIGITS[digest[k] as int % 16]
  {
    forall k | 0 <= k < 32
      ensures HexOf(digest)[2 * k] == DIGITS[digest[k] as int / 16]
      ensures HexOf(digest)[2 * k + 1] == DIGITS[digest[k] as int % 16]
    {
      DigitsOf(digest, k);
    }
  }

  /** An identity spells the digest of the record's octets, two digits an octet. */
  lemma IdentityDigits(sha256: Hash, record: Record)
    ensures var id, digest := Identify(sha256, record), sha256(RecordBytes(record));
            && |id| == 64
            && forall k :: 0 <= k < 32 ==>
                 id[2 * k] == DIGITS[digest[k] as int / 16] && id[2 * k + 1] == DIGITS[digest[k] as int % 16]
  {
    DigestDigits(sha256(RecordBytes(record)));
  }

  // ---------------------------------------------------------------- records of texts

  lemma OctetsOf(record: Record, writes: seq<Field>)
    requires Fields(record) == writes
    ensures RecordBytes(record) == Encode(writes)
  {
  }

  lemma InputOctets(edge: Text, selection: Text)
    ensures RecordBytes(InputRecord(BuildInputs, edge, selection)) ==
            Encode([TextField("libpkgbuild/build-input/1"), TextField("build"), TextField(edge), TextField(selection)])
    ensures RecordBytes(InputRecord(CheckInputs, edge, selection)) ==
            Encode([TextField("libpkgbuild/build-input/1"), TextField("check"), TextField(edge), TextField(selection)])
  {
    assert Fields(InputRecord(BuildInputs, edge, selection)) ==
           [TextField("libpkgbuild/build-input/1"), TextField("build"), TextField(edge), TextField(selection)];
    assert Fields(InputRecord(CheckInputs, edge, selection)) ==
           [TextField("libpkgbuild/build-input/1"), TextField("check"), TextField(edge), TextField(selection)];
  }

  lemma PolicyOctets(environment: Text)
    ensures RecordBytes(PolicyRecord(environment)) ==
            Encode([TextField("libpkgbuild/build-policy/1"), TextField(environment), TextField("package-root")])
  {
    assert Fields(PolicyRecord(environment)) ==
           [TextField("libpkgbuild/build-policy/1"), TextField(environment), TextField("package-root")];
  }

  lemma RequestOctets(source: Text, inputSet: Text, build: Text, target: Text, policy: Text)
    ensures RecordBytes(RequestRecord(source, inputSet, build, target, policy)) ==
            Encode([TextField("libpkgbuild/build-request/1"), TextField(source), TextField(inputSet),
                    TextField(build), TextField(target), TextField(policy)])
  {
    assert Fields(RequestRecord(source, inputSet, build, target, policy)) ==
           [TextField("libpkgbuild/build-request/1"), TextField(source), TextField(inputSet),
            TextField(build), TextField(target), TextField(policy)];
  }

  lemma BindingOctets(request: Text, payload: Text, artifact: Text, digest: Text)
    ensures RecordBytes(BindingRecord(request, payload, artifact, digest)) ==
            Encode([TextField("libpkgbuild/artifact-binding/1"), TextField(request), TextField(payload),
                    TextField(artifact), TextField(digest)])
  {
    assert Fields(BindingRecord(request, payload, artifact, digest)) ==
           [TextField("libpkgbuild/artifact-binding/1"), TextField(request), TextField(payload),
            TextField(artifact), TextField(digest)];
  }

  lemma SuccessOctets(request: Text, payload: Text, artifact: Text, binding: Text, execution: Text)
    ensures RecordBytes(SuccessRecord(request, payload, artifact, binding, execution)) ==
            Encode([TextField("libpkgbuild/build-result/1"), TextField("succeeded"), TextField(request),
                    TextField(payload), TextField(artifact), TextField(binding), TextField(execution)])
  {
    assert Fields(SuccessRecord(request, payload, artifact, binding, execution)) ==
           [TextField("libpkgbuild/build-result/1"), TextField("succeeded"), TextField(request),
            TextField(payload), TextField(artifact), TextField(binding), TextField(execution)];
  }

  lemma FailureOctets(request: Text, execution: Text, failure: Text)
    ensures RecordBytes(FailureRecord(request, execution, failure)) ==
            Encode([TextField("libpkgbuild/build-result/1"), TextField("failed"), TextField(request),
                    TextField(execution), TextField(failure)])
  {
    assert Fields(FailureRecord(request, execution, failure)) ==
           [TextField("libpkgbuild/build-result/1"), TextField("failed"), TextField(request),
            TextField(execution), TextField(failure)];
  }

  // ---------------------------------------------------------------- the other records

  /** A signed number as 64 bits, two's complement. */
  function TwosComplement(n: Int64): Uint64 {
    if n < 0 then 0x1_0000_0000_0000_0000 + n else n
  }

  lemma EnvironmentOctets(parallelism: Uint32, mask: Uint32, epoch: Option<Int64>)
    ensures RecordBytes(EnvironmentRecord(parallelism, mask, epoch)) ==
            Encode([TextField("libpkgbuild/environment-policy/1"), TextField("C.UTF-8"), TextField("UTC"),
                    TextField("denied"), TextField("isolated"), NumberField(parallelism), NumberField(mask),
                    BooleanField(epoch.Some?)] +
                   if epoch.Some? then [NumberField(TwosComplement(epoch.value))] else [])
  {
    assert Fields(EnvironmentRecord(parallelism, mask, epoch)) ==
           [TextField("libpkgbuild/environment-policy/1"), TextField("C.UTF-8"), TextField("UTC"),
            TextField("denied"), TextField("isolated"), NumberField(parallelism), NumberField(mask),
            BooleanField(epoch.Some?)] +
           if epoch.Some? then [NumberField(TwosComplement(epoch.value))] else [];
  }

  lemma ArtifactOctets(compression: Compression, byteCount: Uint64, digest: Text)
    ensures RecordBytes(ArtifactRecord(compression, byteCount, digest)) ==
            Encode([TextField("libpkgbuild/artifact/1"), TextField("package-tar"),
                    TextField(match compression case Uncompressed => "none" case Gzip => "gzip"
                              case Xz => "xz" case Zstd => "zstd"),
                    NumberField(byteCount), TextField(digest)])
  {
    assert Fields(ArtifactRecord(compression, byteCount, digest)) ==
           [TextField("libpkgbuild/artifact/1"), TextField("package-tar"),
            TextField(match compression case Uncompressed => "none" case Gzip => "gzip"
                      case Xz => "xz" case Zstd => "zstd"),
            NumberField(byteCount), TextField(digest)];
  }

  lemma {:induction false} TextList(inputs: seq<Text>, from: nat)
    requires from <= |inputs|
    ensures ManyFields(OneText, inputs, from) == TextFields(inputs)[from..]
    decreases |inputs| - from
  {
    if from < |inputs| {
      TextList(inputs, from + 1);
    }
  }

  lemma InputSetWrites(resolution: Text, subject: Text, inputs: Vector<Text>, counted: seq<Field>)
    requires counted == CountedFields(OneText, inputs)
    ensures Fields(InputSetRecord(resolution, subject, inputs)) ==
            [TextField("libpkgbuild/build-input-set/1")] + ([TextField(resolution), TextField(subject)] + counted)
  {
    assert TextFields([resolution, subject]) == [TextField(resolution), TextField(subject)];
  }

  lemma FourAnd(tag: Field, a: Field, b: Field, count: Field, list: seq<Field>)
    ensures [tag] + ([a, b] + ([count] + list)) == [tag, a, b, count] + list
  {
  }

  lemma InputSetOctets(resolution: Text, subject: Text, inputs: Vector<Text>)
    ensures RecordBytes(InputSetRecord(resolution, subject, inputs)) ==
            Encode([TextField("libpkgbuild/build-input-set/1"), TextField(resolution), TextField(subject),
                    NumberField(|inputs|)] +
                   seq(|inputs|, i requires 0 <= i < |inputs| => TextField(inputs[i])))
  {
    var list := seq(|inputs|, i requires 0 <= i < |inputs| => TextField(inputs[i]));
    TextList(inputs, 0);
    assert TextFields(inputs)[0..] == list;
    InputSetWrites(resolution, subject, inputs, [NumberField(|inputs|)] + list);
    FourAnd(TextField("libpkgbuild/build-input-set/1"), TextField(resolution), TextField(subject),
            NumberField(|inputs|), list);
    OctetsOf(InputSetRecord(resolution, subject, inputs),
             [TextField("libpkgbuild/build-input-set/1"), TextField(resolution), TextField(subject),
              NumberField(|inputs|)] + list);
  }

  // ---------------------------------------------------------------- manifests

  function TypeWord(e: PayloadEntry): Text {
    match e.entryType
    case Regular => "regular"
    case Directory => "directory"
    case Symlink => "symlink"
    case Hardlink => "hardlink"
    case Fifo => "fifo"
    case CharacterDevice => "character-device"
    case BlockDevice => "block-device"
  }

  /** The writes of an entry, in order. */
  function EntryWrites(e: PayloadEntry): seq<Field> {
    [TextField(e.path.value), TextField(TypeWord(e)), NumberField(e.mode), NumberField(e.uid), NumberField(e.gid),
     NumberField(e.size), NumberField(TwosComplement(e.modificationTime.seconds)),
     NumberField(e.modificationTime.nanoseconds)] +
    (if e.symlinkTarget.Some? then [BooleanField(true), TextField(e.symlinkTarget.value)]
     else [BooleanField(false)]) +
    (if e.hardlinkTarget.Some? then [BooleanField(true), TextField(e.hardlinkTarget.value.value)]
     else [BooleanField(false)]) +
    (if e.device.Some?
     then [BooleanField(true), NumberField(e.device.value.major), NumberField(e.device.value.minor)]
     else [BooleanField(false)]) +
    (if e.regularContent.Some? then [BooleanField(true), TextField(e.regularContent.value)]
     else [BooleanField(false)])
  }

  /** The writes of the entries from an index on. */
  function EntriesWrites(entries: seq<PayloadEntry>, from: nat): seq<Field>
    requires from <= |entries|
    decreases |entries| - from
  {
    if from == |entries| then [] else EntryWrites(entries[from]) + EntriesWrites(entries, from + 1)
  }

  lemma OptionalText(t: Option<Text>)
    ensures OptionalFields(OneText, t) ==
            if t.Some? then [BooleanField(true), TextField(t.value)] else [BooleanField(false)]
  {
    assert t.Some? ==> [BooleanField(true)] + OneText(t.value) == [BooleanField(true), TextField(t.value)];
  }

  lemma OptionalDevice(d: Option<DeviceNumber>)
    ensures OptionalFields(DeviceFields, d) ==
            if d.Some? then [BooleanField(true), NumberField(d.value.major), NumberField(d.value.minor)]
            else [BooleanField(false)]
  {
    assert d.Some? ==> [BooleanField(true)] + DeviceFields(d.value) ==
                       [BooleanField(true), NumberField(d.value.major), NumberField(d.value.minor)];
  }

  lemma EntryOctets(e: PayloadEntry)
    ensures EntryFields(e) == EntryWrites(e)
  {
    OptionalText(e.symlinkTarget);
    OptionalText(PathText(e.hardlinkTarget));
    OptionalDevice(e.device);
    OptionalText(e.regularContent);
  }

  lemma {:induction false} EntriesOctets(entries: seq<PayloadEntry>, from: nat)
    requires from <= |entries|
    ensures ManyFields(EntryFields, entries, from) == EntriesWrites(entries, from)
    decreases |entries| - from
  {
    if from < |entries| {
      EntryOctets(entries[from]);
      EntriesOctets(entries, from + 1);
    }
  }

  lemma CountedEntries(entries: Vector<PayloadEntry>)
    ensures CountedFields(EntryFields, entries) == [NumberField(|entries|)] + EntriesWrites(entries, 0)
  {
    EntriesOctets(entries, 0);
  }

  lemma ManifestOctets(entries: Vector<PayloadEntry>, writes: seq<Field>)
    requires writes == [TextField("libpkgbuild/payload-manifest/1")] +
                       ([NumberField(|entries|)] + EntriesWrites(entries, 0))
    ensures RecordBytes(ManifestRecord(entries)) == Encode(writes)
  {
    CountedEntries(entries);
    ManifestWrites(entries, [NumberField(|entries|)] + EntriesWrites(entries, 0));
    OctetsOf(ManifestRecord(entries), writes);
  }
}
