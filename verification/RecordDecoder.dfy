/** A decoder for the hashed records. Reading is the exact inverse of writing: a record is read back from
    its own octets and from no others, so no two records, of one kind or of two, share a byte string. */
module RecordDecoder {
  import opened Bytes
  import opened Encoding
  import opened Codecs
  import opened PayloadPaths
  import opened Payload
  import opened Records

  // ---------------------------------------------------------------- vocabularies

  function TypeNamed(name: Text): Option<EntryType> {
    if name == TypeName(Regular) then Some(Regular)
    else if name == TypeName(Directory) then Some(Directory)
    else if name == TypeName(Symlink) then Some(Symlink)
    else if name == TypeName(Hardlink) then Some(Hardlink)
    else if name == TypeName(Fifo) then Some(Fifo)
    else if name == TypeName(CharacterDevice) then Some(CharacterDevice)
    else if name == TypeName(BlockDevice) then Some(BlockDevice)
    else None
  }

  /** The seven type words are distinct. */
  lemma TypeNamesReadBack(name: Text, entryType: EntryType)
    ensures TypeNamed(name) == Some(entryType) <==> name == TypeName(entryType)
  {
    assert TypeName(Regular)[0] == 'r' && TypeName(Symlink)[0] == 's';
    assert TypeName(Directory)[0] == 'd' && TypeName(Hardlink)[0] == 'h';
  }

  function ScopeNamed(name: Text): Option<InputScope> {
    if name == ScopeName(BuildInputs) then Some(BuildInputs)
    else if name == ScopeName(CheckInputs) then Some(CheckInputs)
    else None
  }

  function CompressionNamed(name: Text): Option<Compression> {
    if name == CompressionName(Uncompressed) then Some(Uncompressed)
    else if name == CompressionName(Gzip) then Some(Gzip)
    else if name == CompressionName(Xz) then Some(Xz)
    else if name == CompressionName(Zstd) then Some(Zstd)
    else None
  }

  lemma ScopeNamesReadBack(name: Text, scope: InputScope)
    ensures ScopeNamed(name) == Some(scope) <==> name == ScopeName(scope)
  {
    assert ScopeName(BuildInputs)[0] == 'b' && ScopeName(CheckInputs)[0] == 'c';
  }

  lemma CompressionNamesReadBack(name: Text, compression: Compression)
    ensures CompressionNamed(name) == Some(compression) <==> name == CompressionName(compression)
  {
    assert CompressionName(Uncompressed)[0] == 'n' && CompressionName(Gzip)[0] == 'g';
    assert CompressionName(Zstd)[0] == 'z';
  }

  lemma SignedReadsBack(n: Int64, u: Uint64)
    ensures ToSigned(u) == n <==> u == ToUnsigned(n)
  {
  }

  // ---------------------------------------------------------------- payload entries

  type CommonValues = (Text, (Text, (Uint64, (Uint64, (Uint64, (Uint64, (Uint64, Uint64)))))))
  type OptionalValues = (Option<Text>, (Option<Text>, (Option<DeviceNumber>, Option<Text>)))

  function ReadCommon(l: Leaves): Reader<CommonValues> {
    Pair(l.text, Pair(l.text, Pair(l.number, Pair(l.number, Pair(l.number,
      Pair(l.number, Pair(l.number, l.number)))))))
  }

  function WriteCommon(): CommonValues -> seq<Field> {
    PairFields(OneText, PairFields(OneText, PairFields(OneNumber, PairFields(OneNumber, PairFields(OneNumber,
      PairFields(OneNumber, PairFields(OneNumber, OneNumber)))))))
  }

  lemma CommonUndone(l: Leaves)
    requires Sound(l)
    ensures Undoes(ReadCommon(l), WriteCommon())
  {
    PairUndone(l.number, OneNumber, l.number, OneNumber);
    var r2, w2 := Pair(l.number, l.number), PairFields(OneNumber, OneNumber);
    PairUndone(l.number, OneNumber, r2, w2);
    var r3, w3 := Pair(l.number, r2), PairFields(OneNumber, w2);
    PairUndone(l.number, OneNumber, r3, w3);
    var r4, w4 := Pair(l.number, r3), PairFields(OneNumber, w3);
    PairUndone(l.number, OneNumber, r4, w4);
    var r5, w5 := Pair(l.number, r4), PairFields(OneNumber, w4);
    PairUndone(l.number, OneNumber, r5, w5);
    var r6, w6 := Pair(l.number, r5), PairFields(OneNumber, w5);
    PairUndone(l.text, OneText, r6, w6);
    PairUndone(l.text, OneText, Pair(l.text, r6), PairFields(OneText, w6));
  }

  function DeviceOf(pair: (Uint64, Uint64)): Option<DeviceNumber> {
    Some(DeviceNumber(pair.0, pair.1))
  }

  function DevicePair(device: DeviceNumber): (Uint64, Uint64) {
    (device.major, device.minor)
  }

  function ReadDevice(l: Leaves): Reader<DeviceNumber> {
    Mapped(Pair(l.number, l.number), DeviceOf)
  }

  lemma DeviceUndone(l: Leaves)
    requires Sound(l)
    ensures Undoes(ReadDevice(l), DeviceFields)
  {
    PairUndone(l.number, OneNumber, l.number, OneNumber);
    MappedUndone(Pair(l.number, l.number), PairFields(OneNumber, OneNumber), DeviceOf, DevicePair, DeviceFields);
  }

  function ReadOptions(l: Leaves): Reader<OptionalValues> {
    Pair(Optional(l.flag, l.text), Pair(Optional(l.flag, l.text),
      Pair(Optional(l.flag, ReadDevice(l)), Optional(l.flag, l.text))))
  }

  function WriteOptions(): OptionalValues -> seq<Field> {
    PairFields(OptionalWrites(OneText), PairFields(OptionalWrites(OneText),
      PairFields(OptionalWrites(DeviceFields), OptionalWrites(OneText))))
  }

  lemma OptionsUndone(l: Leaves)
    requires Sound(l)
    ensures Undoes(ReadOptions(l), WriteOptions())
  {
    DeviceUndone(l);
    OptionalUndone(l.flag, l.text, OneText);
    OptionalUndone(l.flag, ReadDevice(l), DeviceFields);
    var rt, wt := Optional(l.flag, l.text), OptionalWrites(OneText);
    var rd, wd := Optional(l.flag, ReadDevice(l)), OptionalWrites(DeviceFields);
    PairUndone(rd, wd, rt, wt);
    PairUndone(rt, wt, Pair(rd, rt), PairFields(wd, wt));
    PairUndone(rt, wt, Pair(rt, Pair(rd, rt)), PairFields(wt, PairFields(wd, wt)));
  }

  function PathOfText(text: Option<Text>): Option<PayloadPath> {
    match text
    case None => None
    case Some(t) => Some(PayloadPath(t))
  }

  /** The values written for an entry, and the entry they spell, if its type word is known and its 32-bit
      fields fit. */
  function SpellEntry(e: PayloadEntry): (CommonValues, OptionalValues) {
    ((e.path.value, (TypeName(e.entryType), (e.mode, (e.uid, (e.gid, (e.size,
       (ToUnsigned(e.modificationTime.seconds), e.modificationTime.nanoseconds))))))),
     (e.symlinkTarget, (PathText(e.hardlinkTarget), (e.device, e.regularContent))))
  }

  function EntryOf(v: (CommonValues, OptionalValues)): Option<PayloadEntry> {
    var (path, (name, (mode, (uid, (gid, (size, (seconds, nanoseconds))))))) := v.0;
    var (symlink, (hardlink, (device, content))) := v.1;
    var entryType :- TypeNamed(name);
    if mode >= 0x1_0000_0000 || nanoseconds >= 0x1_0000_0000 then None
    else
      Some(PayloadEntry(PayloadPath(path), entryType, mode, uid, gid, size,
                        PayloadTime(ToSigned(seconds), nanoseconds), symlink, PathOfText(hardlink), device, content))
  }

  lemma EntrySpelled(v: (CommonValues, OptionalValues), e: PayloadEntry)
    ensures EntryOf(v) == Some(e) <==> v == SpellEntry(e)
  {
    var (path, (name, (mode, (uid, (gid, (size, (seconds, nanoseconds))))))) := v.0;
    var (symlink, (hardlink, (device, content))) := v.1;
    assert v == ((path, (name, (mode, (uid, (gid, (size, (seconds, nanoseconds))))))),
                 (symlink, (hardlink, (device, content))));
    TypeNamesReadBack(name, e.entryType);
    SignedReadsBack(e.modificationTime.seconds, seconds);
  }

  function ReadEntry(l: Leaves): Reader<PayloadEntry> {
    Mapped(Pair(ReadCommon(l), ReadOptions(l)), EntryOf)
  }

  /** Six numbers in a row, written pair by pair. */
  lemma NumbersInARow(c: Uint64, d: Uint64, e: Uint64, f: Uint64, g: Uint64, h: Uint64)
    ensures PairFields(OneNumber, PairFields(OneNumber, PairFields(OneNumber, PairFields(OneNumber,
              PairFields(OneNumber, OneNumber)))))((c, (d, (e, (f, (g, h)))))) ==
            [NumberField(c), NumberField(d), NumberField(e), NumberField(f), NumberField(g), NumberField(h)]
  {
    var w2 := PairFields(OneNumber, OneNumber);
    var w3 := PairFields(OneNumber, w2);
    var w4 := PairFields(OneNumber, w3);
    var w5 := PairFields(OneNumber, w4);
    PairFieldsOf(OneNumber, OneNumber, g, h);
    PairFieldsOf(OneNumber, w2, f, (g, h));
    PairFieldsOf(OneNumber, w3, e, (f, (g, h)));
    PairFieldsOf(OneNumber, w4, d, (e, (f, (g, h))));
    PairFieldsOf(OneNumber, w5, c, (d, (e, (f, (g, h)))));
    assert w5((d, (e, (f, (g, h))))) ==
           [NumberField(d), NumberField(e), NumberField(f), NumberField(g), NumberField(h)];
  }

  lemma CommonFieldsWritten(e: PayloadEntry)
    ensures CommonFields(e) == WriteCommon()(SpellEntry(e).0)
  {
    var path, name := e.path.value, TypeName(e.entryType);
    var c: Uint64, d, f, g: Uint64 := e.mode, e.uid, e.gid, e.size;
    var seconds, nanoseconds: Uint64 := ToUnsigned(e.modificationTime.seconds), e.modificationTime.nanoseconds;
    NumbersInARow(c, d, f, g, seconds, nanoseconds);
    var numbers := (c, (d, (f, (g, (seconds, nanoseconds)))));
    var w6 := PairFields(OneNumber, PairFields(OneNumber, PairFields(OneNumber, PairFields(OneNumber,
                PairFields(OneNumber, OneNumber)))));
    PairFieldsOf(OneText, w6, name, numbers);
    PairFieldsOf(OneText, PairFields(OneText, w6), path, (name, numbers));
  }

  lemma FourInARow(head: seq<Field>, a: seq<Field>, b: seq<Field>, c: seq<Field>, d: seq<Field>)
    ensures head + a + b + c + d == head + (a + (b + (c + d)))
  {
  }

  lemma EntryFieldsWritten(e: PayloadEntry)
    ensures EntryFields(e) == PairFields(WriteCommon(), WriteOptions())(SpellEntry(e))
  {
    CommonFieldsWritten(e);
    FourInARow(CommonFields(e), OptionalFields(OneText, e.symlinkTarget),
               OptionalFields(OneText, PathText(e.hardlinkTarget)), OptionalFields(DeviceFields, e.device),
               OptionalFields(OneText, e.regularContent));
  }

  /** Every entry, of any type and with any of its optional fields, is read back from its own octets only. */
  lemma EntryUndone(l: Leaves)
    requires Sound(l)
    ensures Undoes(ReadEntry(l), EntryFields)
  {
    CommonUndone(l);
    OptionsUndone(l);
    PairUndone(ReadCommon(l), WriteCommon(), ReadOptions(l), WriteOptions());
    forall v, e
      ensures EntryOf(v) == Some(e) <==> v == SpellEntry(e)
    {
      EntrySpelled(v, e);
    }
    forall e
      ensures EntryFields(e) == PairFields(WriteCommon(), WriteOptions())(SpellEntry(e))
    {
      EntryFieldsWritten(e);
    }
    MappedUndone(Pair(ReadCommon(l), ReadOptions(l)), PairFields(WriteCommon(), WriteOptions()), EntryOf, SpellEntry,
                 EntryFields);
  }

  // ---------------------------------------------------------------- records that are texts throughout

  /** Which record of a domain, if any, has these body texts. */
  function RecordOfTexts(domain: Domain, t: seq<Text>): (r: Option<Record>)
    ensures r.Some? ==> DomainOf(r.value) == domain
  {
    if domain.InputDomain? && |t| == 3 then
      var scope :- ScopeNamed(t[0]);
      Some(InputRecord(scope, t[1], t[2]))
    else if domain.PolicyDomain? && |t| == 2 && t[1] == OUTPUT_LAYOUT then
      Some(PolicyRecord(t[0]))
    else if domain.RequestDomain? && |t| == 5 then
      Some(RequestRecord(t[0], t[1], t[2], t[3], t[4]))
    else if domain.BindingDomain? && |t| == 4 then
      Some(BindingRecord(t[0], t[1], t[2], t[3]))
    else if domain.ResultDomain? && |t| == 6 && t[0] == SUCCEEDED then
      Some(SuccessRecord(t[1], t[2], t[3], t[4], t[5]))
    else if domain.ResultDomain? && |t| == 4 && t[0] == FAILED then
      Some(FailureRecord(t[1], t[2], t[3]))
    else
      None
  }

  /** The outcome word tells a success record from a failure record under their common tag. */
  lemma RecordOfTextsInverts(domain: Domain, t: seq<Text>, record: Record)
    ensures RecordOfTexts(domain, t) == Some(record) <==>
            Textual(record) && domain == DomainOf(record) && t == BodyTexts(record)
  {
    if |t| == 3 && record.InputRecord? {
      ScopeNamesReadBack(t[0], record.scope);
    }
  }

  function DecodeTextual(l: Leaves, domain: Domain, body: seq<Byte>): (r: Option<Record>)
    ensures r.Some? ==> DomainOf(r.value) == domain
  {
    var t :- ReadTextsToEnd(l.text, body);
    RecordOfTexts(domain, t)
  }

  lemma TextualReadsBack(l: Leaves, domain: Domain, body: seq<Byte>, record: Record)
    requires Sound(l) && Textual(record)
    ensures DecodeTextual(l, domain, body) == Some(record) <==>
            domain == DomainOf(record) && body == Encode(TextFields(BodyTexts(record)))
  {
    TextsToEndReadBack(l.text, body, BodyTexts(record));
    match ReadTextsToEnd(l.text, body)
    case None =>
    case Some(t) => RecordOfTextsInverts(domain, t, record);
  }

  // ---------------------------------------------------------------- the other records

  type InputSetValues = ((Text, Text), Vector<Text>)

  function ReadInputSet(l: Leaves): Reader<InputSetValues> {
    Pair(Pair(l.text, l.text), Counted(l.number, l.text))
  }

  function WriteInputSet(): InputSetValues -> seq<Field> {
    PairFields(PairFields(OneText, OneText), CountedWrites(OneText))
  }

  lemma InputSetUndone(l: Leaves)
    requires Sound(l)
    ensures Undoes(ReadInputSet(l), WriteInputSet())
  {
    PairUndone(l.text, OneText, l.text, OneText);
    CountedUndone(l.number, l.text, OneText);
    PairUndone(Pair(l.text, l.text), PairFields(OneText, OneText), Counted(l.number, l.text), CountedWrites(OneText));
  }

  function DecodeInputSet(l: Leaves, body: seq<Byte>): (r: Option<Record>)
    ensures r.Some? ==> r.value.InputSetRecord?
  {
    var ((resolution, subject), inputs) :- Whole(ReadInputSet(l), body);
    Some(InputSetRecord(resolution, subject, inputs))
  }

  lemma TwoTexts(a: Text, b: Text, more: seq<Field>)
    ensures TextFields([a, b]) + more == (OneText(a) + OneText(b)) + more
  {
    assert TextFields([a, b]) == OneText(a) + OneText(b);
  }

  lemma InputSetReadsBack(l: Leaves, body: seq<Byte>, record: Record)
    requires Sound(l) && record.InputSetRecord?
    ensures DecodeInputSet(l, body) == Some(record) <==> body == Encode(Body(record))
  {
    InputSetUndone(l);
    TwoTexts(record.resolution, record.subject, CountedFields(OneText, record.inputs));
    WholeReadsBack(ReadInputSet(l), WriteInputSet(), body, ((record.resolution, record.subject), record.inputs));
  }

  type EnvironmentValues = ((Text, (Text, (Text, Text))), ((Uint64, Uint64), Option<Uint64>))

  function ReadEnvironment(l: Leaves): Reader<EnvironmentValues> {
    Pair(Pair(l.text, Pair(l.text, Pair(l.text, l.text))),
         Pair(Pair(l.number, l.number), Optional(l.flag, l.number)))
  }

  function WriteEnvironment(): EnvironmentValues -> seq<Field> {
    PairFields(PairFields(OneText, PairFields(OneText, PairFields(OneText, OneText))),
               PairFields(PairFields(OneNumber, OneNumber), OptionalWrites(OneNumber)))
  }

  lemma EnvironmentUndone(l: Leaves)
    requires Sound(l)
    ensures Undoes(ReadEnvironment(l), WriteEnvironment())
  {
    PairUndone(l.text, OneText, l.text, OneText);
    var r2, w2 := Pair(l.text, l.text), PairFields(OneText, OneText);
    PairUndone(l.text, OneText, r2, w2);
    var r3, w3 := Pair(l.text, r2), PairFields(OneText, w2);
    PairUndone(l.text, OneText, r3, w3);
    PairUndone(l.number, OneNumber, l.number, OneNumber);
    OptionalUndone(l.flag, l.number, OneNumber);
    var rn, wn := Pair(l.number, l.number), PairFields(OneNumber, OneNumber);
    var ro, wo := Optional(l.flag, l.number), OptionalWrites(OneNumber);
    PairUndone(rn, wn, ro, wo);
    PairUndone(Pair(l.text, r3), PairFields(OneText, w3), Pair(rn, ro), PairFields(wn, wo));
  }

  function EpochOf(number: Option<Uint64>): Option<Int64> {
    match number
    case None => None
    case Some(n) => Some(ToSigned(n))
  }

  lemma EpochsReadBack(number: Option<Uint64>, epoch: Option<Int64>)
    ensures EpochOf(number) == epoch <==> number == EpochNumber(epoch)
  {
    if number.Some? && epoch.Some? {
      SignedReadsBack(epoch.value, number.value);
    }
  }

  function EnvironmentOf(v: EnvironmentValues): Option<Record> {
    if v.0 == (LOCALE, (TIMEZONE, (NETWORK, HOME))) && v.1.0.0 < 0x1_0000_0000 && v.1.0.1 < 0x1_0000_0000 then
      Some(EnvironmentRecord(v.1.0.0, v.1.0.1, EpochOf(v.1.1)))
    else
      None
  }

  function SpellEnvironment(record: Record): EnvironmentValues
    requires record.EnvironmentRecord?
  {
    ((LOCALE, (TIMEZONE, (NETWORK, HOME))),
     ((record.parallelism, record.fileCreationMask), EpochNumber(record.sourceDateEpoch)))
  }

  lemma EnvironmentSpelled(v: EnvironmentValues, record: Record)
    requires record.EnvironmentRecord?
    ensures EnvironmentOf(v) == Some(record) <==> v == SpellEnvironment(record)
  {
    EpochsReadBack(v.1.1, record.sourceDateEpoch);
    assert v.1 == ((v.1.0.0, v.1.0.1), v.1.1);
  }

  function DecodeEnvironment(l: Leaves, body: seq<Byte>): (r: Option<Record>)
    ensures r.Some? ==> r.value.EnvironmentRecord?
  {
    var v :- Whole(ReadEnvironment(l), body);
    EnvironmentOf(v)
  }

  lemma Rearranged(a: Text, b: Text, c: Text, d: Text, m: Uint64, n: Uint64, epoch: seq<Field>)
    ensures TextFields([a, b, c, d]) + [NumberField(m), NumberField(n)] + epoch ==
            (OneText(a) + (OneText(b) + (OneText(c) + OneText(d)))) + ((OneNumber(m) + OneNumber(n)) + epoch)
  {
    assert TextFields([a, b, c, d]) == OneText(a) + (OneText(b) + (OneText(c) + OneText(d)));
  }

  lemma EnvironmentReadsBack(l: Leaves, body: seq<Byte>, record: Record)
    requires Sound(l) && record.EnvironmentRecord?
    ensures DecodeEnvironment(l, body) == Some(record) <==> body == Encode(Body(record))
  {
    EnvironmentUndone(l);
    Rearranged(LOCALE, TIMEZONE, NETWORK, HOME, record.parallelism, record.fileCreationMask,
               OptionalFields(OneNumber, EpochNumber(record.sourceDateEpoch)));
    WholeReadsBack(ReadEnvironment(l), WriteEnvironment(), body, SpellEnvironment(record));
    match Whole(ReadEnvironment(l), body)
    case None =>
    case Some(v) => EnvironmentSpelled(v, record);
  }

  function DecodeManifest(l: Leaves, body: seq<Byte>): (r: Option<Record>)
    ensures r.Some? ==> r.value.ManifestRecord?
  {
    var entries :- Whole(Counted(l.number, ReadEntry(l)), body);
    Some(ManifestRecord(entries))
  }

  /** A manifest of any length is read back entry for entry. */
  lemma ManifestReadsBack(l: Leaves, body: seq<Byte>, record: Record)
    requires Sound(l) && record.ManifestRecord?
    ensures DecodeManifest(l, body) == Some(record) <==> body == Encode(Body(record))
  {
    EntryUndone(l);
    CountedUndone(l.number, ReadEntry(l), EntryFields);
    WholeReadsBack(Counted(l.number, ReadEntry(l)), CountedWrites(EntryFields), body, record.entries);
  }

  type ArtifactValues = ((Text, Text), (Uint64, Text))

  function ReadArtifact(l: Leaves): Reader<ArtifactValues> {
    Pair(Pair(l.text, l.text), Pair(l.number, l.text))
  }

  function WriteArtifact(): ArtifactValues -> seq<Field> {
    PairFields(PairFields(OneText, OneText), PairFields(OneNumber, OneText))
  }

  lemma ArtifactUndone(l: Leaves)
    requires Sound(l)
    ensures Undoes(ReadArtifact(l), WriteArtifact())
  {
    PairUndone(l.text, OneText, l.text, OneText);
    PairUndone(l.number, OneNumber, l.text, OneText);
    PairUndone(Pair(l.text, l.text), PairFields(OneText, OneText),
               Pair(l.number, l.text), PairFields(OneNumber, OneText));
  }

  function DecodeArtifact(l: Leaves, body: seq<Byte>): (r: Option<Record>)
    ensures r.Some? ==> r.value.ArtifactRecord?
  {
    var ((encoding, name), (byteCount, digest)) :- Whole(ReadArtifact(l), body);
    var compression :- CompressionNamed(name);
    if encoding == ARTIFACT_ENCODING then Some(ArtifactRecord(compression, byteCount, digest)) else None
  }

  lemma ArtifactReadsBack(l: Leaves, body: seq<Byte>, record: Record)
    requires Sound(l) && record.ArtifactRecord?
    ensures DecodeArtifact(l, body) == Some(record) <==> body == Encode(Body(record))
  {
    ArtifactUndone(l);
    var name := CompressionName(record.compression);
    TwoTexts(ARTIFACT_ENCODING, name, [NumberField(record.byteCount), TextField(record.digest)]);
    assert OneNumber(record.byteCount) + OneText(record.digest) ==
           [NumberField(record.byteCount), TextField(record.digest)];
    WholeReadsBack(ReadArtifact(l), WriteArtifact(), body,
                   ((ARTIFACT_ENCODING, name), (record.byteCount, record.digest)));
    match Whole(ReadArtifact(l), body)
    case None =>
    case Some(v) => CompressionNamesReadBack(v.0.1, record.compression);
  }

  function DomainTagged(tag: Text): Option<Domain> {
    if tag == DomainTag(InputDomain) then Some(InputDomain)
    else if tag == DomainTag(InputSetDomain) then Some(InputSetDomain)
    else if tag == DomainTag(EnvironmentDomain) then Some(EnvironmentDomain)
    else if tag == DomainTag(PolicyDomain) then Some(PolicyDomain)
    else if tag == DomainTag(RequestDomain) then Some(RequestDomain)
    else if tag == DomainTag(ManifestDomain) then Some(ManifestDomain)
    else if tag == DomainTag(ArtifactDomain) then Some(ArtifactDomain)
    else if tag == DomainTag(BindingDomain) then Some(BindingDomain)
    else if tag == DomainTag(ResultDomain) then Some(ResultDomain)
    else None
  }

  /** The tags are distinct: most differ in length, two pairs in the letter after their common prefix. */
  lemma DomainTagsReadBack(tag: Text, domain: Domain)
    ensures DomainTagged(tag) == Some(domain) <==> tag == DomainTag(domain)
  {
    assert DomainTag(PolicyDomain)[18] == 'p' && DomainTag(ResultDomain)[18] == 'r';
    assert DomainTag(ManifestDomain)[12] == 'p' && DomainTag(BindingDomain)[12] == 'a';
  }

  function DecodeBody(l: Leaves, domain: Domain, body: seq<Byte>): (r: Option<Record>)
    ensures r.Some? ==> DomainOf(r.value) == domain
  {
    match domain
    case InputSetDomain => DecodeInputSet(l, body)
    case EnvironmentDomain => DecodeEnvironment(l, body)
    case ManifestDomain => DecodeManifest(l, body)
    case ArtifactDomain => DecodeArtifact(l, body)
    case _ => DecodeTextual(l, domain, body)
  }

  lemma BodyReadsBack(l: Leaves, body: seq<Byte>, record: Record)
    requires Sound(l)
    ensures DecodeBody(l, DomainOf(record), body) == Some(record) <==> body == Encode(Body(record))
  {
    if Textual(record) {
      TextualReadsBack(l, DomainOf(record), body, record);
    } else {
      match record
      case InputSetRecord(_, _, _) => InputSetReadsBack(l, body, record);
      case EnvironmentRecord(_, _, _) => EnvironmentReadsBack(l, body, record);
      case ManifestRecord(_) => ManifestReadsBack(l, body, record);
      case ArtifactRecord(_, _, _) => ArtifactReadsBack(l, body, record);
    }
  }

  function DecodeWith(l: Leaves, bytes: seq<Byte>): Option<Record> {
    match l.text(bytes)
    case None => None
    case Some((tag, body)) =>
      var domain :- DomainTagged(tag);
      DecodeBody(l, domain, body)
  }

  lemma RecordReadsBackWith(l: Leaves, bytes: seq<Byte>, record: Record)
    requires Sound(l)
    ensures DecodeWith(l, bytes) == Some(record) <==> bytes == RecordBytes(record)
  {
    var own := DomainTag(DomainOf(record));
    EncodeAppend(OneText(own), Body(record));
    assert UndoneAt(l.text, OneText, bytes, own, Encode(Body(record)));
    match l.text(bytes)
    case None =>
    case Some((tag, body)) =>
      assert UndoneAt(l.text, OneText, bytes, tag, body);
      DomainTagsReadBack(tag, DomainOf(record));
      BodyReadsBack(l, body, record);
  }

  function DecodeRecord(bytes: seq<Byte>): Option<Record> {
    DecodeWith(TheLeaves(), bytes)
  }

  /** The decoder inverts the encoder exactly: a record is read from its own octets, and from no others. */
  lemma RecordReadsBack(bytes: seq<Byte>, record: Record)
    ensures DecodeRecord(bytes) == Some(record) <==> bytes == RecordBytes(record)
  {
    TheLeavesAreSound();
    RecordReadsBackWith(TheLeaves(), bytes, record);
  }

  /** No two records, of one kind or of two, are hashed from the same octets. */
  lemma RecordsAreInjective(a: Record, b: Record)
    ensures RecordBytes(a) == RecordBytes(b) <==> a == b
  {
    RecordReadsBack(RecordBytes(a), a);
    RecordReadsBack(RecordBytes(a), b);
  }
}
