/** The library's own writes follow one schema: what has been written decides what kind of write comes next. So every
    record says where it ends. */
module Schemas {
  import opened Bytes
  import opened Sequences
  import opened Encoding
  import opened Codecs
  import opened Payload
  import opened Records
  import RecordDecoder

  /** One schema after another, where the second may depend on what the first wrote. */
  lemma SchemaThen(f: seq<Field>, x: seq<Field>, g: seq<Field>, y: seq<Field>)
    requires OneSchema(f, g) && (f == g ==> OneSchema(x, y))
    ensures OneSchema(f + x, g + y)
  {
    var p, q := f + x, g + y;
    forall i | 0 <= i < |p| && i < |q| && p[..i] == q[..i]
      ensures SameKind(p[i], q[i])
    {
      SchemaThenAt(f, x, g, y, i);
    }
    if p <= q || q <= p {
      SharedStart(f, x, g, y, if |p| <= |q| then |p| else |q|);
      if f == g {
        assert p[|f|..] == x && q[|f|..] == y;
      }
    }
  }

  /** Writes that agree as far as either first part goes have the same first part. */
  lemma SharedStart(f: seq<Field>, x: seq<Field>, g: seq<Field>, y: seq<Field>, n: nat)
    requires OneSchema(f, g) && n <= |f + x| && n <= |g + y| && (f + x)[..n] == (g + y)[..n]
    requires n >= |f| || n >= |g|
    ensures f == g
  {
    var least := if |f| <= |g| then |f| else |g|;
    TakeOfAppend(f, x, n, least);
    TakeOfAppend(g, y, n, least);
    assert f <= g || g <= f;
  }

  lemma TakeOfAppend(f: seq<Field>, x: seq<Field>, n: nat, k: nat)
    requires k <= |f| && k <= n <= |f + x|
    ensures (f + x)[..n][..k] == f[..k]
  {
  }

  lemma SchemaThenAt(f: seq<Field>, x: seq<Field>, g: seq<Field>, y: seq<Field>, i: nat)
    requires OneSchema(f, g) && (f == g ==> OneSchema(x, y))
    requires i < |f + x| && i < |g + y| && (f + x)[..i] == (g + y)[..i]
    ensures SameKind((f + x)[i], (g + y)[i])
  {
    var p, q := f + x, g + y;
    if i < |f| && i < |g| {
      assert f[..i] == p[..i] && g[..i] == q[..i];
    } else {
      SharedStart(f, x, g, y, i);
      var k := i - |f|;
      assert x[..k] == p[..i][|f|..] && y[..k] == q[..i][|g|..];
    }
  }

  /** Single writes of one kind. */
  lemma OneWrite(a: Field, b: Field)
    requires SameKind(a, b)
    ensures OneSchema([a], [b])
  {
  }

  lemma NoWrites()
    ensures OneSchema([], [])
  {
  }

  /** A writer keeps to one schema, whatever it writes. */
  ghost predicate Schematic<A(!new)>(write: A -> seq<Field>) {
    forall a, b :: Follow(write, a, b)
  }

  ghost predicate Follow<A>(write: A -> seq<Field>, a: A, b: A) {
    OneSchema(write(a), write(b))
  }

  /** Writes of the same kinds throughout. */
  lemma FixedShape(f: seq<Field>, g: seq<Field>)
    requires |f| == |g| && forall i :: 0 <= i < |f| ==> SameKind(f[i], g[i])
    ensures OneSchema(f, g)
  {
  }

  /** Once the first writes differ, nothing is asked of the others. */
  lemma HeadsDiffer(f: seq<Field>, g: seq<Field>)
    requires f != [] && g != [] && SameKind(f[0], g[0]) && f[0] != g[0]
    ensures OneSchema(f, g)
  {
    forall i | 0 < i <= |f| && i <= |g|
      ensures f[..i] != g[..i]
    {
      assert f[..i][0] != g[..i][0];
    }
  }

  lemma OptionalFollows<A(!new)>(write: A -> seq<Field>, u: Option<A>, v: Option<A>)
    requires Schematic(write)
    ensures OneSchema(OptionalFields(write, u), OptionalFields(write, v))
  {
    var f, g := [BooleanField(u.Some?)], [BooleanField(v.Some?)];
    OneWrite(f[0], g[0]);
    NoWrites();
    assert u.Some? && v.Some? ==> Follow(write, u.value, v.value);
    SchemaThen(f, if u.None? then [] else write(u.value), g, if v.None? then [] else write(v.value));
  }

  lemma {:induction false} ManyFollow<A(!new)>(write: A -> seq<Field>, u: seq<A>, v: seq<A>, from: nat)
    requires Schematic(write) && from <= |u| == |v|
    ensures OneSchema(ManyFields(write, u, from), ManyFields(write, v, from))
    decreases |u| - from
  {
    if from == |u| {
      NoWrites();
    } else {
      ManyFollow(write, u, v, from + 1);
      assert Follow(write, u[from], v[from]);
      SchemaThen(write(u[from]), ManyFields(write, u, from + 1), write(v[from]), ManyFields(write, v, from + 1));
    }
  }

  lemma CountedFollows<A(!new)>(write: A -> seq<Field>, u: Vector<A>, v: Vector<A>)
    requires Schematic(write)
    ensures OneSchema(CountedFields(write, u), CountedFields(write, v))
  {
    var f, g := [NumberField(|u|)], [NumberField(|v|)];
    OneWrite(f[0], g[0]);
    if f == g {
      ManyFollow(write, u, v, 0);
    }
    SchemaThen(f, ManyFields(write, u, 0), g, ManyFields(write, v, 0));
  }

  // ---------------------------------------------------------------- the library's records

  lemma SingleWritesFollow()
    ensures Schematic(OneText) && Schematic(OneNumber) && Schematic(DeviceFields)
  {
    forall a, b
      ensures Follow(OneText, a, b)
    {
      OneWrite(TextField(a), TextField(b));
    }
    forall a, b
      ensures Follow(OneNumber, a, b)
    {
      OneWrite(NumberField(a), NumberField(b));
    }
    forall a, b
      ensures Follow(DeviceFields, a, b)
    {
      FixedShape(DeviceFields(a), DeviceFields(b));
    }
  }

  lemma EntryFollows(a: PayloadEntry, b: PayloadEntry)
    ensures OneSchema(EntryFields(a), EntryFields(b))
  {
    SingleWritesFollow();
    var f, g := CommonFields(a), CommonFields(b);
    FixedShape(f, g);
    var x, y := OptionalFields(OneText, a.symlinkTarget), OptionalFields(OneText, b.symlinkTarget);
    OptionalFollows(OneText, a.symlinkTarget, b.symlinkTarget);
    SchemaThen(f, x, g, y);
    f, g := f + x, g + y;
    x, y := OptionalFields(OneText, PathText(a.hardlinkTarget)), OptionalFields(OneText, PathText(b.hardlinkTarget));
    OptionalFollows(OneText, PathText(a.hardlinkTarget), PathText(b.hardlinkTarget));
    SchemaThen(f, x, g, y);
    f, g := f + x, g + y;
    x, y := OptionalFields(DeviceFields, a.device), OptionalFields(DeviceFields, b.device);
    OptionalFollows(DeviceFields, a.device, b.device);
    SchemaThen(f, x, g, y);
    f, g := f + x, g + y;
    x, y := OptionalFields(OneText, a.regularContent), OptionalFields(OneText, b.regularContent);
    OptionalFollows(OneText, a.regularContent, b.regularContent);
    SchemaThen(f, x, g, y);
  }

  lemma ManifestFollows(a: Record, b: Record)
    requires a.ManifestRecord? && b.ManifestRecord?
    ensures OneSchema(Body(a), Body(b))
  {
    forall x, y
      ensures Follow(EntryFields, x, y)
    {
      EntryFollows(x, y);
    }
    CountedFollows(EntryFields, a.entries, b.entries);
  }

  lemma InputSetFollows(a: Record, b: Record)
    requires a.InputSetRecord? && b.InputSetRecord?
    ensures OneSchema(Body(a), Body(b))
  {
    SingleWritesFollow();
    var f, g := TextFields([a.resolution, a.subject]), TextFields([b.resolution, b.subject]);
    FixedShape(f, g);
    CountedFollows(OneText, a.inputs, b.inputs);
    SchemaThen(f, CountedFields(OneText, a.inputs), g, CountedFields(OneText, b.inputs));
  }

  lemma EnvironmentFollows(a: Record, b: Record)
    requires a.EnvironmentRecord? && b.EnvironmentRecord?
    ensures OneSchema(Body(a), Body(b))
  {
    SingleWritesFollow();
    var words := TextFields([LOCALE, TIMEZONE, NETWORK, HOME]);
    var f := words + [NumberField(a.parallelism), NumberField(a.fileCreationMask)];
    var g := words + [NumberField(b.parallelism), NumberField(b.fileCreationMask)];
    FixedShape(f, g);
    OptionalFollows(OneNumber, EpochNumber(a.sourceDateEpoch), EpochNumber(b.sourceDateEpoch));
    SchemaThen(f, OptionalFields(OneNumber, EpochNumber(a.sourceDateEpoch)),
               g, OptionalFields(OneNumber, EpochNumber(b.sourceDateEpoch)));
  }

  lemma TextsFollow(s: seq<Text>, t: seq<Text>)
    requires |s| == |t|
    ensures OneSchema(TextFields(s), TextFields(t))
  {
    FixedShape(TextFields(s), TextFields(t));
  }

  lemma SameTextCount(a: Record, b: Record)
    requires Textual(a) && Textual(b) && DomainOf(a) == DomainOf(b) && a.SuccessRecord? == b.SuccessRecord?
    ensures |BodyTexts(a)| == |BodyTexts(b)|
  {
  }

  lemma OutcomesDiffer(a: Record, b: Record)
    requires Textual(a) && Textual(b) && DomainOf(a) == DomainOf(b) && a.SuccessRecord? != b.SuccessRecord?
    ensures BodyTexts(a) != [] && BodyTexts(b) != [] && BodyTexts(a)[0] != BodyTexts(b)[0]
  {
    assert SUCCEEDED[0] != FAILED[0];
  }

  lemma TextualFollows(a: Record, b: Record)
    requires Textual(a) && Textual(b) && DomainOf(a) == DomainOf(b)
    ensures OneSchema(TextFields(BodyTexts(a)), TextFields(BodyTexts(b)))
  {
    var s, t := BodyTexts(a), BodyTexts(b);
    if a.SuccessRecord? == b.SuccessRecord? {
      SameTextCount(a, b);
      TextsFollow(s, t);
    } else {
      OutcomesDiffer(a, b);
      HeadsDiffer(TextFields(s), TextFields(t));
    }
  }

  lemma BodyFollows(a: Record, b: Record)
    requires DomainOf(a) == DomainOf(b)
    ensures OneSchema(Body(a), Body(b))
  {
    if Textual(a) {
      TextualFollows(a, b);
    } else {
      match a
      case InputSetRecord(_, _, _) => InputSetFollows(a, b);
      case EnvironmentRecord(_, _, _) => EnvironmentFollows(a, b);
      case ManifestRecord(_) => ManifestFollows(a, b);
      case ArtifactRecord(_, _, _) => FixedShape(Body(a), Body(b));
    }
  }

  lemma SameTag(a: Domain, b: Domain)
    requires DomainTag(a) == DomainTag(b)
    ensures a == b
  {
    RecordDecoder.DomainTagsReadBack(DomainTag(a), a);
    RecordDecoder.DomainTagsReadBack(DomainTag(a), b);
  }

  /** Any two records of the library are written to one schema. */
  lemma FieldsFollowOneSchema(a: Record, b: Record)
    ensures OneSchema(Fields(a), Fields(b))
  {
    var s, t := DomainTag(DomainOf(a)), DomainTag(DomainOf(b));
    OneWrite(TextField(s), TextField(t));
    if s == t {
      SameTag(DomainOf(a), DomainOf(b));
      BodyFollows(a, b);
    }
    SchemaThen([TextField(s)], Body(a), [TextField(t)], Body(b));
  }

  /** Every record says where it ends: no record's octets begin another's, and what follows a record is determined. */
  lemma RecordsArePrefixFree(a: Record, b: Record, x: seq<Byte>, y: seq<Byte>)
    requires RecordBytes(a) + x == RecordBytes(b) + y
    ensures a == b && x == y
  {
    FieldsFollowOneSchema(a, b);
    UniqueReadability(Fields(a), Fields(b), x, y);
    RecordDecoder.RecordsAreInjective(a, b);
  }
}
