/** The canonical record encoding: big-endian numbers, length-prefixed text, booleans as 0 and 1.
    Readers are exact inverses, so a sequence of writes has one parse. */
module Encoding {
  import opened Bytes
  import opened Numbers
  import opened Sequences

  datatype Field = TextField(text: Text) | NumberField(number: Uint64) | BooleanField(flag: bool)

  function NumberBytes(value: Uint64): (bytes: seq<Byte>)
    ensures |bytes| == 8
  {
    BigEndian(value, 8)
  }

  function FieldBytes(field: Field): seq<Byte> {
    match field
    case TextField(text) => NumberBytes(|text|) + text
    case NumberField(number) => NumberBytes(number)
    case BooleanField(flag) => NumberBytes(if flag then 1 else 0)
  }

  /** The octets the writer has fed to the digest after these writes. */
  function Encode(fields: seq<Field>): seq<Byte> {
    if fields == [] then [] else FieldBytes(fields[0]) + Encode(fields[1..])
  }

  lemma EncodeCons(f: Field, fields: seq<Field>)
    ensures Encode([f] + fields) == FieldBytes(f) + Encode(fields)
  {
    assert ([f] + fields)[1..] == fields;
  }

  lemma {:induction false} EncodeAppend(a: seq<Field>, b: seq<Field>)
    ensures Encode(a + b) == Encode(a) + Encode(b)
  {
    if a == [] {
      assert a + b == b;
    } else {
      var f, t := a[0], a[1..];
      calc {
        Encode(a + b);
        { assert a + b == [f] + (t + b); }
        Encode([f] + (t + b));
        { EncodeCons(f, t + b); }
        FieldBytes(f) + Encode(t + b);
        { EncodeAppend(t, b); }
        FieldBytes(f) + (Encode(t) + Encode(b));
        { Regroup(FieldBytes(f), Encode(t), Encode(b)); }
        Encode(a) + Encode(b);
      }
    }
  }

  lemma EncodeSnoc(a: seq<Field>, f: Field)
    ensures Encode(a + [f]) == Encode(a) + FieldBytes(f)
  {
    EncodeAppend(a, [f]);
    assert Encode([f]) == FieldBytes(f);
  }

  // ---------------------------------------------------------------- readers

  function ReadNumber(bytes: seq<Byte>): (r: Option<(Uint64, seq<Byte>)>)
    ensures r.Some? ==> |r.value.1| < |bytes|
  {
    if |bytes| < 8 then None
    else
      EightOctets(bytes[..8]);
      Some((Magnitude(bytes[..8]), bytes[8..]))
  }

  function ReadBoolean(bytes: seq<Byte>): Option<(bool, seq<Byte>)> {
    var (n, rest) :- ReadNumber(bytes);
    if n == 0 then Some((false, rest)) else if n == 1 then Some((true, rest)) else None
  }

  function ReadText(bytes: seq<Byte>): (r: Option<(Text, seq<Byte>)>)
    ensures r.Some? ==> |r.value.1| < |bytes|
  {
    var (n, rest) :- ReadNumber(bytes);
    if |rest| < n then None else Some((rest[..n], rest[n..]))
  }

  lemma EightOctets(bytes: seq<Byte>)
    requires |bytes| == 8
    ensures Magnitude(bytes) < TWO_64
    ensures BigEndian(Magnitude(bytes), 8) == bytes
  {
    BigEndianOfMagnitude(bytes);
    assert Power256(8) == TWO_64;
  }

  lemma EightOctetsOf(value: Uint64)
    ensures Magnitude(NumberBytes(value)) == value
  {
    assert Power256(8) == TWO_64;
    MagnitudeOfBigEndian(value, 8);
  }

  /** The eight octets of a 64-bit number are read back as that number, and only they are. */
  lemma NumberReadsBack(bytes: seq<Byte>, value: Uint64, rest: seq<Byte>)
    ensures ReadNumber(bytes) == Some((value, rest)) <==> bytes == FieldBytes(NumberField(value)) + rest
  {
    if bytes == NumberBytes(value) + rest {
      EightOctetsOf(value);
      assert bytes[..8] == NumberBytes(value) && bytes[8..] == rest;
    }
    if ReadNumber(bytes) == Some((value, rest)) {
      EightOctets(bytes[..8]);
      assert bytes == bytes[..8] + bytes[8..];
    }
  }

  lemma BooleanReadsBack(bytes: seq<Byte>, flag: bool, rest: seq<Byte>)
    ensures ReadBoolean(bytes) == Some((flag, rest)) <==> bytes == FieldBytes(BooleanField(flag)) + rest
  {
    NumberReadsBack(bytes, if flag then 1 else 0, rest);
  }

  /** A text's length prefix says where it ends, so no text is a prefix of another. */
  lemma TextReadsBack(bytes: seq<Byte>, text: Text, rest: seq<Byte>)
    ensures ReadText(bytes) == Some((text, rest)) <==> bytes == FieldBytes(TextField(text)) + rest
  {
    NumberReadsBack(bytes, |text|, text + rest);
    assert FieldBytes(TextField(text)) + rest == NumberBytes(|text|) + (text + rest);
    assert (text + rest)[..|text|] == text && (text + rest)[|text|..] == rest;
    match ReadNumber(bytes)
    case None =>
    case Some((n, tail)) =>
      if |tail| >= n {
        assert tail == tail[..n] + tail[n..];
      }
  }

  // ---------------------------------------------------------------- unique readability

  predicate SameKind(f: Field, g: Field) {
    f.TextField? == g.TextField? && f.NumberField? == g.NumberField?
  }

  /** Both write sequences follow one schema: what was written so far decides the kind of the
      next write and whether there is one. */
  ghost predicate OneSchema(f: seq<Field>, g: seq<Field>) {
    && (forall i :: 0 <= i < |f| && i < |g| && f[..i] == g[..i] ==> SameKind(f[i], g[i]))
    && (f <= g || g <= f ==> |f| == |g|)
  }

  lemma FieldCancels(f: Field, g: Field, x: seq<Byte>, y: seq<Byte>)
    requires SameKind(f, g)
    requires FieldBytes(f) + x == FieldBytes(g) + y
    ensures f == g && x == y
  {
    var bytes := FieldBytes(f) + x;
    match f
    case TextField(text) =>
      TextReadsBack(bytes, text, x);
      TextReadsBack(bytes, g.text, y);
    case NumberField(number) =>
      NumberReadsBack(bytes, number, x);
      NumberReadsBack(bytes, g.number, y);
    case BooleanField(flag) =>
      BooleanReadsBack(bytes, flag, x);
      BooleanReadsBack(bytes, g.flag, y);
  }

  /** Any schema-driven sequence of writes has one parse, whatever bytes follow it. */
  lemma {:induction false} UniqueReadability(f: seq<Field>, g: seq<Field>, x: seq<Byte>, y: seq<Byte>)
    requires OneSchema(f, g)
    requires Encode(f) + x == Encode(g) + y
    ensures f == g && x == y
    decreases |f|
  {
    if f == [] || g == [] {
      assert f <= g || g <= f;
      assert Encode(f) + x == x && Encode(g) + y == y;
    } else {
      assert f[..0] == g[..0];
      Regroup(FieldBytes(f[0]), Encode(f[1..]), x);
      Regroup(FieldBytes(g[0]), Encode(g[1..]), y);
      FieldCancels(f[0], g[0], Encode(f[1..]) + x, Encode(g[1..]) + y);
      TailFollowsSchema(f, g);
      UniqueReadability(f[1..], g[1..], x, y);
      assert f == [f[0]] + f[1..] && g == [g[0]] + g[1..];
    }
  }

  lemma TailFollowsSchema(f: seq<Field>, g: seq<Field>)
    requires OneSchema(f, g) && f != [] && g != [] && f[0] == g[0]
    ensures OneSchema(f[1..], g[1..])
  {
    assert f == [f[0]] + f[1..] && g == [g[0]] + g[1..];
    forall i | 0 <= i < |f[1..]| && i < |g[1..]| && f[1..][..i] == g[1..][..i]
      ensures SameKind(f[1..][i], g[1..][i])
    {
      assert f[..i + 1] == [f[0]] + f[1..][..i];
      assert g[..i + 1] == [g[0]] + g[1..][..i];
    }
  }

  /** Records whose leading tags differ never share a byte string, whatever follows the tags. */
  lemma DomainSeparation(s: Text, t: Text, f: seq<Field>, g: seq<Field>)
    requires s != t
    ensures Encode([TextField(s)] + f) != Encode([TextField(t)] + g)
  {
    EncodeAppend([TextField(s)], f);
    EncodeAppend([TextField(t)], g);
    if Encode([TextField(s)] + f) == Encode([TextField(t)] + g) {
      FieldCancels(TextField(s), TextField(t), Encode(f), Encode(g));
    }
  }
}
