/** Readers, the writes they undo, and ways to combine them. A reader undoes its writes when it returns a
    value exactly from the octets of that value's writes, whatever octets follow. */
module Codecs {
  import opened Bytes
  import opened Sequences
  import opened Encoding

  type Reader<!T> = seq<Byte> -> Option<(T, seq<Byte>)>

  ghost predicate UndoneAt<T>(read: Reader<T>, write: T -> seq<Field>, bytes: seq<Byte>, v: T, rest: seq<Byte>) {
    read(bytes) == Some((v, rest)) <==> bytes == Encode(write(v)) + rest
  }

  ghost predicate Undoes<T(!new)>(read: Reader<T>, write: T -> seq<Field>) {
    forall bytes, v, rest {:trigger UndoneAt(read, write, bytes, v, rest)} :: UndoneAt(read, write, bytes, v, rest)
  }

  lemma EncodeThen(a: seq<Field>, b: seq<Field>, rest: seq<Byte>)
    ensures Encode(a + b) + rest == Encode(a) + (Encode(b) + rest)
  {
    EncodeAppend(a, b);
    Regroup(Encode(a), Encode(b), rest);
  }

  lemma EncodeOne(f: Field)
    ensures Encode([f]) == FieldBytes(f)
    ensures Encode([]) == []
  {
    EncodeCons(f, []);
    assert [f] + [] == [f];
  }

  lemma NoBytesThen(rest: seq<Byte>)
    ensures Encode([]) + rest == rest
    ensures rest + [] == rest
  {
  }

  // ---------------------------------------------------------------- single fields

  function TextFields(texts: seq<Text>): (fields: seq<Field>)
    ensures |fields| == |texts|
  {
    seq(|texts|, i requires 0 <= i < |texts| => TextField(texts[i]))
  }

  function OneText(text: Text): seq<Field> {
    [TextField(text)]
  }

  function OneNumber(number: Uint64): seq<Field> {
    [NumberField(number)]
  }

  function OneBoolean(flag: bool): seq<Field> {
    [BooleanField(flag)]
  }

  /** The readers of single fields. Everything above them is proved from this specification alone. */
  datatype Leaves = Leaves(text: Reader<Text>, number: Reader<Uint64>, flag: Reader<bool>)

  ghost predicate Sound(leaves: Leaves) {
    Undoes(leaves.text, OneText) && Undoes(leaves.number, OneNumber) && Undoes(leaves.flag, OneBoolean)
  }

  function TheLeaves(): Leaves {
    Leaves(ReadText, ReadNumber, ReadBoolean)
  }

  lemma TheLeavesAreSound()
    ensures Sound(TheLeaves())
  {
    forall bytes, v, rest
      ensures UndoneAt(ReadText, OneText, bytes, v, rest)
    {
      EncodeOne(TextField(v));
      TextReadsBack(bytes, v, rest);
    }
    forall bytes, v, rest
      ensures UndoneAt(ReadNumber, OneNumber, bytes, v, rest)
    {
      EncodeOne(NumberField(v));
      NumberReadsBack(bytes, v, rest);
    }
    forall bytes, v, rest
      ensures UndoneAt(ReadBoolean, OneBoolean, bytes, v, rest)
    {
      EncodeOne(BooleanField(v));
      BooleanReadsBack(bytes, v, rest);
    }
  }

  // ---------------------------------------------------------------- one after another

  function Pair<A, B>(ra: Reader<A>, rb: Reader<B>): Reader<(A, B)> {
    bytes =>
      match ra(bytes)
      case None => None
      case Some((a, middle)) =>
        match rb(middle)
        case None => None
        case Some((b, rest)) => Some(((a, b), rest))
  }

  function PairFields<A, B>(wa: A -> seq<Field>, wb: B -> seq<Field>): ((A, B)) -> seq<Field> {
    (p: (A, B)) => wa(p.0) + wb(p.1)
  }

  lemma PairFieldsOf<A, B>(wa: A -> seq<Field>, wb: B -> seq<Field>, a: A, b: B)
    ensures PairFields(wa, wb)((a, b)) == wa(a) + wb(b)
  {
  }

  lemma PairUndoneAt<A(!new), B(!new)>(ra: Reader<A>, wa: A -> seq<Field>, rb: Reader<B>, wb: B -> seq<Field>,
                                       bytes: seq<Byte>, v: (A, B), rest: seq<Byte>)
    requires Undoes(ra, wa) && Undoes(rb, wb)
    ensures UndoneAt(Pair(ra, rb), PairFields(wa, wb), bytes, v, rest)
  {
    var middle := Encode(wb(v.1)) + rest;
    EncodeThen(wa(v.0), wb(v.1), rest);
    assert UndoneAt(ra, wa, bytes, v.0, middle);
    assert UndoneAt(rb, wb, middle, v.1, rest);
    match ra(bytes)
    case None =>
    case Some((a, m)) =>
      assert UndoneAt(ra, wa, bytes, a, m);
      assert UndoneAt(rb, wb, m, v.1, rest);
  }

  lemma PairUndone<A(!new), B(!new)>(ra: Reader<A>, wa: A -> seq<Field>, rb: Reader<B>, wb: B -> seq<Field>)
    requires Undoes(ra, wa) && Undoes(rb, wb)
    ensures Undoes(Pair(ra, rb), PairFields(wa, wb))
  {
    forall bytes, v: (A, B), rest
      ensures UndoneAt(Pair(ra, rb), PairFields(wa, wb), bytes, v, rest)
    {
      PairUndoneAt(ra, wa, rb, wb, bytes, v, rest);
    }
  }

  // ---------------------------------------------------------------- optional fields

  function Optional<A>(flag: Reader<bool>, ra: Reader<A>): Reader<Option<A>> {
    bytes =>
      match flag(bytes)
      case None => None
      case Some((present, middle)) =>
        if !present then Some((None, middle))
        else
          match ra(middle)
          case None => None
          case Some((a, rest)) => Some((Some(a), rest))
  }

  function OptionalFields<A>(wa: A -> seq<Field>, v: Option<A>): seq<Field> {
    match v
    case None => [BooleanField(false)]
    case Some(a) => [BooleanField(true)] + wa(a)
  }

  function OptionalWrites<A>(wa: A -> seq<Field>): Option<A> -> seq<Field> {
    (v: Option<A>) => OptionalFields(wa, v)
  }

  lemma OptionalUndoneAt<A(!new)>(flag: Reader<bool>, ra: Reader<A>, wa: A -> seq<Field>, bytes: seq<Byte>,
                                  v: Option<A>, rest: seq<Byte>)
    requires Undoes(flag, OneBoolean) && Undoes(ra, wa)
    ensures UndoneAt(Optional(flag, ra), OptionalWrites(wa), bytes, v, rest)
  {
    assert UndoneAt(flag, OneBoolean, bytes, false, rest);
    if v.Some? {
      var middle := Encode(wa(v.value)) + rest;
      EncodeThen([BooleanField(true)], wa(v.value), rest);
      assert UndoneAt(flag, OneBoolean, bytes, true, middle);
      assert UndoneAt(ra, wa, middle, v.value, rest);
      match flag(bytes)
      case None =>
      case Some((present, m)) =>
        assert UndoneAt(flag, OneBoolean, bytes, present, m);
        assert UndoneAt(ra, wa, m, v.value, rest);
    }
  }

  lemma OptionalUndone<A(!new)>(flag: Reader<bool>, ra: Reader<A>, wa: A -> seq<Field>)
    requires Undoes(flag, OneBoolean) && Undoes(ra, wa)
    ensures Undoes(Optional(flag, ra), OptionalWrites(wa))
  {
    forall bytes, v: Option<A>, rest
      ensures UndoneAt(Optional(flag, ra), OptionalWrites(wa), bytes, v, rest)
    {
      OptionalUndoneAt(flag, ra, wa, bytes, v, rest);
    }
  }

  // ---------------------------------------------------------------- values spelled by other values

  function Mapped<A, B>(ra: Reader<A>, make: A -> Option<B>): Reader<B> {
    bytes =>
      match ra(bytes)
      case None => None
      case Some((a, rest)) =>
        match make(a)
        case None => None
        case Some(b) => Some((b, rest))
  }

  /** make accepts exactly the spellings of the values. */
  ghost predicate Spells<A(!new), B(!new)>(make: A -> Option<B>, spell: B -> A) {
    forall a, b {:trigger make(a), spell(b)} :: make(a) == Some(b) <==> a == spell(b)
  }

  lemma MappedUndone<A(!new), B(!new)>(ra: Reader<A>, wa: A -> seq<Field>, make: A -> Option<B>, spell: B -> A,
                                       wb: B -> seq<Field>)
    requires Undoes(ra, wa) && Spells(make, spell)
    requires forall b :: wb(b) == wa(spell(b))
    ensures Undoes(Mapped(ra, make), wb)
  {
    forall bytes, b: B, rest
      ensures UndoneAt(Mapped(ra, make), wb, bytes, b, rest)
    {
      assert UndoneAt(ra, wa, bytes, spell(b), rest);
      assert make(spell(b)) == Some(b);
      match ra(bytes)
      case None =>
      case Some((a, r)) => assert make(a) == Some(b) <==> a == spell(b);
    }
  }

  // ---------------------------------------------------------------- lists

  function ReadMany<A>(ra: Reader<A>, n: nat, bytes: seq<Byte>): (r: Option<(seq<A>, seq<Byte>)>)
    ensures r.Some? ==> |r.value.0| == n
    decreases n, bytes
  {
    if n == 0 then Some(([], bytes))
    else
      var (a, middle) :- ra(bytes);
      var (others, rest) :- ReadMany(ra, n - 1, middle);
      Some(([a] + others, rest))
  }

  /** The writes for the items from an index on. */
  function ManyFields<A>(wa: A -> seq<Field>, items: seq<A>, from: nat): seq<Field>
    requires from <= |items|
    decreases |items| - from
  {
    if from == |items| then [] else wa(items[from]) + ManyFields(wa, items, from + 1)
  }

  lemma {:induction false} ManyRead<A(!new)>(ra: Reader<A>, wa: A -> seq<Field>, bytes: seq<Byte>, items: seq<A>,
                                             from: nat, rest: seq<Byte>)
    requires Undoes(ra, wa) && from <= |items|
    requires bytes == Encode(ManyFields(wa, items, from)) + rest
    ensures ReadMany(ra, |items| - from, bytes) == Some((items[from..], rest))
    decreases |items| - from
  {
    if from == |items| {
      NoBytesThen(rest);
    } else {
      var more := ManyFields(wa, items, from + 1);
      EncodeThen(wa(items[from]), more, rest);
      var tail := Encode(more) + rest;
      assert ra(bytes) == Some((items[from], tail)) by { assert UndoneAt(ra, wa, bytes, items[from], tail); }
      ManyRead(ra, wa, tail, items, from + 1, rest);
      assert items[from..] == [items[from]] + items[from + 1..];
    }
  }

  lemma {:induction false} ManyWritten<A(!new)>(ra: Reader<A>, wa: A -> seq<Field>, bytes: seq<Byte>, items: seq<A>,
                                                from: nat, rest: seq<Byte>)
    requires Undoes(ra, wa) && from <= |items|
    requires ReadMany(ra, |items| - from, bytes) == Some((items[from..], rest))
    ensures bytes == Encode(ManyFields(wa, items, from)) + rest
    decreases |items| - from
  {
    if from == |items| {
      NoBytesThen(rest);
    } else {
      var (a, middle) := ra(bytes).value;
      var others := ReadMany(ra, |items| - from - 1, middle).value.0;
      assert items[from..] == [a] + others;
      assert items[from] == items[from..][0] == a;
      assert items[from + 1..] == items[from..][1..] == others;
      assert UndoneAt(ra, wa, bytes, a, middle);
      ManyWritten(ra, wa, middle, items, from + 1, rest);
      EncodeThen(wa(a), ManyFields(wa, items, from + 1), rest);
    }
  }

  lemma WholeListRead<A(!new)>(ra: Reader<A>, wa: A -> seq<Field>, bytes: seq<Byte>, items: seq<A>, rest: seq<Byte>)
    requires Undoes(ra, wa)
    requires bytes == Encode(ManyFields(wa, items, 0)) + rest
    ensures ReadMany(ra, |items|, bytes) == Some((items, rest))
  {
    ManyRead(ra, wa, bytes, items, 0, rest);
    assert items[0..] == items;
  }

  lemma WholeListWritten<A(!new)>(ra: Reader<A>, wa: A -> seq<Field>, bytes: seq<Byte>, items: seq<A>,
                                  rest: seq<Byte>)
    requires Undoes(ra, wa)
    requires ReadMany(ra, |items|, bytes) == Some((items, rest))
    ensures bytes == Encode(ManyFields(wa, items, 0)) + rest
  {
    assert items[0..] == items;
    ManyWritten(ra, wa, bytes, items, 0, rest);
  }

  /** A list preceded by its length. */
  function ReadCounted<A>(number: Reader<Uint64>, ra: Reader<A>, bytes: seq<Byte>): Option<(Vector<A>, seq<Byte>)> {
    match number(bytes)
    case None => None
    case Some((n, middle)) =>
      match ReadMany(ra, n, middle)
      case None => None
      case Some((items, rest)) => Some((items, rest))
  }

  function Counted<A>(number: Reader<Uint64>, ra: Reader<A>): Reader<Vector<A>> {
    bytes => ReadCounted(number, ra, bytes)
  }

  function CountedFields<A>(wa: A -> seq<Field>, items: Vector<A>): seq<Field> {
    [NumberField(|items|)] + ManyFields(wa, items, 0)
  }

  function CountedWrites<A>(wa: A -> seq<Field>): Vector<A> -> seq<Field> {
    (items: Vector<A>) => CountedFields(wa, items)
  }

  lemma NumberFirst(number: Reader<Uint64>, bytes: seq<Byte>, n: Uint64, tail: seq<Byte>)
    requires Undoes(number, OneNumber)
    ensures number(bytes) == Some((n, tail)) <==> bytes == Encode(OneNumber(n)) + tail
  {
    assert UndoneAt(number, OneNumber, bytes, n, tail);
  }

  lemma CountedInSteps<A>(number: Reader<Uint64>, ra: Reader<A>, bytes: seq<Byte>, n: Uint64, middle: seq<Byte>,
                          items: Vector<A>, rest: seq<Byte>)
    requires number(bytes) == Some((n, middle))
    ensures ReadCounted(number, ra, bytes) == Some((items, rest)) <==> ReadMany(ra, n, middle) == Some((items, rest))
  {
  }

  lemma CountedRead<A(!new)>(number: Reader<Uint64>, ra: Reader<A>, wa: A -> seq<Field>, bytes: seq<Byte>,
                             items: Vector<A>, middle: seq<Byte>, rest: seq<Byte>)
    requires Undoes(number, OneNumber) && Undoes(ra, wa)
    requires middle == Encode(ManyFields(wa, items, 0)) + rest
    requires bytes == Encode(OneNumber(|items|)) + middle
    ensures ReadCounted(number, ra, bytes) == Some((items, rest))
  {
    NumberFirst(number, bytes, |items|, middle);
    WholeListRead(ra, wa, middle, items, rest);
    CountedInSteps(number, ra, bytes, |items|, middle, items, rest);
  }

  lemma CountedWritten<A(!new)>(number: Reader<Uint64>, ra: Reader<A>, wa: A -> seq<Field>, bytes: seq<Byte>,
                                items: Vector<A>, rest: seq<Byte>) returns (middle: seq<Byte>)
    requires Undoes(number, OneNumber) && Undoes(ra, wa)
    requires ReadCounted(number, ra, bytes) == Some((items, rest))
    ensures middle == Encode(ManyFields(wa, items, 0)) + rest
    ensures bytes == Encode(OneNumber(|items|)) + middle
  {
    var n := number(bytes).value.0;
    middle := number(bytes).value.1;
    NumberFirst(number, bytes, n, middle);
    WholeListWritten(ra, wa, middle, items, rest);
  }

  lemma CountedUndoneAt<A(!new)>(number: Reader<Uint64>, ra: Reader<A>, wa: A -> seq<Field>, bytes: seq<Byte>,
                                 items: Vector<A>, rest: seq<Byte>)
    requires Undoes(number, OneNumber) && Undoes(ra, wa)
    ensures ReadCounted(number, ra, bytes) == Some((items, rest)) <==>
            bytes == Encode(OneNumber(|items|) + ManyFields(wa, items, 0)) + rest
  {
    var middle := Encode(ManyFields(wa, items, 0)) + rest;
    EncodeThen(OneNumber(|items|), ManyFields(wa, items, 0), rest);
    if ReadCounted(number, ra, bytes) == Some((items, rest)) {
      var m := CountedWritten(number, ra, wa, bytes, items, rest);
    }
    if bytes == Encode(OneNumber(|items|)) + middle {
      CountedRead(number, ra, wa, bytes, items, middle, rest);
    }
  }

  lemma CountedUndone<A(!new)>(number: Reader<Uint64>, ra: Reader<A>, wa: A -> seq<Field>)
    requires Undoes(number, OneNumber) && Undoes(ra, wa)
    ensures Undoes(Counted(number, ra), CountedWrites(wa))
  {
    forall bytes, items: Vector<A>, rest
      ensures UndoneAt(Counted(number, ra), CountedWrites(wa), bytes, items, rest)
    {
      CountedUndoneAt(number, ra, wa, bytes, items, rest);
    }
  }

  // ---------------------------------------------------------------- whole records

  /** A value with nothing after it. */
  function Whole<A>(ra: Reader<A>, bytes: seq<Byte>): Option<A> {
    var (a, rest) :- ra(bytes);
    if rest == [] then Some(a) else None
  }

  lemma WholeReadsBack<A(!new)>(ra: Reader<A>, wa: A -> seq<Field>, bytes: seq<Byte>, v: A)
    requires Undoes(ra, wa)
    ensures Whole(ra, bytes) == Some(v) <==> bytes == Encode(wa(v))
  {
    assert UndoneAt(ra, wa, bytes, v, []);
    NoBytesThen(Encode(wa(v)));
    match ra(bytes)
    case None =>
    case Some((a, rest)) => assert rest == [] ==> ra(bytes) == Some((a, []));
  }

  // ---------------------------------------------------------------- texts up to the end of a record

  function ReadTextsToEnd(text: Reader<Text>, bytes: seq<Byte>): Option<seq<Text>>
    decreases |bytes|
  {
    if bytes == [] then Some([])
    else
      match text(bytes)
      case None => None
      case Some((first, rest)) =>
        if |rest| >= |bytes| then None
        else
          var others :- ReadTextsToEnd(text, rest);
          Some([first] + others)
  }

  lemma TextsCons(text: Text, others: seq<Text>)
    ensures Encode(TextFields([text] + others)) == Encode(OneText(text)) + Encode(TextFields(others))
    ensures |Encode(OneText(text))| > 0
  {
    assert TextFields([text] + others) == OneText(text) + TextFields(others);
    EncodeAppend(OneText(text), TextFields(others));
    EncodeOne(TextField(text));
  }

  lemma {:induction false} TextsToEndReadBack(text: Reader<Text>, bytes: seq<Byte>, texts: seq<Text>)
    requires Undoes(text, OneText)
    ensures ReadTextsToEnd(text, bytes) == Some(texts) <==> bytes == Encode(TextFields(texts))
    decreases |texts|
  {
    if texts == [] {
      assert Encode(TextFields(texts)) == [];
    } else {
      var first, others := texts[0], texts[1..];
      assert texts == [first] + others;
      TextsCons(first, others);
      assert UndoneAt(text, OneText, bytes, first, Encode(TextFields(others)));
      match text(bytes)
      case None =>
      case Some((t, tail)) =>
        assert UndoneAt(text, OneText, bytes, t, tail);
        TextsCons(t, others);
        TextsToEndReadBack(text, tail, others);
        match ReadTextsToEnd(text, tail)
        case None =>
        case Some(ts) =>
          assert ([t] + ts)[0] == t && ([t] + ts)[1..] == ts;
    }
  }
}
