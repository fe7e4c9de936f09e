/** The mutable identity writer and the SHA-256 text check. */
module IdentityWriters {
  import opened Bytes
  import opened Numbers
  import opened Encoding
  import opened Sequences

  type Digest = s: seq<Byte> | |s| == 32 witness seq(32, _ => '\0')

  /** SHA-256 is a parameter: nothing is assumed of it except that it is a function. */
  type Hash = seq<Byte> -> Digest

  /** The identity text of a sequence of writes. */
  function IdentityOf(sha256: Hash, fields: seq<Field>): Text {
    HexOf(sha256(Encode(fields)))
  }

  /** Every identity is accepted by the SHA-256 text check and spells the digest it came from. */
  lemma IdentityIsCanonical(sha256: Hash, fields: seq<Field>)
    ensures CanonicalSha256Hex(IdentityOf(sha256, fields))
    ensures FromHex(IdentityOf(sha256, fields)) == sha256(Encode(fields))
  {
    HexRoundTrip(sha256(Encode(fields)));
  }

  /** Equal identities mean equal digests. */
  lemma IdentityDeterminesDigest(sha256: Hash, f: seq<Field>, g: seq<Field>)
    ensures IdentityOf(sha256, f) == IdentityOf(sha256, g) <==> sha256(Encode(f)) == sha256(Encode(g))
  {
    HexRoundTrip(sha256(Encode(f)));
    HexRoundTrip(sha256(Encode(g)));
  }

  ghost predicate Spells(octets: seq<Byte>, fields: seq<Field>) {
    octets == Encode(fields)
  }

  class IdentityWriter {
    const sha256: Hash
    /** Octets the digest context has absorbed. */
    var absorbed: seq<Byte>
    /** The context pointer is not null: the digest has not been finalised. */
    var open: bool
    /** The typed writes so far. */
    ghost var log: seq<Field>

    /** The absorbed octets spell the log. Written with a quantifier, the fact is unfolded only where Spells is
        mentioned, so that callers reason about the log alone. */
    ghost predicate Valid()
      reads this
    {
      forall fields :: fields == log ==> Spells(absorbed, fields)
    }

    constructor (sha256: Hash)
      ensures Valid() && open && log == [] && this.sha256 == sha256
    {
      this.sha256 := sha256;
      absorbed, open, log := [], true, [];
    }

    method Update(data: seq<Byte>)
      requires open
      modifies this`absorbed
      ensures absorbed == old(absorbed) + data
    {
      absorbed := absorbed + data;
    }

    method WriteNumber(value: Uint64)
      requires Valid() && open
      modifies this`absorbed, this`log
      ensures Valid() && log == old(log) + [NumberField(value)]
    {
      var bytes := new Byte[8](_ => '\0');
      for index := 0 to 8
        invariant fresh(bytes) && unchanged(this)
        invariant bytes[8 - index..] == BigEndian(value, index)
      {
        BigEndianGrows(value, index);
        bytes[8 - index - 1] := (ShiftBytes(value, index) % 256) as char;
        assert bytes[8 - index - 1..] == [bytes[8 - index - 1]] + bytes[8 - index..];
      }
      assert bytes[..] == bytes[0..];
      assert Spells(absorbed, log);
      Update(bytes[..]);
      EncodeSnoc(log, NumberField(value));
      log := log + [NumberField(value)];
    }

    method WriteText(value: Text)
      requires Valid() && open
      modifies this`absorbed, this`log
      ensures Valid() && log == old(log) + [TextField(value)]
    {
      assert Spells(absorbed, log);
      WriteNumber(|value|);
      assert Spells(absorbed, log);
      Update(value);
      EncodeSnoc(old(log), NumberField(|value|));
      EncodeSnoc(old(log), TextField(value));
      Regroup(Encode(old(log)), NumberBytes(|value|), value);
      log := old(log) + [TextField(value)];
    }

    method WriteBoolean(value: bool)
      requires Valid() && open
      modifies this`absorbed, this`log
      ensures Valid() && log == old(log) + [BooleanField(value)]
    {
      WriteNumber(if value then 1 else 0);
      assert Spells(absorbed, log);
      EncodeSnoc(old(log), NumberField(if value then 1 else 0));
      EncodeSnoc(old(log), BooleanField(value));
      log := old(log) + [BooleanField(value)];
    }

    /** A first call renders the digest; any later call fails and changes nothing. */
    method Finish() returns (r: Result<Text>)
      requires Valid()
      modifies this`open
      ensures Valid() && !open
      ensures r == if old(open) then Success(IdentityOf(sha256, log)) else Failure(IdentityFailed)
    {
      if !open {
        return Failure(IdentityFailed);
      }
      assert Spells(absorbed, log);
      var bytes := sha256(absorbed);
      open := false;
      var text: seq<Byte> := [];
      for index := 0 to 32
        invariant !open && text == HexOf(bytes[..index])
      {
        HexOfSnoc(bytes[..index], bytes[index]);
        assert bytes[..index + 1] == bytes[..index] + [bytes[index]];
        text := text + [HexDigit(bytes[index] as int / 16), HexDigit(bytes[index] as int % 16)];
      }
      assert bytes[..32] == bytes;
      return Success(text);
    }
  }

  /** require_sha256_hex and the from_sha256 factories built on it: accepted exactly when canonical,
      and then kept unchanged. */
  method FromSha256(value: Text) returns (r: Result<Text>)
    ensures r == if CanonicalSha256Hex(value) then Success(value) else Failure(InvalidIdentity)
    ensures r.Success? <==> |value| == 64 && forall i :: 0 <= i < 64 ==> value[i] in "0123456789abcdef"
  {
    if |value| != 64 {
      return Failure(InvalidIdentity);
    }
    for i := 0 to |value|
      invariant AllHexDigits(value[..i])
    {
      if !(('0' <= value[i] && value[i] <= '9') || ('a' <= value[i] && value[i] <= 'f')) {
        return Failure(InvalidIdentity);
      }
      assert value[..i + 1] == value[..i] + [value[i]];
    }
    assert value[..|value|] == value;
    return Success(value);
  }
}
