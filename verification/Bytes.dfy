/** Machine values of the library (bytes, fixed-width integers, strings, vectors),
    its error codes, and the order std::string uses. */
module Bytes {
  const TWO_64: int := 0x1_0000_0000_0000_0000

  /** One octet of a std::string. */
  type Byte = c: char | c as int < 256
  type Uint32 = n: int | 0 <= n < 0x1_0000_0000
  type Uint64 = n: int | 0 <= n < 0x1_0000_0000_0000_0000
  type Int64 = n: int | -0x8000_0000_0000_0000 <= n < 0x8000_0000_0000_0000

  /** std::string and std::vector: their size() is a 64-bit number. */
  type Text = s: seq<Byte> | |s| < 0x1_0000_0000_0000_0000
  type Vector<T> = s: seq<T> | |s| < 0x1_0000_0000_0000_0000

  datatype Option<+T> = None | Some(value: T) {
    predicate IsFailure() {
      None?
    }

    function PropagateFailure<U>(): Option<U>
      requires None?
    {
      None
    }

    function Extract(): T
      requires Some?
    {
      value
    }
  }

  datatype ErrorCode = InvalidIdentity | InvalidModel | InvalidRequest | IdentityFailed

  datatype Result<+T> = Success(value: T) | Failure(error: ErrorCode)

  /** static_cast<std::uint64_t> of a signed 64-bit value. */
  function ToUnsigned(n: Int64): Uint64 {
    if n < 0 then n + TWO_64 else n
  }

  function ToSigned(n: Uint64): Int64 {
    if n < 0x8000_0000_0000_0000 then n else n - TWO_64
  }

  /** operator< of std::string: first differing octet, compared unsigned. */
  predicate LexLess(a: seq<Byte>, b: seq<Byte>) {
    if b == [] then false
    else if a == [] then true
    else a[0] < b[0] || (a[0] == b[0] && LexLess(a[1..], b[1..]))
  }

  /** The texts agree up to a place where the first ends or has the smaller octet. */
  ghost predicate SmallerAt(a: seq<Byte>, b: seq<Byte>, k: int) {
    0 <= k <= |a| && k < |b| && a[..k] == b[..k] && (k == |a| || a[k] as int < b[k] as int)
  }

  lemma {:induction false} LexLessInOctets(a: seq<Byte>, b: seq<Byte>)
    ensures LexLess(a, b) <==> exists k :: SmallerAt(a, b, k)
  {
    if a == [] || b == [] || a[0] != b[0] {
      assert b != [] && (a == [] || a[0] < b[0]) ==> SmallerAt(a, b, 0);
      forall k | 0 < k <= |a| && k < |b|
        ensures a[..k] != b[..k]
      {
        assert a[..k][0] != b[..k][0];
      }
    } else {
      LexLessInOctets(a[1..], b[1..]);
      if k :| SmallerAt(a[1..], b[1..], k) {
        SmallerShifts(a, b, k);
      }
      if k :| SmallerAt(a, b, k) {
        SmallerShifts(a, b, k - 1);
      }
    }
  }

  lemma SmallerShifts(a: seq<Byte>, b: seq<Byte>, k: int)
    requires a != [] && b != [] && a[0] == b[0]
    ensures SmallerAt(a, b, k + 1) <==> SmallerAt(a[1..], b[1..], k)
  {
    if 0 <= k < |a| && k < |b| {
      assert a[..k + 1] == [a[0]] + a[1..][..k] && b[..k + 1] == [b[0]] + b[1..][..k];
      assert a[..k + 1][1..] == a[1..][..k] && b[..k + 1][1..] == b[1..][..k];
    }
  }

  lemma {:induction false} LexLessIrreflexive(a: seq<Byte>)
    ensures !LexLess(a, a)
  {
    if a != [] {
      LexLessIrreflexive(a[1..]);
    }
  }

  lemma {:induction false} LexLessTransitive(a: seq<Byte>, b: seq<Byte>, c: seq<Byte>)
    requires LexLess(a, b) && LexLess(b, c)
    ensures LexLess(a, c)
  {
    if a != [] && a[0] == b[0] == c[0] {
      LexLessTransitive(a[1..], b[1..], c[1..]);
    }
  }

  lemma {:induction false} LexLessTotal(a: seq<Byte>, b: seq<Byte>)
    ensures LexLess(a, b) || a == b || LexLess(b, a)
  {
    if a != [] && b != [] && a[0] == b[0] {
      LexLessTotal(a[1..], b[1..]);
      assert a == [a[0]] + a[1..] && b == [b[0]] + b[1..];
    }
  }
}
