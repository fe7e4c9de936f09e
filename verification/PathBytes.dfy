/** Payload paths in bytes: what the parser accepts and yields, by positions of slashes and literal octets. */
module PathBytes {
  import opened Bytes
  import opened Sequences
  import opened PayloadPaths

  /** A stretch between slashes, or between a slash and an end of the text. */
  ghost predicate Component(s: seq<Byte>, from: int, to: int) {
    && 0 <= from <= to <= |s|
    && (from == 0 || s[from - 1] == '/') && (to == |s| || s[to] == '/')
    && forall k :: from <= k < to ==> s[k] != '/'
  }

  // ---------------------------------------------------------------- components

  /** From the start of a component on, splitting yields the components there are. */
  lemma {:induction false} SplitFromComponents(s: seq<Byte>, from: nat, part: seq<Byte>)
    requires from <= |s| && (from == 0 || s[from - 1] == '/')
    ensures part in SplitFrom(s, from) <==> exists a, b :: from <= a && Component(s, a, b) && s[a..b] == part
    decreases |s| - from
  {
    var end := FindSlash(s, from);
    assert Component(s, from, end);
    if end == |s| {
      assert s[from..end] == s[from..];
      forall a, b | from <= a && Component(s, a, b)
        ensures a == from && b == end
      {
        OnlyComponent(s, from, end, a, b);
      }
    } else {
      SplitFromComponents(s, end + 1, part);
      var tail := SplitFrom(s, end + 1);
      assert SplitFrom(s, from) == [s[from..end]] + tail;
      assert part in [s[from..end]] + tail <==> part == s[from..end] || part in tail;
      forall a, b | from <= a && Component(s, a, b)
        ensures (a == from && b == end) || end + 1 <= a
      {
        OnlyComponent(s, from, end, a, b);
      }
    }
  }

  /** A component that starts no earlier than another is that one, or starts after its end. */
  lemma OnlyComponent(s: seq<Byte>, from: int, end: int, a: int, b: int)
    requires Component(s, from, end) && Component(s, a, b) && from <= a
    ensures (a == from && b == end) || end + 1 <= a
  {
    assert from < a ==> s[a - 1] == '/';
    assert b < |s| ==> s[b] == '/';
    assert end < |s| ==> s[end] == '/';
  }

  /** The components of a split are the stretches between slashes. */
  lemma SplitInBytes(s: seq<Byte>, part: seq<Byte>)
    ensures part in Split(s) <==> exists a, b :: Component(s, a, b) && s[a..b] == part
  {
    SplitFromComponents(s, 0, part);
  }

  /** Joining puts one slash between parts and nothing else. */
  lemma JoinInBytes(parts: seq<seq<Byte>>, part: seq<Byte>)
    ensures Join([part]) == part
    ensures parts != [] ==> Join(parts + [part]) == Join(parts) + "/" + part
  {
    if parts != [] {
      JoinSnoc(parts, part);
    }
  }

  lemma {:induction false} SlashesCounted(s: seq<Byte>, from: nat)
    requires from <= |s|
    ensures SlashCount(s, from) == multiset(s[from..])['/']
    decreases |s| - from
  {
    if from < |s| {
      SlashesCounted(s, from + 1);
      assert s[from..] == [s[from]] + s[from + 1..];
    }
  }

  /** There is one component more than there are slashes. */
  lemma SplitCounted(s: seq<Byte>)
    ensures |Split(s)| == multiset(s)['/'] + 1
  {
    SplitShape(s);
    SlashesCounted(s, 0);
    assert s[0..] == s;
  }

  // ---------------------------------------------------------------- acceptance

  /** What parse accepts, in bytes. */
  lemma AcceptableInBytes(input: seq<Byte>)
    ensures Acceptable(input) <==>
            && input != [] && input[0] != '/'
            && (forall i :: 0 <= i < |input| ==> input[i] != '\0' && input[i] != '\n' && input[i] != '\r')
            && (forall a, b :: Component(input, a, b) ==> input[a..b] != "..")
            && (exists a, b :: Component(input, a, b) && input[a..b] != [] && input[a..b] != ".")
  {
    SplitInBytes(input, "..");
    KeptInBytes(input);
    LineSafeInBytes(input);
  }

  lemma LineSafeInBytes(s: seq<Byte>)
    ensures LineSafe(s) <==> forall i :: 0 <= i < |s| ==> s[i] != '\0' && s[i] != '\n' && s[i] != '\r'
  {
    if LineSafe(s) {
      forall i | 0 <= i < |s|
        ensures s[i] != '\0' && s[i] != '\n' && s[i] != '\r'
      {
        assert !Forbidden(s[i]);
      }
    }
  }

  lemma KeptInBytes(s: seq<Byte>)
    ensures Kept(s) != [] <==> exists a, b :: Component(s, a, b) && s[a..b] != [] && s[a..b] != "."
  {
    FilterMembers(IsKept, Split(s));
    if Kept(s) != [] {
      var part := Kept(s)[0];
      assert part in Kept(s);
      SplitInBytes(s, part);
    }
    if a, b :| Component(s, a, b) && s[a..b] != [] && s[a..b] != "." {
      SplitInBytes(s, s[a..b]);
      assert s[a..b] in Kept(s);
    }
  }

  // ---------------------------------------------------------------- normal forms

  /** What parse yields, in bytes: no leading, trailing or doubled slash, no "." or ".." component, and no byte that
      breaks a line. */
  lemma NormalFormInBytes(input: Text)
    requires Acceptable(input)
    ensures var t := NormalForm(input);
            && t != [] && t[0] != '/' && t[|t| - 1] != '/'
            && (forall i :: 0 <= i < |t| - 1 && t[i] == '/' ==> t[i + 1] != '/')
            && (forall a, b :: Component(t, a, b) ==> t[a..b] != "." && t[a..b] != "..")
            && (forall i :: 0 <= i < |t| ==> t[i] != '\0' && t[i] != '\n' && t[i] != '\r')
  {
    var t := NormalForm(input);
    NormalFormIsNormal(input);
    SplitInBytes(t, ".");
    SplitInBytes(t, "..");
    LineSafeInBytes(t);
  }

  /** Which components the normal form has: those of the input but the empty ones and the dots, in order, joined by
      single slashes. */
  lemma NormalFormComponentsInBytes(input: Text)
    requires Acceptable(input)
    ensures Split(NormalForm(input)) ==
            Filter((part: seq<Byte>) => part != [] && part != ".", Split(input))
  {
    NormalFormComponents(input);
    FilterSame(IsKept, (part: seq<Byte>) => part != [] && part != ".", Split(input));
  }
}
