/** Payload paths: the index-driven parser, and the split/keep/join it computes. */
module PayloadPaths {
  import opened Bytes
  import opened Sequences

  datatype PayloadPath = PayloadPath(value: Text)

  // ---------------------------------------------------------------- specification

  /** std::string_view::find('/', from), with |s| in place of npos. */
  function FindSlash(s: seq<Byte>, from: nat): (end: nat)
    requires from <= |s|
    ensures from <= end <= |s|
    ensures forall i :: from <= i < end ==> s[i] != '/'
    ensures end < |s| ==> s[end] == '/'
    decreases |s| - from
  {
    if from == |s| || s[from] == '/' then from else FindSlash(s, from + 1)
  }

  /** The components between slashes, from an index on. */
  function SplitFrom(s: seq<Byte>, from: nat): (parts: seq<seq<Byte>>)
    requires from <= |s|
    ensures parts != []
    decreases |s| - from
  {
    var end := FindSlash(s, from);
    if end == |s| then [s[from..]] else [s[from..end]] + SplitFrom(s, end + 1)
  }

  /** The empty text has one, empty, component. */
  function Split(s: seq<Byte>): seq<seq<Byte>> {
    SplitFrom(s, 0)
  }

  function Join(parts: seq<seq<Byte>>): seq<Byte> {
    if parts == [] then []
    else if |parts| == 1 then parts[0]
    else Join(parts[..|parts| - 1]) + ['/'] + parts[|parts| - 1]
  }

  predicate IsKept(part: seq<Byte>) {
    part != [] && part != "."
  }

  function Kept(s: seq<Byte>): seq<seq<Byte>> {
    Filter(IsKept, Split(s))
  }

  predicate Forbidden(c: Byte) {
    c == '\0' || c == '\n' || c == '\r'
  }

  predicate LineSafe(s: seq<Byte>) {
    forall i :: 0 <= i < |s| ==> !Forbidden(s[i])
  }

  ghost predicate Acceptable(input: seq<Byte>) {
    && input != [] && input[0] != '/'
    && LineSafe(input)
    && ".." !in Split(input)
    && Kept(input) != []
  }

  function NormalForm(input: Text): Text {
    JoinSplit(input);
    JoinKeptFits(Split(input));
    Join(Kept(input))
  }

  function SlashCount(s: seq<Byte>, from: nat): nat
    requires from <= |s|
    decreases |s| - from
  {
    if from == |s| then 0 else (if s[from] == '/' then 1 else 0) + SlashCount(s, from + 1)
  }

  ghost predicate SlashFree(parts: seq<seq<Byte>>) {
    forall k :: 0 <= k < |parts| ==> '/' !in parts[k]
  }

  // ---------------------------------------------------------------- split and join

  lemma JoinSnoc(parts: seq<seq<Byte>>, part: seq<Byte>)
    requires parts != []
    ensures Join(parts + [part]) == Join(parts) + ['/'] + part
  {
    assert (parts + [part])[..|parts|] == parts;
  }

  lemma {:induction false} JoinCons(part: seq<Byte>, parts: seq<seq<Byte>>)
    requires parts != []
    ensures Join([part] + parts) == part + ['/'] + Join(parts)
  {
    if |parts| == 1 {
      JoinSnoc([part], parts[0]);
      assert [part] + parts == [part] + [parts[0]];
    } else {
      var front, last := parts[..|parts| - 1], parts[|parts| - 1];
      calc {
        Join([part] + parts);
        { assert [part] + parts == ([part] + front) + [last]; JoinSnoc([part] + front, last); }
        Join([part] + front) + ['/'] + last;
        { JoinCons(part, front); }
        (part + ['/'] + Join(front)) + ['/'] + last;
        { RegroupFive(part, Join(front), last); }
        part + ['/'] + (Join(front) + ['/'] + last);
      }
    }
  }

  lemma RegroupFive(a: seq<Byte>, b: seq<Byte>, c: seq<Byte>)
    ensures (a + ['/'] + b) + ['/'] + c == a + ['/'] + (b + ['/'] + c)
  {
  }

  lemma Glue(s: seq<Byte>, from: nat, end: nat)
    requires from <= end < |s| && s[end] == '/'
    ensures s[from..end] + ['/'] + s[end + 1..] == s[from..]
  {
  }

  lemma JoinStep(s: seq<Byte>, from: nat, end: nat, tail: seq<seq<Byte>>)
    requires from <= end < |s| && s[end] == '/'
    requires tail != [] && Join(tail) == s[end + 1..]
    ensures Join([s[from..end]] + tail) == s[from..]
  {
    JoinCons(s[from..end], tail);
    Glue(s, from, end);
  }

  lemma {:induction false} JoinSplitFrom(s: seq<Byte>, from: nat)
    requires from <= |s|
    ensures Join(SplitFrom(s, from)) == s[from..]
    decreases |s| - from
  {
    var end := FindSlash(s, from);
    if end < |s| {
      JoinSplitFrom(s, end + 1);
      JoinStep(s, from, end, SplitFrom(s, end + 1));
    }
  }

  /** Splitting loses nothing. */
  lemma JoinSplit(s: seq<Byte>)
    ensures Join(Split(s)) == s
  {
    JoinSplitFrom(s, 0);
  }

  lemma {:induction false} SlashCountTo(s: seq<Byte>, from: nat, end: nat)
    requires from <= end <= |s| && forall i :: from <= i < end ==> s[i] != '/'
    ensures SlashCount(s, from) == SlashCount(s, end)
    decreases end - from
  {
    if from < end {
      SlashCountTo(s, from + 1, end);
    }
  }

  lemma {:induction false} SplitFromShape(s: seq<Byte>, from: nat)
    requires from <= |s|
    ensures |SplitFrom(s, from)| == SlashCount(s, from) + 1
    ensures SlashFree(SplitFrom(s, from))
    decreases |s| - from
  {
    var end := FindSlash(s, from);
    SlashCountTo(s, from, end);
    if end < |s| {
      SplitFromShape(s, end + 1);
      SlashFreeCons(s[from..end], SplitFrom(s, end + 1));
    }
  }

  lemma SlashFreeCons(part: seq<Byte>, tail: seq<seq<Byte>>)
    requires '/' !in part && SlashFree(tail)
    ensures SlashFree([part] + tail)
  {
  }

  /** One component more than there are slashes, and no component holds one. */
  lemma SplitShape(s: seq<Byte>)
    ensures |Split(s)| == SlashCount(s, 0) + 1
    ensures SlashFree(Split(s))
  {
    SplitFromShape(s, 0);
  }

  lemma {:induction false} FirstSlashIs(s: seq<Byte>, from: nat, n: nat)
    requires from <= n <= |s| && forall i :: from <= i < n ==> s[i] != '/'
    requires n < |s| ==> s[n] == '/'
    ensures FindSlash(s, from) == n
    decreases n - from
  {
    if from < n {
      FirstSlashIs(s, from + 1, n);
    }
  }

  lemma {:induction false} SplitJoinAfter(whole: seq<Byte>, before: seq<Byte>, parts: seq<seq<Byte>>, text: seq<Byte>)
    requires parts != [] && SlashFree(parts)
    requires text == Join(parts) && whole == before + text
    ensures SplitFrom(whole, |before|) == parts
    decreases |parts|
  {
    var part, rest := parts[0], parts[1..];
    if rest == [] {
      LastPart(whole, before, part);
    } else {
      var joined, next := Join(rest), before + part + ['/'];
      JoinHead(parts, text, part, rest, joined);
      NextText(whole, before, part, joined, next);
      SplitJoinAfter(whole, next, rest, joined);
      SplitJoinStep(whole, before, part, joined, next);
    }
    assert parts == [part] + rest;
  }

  lemma JoinHead(parts: seq<seq<Byte>>, text: seq<Byte>, part: seq<Byte>, rest: seq<seq<Byte>>, joined: seq<Byte>)
    requires |parts| > 1 && part == parts[0] && rest == parts[1..]
    requires text == Join(parts) && joined == Join(rest)
    ensures text == part + ['/'] + joined
  {
    assert parts == [part] + rest;
    JoinCons(part, rest);
  }

  lemma NextText(whole: seq<Byte>, before: seq<Byte>, part: seq<Byte>, rest: seq<Byte>, next: seq<Byte>)
    requires whole == before + (part + ['/'] + rest) && next == before + part + ['/']
    ensures whole == next + rest
  {
  }

  lemma SplitJoinStep(whole: seq<Byte>, before: seq<Byte>, part: seq<Byte>, joined: seq<Byte>, next: seq<Byte>)
    requires whole == before + (part + ['/'] + joined) && next == before + part + ['/'] && '/' !in part
    ensures SplitFrom(whole, |before|) == [part] + SplitFrom(whole, |next|)
  {
    NextShape(whole, before, part, joined, |before|, |before| + |part|);
    NextPart(whole, |before|, |before| + |part|, |next|, part);
  }

  lemma LastPart(whole: seq<Byte>, before: seq<Byte>, part: seq<Byte>)
    requires whole == before + part && '/' !in part
    ensures SplitFrom(whole, |before|) == [part]
  {
    FirstSlashIs(whole, |before|, |whole|);
    assert whole[|before|..] == part;
  }

  /** Where a part lies in a joined text, and what follows it. */
  lemma NextShape(whole: seq<Byte>, before: seq<Byte>, part: seq<Byte>, rest: seq<Byte>, from: nat, end: nat)
    requires whole == before + (part + ['/'] + rest) && '/' !in part
    requires from == |before| && end == |before| + |part|
    ensures end < |whole| && whole[from..end] == part && whole[end] == '/'
    ensures forall i :: from <= i < end ==> whole[i] != '/'
  {
    forall i | from <= i < end
      ensures whole[i] != '/'
    {
      assert whole[i] == part[i - from];
    }
  }

  lemma NextPart(whole: seq<Byte>, from: nat, end: nat, after: nat, part: seq<Byte>)
    requires from <= end < |whole| && whole[end] == '/' && whole[from..end] == part && after == end + 1
    requires forall i :: from <= i < end ==> whole[i] != '/'
    ensures SplitFrom(whole, from) == [part] + SplitFrom(whole, after)
  {
    FirstSlashIs(whole, from, end);
  }

  /** Joining loses nothing either: slash-free components are read back as they were. */
  lemma SplitJoin(parts: seq<seq<Byte>>)
    requires parts != [] && SlashFree(parts)
    ensures Split(Join(parts)) == parts
  {
    assert Join(parts) == [] + Join(parts);
    SplitJoinAfter(Join(parts), [], parts, Join(parts));
  }

  lemma {:induction false} JoinKeptFits(parts: seq<seq<Byte>>)
    ensures |Join(Filter(IsKept, parts))| <= |Join(parts)|
  {
    if parts != [] {
      var front, last := parts[..|parts| - 1], parts[|parts| - 1];
      JoinKeptFits(front);
      assert parts == front + [last];
      var kept := Filter(IsKept, front);
      if front != [] {
        JoinSnoc(front, last);
      }
      if IsKept(last) && kept != [] {
        JoinSnoc(kept, last);
      }
    }
  }

  // ---------------------------------------------------------------- normal forms

  /** From an index on, no leading, trailing or doubled slash. */
  ghost predicate CleanFrom(t: seq<Byte>, from: nat) {
    && from < |t| && t[from] != '/' && t[|t| - 1] != '/'
    && forall i :: from <= i < |t| - 1 && t[i] == '/' ==> t[i + 1] != '/'
  }

  /** A canonical relative path. */
  ghost predicate IsNormal(t: seq<Byte>) {
    CleanFrom(t, 0) && LineSafe(t) && "." !in Split(t) && ".." !in Split(t)
  }

  lemma CleanStep(t: seq<Byte>, from: nat, end: nat)
    requires from <= end < |t| && t[end] == '/' && forall i :: from <= i < end ==> t[i] != '/'
    ensures CleanFrom(t, from) <==> from < end && CleanFrom(t, end + 1)
  {
  }

  /** No leading, trailing or doubled slash is the same as no empty component. */
  lemma {:induction false} CleanIsNoEmptyComponent(t: seq<Byte>, from: nat)
    requires from <= |t|
    ensures CleanFrom(t, from) <==> [] !in SplitFrom(t, from)
    decreases |t| - from
  {
    var end := FindSlash(t, from);
    if end < |t| {
      CleanIsNoEmptyComponent(t, end + 1);
      CleanStep(t, from, end);
      var part, tail := t[from..end], SplitFrom(t, end + 1);
      assert [] in [part] + tail <==> part == [] || [] in tail;
    } else {
      assert t[from..] == [] <==> from == |t|;
      assert CleanFrom(t, from) <==> from < |t|;
    }
  }

  ghost predicate LineSafeFrom(s: seq<Byte>, from: nat) {
    forall i :: from <= i < |s| ==> !Forbidden(s[i])
  }

  /** Components the loop lets through. */
  ghost predicate AllLineSafe(parts: seq<seq<Byte>>) {
    forall part :: part in parts ==> LineSafe(part)
  }

  lemma AllLineSafeCons(part: seq<Byte>, tail: seq<seq<Byte>>)
    ensures AllLineSafe([part] + tail) <==> LineSafe(part) && AllLineSafe(tail)
  {
    assert part in [part] + tail;
    assert forall x :: x in [part] + tail <==> x == part || x in tail;
  }

  lemma LineSafeSlice(s: seq<Byte>, from: nat, end: nat)
    requires from <= end <= |s|
    ensures LineSafe(s[from..end]) <==> forall i :: from <= i < end ==> !Forbidden(s[i])
  {
    assert forall i :: from <= i < end ==> s[i] == s[from..end][i - from];
  }

  lemma LineSafeStep(s: seq<Byte>, from: nat, end: nat, tail: seq<seq<Byte>>)
    requires from <= end < |s| && s[end] == '/'
    requires LineSafeFrom(s, end + 1) <==> AllLineSafe(tail)
    ensures LineSafeFrom(s, from) <==> AllLineSafe([s[from..end]] + tail)
  {
    LineSafeSlice(s, from, end);
    AllLineSafeCons(s[from..end], tail);
  }

  lemma LineSafeLast(s: seq<Byte>, from: nat)
    requires from <= |s|
    ensures LineSafeFrom(s, from) <==> AllLineSafe([s[from..]])
  {
    LineSafeSlice(s, from, |s|);
    assert s[from..|s|] == s[from..];
    AllLineSafeCons(s[from..], []);
    assert [s[from..]] + [] == [s[from..]];
  }

  lemma {:induction false} LineSafeParts(s: seq<Byte>, from: nat)
    requires from <= |s|
    ensures LineSafeFrom(s, from) <==> AllLineSafe(SplitFrom(s, from))
    decreases |s| - from
  {
    var end := FindSlash(s, from);
    if end < |s| {
      LineSafeParts(s, end + 1);
      LineSafeStep(s, from, end, SplitFrom(s, end + 1));
    } else {
      LineSafeLast(s, from);
    }
  }

  lemma {:induction false} FilterAll(parts: seq<seq<Byte>>)
    ensures Filter(IsKept, parts) == parts <==> forall part :: part in parts ==> IsKept(part)
  {
    if parts != [] {
      var front, last := parts[..|parts| - 1], parts[|parts| - 1];
      FilterAll(front);
      assert parts == front + [last];
    }
  }

  /** Splitting a normal form gives back exactly the kept components of the input. */
  lemma NormalFormComponents(input: Text)
    requires Acceptable(input)
    ensures Split(NormalForm(input)) == Kept(input) == Kept(NormalForm(input))
  {
    SplitShape(input);
    FilterMembers(IsKept, Split(input));
    SplitJoin(Kept(input));
    FilterAll(Kept(input));
  }

  lemma NormalFormIsClean(input: Text)
    requires Acceptable(input)
    ensures CleanFrom(NormalForm(input), 0)
  {
    NormalFormComponents(input);
    FilterMembers(IsKept, Split(input));
    CleanIsNoEmptyComponent(NormalForm(input), 0);
  }

  lemma NormalFormIsLineSafe(input: Text)
    requires Acceptable(input)
    ensures LineSafe(NormalForm(input))
  {
    NormalFormComponents(input);
    FilterMembers(IsKept, Split(input));
    LineSafeParts(input, 0);
    LineSafeParts(NormalForm(input), 0);
  }

  lemma NormalFormIsNormal(input: Text)
    requires Acceptable(input)
    ensures IsNormal(NormalForm(input))
  {
    NormalFormIsClean(input);
    NormalFormIsLineSafe(input);
    NormalFormComponents(input);
    FilterMembers(IsKept, Split(input));
  }

  /** The normal forms are exactly the accepted texts that parsing returns unchanged. */
  lemma NormalFormsAreFixedPoints(t: Text)
    ensures IsNormal(t) <==> Acceptable(t) && NormalForm(t) == t
  {
    if IsNormal(t) {
      CleanIsNoEmptyComponent(t, 0);
      FilterAll(Split(t));
      JoinSplit(t);
    }
    if Acceptable(t) && NormalForm(t) == t {
      NormalFormIsNormal(t);
    }
  }

  /** Parsing a parsed path changes nothing. */
  lemma ParsingIsIdempotent(input: Text)
    requires Acceptable(input)
    ensures Acceptable(NormalForm(input)) && NormalForm(NormalForm(input)) == NormalForm(input)
  {
    NormalFormIsNormal(input);
    NormalFormsAreFixedPoints(NormalForm(input));
  }

  /** Two spellings name one path exactly when they keep the same components. */
  lemma SamePathSameComponents(a: Text, b: Text)
    requires Acceptable(a) && Acceptable(b)
    ensures NormalForm(a) == NormalForm(b) <==> Kept(a) == Kept(b)
  {
    NormalFormComponents(a);
    NormalFormComponents(b);
  }

  // ---------------------------------------------------------------- the parser

  /** The byte loop of the parser and of require_line_safe. */
  method ScanLine(value: seq<Byte>) returns (ok: bool)
    ensures ok <==> LineSafe(value)
  {
    for i := 0 to |value|
      invariant forall k :: 0 <= k < i ==> !Forbidden(value[k])
    {
      if value[i] == '\0' || value[i] == '\n' || value[i] == '\r' {
        assert Forbidden(value[i]);
        return false;
      }
    }
    return true;
  }

  /** A symbolic-link target: not empty, and no byte that would break a line. */
  method RequireLineSafe(value: Text) returns (ok: bool)
    ensures ok <==> value != [] && LineSafe(value)
    ensures ok <==> value != [] && forall i :: 0 <= i < |value| ==>
              value[i] != '\0' && value[i] != '\n' && value[i] != '\r'
  {
    if value == [] {
      return false;
    }
    ok := ScanLine(value);
  }

  /** The joining loop: its test for an empty result stands for "first component". */
  method JoinComponents(parts: seq<seq<Byte>>) returns (normalized: seq<Byte>)
    requires [] !in parts
    ensures normalized == Join(parts)
  {
    normalized := [];
    for k := 0 to |parts|
      invariant normalized == Join(parts[..k])
      invariant k > 0 ==> normalized != []
    {
      assert parts[k] in parts;
      assert parts[..k + 1] == parts[..k] + [parts[k]];
      if normalized != [] {
        JoinSnoc(parts[..k], parts[k]);
        normalized := normalized + ['/'];
      }
      normalized := normalized + parts[k];
    }
    assert parts[..|parts|] == parts;
  }

  /** What the scanning loop does with the components from an index on. */
  datatype Scan = Scan(passed: bool, kept: seq<seq<Byte>>, count: nat)

  const NOTHING := Scan(true, [], 0)

  function ScanFrom(s: seq<Byte>, from: nat): Scan
    requires from <= |s|
    decreases |s| - from
  {
    var end := FindSlash(s, from);
    if end == |s| then ScanPart(s[from..], NOTHING) else ScanPart(s[from..end], ScanFrom(s, end + 1))
  }

  function ScanPart(part: seq<Byte>, rest: Scan): Scan {
    Scan(LineSafe(part) && part != ".." && rest.passed,
         if IsKept(part) then [part] + rest.kept else rest.kept,
         1 + rest.count)
  }

  ghost function ScanOf(parts: seq<seq<Byte>>): Scan {
    Scan(AllLineSafe(parts) && ".." !in parts, Filter(IsKept, parts), |parts|)
  }

  lemma ScanCons(part: seq<Byte>, rest: seq<seq<Byte>>)
    ensures ScanOf([part] + rest) == ScanPart(part, ScanOf(rest))
  {
    FilterAppend(IsKept, [part], rest);
    FilterSnoc(IsKept, [], part);
    assert [] + [part] == [part];
    assert forall x :: x in [part] + rest <==> x == part || x in rest;
  }

  lemma ScanOne(part: seq<Byte>)
    ensures ScanOf([part]) == ScanPart(part, NOTHING)
  {
    ScanCons(part, []);
    assert [part] + [] == [part];
  }

  lemma ScanStep(whole: Scan, parts: seq<seq<Byte>>, part: seq<Byte>, scanned: Scan, rest: seq<seq<Byte>>)
    requires whole == ScanPart(part, scanned) && parts == [part] + rest && scanned == ScanOf(rest)
    ensures whole == ScanOf(parts)
  {
    ScanCons(part, rest);
  }

  lemma LastComponent(s: seq<Byte>, from: nat)
    requires from <= |s| && FindSlash(s, from) == |s|
    ensures ScanFrom(s, from) == ScanPart(s[from..], NOTHING) && SplitFrom(s, from) == [s[from..]]
  {
  }

  lemma NextComponent(s: seq<Byte>, from: nat, end: nat)
    requires from <= |s| && end == FindSlash(s, from) < |s|
    ensures ScanFrom(s, from) == ScanPart(s[from..end], ScanFrom(s, end + 1))
    ensures SplitFrom(s, from) == [s[from..end]] + SplitFrom(s, end + 1)
  {
  }

  lemma {:induction false} ScanIsSplit(s: seq<Byte>, from: nat)
    requires from <= |s|
    ensures ScanFrom(s, from) == ScanOf(SplitFrom(s, from))
    decreases |s| - from
  {
    var end := FindSlash(s, from);
    if end < |s| {
      ScanIsSplit(s, end + 1);
      NextComponent(s, from, end);
      ScanStep(ScanFrom(s, from), SplitFrom(s, from), s[from..end], ScanFrom(s, end + 1), SplitFrom(s, end + 1));
    } else {
      LastComponent(s, from);
      ScanOne(s[from..]);
    }
  }

  /** The scan of the whole input, when the loop has kept these parts and counted so many components. */
  ghost function Progress(parts: seq<seq<Byte>>, count: nat, left: Scan): Scan {
    Scan(left.passed, parts + left.kept, count + left.count)
  }

  lemma KeepStep(parts: seq<seq<Byte>>, count: nat, part: seq<Byte>, rest: Scan)
    ensures !LineSafe(part) || part == ".." ==> !ScanPart(part, rest).passed
    ensures LineSafe(part) && part != ".." ==>
              Progress(parts, count, ScanPart(part, rest)) ==
              Progress(if IsKept(part) then parts + [part] else parts, count + 1, rest)
  {
  }

  /** What is left to scan, given what the loop scans next. */
  lemma LeftUnfolds(s: seq<Byte>, from: nat, end: nat, part: seq<Byte>)
    requires from <= |s| && end == FindSlash(s, from) && part == s[from..end]
    ensures ScanFrom(s, from) == ScanPart(part, if end == |s| then NOTHING else ScanFrom(s, end + 1))
  {
    if end == |s| {
      LastComponent(s, from);
      assert part == s[from..];
    } else {
      NextComponent(s, from, end);
    }
  }

  /** The scanning loop. It leaves by its break: the loop condition never fails. */
  method KeepComponents(input: seq<Byte>) returns (ok: bool, parts: seq<seq<Byte>>, ghost inspected: nat)
    ensures ok == ScanFrom(input, 0).passed
    ensures ok ==> parts == ScanFrom(input, 0).kept && inspected == ScanFrom(input, 0).count
  {
    ghost var whole := ScanFrom(input, 0);
    ghost var left := whole;
    ghost var leftByBreak := false;
    var begin := 0;
    parts, inspected := [], 0;
    while begin <= |input|
      invariant 0 <= begin <= |input| && !leftByBreak
      invariant left == ScanFrom(input, begin)
      invariant whole == Progress(parts, inspected, left)
      decreases |input| - begin
    {
      var end := FindSlash(input, begin);
      var part := input[begin..end];
      ghost var rest := if end == |input| then NOTHING else ScanFrom(input, end + 1);
      LeftUnfolds(input, begin, end, part);
      KeepStep(parts, inspected, part, rest);
      var lineSafe := ScanLine(part);
      if !lineSafe || part == ".." {
        return false, parts, inspected;
      }
      if part != [] && part != "." {
        parts := parts + [part];
      }
      left, inspected := rest, inspected + 1;
      if end == |input| {
        leftByBreak := true;
        break;
      }
      begin := end + 1;
    }
    assert leftByBreak;
    ok := true;
  }

  /** Accepts exactly the acceptable inputs. Unless a component is refused, it inspects one component more than there
      are slashes. */
  method Parse(input: Text) returns (r: Result<PayloadPath>, ghost inspected: nat)
    ensures r == if Acceptable(input) then Success(PayloadPath(NormalForm(input))) else Failure(InvalidModel)
    ensures input != [] && input[0] != '/' && LineSafe(input) && ".." !in Split(input) ==>
              inspected == SlashCount(input, 0) + 1
  {
    if input == [] || input[0] == '/' {
      return Failure(InvalidModel), 0;
    }
    ScanIsSplit(input, 0);
    LineSafeParts(input, 0);
    SplitShape(input);
    var ok, parts, seen := KeepComponents(input);
    inspected := seen;
    if !ok || parts == [] {
      return Failure(InvalidModel), inspected;
    }
    FilterMembers(IsKept, Split(input));
    var normalized := JoinComponents(parts);
    assert normalized == NormalForm(input);
    return Success(PayloadPath(normalized)), inspected;
  }
}
