/** Payload entries, and the order rules a manifest must meet before it is sealed. */
module Payload {
  import opened Bytes
  import opened PayloadPaths
  import opened Sequences

  datatype EntryType = Regular | Directory | Symlink | Hardlink | Fifo | CharacterDevice | BlockDevice

  datatype PayloadTime = PayloadTime(seconds: Int64, nanoseconds: Uint32)

  datatype DeviceNumber = DeviceNumber(major: Uint64, minor: Uint64)

  /** regularContent is the text of a sha256_digest. */
  datatype PayloadEntry = PayloadEntry(
    path: PayloadPath, entryType: EntryType, mode: Uint32, uid: Uint64, gid: Uint64, size: Uint64,
    modificationTime: PayloadTime, symlinkTarget: Option<Text>, hardlinkTarget: Option<PayloadPath>,
    device: Option<DeviceNumber>, regularContent: Option<Text>)

  // ---------------------------------------------------------------- factories

  /** A call of one of the public entry factories: what is common to all, and what is particular. */
  datatype Particulars =
    | RegularFile(size: Uint64, content: Text)
    | PlainDirectory
    | SymbolicLink(target: Text)
    | HardLink(anchor: PayloadPath)
    | NamedPipe
    | CharacterNode(device: DeviceNumber)
    | BlockNode(device: DeviceNumber)

  /** The private constructor: its two range checks come after the factory's own. */
  function MakeEntry(path: PayloadPath, mode: Uint32, uid: Uint64, gid: Uint64, time: PayloadTime,
                     what: Particulars): Result<PayloadEntry>
  {
    if what.SymbolicLink? && (what.target == [] || !LineSafe(what.target)) then Failure(InvalidModel)
    else if mode > 0xFFF || time.nanoseconds >= 1_000_000_000 then Failure(InvalidModel)
    else
      match what
      case RegularFile(size, content) =>
        Success(PayloadEntry(path, Regular, mode, uid, gid, size, time, None, None, None, Some(content)))
      case PlainDirectory =>
        Success(PayloadEntry(path, Directory, mode, uid, gid, 0, time, None, None, None, None))
      case SymbolicLink(target) =>
        Success(PayloadEntry(path, Symlink, mode, uid, gid, 0, time, Some(target), None, None, None))
      case HardLink(anchor) =>
        Success(PayloadEntry(path, Hardlink, mode, uid, gid, 0, time, None, Some(anchor), None, None))
      case NamedPipe =>
        Success(PayloadEntry(path, Fifo, mode, uid, gid, 0, time, None, None, None, None))
      case CharacterNode(device) =>
        Success(PayloadEntry(path, CharacterDevice, mode, uid, gid, 0, time, None, None, Some(device), None))
      case BlockNode(device) =>
        Success(PayloadEntry(path, BlockDevice, mode, uid, gid, 0, time, None, None, Some(device), None))
  }

  /** Each optional field is present exactly for the types that own it. */
  ghost predicate WellFormed(e: PayloadEntry) {
    && e.mode <= 0xFFF && e.modificationTime.nanoseconds < 1_000_000_000
    && (e.size > 0 ==> e.entryType.Regular?)
    && (e.symlinkTarget.Some? <==> e.entryType.Symlink?)
    && (e.symlinkTarget.Some? ==> e.symlinkTarget.value != [] && LineSafe(e.symlinkTarget.value))
    && (e.hardlinkTarget.Some? <==> e.entryType.Hardlink?)
    && (e.device.Some? <==> e.entryType.CharacterDevice? || e.entryType.BlockDevice?)
    && (e.regularContent.Some? <==> e.entryType.Regular?)
  }

  function ParticularsOf(e: PayloadEntry): Particulars
    requires WellFormed(e)
  {
    match e.entryType
    case Regular => RegularFile(e.size, e.regularContent.value)
    case Directory => PlainDirectory
    case Symlink => SymbolicLink(e.symlinkTarget.value)
    case Hardlink => HardLink(e.hardlinkTarget.value)
    case Fifo => NamedPipe
    case CharacterDevice => CharacterNode(e.device.value)
    case BlockDevice => BlockNode(e.device.value)
  }

  /** The factories reach exactly the well-formed entries, each by one call. */
  lemma FactoriesReachWellFormed(e: PayloadEntry, what: Particulars)
    ensures MakeEntry(e.path, e.mode, e.uid, e.gid, e.modificationTime, what) == Success(e) <==>
            WellFormed(e) && what == ParticularsOf(e)
  {
  }

  /** What a factory refuses, and what it makes of what it accepts. */
  lemma FactoryInFields(path: PayloadPath, mode: Uint32, uid: Uint64, gid: Uint64, time: PayloadTime,
                        what: Particulars)
    ensures var r := MakeEntry(path, mode, uid, gid, time, what);
            && (r.Success? <==>
                mode <= 4095 && time.nanoseconds < 1_000_000_000 &&
                (what.SymbolicLink? ==>
                   what.target != [] &&
                   forall i :: 0 <= i < |what.target| ==>
                     what.target[i] != '\0' && what.target[i] != '\n' && what.target[i] != '\r'))
            && (r.Failure? ==> r.error == InvalidModel)
            && (r.Success? ==>
                var e := r.value;
                && e.path == path && e.mode == mode && e.uid == uid && e.gid == gid && e.modificationTime == time
                && e.size == (if what.RegularFile? then what.size else 0)
                && e.entryType == (match what
                                   case RegularFile(_, _) => Regular
                                   case PlainDirectory => Directory
                                   case SymbolicLink(_) => Symlink
                                   case HardLink(_) => Hardlink
                                   case NamedPipe => Fifo
                                   case CharacterNode(_) => CharacterDevice
                                   case BlockNode(_) => BlockDevice)
                && e.regularContent == (if what.RegularFile? then Some(what.content) else None)
                && e.symlinkTarget == (if what.SymbolicLink? then Some(what.target) else None)
                && e.hardlinkTarget == (if what.HardLink? then Some(what.anchor) else None)
                && e.device == (if what.CharacterNode? || what.BlockNode? then Some(what.device) else None))
  {
  }

  // ---------------------------------------------------------------- manifest rules

  /** The metadata hard links share with their inode. */
  predicate SameInode(a: PayloadEntry, b: PayloadEntry) {
    a.mode == b.mode && a.uid == b.uid && a.gid == b.gid && a.modificationTime == b.modificationTime
  }

  predicate Anchors(a: PayloadEntry, link: PayloadEntry) {
    a.entryType.Regular? && link.hardlinkTarget == Some(a.path) && SameInode(a, link)
  }

  ghost predicate DistinctPaths(entries: seq<PayloadEntry>) {
    forall i, j :: 0 <= i < j < |entries| ==> entries[i].path != entries[j].path
  }

  /** The entry at j is a hard link, and the one at i its earlier anchor. */
  ghost predicate AnchoredAt(entries: seq<PayloadEntry>, i: int, j: int) {
    0 <= i < j < |entries| && Anchors(entries[i], entries[j])
  }

  /** What a manifest must be: one entry a path, and for each hard link an earlier anchor. */
  ghost predicate Sealable(entries: seq<PayloadEntry>) {
    && DistinctPaths(entries)
    && forall j :: 0 <= j < |entries| && entries[j].entryType.Hardlink? ==> exists i :: AnchoredAt(entries, i, j)
  }

  /** The rules as met by entry k, given the entries before it. */
  ghost predicate NextSealable(entries: seq<PayloadEntry>, k: nat)
    requires k < |entries|
  {
    && (forall i :: 0 <= i < k ==> entries[i].path != entries[k].path)
    && (entries[k].entryType.Hardlink? ==> exists i :: AnchoredAt(entries, i, k))
  }

  lemma PrefixAnchors(entries: seq<PayloadEntry>, k: nat, i: int, j: int)
    requires j < k <= |entries|
    ensures AnchoredAt(entries[..k], i, j) <==> AnchoredAt(entries, i, j)
  {
  }

  /** Every prefix of an accepted list is accepted, so the check can be made entry by entry. */
  lemma PrefixSealable(entries: seq<PayloadEntry>, k: nat)
    requires k <= |entries|
    ensures Sealable(entries) ==> Sealable(entries[..k])
    ensures k < |entries| ==> (Sealable(entries[..k + 1]) <==> Sealable(entries[..k]) && NextSealable(entries, k))
  {
    if Sealable(entries) {
      PrefixOfSealable(entries, k);
    }
    if k < |entries| {
      var now := entries[..k + 1];
      assert now[..k] == entries[..k];
      if Sealable(now) {
        PrefixOfSealable(now, k);
        if now[k].entryType.Hardlink? {
          var i :| AnchoredAt(now, i, k);
          PrefixAnchors(entries, k + 1, i, k);
        }
      }
      if Sealable(entries[..k]) && NextSealable(entries, k) {
        forall j | 0 <= j < |now| && now[j].entryType.Hardlink?
          ensures exists i :: AnchoredAt(now, i, j)
        {
          if j < k {
            assert entries[..k][j] == now[j];
            var i :| AnchoredAt(entries[..k], i, j);
            PrefixAnchors(entries, k, i, j);
            PrefixAnchors(entries, k + 1, i, j);
          } else {
            var i :| AnchoredAt(entries, i, j);
            PrefixAnchors(entries, k + 1, i, j);
          }
        }
        assert forall i :: 0 <= i < k ==> now[i] == entries[..k][i];
      }
    }
  }

  lemma PrefixOfSealable(entries: seq<PayloadEntry>, k: nat)
    requires k <= |entries| && Sealable(entries)
    ensures Sealable(entries[..k])
  {
    forall j | 0 <= j < k && entries[..k][j].entryType.Hardlink?
      ensures exists i :: AnchoredAt(entries[..k], i, j)
    {
      var i :| AnchoredAt(entries, i, j);
      PrefixAnchors(entries, k, i, j);
    }
  }

  /** The regular entries before k, by path. */
  ghost predicate Indexes(regular: map<PayloadPath, PayloadEntry>, entries: seq<PayloadEntry>, k: nat)
    requires k <= |entries|
  {
    && (forall i :: 0 <= i < k && entries[i].entryType.Regular? ==>
          entries[i].path in regular && regular[entries[i].path] == entries[i])
    && (forall p :: p in regular ==>
          exists i :: 0 <= i < k && entries[i] == regular[p] && entries[i].path == p && entries[i].entryType.Regular?)
  }

  /** Looking a target up among the indexed regular entries finds the anchor, if there is one. */
  lemma AnchorByIndex(regular: map<PayloadPath, PayloadEntry>, entries: seq<PayloadEntry>, k: nat)
    requires k < |entries| && Indexes(regular, entries, k)
    ensures (exists i :: AnchoredAt(entries, i, k)) <==>
            var target := entries[k].hardlinkTarget;
            target.Some? && target.value in regular && SameInode(regular[target.value], entries[k])
  {
    var target := entries[k].hardlinkTarget;
    if target.Some? && target.value in regular && SameInode(regular[target.value], entries[k]) {
      var i :| 0 <= i < k && entries[i] == regular[target.value] && entries[i].path == target.value &&
               entries[i].entryType.Regular?;
      assert AnchoredAt(entries, i, k);
    }
  }

  /** The one-pass check of payload_manifest::seal agrees with the rules on every list. */
  method CheckManifest(entries: seq<PayloadEntry>) returns (ok: bool)
    ensures ok <==> Sealable(entries)
  {
    var seen: set<PayloadPath> := {};
    var regular: map<PayloadPath, PayloadEntry> := map[];
    for k := 0 to |entries|
      invariant Sealable(entries[..k])
      invariant seen == set i | 0 <= i < k :: entries[i].path
      invariant Indexes(regular, entries, k)
    {
      PrefixSealable(entries, k);
      AnchorByIndex(regular, entries, k);
      var entry := entries[k];
      if entry.path in seen {
        SealableNext(entries, k);
        return false;
      }
      seen := seen + {entry.path};
      if entry.entryType.Regular? {
        regular := regular[entry.path := entry];
      }
      if entry.entryType.Hardlink? {
        if entry.hardlinkTarget.None? || entry.path == entry.hardlinkTarget.value ||
           entry.hardlinkTarget.value !in regular {
          SealableNext(entries, k);
          return false;
        }
        var anchor := regular[entry.hardlinkTarget.value];
        if entry.mode != anchor.mode || entry.uid != anchor.uid || entry.gid != anchor.gid ||
           entry.modificationTime != anchor.modificationTime {
          SealableNext(entries, k);
          return false;
        }
      }
    }
    assert entries[..|entries|] == entries;
    return true;
  }

  lemma SealableNext(entries: seq<PayloadEntry>, k: nat)
    requires k < |entries|
    ensures Sealable(entries) ==> NextSealable(entries, k)
  {
  }

  /** In fields: the entry at i is an earlier regular entry at the target path of the one at j, with the same mode,
      owner, group and time. */
  ghost predicate LinkedAt(entries: seq<PayloadEntry>, i: int, j: int) {
    && 0 <= i < j < |entries| && entries[i].entryType == Regular
    && entries[j].hardlinkTarget == Some(entries[i].path)
    && entries[i].mode == entries[j].mode && entries[i].uid == entries[j].uid && entries[i].gid == entries[j].gid
    && entries[i].modificationTime.seconds == entries[j].modificationTime.seconds
    && entries[i].modificationTime.nanoseconds == entries[j].modificationTime.nanoseconds
  }

  lemma AnchoredInFields(entries: seq<PayloadEntry>, i: int, j: int)
    ensures AnchoredAt(entries, i, j) <==> LinkedAt(entries, i, j)
  {
  }

  /** The manifest rules, in fields. */
  lemma SealableInFields(entries: seq<PayloadEntry>)
    ensures Sealable(entries) <==>
            && (forall i, j :: 0 <= i < j < |entries| ==> entries[i].path.value != entries[j].path.value)
            && (forall j :: 0 <= j < |entries| && entries[j].entryType == Hardlink ==>
                  exists i :: LinkedAt(entries, i, j))
  {
    forall i, j
      ensures AnchoredAt(entries, i, j) <==> LinkedAt(entries, i, j)
    {
      AnchoredInFields(entries, i, j);
    }
    if Sealable(entries) {
      forall j | 0 <= j < |entries| && entries[j].entryType == Hardlink
        ensures exists i :: LinkedAt(entries, i, j)
      {
        var i :| AnchoredAt(entries, i, j);
        assert LinkedAt(entries, i, j);
      }
    }
    if forall j :: 0 <= j < |entries| && entries[j].entryType == Hardlink ==> exists i :: LinkedAt(entries, i, j) {
      forall j | 0 <= j < |entries| && entries[j].entryType.Hardlink?
        ensures exists i :: AnchoredAt(entries, i, j)
      {
        var i :| LinkedAt(entries, i, j);
        assert AnchoredAt(entries, i, j);
      }
    }
  }

  // ---------------------------------------------------------------- hard-link topology

  /** Each hard link of an accepted list resolves, in one hop, to one regular entry and no other. */
  lemma HardLinksResolveInOneHop(entries: seq<PayloadEntry>, j: nat) returns (i: nat)
    requires Sealable(entries) && j < |entries| && entries[j].entryType.Hardlink?
    ensures i < j && entries[i].entryType == Regular
    ensures entries[i].mode == entries[j].mode && entries[i].uid == entries[j].uid && entries[i].gid == entries[j].gid
    ensures entries[i].modificationTime == entries[j].modificationTime
    ensures forall k :: 0 <= k < |entries| ==>
              (Some(entries[k].path) == entries[j].hardlinkTarget <==> k == i)
  {
    i :| AnchoredAt(entries, i, j);
  }

  /** Links that name one anchor are one inode. */
  lemma SharedAnchorSharedInode(entries: seq<PayloadEntry>, j: nat, k: nat)
    requires Sealable(entries) && j < |entries| && k < |entries|
    requires entries[j].entryType.Hardlink? && entries[k].entryType.Hardlink?
    requires entries[j].hardlinkTarget == entries[k].hardlinkTarget
    ensures entries[j].mode == entries[k].mode && entries[j].uid == entries[k].uid && entries[j].gid == entries[k].gid
    ensures entries[j].modificationTime == entries[k].modificationTime
  {
    var a := HardLinksResolveInOneHop(entries, j);
    var b := HardLinksResolveInOneHop(entries, k);
    assert a == b;
  }

  /** Each hard link comes after the entry it names. */
  ghost predicate AnchorsComeFirst(entries: seq<PayloadEntry>) {
    forall i, j ::
      (0 <= i < |entries| && 0 <= j < |entries| && entries[j].entryType == Hardlink &&
       entries[j].hardlinkTarget == Some(entries[i].path)
       ==> i < j)
  }

  function PathOf(e: PayloadEntry): PayloadPath {
    e.path
  }

  /** A rearrangement of an accepted list is accepted exactly when links stay after their anchors. */
  lemma RearrangedManifest(entries: seq<PayloadEntry>, again: seq<PayloadEntry>)
    requires Sealable(entries) && multiset(entries) == multiset(again)
    ensures Sealable(again) <==> AnchorsComeFirst(again)
  {
    SamePermutedMembers(entries, again);
    MapPermuted(PathOf, entries, again);
    DistinctPermuted(MapOver(PathOf, entries), MapOver(PathOf, again));
    assert DistinctPaths(again) by {
      assert Distinct(MapOver(PathOf, entries));
      assert forall i :: 0 <= i < |again| ==> MapOver(PathOf, again)[i] == again[i].path;
    }
    if AnchorsComeFirst(again) {
      forall j | 0 <= j < |again| && again[j].entryType.Hardlink?
        ensures exists i :: AnchoredAt(again, i, j)
      {
        assert again[j] in again;
        var k :| 0 <= k < |entries| && entries[k] == again[j];
        var a :| AnchoredAt(entries, a, k);
        assert entries[a] in entries;
        var i :| 0 <= i < |again| && again[i] == entries[a];
        assert AnchoredAt(again, i, j);
      }
    }
    if Sealable(again) {
      forall i, j | 0 <= i < |again| && 0 <= j < |again| && again[j].entryType == Hardlink &&
                    again[j].hardlinkTarget == Some(again[i].path)
        ensures i < j
      {
        var a :| AnchoredAt(again, a, j);
        assert again[a].path == again[i].path;
      }
    }
  }
}
