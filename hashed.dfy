/** Static and dynamic hashed files: the records of every group, group after
    group. A dynamic file has one group more than its modulus and an overflow
    file its items may be forwarded into. */
module Hashed {
  import opened Wrappers
  import opened Bytes
  import opened UvFileInfo
  import opened Records
  import opened Groups

  datatype HashedFile =
    | StaticHashed(fd: seq<byte>, info: FileInfo)
    | DynamicHashed(fd: seq<byte>, over30: seq<byte>, info: FileInfo, dynHashAlg: nat)

  /** `DynamicHashedFile(fd, over_30_fd, info)`, which refuses a geometry
      without a hashing algorithm. */
  function MakeDynamic(fd: seq<byte>, over30: seq<byte>, info: FileInfo): (r: Result<HashedFile>)
    ensures r.Failure? <==> info.dynHashAlg.None?
    ensures r.Failure? ==> r.error == MissingDynHashAlg
    ensures r.Success? ==>
      && r.value.DynamicHashed? && r.value.fd == fd && r.value.over30 == over30
      && r.value.info == info && Some(r.value.dynHashAlg) == info.dynHashAlg
  {
    match info.dynHashAlg
    case None => Failure(MissingDynHashAlg)
    case Some(alg) => Success(DynamicHashed(fd, over30, info, alg))
  }

  /** `groups()`: groups 0 up to the modulus, excluded for a static file and
      included for a dynamic one; only a dynamic file's groups see the overflow
      file. */
  function FileGroups(f: HashedFile): (gs: seq<Group>)
    ensures |gs| == if f.StaticHashed? then f.info.modulus else f.info.modulus + 1
    ensures forall i :: 0 <= i < |gs| ==>
      && gs[i].groupIndex == i && gs[i].info == f.info && gs[i].fd == f.fd
      && gs[i].over30 == if f.StaticHashed? then None else Some(f.over30)
  {
    match f
    case StaticHashed(fd, info) =>
      seq(info.modulus, i requires 0 <= i => Group(i, info, fd, None))
    case DynamicHashed(fd, over30, info, _) =>
      seq(info.modulus + 1, i requires 0 <= i => Group(i, info, fd, Some(over30)))
  }

  /** The record stream of each group, in group order. */
  function GroupStreams(f: HashedFile, steps: nat, fuel: nat): (ss: seq<Stream<Record>>)
    ensures |ss| == |FileGroups(f)|
    ensures forall i :: 0 <= i < |ss| ==> ss[i] == GroupRecordStream(FileGroups(f)[i], steps, fuel)
  {
    var gs := FileGroups(f);
    seq(|gs|, i requires 0 <= i < |gs| => GroupRecordStream(gs[i], steps, fuel))
  }

  /** `records()`: every group's records, group after group, stopping at the
      first error. Read to its end, a hashed file yields the records of its
      groups in group order; it is read to its end exactly when every group is. */
  function HashedRecords(f: HashedFile, steps: nat, fuel: nat): (s: Stream<Record>)
    ensures s.Complete() <==>
      forall i :: 0 <= i < |FileGroups(f)| ==> GroupRecordStream(FileGroups(f)[i], steps, fuel).Complete()
    ensures s.Complete() ==> s.items == ConcatItems(GroupStreams(f, steps, fuel))
  {
    Flatten(GroupStreams(f, steps, fuel))
  }

  /** The first group that fails ends the file's records with its error. */
  lemma HashedRecordsStop(f: HashedFile, steps: nat, fuel: nat, k: nat)
    requires k < |FileGroups(f)| && !GroupRecordStream(FileGroups(f)[k], steps, fuel).Complete()
    requires forall i :: 0 <= i < k ==> GroupRecordStream(FileGroups(f)[i], steps, fuel).Complete()
    ensures HashedRecords(f, steps, fuel).failure == GroupRecordStream(FileGroups(f)[k], steps, fuel).failure
    ensures HashedRecords(f, steps, fuel).items
         == ConcatItems(GroupStreams(f, steps, fuel)[..k]) + GroupRecordStream(FileGroups(f)[k], steps, fuel).items
  {
    FlattenStops(GroupStreams(f, steps, fuel), k);
  }

  /** Every record of a hashed file has a key without 0xFF and is its raw
      bytes split into fields. */
  lemma HashedKeys(f: HashedFile, steps: nat, fuel: nat)
    ensures forall r :: r in HashedRecords(f, steps, fuel).items ==>
      KEY_MARK !in r.key && r == MakeRecord(r.key, r.raw)
  {
    var ss := GroupStreams(f, steps, fuel);
    forall r | r in HashedRecords(f, steps, fuel).items
      ensures KEY_MARK !in r.key && r == MakeRecord(r.key, r.raw)
    {
      FlattenMember(ss, r);
      var i :| 0 <= i < |ss| && r in ss[i].items;
      var g := FileGroups(f)[i];
      WalkKeys(g, ReadItemResult(Some(GroupStart(g)), false, None), steps, fuel);
    }
  }

  /** A static file's records are never read from an overflow file. */
  lemma StaticNeverForwards(f: HashedFile, i: nat, inOver30: bool)
    requires f.StaticHashed? && i < f.info.modulus
    ensures ItemFile(FileGroups(f)[i], inOver30) == f.fd
  {
  }
}
