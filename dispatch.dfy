/** Opening a storage file from its bytes: the header decides between a
    static hashed file and a B-tree (file type 25); a type-30 directory's
    `DATA.30` and `OVER.30` make a dynamic hashed file. */
module Dispatch {
  import opened Wrappers
  import opened Bytes
  import opened UvFileInfo
  import opened Records
  import opened Header
  import opened Hashed
  import opened BTrees

  const BTREE_FILE_TYPE: nat := 25

  datatype UvFile = HashedFile(h: HashedFile) | BTreeFile(t: BTree)

  /** `open_uv_file` on a path that is a file: a header that cannot be read is
      an error, file type 25 is a B-tree and any other type a static hashed
      file. */
  function OpenDataFile(fd: seq<byte>): (r: Result<UvFile>)
    ensures r.Success? <==> ReadFileHeader(fd).Success?
    ensures r.Failure? ==> r.error == ReadFileHeader(fd).error
    ensures r.Success? ==>
      var info := ReadFileHeader(fd).value;
      && (r.value.BTreeFile? <==> info.fileType == BTREE_FILE_TYPE)
      && (r.value.BTreeFile? ==> r.value.t == BTree(fd, info))
      && (r.value.HashedFile? ==> r.value.h == StaticHashed(fd, info))
  {
    var info :- ReadFileHeader(fd);
    if info.fileType != BTREE_FILE_TYPE then Success(HashedFile(StaticHashed(fd, info)))
    else Success(BTreeFile(BTree(fd, info)))
  }

  /** `open_uv_file` on a type-30 directory: the header of `DATA.30`, with
      `OVER.30` as the overflow file. A header that decodes always names a
      hashing algorithm, so a type-30 directory with a readable `DATA.30`
      always opens. */
  function OpenDynamicFile(data: seq<byte>, over30: seq<byte>): (r: Result<UvFile>)
    ensures r.Success? <==> ReadFileHeader(data).Success?
    ensures r.Failure? ==> r.error == ReadFileHeader(data).error
    ensures r.Success? ==> r.value.HashedFile? && r.value.h.DynamicHashed? && r.value.h.info == ReadFileHeader(data).value
    ensures r.Success? ==>
      && r.value.HashedFile? && r.value.h.DynamicHashed?
      && r.value.h.fd == data && r.value.h.over30 == over30
      && Some(r.value.h.dynHashAlg) == ReadFileHeader(data).value.dynHashAlg
  {
    var info :- ReadFileHeader(data);
    match MakeDynamic(data, over30, info)
    case Failure(e) => Failure(e)
    case Success(h) => Success(HashedFile(h))
  }
}
