/** Decoding the first block of a hashed or B-tree file into its geometry. */
module Header {
  import opened Wrappers
  import opened Bytes
  import opened UvFileInfo

  const BLOCK: nat := 1024
  const REVISION: byte := 0x0c
  const DYNAMIC_FILE_TYPE: nat := 30

  /** What `fd.read(1024)` returns at the start of the file. */
  function HeaderBlock(file: seq<byte>): (h: seq<byte>)
    ensures |h| == if |file| < BLOCK then |file| else BLOCK
  {
    Read(file, 0, BLOCK)
  }

  /** Little-endian files carry the bytes EF AC at offsets 2 and 3. */
  predicate IsLittle(h: seq<byte>)
  {
    Slice(h, 2, 4) == [0xEF, 0xAC]
  }

  function OrderOf(h: seq<byte>): ByteOrder
  {
    if IsLittle(h) then Little else Big
  }

  /** The architecture byte sits at offset 1 in little order and 2 in big order. */
  function ArchByte(h: seq<byte>): byte
    requires |h| >= 4
  {
    if IsLittle(h) then h[1] else h[2]
  }

  /** The revision byte sits at offset 0 in little order and 3 in big order. */
  function RevisionByte(h: seq<byte>): byte
    requires |h| >= 4
  {
    if IsLittle(h) then h[0] else h[3]
  }

  /** Where the modulus is kept: bytes 12..16 (32-bit) or 8..16 (64-bit), moved to
      0x24..0x28 or 0x20..0x28 in a dynamic (type 30) file. */
  function ModulusField(h: seq<byte>, arch: Arch, fileType: nat): seq<byte>
  {
    match arch
    case Arch32 => if fileType == DYNAMIC_FILE_TYPE then Slice(h, 0x24, 0x28) else Slice(h, 12, 16)
    case Arch64 => if fileType == DYNAMIC_FILE_TYPE then Slice(h, 0x20, 0x28) else Slice(h, 8, 16)
  }

  function GroupLength(separation: nat): nat { separation * 512 }

  function HeaderLength(separation: nat): (n: nat)
    ensures separation % 2 == 0 ==> n == GroupLength(separation)
    ensures separation % 2 == 1 ==> n == BLOCK
  {
    if separation % 2 == 0 then GroupLength(separation) else BLOCK
  }

  /** `read_file_header`. A file shorter than four bytes makes the source index past
      the end of its header buffer; any revision other than 0x0c is refused. */
  function ReadFileHeader(file: seq<byte>): (r: Result<FileInfo>)
    ensures |file| < 4 ==> r == Failure(IndexOutOfRange)
    ensures |file| >= 4 ==> (r.Success? <==> RevisionByte(HeaderBlock(file)) == REVISION)
    ensures |file| >= 4 && RevisionByte(HeaderBlock(file)) != REVISION ==> r == Failure(UnsupportedRevision)
    ensures r.Success? ==>
      var h := HeaderBlock(file);
      var info := r.value;
      && |h| >= 4
      && info.byteorder == OrderOf(h)
      && (info.arch == Arch32 <==> ArchByte(h) == 1)
      && info.fileType == FromBytes(Slice(h, 4, 8), info.byteorder)
      && info.modulus == FromBytes(ModulusField(h, info.arch, info.fileType), info.byteorder)
      && info.separation == FromBytes(Slice(h, 16, 20), info.byteorder)
      && info.groupLength == info.separation * 512
      && info.headerLength == (if info.separation % 2 == 0 then info.groupLength else 1024)
      && info.dynHashAlg == Some(FromBytes(Slice(h, 0x48, 0x4c), info.byteorder))
  {
    var h := HeaderBlock(file);
    var order := OrderOf(h);
    var archByte :- At(h, if order == Little then 1 else 2);
    var revision :- At(h, if order == Little then 0 else 3);
    var arch := if archByte == 1 then Arch32 else Arch64;
    var fileType := FromBytes(Slice(h, 4, 8), order);
    var modulus := FromBytes(ModulusField(h, arch, fileType), order);
    var separation := FromBytes(Slice(h, 16, 20), order);
    var dynHashAlg := FromBytes(Slice(h, 0x48, 0x4c), order);
    if revision != REVISION then
      Failure(UnsupportedRevision)
    else
      Success(FileInfo(order, arch, fileType, modulus, separation,
                       GroupLength(separation), HeaderLength(separation), Some(dynHashAlg)))
  }

  // ---------------------------------------------------------------- the inverse

  function Zeros(n: nat): (z: seq<byte>)
    ensures |z| == n
  {
    if n == 0 then [] else [0] + Zeros(n - 1)
  }

  /** The arch byte a header writer would use: 1 for 32-bit; any other value means 64-bit. */
  function ArchCode(arch: Arch): byte
  {
    if arch == Arch32 then 1 else 2
  }

  function Magic(order: ByteOrder, arch: Arch): (p: seq<byte>)
    ensures |p| == 4
  {
    match order
    case Little => [REVISION, ArchCode(arch), 0xEF, 0xAC]
    case Big => [0, 0, ArchCode(arch), REVISION]
  }

  /** Eight bytes holding the modulus in the layout of `arch`. The encoder writes it both
      at its ordinary place and at the place a type-30 file uses. */
  function ModulusBytes(order: ByteOrder, arch: Arch, modulus: nat): (m: seq<byte>)
    ensures |m| == 8
  {
    if arch == Arch32 then Zeros(4) + ToBytes(modulus, 4, order) else ToBytes(modulus, 8, order)
  }

  /** A 1024-byte header block describing the given geometry: the magic and revision,
      then file type @4, modulus @8, separation @16, the type-30 modulus @0x20 and the
      dynamic hash algorithm @0x48. */
  function EncodeHeader(order: ByteOrder, arch: Arch, fileType: nat, modulus: nat, separation: nat, dynHashAlg: nat): (h: seq<byte>)
    ensures |h| == BLOCK
  {
    var m := ModulusBytes(order, arch, modulus);
    Magic(order, arch) + (ToBytes(fileType, 4, order) + (m + (ToBytes(separation, 4, order) + HeaderTail(order, m, dynHashAlg))))
  }

  /** Bytes 20..1024 of an encoded header. */
  function HeaderTail(order: ByteOrder, m: seq<byte>, dynHashAlg: nat): (t: seq<byte>)
    requires |m| == 8
    ensures |t| == 1004
  {
    Zeros(12) + (m + (Zeros(32) + (ToBytes(dynHashAlg, 4, order) + Zeros(948))))
  }

  lemma SliceRight(a: seq<byte>, r: seq<byte>, i: int, j: int)
    requires |a| <= i <= j <= |a| + |r|
    ensures Slice(a + r, i, j) == Slice(r, i - |a|, j - |a|)
  {
    assert (a + r)[i..j] == r[i - |a|..j - |a|];
  }

  lemma SliceLeft(a: seq<byte>, r: seq<byte>, i: int, j: int)
    requires 0 <= i <= j <= |a|
    ensures Slice(a + r, i, j) == Slice(a, i, j)
  {
    assert (a + r)[i..j] == a[i..j];
  }

  lemma TailFields(order: ByteOrder, m: seq<byte>, dynHashAlg: nat)
    requires |m| == 8
    ensures Slice(HeaderTail(order, m, dynHashAlg), 12, 20) == m
    ensures Slice(HeaderTail(order, m, dynHashAlg), 52, 56) == ToBytes(dynHashAlg, 4, order)
  {
    var d := ToBytes(dynHashAlg, 4, order);
    var t4 := d + Zeros(948);
    var t3 := Zeros(32) + t4;
    var t2 := m + t3;
    SliceRight(Zeros(12), t2, 12, 20);
    SliceLeft(m, t3, 0, 8);
    SliceRight(Zeros(12), t2, 52, 56);
    SliceRight(m, t3, 40, 44);
    SliceRight(Zeros(32), t4, 32, 36);
    SliceLeft(d, Zeros(948), 0, 4);
  }

  lemma HeaderFields(order: ByteOrder, arch: Arch, fileType: nat, modulus: nat, separation: nat, dynHashAlg: nat)
    ensures var h := EncodeHeader(order, arch, fileType, modulus, separation, dynHashAlg);
      && h[..4] == Magic(order, arch)
      && Slice(h, 4, 8) == ToBytes(fileType, 4, order)
      && Slice(h, 8, 16) == ModulusBytes(order, arch, modulus)
      && Slice(h, 16, 20) == ToBytes(separation, 4, order)
      && Slice(h, 0x20, 0x28) == ModulusBytes(order, arch, modulus)
      && Slice(h, 0x48, 0x4c) == ToBytes(dynHashAlg, 4, order)
  {
    var m := ModulusBytes(order, arch, modulus);
    var p := Magic(order, arch);
    var f := ToBytes(fileType, 4, order);
    var sp := ToBytes(separation, 4, order);
    var t := HeaderTail(order, m, dynHashAlg);
    var r3 := sp + t;
    var r2 := m + r3;
    var r1 := f + r2;
    var h := p + r1;
    assert h[..4] == p;
    SliceRight(p, r1, 4, 8);
    SliceLeft(f, r2, 0, 4);
    SliceRight(p, r1, 8, 16);
    SliceRight(f, r2, 4, 12);
    SliceLeft(m, r3, 0, 8);
    SliceRight(p, r1, 16, 20);
    SliceRight(f, r2, 12, 16);
    SliceRight(m, r3, 8, 12);
    SliceLeft(sp, t, 0, 4);
    TailFields(order, m, dynHashAlg);
    SliceRight(p, r1, 0x20, 0x28);
    SliceRight(f, r2, 28, 36);
    SliceRight(m, r3, 24, 32);
    SliceRight(sp, t, 16, 24);
    SliceRight(p, r1, 0x48, 0x4c);
    SliceRight(f, r2, 68, 72);
    SliceRight(m, r3, 64, 68);
    SliceRight(sp, t, 56, 60);
  }

  /** The modulus slot the decoder picks holds the modulus, in either layout. */
  lemma ModulusFieldOfEncoded(order: ByteOrder, arch: Arch, fileType: nat, modulus: nat, separation: nat, dynHashAlg: nat)
    requires modulus < (if arch == Arch32 then Pow256(4) else Pow256(8))
    ensures FromBytes(ModulusField(EncodeHeader(order, arch, fileType, modulus, separation, dynHashAlg), arch, fileType), order) == modulus
  {
    var h := EncodeHeader(order, arch, fileType, modulus, separation, dynHashAlg);
    var m := ModulusBytes(order, arch, modulus);
    HeaderFields(order, arch, fileType, modulus, separation, dynHashAlg);
    if arch == Arch32 {
      var q := ToBytes(modulus, 4, order);
      BytesRoundTrip(modulus, 4, order);
      assert m == Zeros(4) + q;
      assert m[4..8] == q;
      if fileType == DYNAMIC_FILE_TYPE {
        assert Slice(h, 0x24, 0x28) == Slice(h, 0x20, 0x28)[4..8];
      } else {
        assert Slice(h, 12, 16) == Slice(h, 8, 16)[4..8];
      }
    } else {
      BytesRoundTrip(modulus, 8, order);
      assert m == ToBytes(modulus, 8, order);
      assert ModulusField(h, arch, fileType) == m;
    }
  }

  /** Whatever follows the first block, decoding an encoded header gives back the
      geometry it describes. */
  lemma EncodeHeaderRoundTrip(order: ByteOrder, arch: Arch, fileType: nat, modulus: nat,
                              separation: nat, dynHashAlg: nat, body: seq<byte>)
    requires fileType < Pow256(4) && separation < Pow256(4) && dynHashAlg < Pow256(4)
    requires modulus < (if arch == Arch32 then Pow256(4) else Pow256(8))
    ensures ReadFileHeader(EncodeHeader(order, arch, fileType, modulus, separation, dynHashAlg) + body)
         == Success(FileInfo(order, arch, fileType, modulus, separation,
                             separation * 512, if separation % 2 == 0 then separation * 512 else 1024, Some(dynHashAlg)))
  {
    var h := EncodeHeader(order, arch, fileType, modulus, separation, dynHashAlg);
    assert HeaderBlock(h + body) == h by {
      assert (h + body)[0..BLOCK] == h;
    }
    HeaderFields(order, arch, fileType, modulus, separation, dynHashAlg);
    assert Slice(h, 2, 4) == h[..4][2..4];
    assert OrderOf(h) == order;
    BytesRoundTrip(fileType, 4, order);
    BytesRoundTrip(separation, 4, order);
    BytesRoundTrip(dynHashAlg, 4, order);
    ModulusFieldOfEncoded(order, arch, fileType, modulus, separation, dynHashAlg);
    assert h[0] == h[..4][0] && h[1] == h[..4][1] && h[2] == h[..4][2] && h[3] == h[..4][3];
  }
}
