/** The geometry of a hashed or B-tree storage file, as its header describes it. */
module UvFileInfo {
  import opened Wrappers
  import opened Bytes

  /** The word width the file was written with: a header arch byte of 1 means 32-bit. */
  datatype Arch = Arch32 | Arch64

  datatype FileInfo = FileInfo(
    byteorder: ByteOrder,
    arch: Arch,
    fileType: nat,
    modulus: nat,
    separation: nat,
    groupLength: nat,      // separation * 512
    headerLength: nat,     // groupLength when separation is even, else 1024
    dynHashAlg: Option<nat>)
}
