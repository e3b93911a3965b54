/** One group of a hashed file: a chain of items linked by forward pointers,
    starting at the group's buffer in the primary file and possibly continuing
    in the overflow file. Each item holds one record, its key separated from
    its value by 0xFF; oversized records continue in further items. */
module Groups {
  import opened Wrappers
  import opened Bytes
  import opened UvFileInfo
  import opened Records

  const KEY_MARK: byte := 0xFF

  /** A group of a file: its index, the file's geometry, the primary file's bytes
      and, for a dynamic file, the overflow file's bytes. */
  datatype Group = Group(groupIndex: nat, info: FileInfo, fd: seq<byte>, over30: Option<seq<byte>>)

  /** What reading one item gives the walk: where the next item is, whether it is
      in the overflow file, and the item's record bytes (none for a free item). */
  datatype ReadItemResult = ReadItemResult(
    nextItemOffset: Option<nat>,
    nextItemInOver30: bool,
    recordBuffer: Option<seq<byte>>)

  datatype ItemFlags = ItemFlags(
    free: bool,
    padded: bool,
    newStylePadding: bool,
    forwardToOver30: bool,
    oversized: bool,
    oversizedBuffer: bool)

  datatype ItemHeader = ItemHeader(
    bytes: seq<byte>,
    forwardPointer: nat,
    blink: nat,
    flags: ItemFlags,
    size: nat)

  // ---------------------------------------------------------------- item headers

  /** The file an item is read from: the overflow file only when the walk is in it
      and the group has one. */
  function ItemFile(g: Group, inOver30: bool): (f: seq<byte>)
    ensures f == g.fd || (inOver30 && g.over30.Some? && f == g.over30.value)
    ensures !inOver30 ==> f == g.fd
    ensures inOver30 && g.over30.Some? ==> f == g.over30.value
  {
    if g.over30.Some? && inOver30 then g.over30.value else g.fd
  }

  /** Three words: 12 bytes on a 32-bit file, 24 on a 64-bit one. */
  function HeaderSize(arch: Arch): (n: nat)
    ensures n == 12 || n == 24
  {
    match arch
    case Arch32 => 12
    case Arch64 => 24
  }

  /** The one-bit masks of the six flags, in the order free, padded, new-style
      padding, forwarded to the overflow file, oversized, oversize buffer. */
  function FlagMasks(order: ByteOrder): (m: seq<nat>)
    ensures |m| == 6
  {
    match order
    case Little => [0x0002, 0x0020, 0x0010, 0x2000, 0x0080, 0x0040]   // bits 1, 5, 4, 13, 7, 6
    case Big => [0x4000, 0x0400, 0x0800, 0x0004, 0x0100, 0x0200]      // bits 14, 10, 11, 2, 8, 9
  }

  function DecodeFlags(order: ByteOrder, x: nat): ItemFlags
  {
    var m := FlagMasks(order);
    ItemFlags(HasBit(x, m[0]), HasBit(x, m[1]), HasBit(x, m[2]), HasBit(x, m[3]), HasBit(x, m[4]), HasBit(x, m[5]))
  }

  /** `mask` when the flag is set, 0 otherwise. */
  function Bit(b: bool, mask: nat): nat { mask * (if b then 1 else 0) }

  /** The flag word with exactly the given flags set: the inverse of DecodeFlags. */
  function EncodeFlags(order: ByteOrder, f: ItemFlags): (x: nat)
    ensures x < 0x10000
  {
    var m := FlagMasks(order);
    Bit(f.free, m[0]) + Bit(f.padded, m[1]) + Bit(f.newStylePadding, m[2])
      + Bit(f.forwardToOver30, m[3]) + Bit(f.oversized, m[4]) + Bit(f.oversizedBuffer, m[5])
  }

  /** The six masks are distinct bits, so each flag is read back from the word
      that sets exactly the given flags. */
  lemma FlagsRoundTrip(order: ByteOrder, f: ItemFlags)
    ensures DecodeFlags(order, EncodeFlags(order, f)) == f
  {
    match order
    case Little => LittleFlagsRoundTrip(f);
    case Big => BigFlagsRoundTrip(f);
  }

  lemma LittleFlagsRoundTrip(f: ItemFlags)
    ensures DecodeFlags(Little, EncodeFlags(Little, f)) == f
  {
    LittleFlagsLow(f);
    LittleFlagsHigh(f);
  }

  lemma LittleFlagsLow(f: ItemFlags)
    ensures HasBit(EncodeFlags(Little, f), 0x2) == f.free
    ensures HasBit(EncodeFlags(Little, f), 0x20) == f.padded
    ensures HasBit(EncodeFlags(Little, f), 0x10) == f.newStylePadding
  {
    var e := EncodeFlags(Little, f);
    assert e == Bit(f.free, 0x0002) + Bit(f.padded, 0x0020) + Bit(f.newStylePadding, 0x0010)
      + Bit(f.forwardToOver30, 0x2000) + Bit(f.oversized, 0x0080) + Bit(f.oversizedBuffer, 0x0040);
    assert HasBit(e, 0x2) == f.free by {
      HasBitAt(e, 0x2, f.free,
        0,
        Bit(f.padded, 0x8) + Bit(f.newStylePadding, 0x4) + Bit(f.forwardToOver30, 0x800) + Bit(f.oversized, 0x20) + Bit(f.oversizedBuffer, 0x10));
    }
    assert HasBit(e, 0x20) == f.padded by {
      HasBitAt(e, 0x20, f.padded,
        Bit(f.free, 0x2) + Bit(f.newStylePadding, 0x10),
        Bit(f.forwardToOver30, 0x80) + Bit(f.oversized, 0x2) + Bit(f.oversizedBuffer, 0x1));
    }
    assert HasBit(e, 0x10) == f.newStylePadding by {
      HasBitAt(e, 0x10, f.newStylePadding,
        Bit(f.free, 0x2),
        Bit(f.padded, 0x1) + Bit(f.forwardToOver30, 0x100) + Bit(f.oversized, 0x4) + Bit(f.oversizedBuffer, 0x2));
    }
  }

  lemma LittleFlagsHigh(f: ItemFlags)
    ensures HasBit(EncodeFlags(Little, f), 0x2000) == f.forwardToOver30
    ensures HasBit(EncodeFlags(Little, f), 0x80) == f.oversized
    ensures HasBit(EncodeFlags(Little, f), 0x40) == f.oversizedBuffer
  {
    var e := EncodeFlags(Little, f);
    assert e == Bit(f.free, 0x0002) + Bit(f.padded, 0x0020) + Bit(f.newStylePadding, 0x0010)
      + Bit(f.forwardToOver30, 0x2000) + Bit(f.oversized, 0x0080) + Bit(f.oversizedBuffer, 0x0040);
    assert HasBit(e, 0x2000) == f.forwardToOver30 by {
      HasBitAt(e, 0x2000, f.forwardToOver30,
        Bit(f.free, 0x2) + Bit(f.padded, 0x20) + Bit(f.newStylePadding, 0x10) + Bit(f.oversized, 0x80) + Bit(f.oversizedBuffer, 0x40),
        0);
    }
    assert HasBit(e, 0x80) == f.oversized by {
      HasBitAt(e, 0x80, f.oversized,
        Bit(f.free, 0x2) + Bit(f.padded, 0x20) + Bit(f.newStylePadding, 0x10) + Bit(f.oversizedBuffer, 0x40),
        Bit(f.forwardToOver30, 0x20));
    }
    assert HasBit(e, 0x40) == f.oversizedBuffer by {
      HasBitAt(e, 0x40, f.oversizedBuffer,
        Bit(f.free, 0x2) + Bit(f.padded, 0x20) + Bit(f.newStylePadding, 0x10),
        Bit(f.forwardToOver30, 0x40) + Bit(f.oversized, 0x1));
    }
  }


  lemma BigFlagsRoundTrip(f: ItemFlags)
    ensures DecodeFlags(Big, EncodeFlags(Big, f)) == f
  {
    BigFlagsLow(f);
    BigFlagsHigh(f);
  }

  lemma BigFlagsLow(f: ItemFlags)
    ensures HasBit(EncodeFlags(Big, f), 0x4000) == f.free
    ensures HasBit(EncodeFlags(Big, f), 0x400) == f.padded
    ensures HasBit(EncodeFlags(Big, f), 0x800) == f.newStylePadding
  {
    var e := EncodeFlags(Big, f);
    assert e == Bit(f.free, 0x4000) + Bit(f.padded, 0x0400) + Bit(f.newStylePadding, 0x0800)
      + Bit(f.forwardToOver30, 0x0004) + Bit(f.oversized, 0x0100) + Bit(f.oversizedBuffer, 0x0200);
    assert HasBit(e, 0x4000) == f.free by {
      HasBitAt(e, 0x4000, f.free,
        Bit(f.padded, 0x400) + Bit(f.newStylePadding, 0x800) + Bit(f.forwardToOver30, 0x4) + Bit(f.oversized, 0x100) + Bit(f.oversizedBuffer, 0x200),
        0);
    }
    assert HasBit(e, 0x400) == f.padded by {
      HasBitAt(e, 0x400, f.padded,
        Bit(f.forwardToOver30, 0x4) + Bit(f.oversized, 0x100) + Bit(f.oversizedBuffer, 0x200),
        Bit(f.free, 0x8) + Bit(f.newStylePadding, 0x1));
    }
    assert HasBit(e, 0x800) == f.newStylePadding by {
      HasBitAt(e, 0x800, f.newStylePadding,
        Bit(f.padded, 0x400) + Bit(f.forwardToOver30, 0x4) + Bit(f.oversized, 0x100) + Bit(f.oversizedBuffer, 0x200),
        Bit(f.free, 0x4));
    }
  }

  lemma BigFlagsHigh(f: ItemFlags)
    ensures HasBit(EncodeFlags(Big, f), 0x4) == f.forwardToOver30
    ensures HasBit(EncodeFlags(Big, f), 0x100) == f.oversized
    ensures HasBit(EncodeFlags(Big, f), 0x200) == f.oversizedBuffer
  {
    var e := EncodeFlags(Big, f);
    assert e == Bit(f.free, 0x4000) + Bit(f.padded, 0x0400) + Bit(f.newStylePadding, 0x0800)
      + Bit(f.forwardToOver30, 0x0004) + Bit(f.oversized, 0x0100) + Bit(f.oversizedBuffer, 0x0200);
    assert HasBit(e, 0x4) == f.forwardToOver30 by {
      HasBitAt(e, 0x4, f.forwardToOver30,
        0,
        Bit(f.free, 0x800) + Bit(f.padded, 0x80) + Bit(f.newStylePadding, 0x100) + Bit(f.oversized, 0x20) + Bit(f.oversizedBuffer, 0x40));
    }
    assert HasBit(e, 0x100) == f.oversized by {
      HasBitAt(e, 0x100, f.oversized,
        Bit(f.forwardToOver30, 0x4),
        Bit(f.free, 0x20) + Bit(f.padded, 0x2) + Bit(f.newStylePadding, 0x4) + Bit(f.oversizedBuffer, 0x1));
    }
    assert HasBit(e, 0x200) == f.oversizedBuffer by {
      HasBitAt(e, 0x200, f.oversizedBuffer,
        Bit(f.forwardToOver30, 0x4) + Bit(f.oversized, 0x100),
        Bit(f.free, 0x10) + Bit(f.padded, 0x1) + Bit(f.newStylePadding, 0x2));
    }
  }


  /** Bit `m` of a word made of bits below `m`, bit `m` itself, and bits above it. */
  lemma HasBitAt(x: nat, m: nat, b: bool, lo: nat, k: nat)
    requires m > 0 && lo < m && x == 2 * m * k + Bit(b, m) + lo
    ensures HasBit(x, m) == b
  {
    var q := 2 * k + (if b then 1 else 0);
    assert x == m * q + lo;
    DivExact(x, m, q, lo);
  }

  lemma DivExact(x: nat, m: nat, q: nat, r: nat)
    requires m > 0 && r < m && x == m * q + r
    ensures x / m == q
  {
    var d, rr := x / m, x % m;
    assert x == m * d + rr && 0 <= rr < m;
    if d < q {
      var t := q - d;
      assert m * q == m * d + m * t;
      MulAtLeast(m, t);
    } else if d > q {
      var t := d - q;
      assert m * d == m * q + m * t;
      MulAtLeast(m, t);
    }
  }

  lemma MulAtLeast(m: nat, t: nat)
    requires t >= 1
    ensures m * t >= m
  {
    assert m * t == m + m * (t - 1);
  }

  /** `read_item_header`: the header is read from the file the walk is in. */
  function ReadItemHeader(g: Group, offset: nat, inOver30: bool): (h: ItemHeader)
    ensures h.size == HeaderSize(g.info.arch)
    ensures h.bytes == Read(ItemFile(g, inOver30), offset, h.size)
    ensures h.bytes == [] <==> offset >= |ItemFile(g, inOver30)|
    ensures var w := if g.info.arch == Arch32 then 4 else 8;
      var order := g.info.byteorder;
      && h.forwardPointer == FromBytes(Slice(h.bytes, 0, w), order)
      && h.blink == FromBytes(Slice(h.bytes, w, 2 * w), order)
      && h.flags == DecodeFlags(order, FromBytes(Slice(h.bytes, 2 * w + 2, 2 * w + 4), order))
  {
    HeaderAt(g.info, ItemFile(g, inOver30), offset)
  }

  /** The item header at `offset` of `f`: the forward pointer and the back link
      are the first two words, and the flags are the two bytes ending the third. */
  function HeaderAt(info: FileInfo, f: seq<byte>, offset: nat): (h: ItemHeader)
    ensures h.size == HeaderSize(info.arch)
    ensures h.bytes == Read(f, offset, h.size)
    ensures var w := if info.arch == Arch32 then 4 else 8;
      && h.forwardPointer == FromBytes(Slice(h.bytes, 0, w), info.byteorder)
      && h.blink == FromBytes(Slice(h.bytes, w, 2 * w), info.byteorder)
      && h.flags == DecodeFlags(info.byteorder, FromBytes(Slice(h.bytes, 2 * w + 2, 2 * w + 4), info.byteorder))
  {
    var order := info.byteorder;
    var size := HeaderSize(info.arch);
    var bytes := Read(f, offset, size);
    var w := if info.arch == Arch32 then 4 else 8;
    var flagWord := Slice(bytes, 2 * w + 2, 2 * w + 4);
    ItemHeader(bytes, FromBytes(Slice(bytes, 0, w), order), FromBytes(Slice(bytes, w, 2 * w), order),
               DecodeFlags(order, FromBytes(flagWord, order)), size)
  }

  // ---------------------------------------------------------------- item lengths

  /** Where the group buffer holding `offset` starts: `offset` less its distance
      past the last group boundary (see BufferStartIsFloor for the source's form). */
  function BufferStart(info: FileInfo, offset: nat): (s: int)
    requires info.groupLength > 0
    ensures s <= offset < s + info.groupLength
  {
    offset - (offset - info.headerLength) % info.groupLength
  }

  /** BufferStart is the source's `header_length + ((offset - header_length) //
      group_length) * group_length`. */
  lemma BufferStartIsFloor(info: FileInfo, offset: nat)
    requires info.groupLength > 0
    ensures BufferStart(info, offset)
         == info.headerLength + FloorDiv(offset - info.headerLength, info.groupLength) * info.groupLength
  {
  }

  /** How many record bytes follow the item header: up to the next item when the
      forward pointer lies inside the current group buffer, else up to the end
      of that buffer. */
  function ItemLength(info: FileInfo, offset: nat, forwardPointer: nat, size: nat): (n: int)
    requires info.groupLength > 0
    ensures offset + size + n <= BufferStart(info, offset) + info.groupLength
    ensures 0 < forwardPointer && BufferStart(info, offset) < forwardPointer < BufferStart(info, offset) + info.groupLength
            ==> offset + size + n == forwardPointer
    ensures (forwardPointer == 0 || forwardPointer <= BufferStart(info, offset)
             || forwardPointer >= BufferStart(info, offset) + info.groupLength)
            ==> offset + size + n == BufferStart(info, offset) + info.groupLength
  {
    var current := BufferStart(info, offset);
    var next := current + info.groupLength;
    if forwardPointer != 0 && !(forwardPointer <= current || forwardPointer >= next) then
      forwardPointer - offset - size
    else
      next - offset - size
  }

  // ---------------------------------------------------------------- padding

  /** Dropping the padding of a padded item: the last byte counts the padding
      bytes, and a last byte of 0 means the last 8 bytes hold the count. */
  function TrimPadding(buf: seq<byte>, order: ByteOrder): (r: Result<seq<byte>>)
    ensures r.Success? <==> |buf| > 0
    ensures r.Success? ==> r.value <= buf
    ensures |buf| > 0 && 0 < buf[|buf| - 1] <= |buf| ==> r == Success(buf[..|buf| - buf[|buf| - 1]])
    ensures |buf| > 0 && buf[|buf| - 1] == 0 && FromBytes(Slice(buf, -8, |buf|), order) <= |buf| ==>
      r == Success(buf[..|buf| - FromBytes(Slice(buf, -8, |buf|), order)])
    ensures |buf| > 0 && buf[|buf| - 1] > |buf| ==>
      r == Success(buf[..if 2 * |buf| < buf[|buf| - 1] then 0 else 2 * |buf| - buf[|buf| - 1]])
    ensures |buf| > 0 && buf[|buf| - 1] == 0 && FromBytes(Slice(buf, -8, |buf|), order) > |buf| ==>
      var p := FromBytes(Slice(buf, -8, |buf|), order);
      r == Success(buf[..if 2 * |buf| < p then 0 else 2 * |buf| - p])
  {
    var last :- At(buf, -1);
    var padding := if last == 0 then FromBytes(Slice(buf, -8, |buf|), order) else last;
    Success(Slice(buf, 0, |buf| - padding))
  }

  // ---------------------------------------------------------------- reading items

  /** The record bytes an item contributes to an oversized record. */
  function Payload(item: ReadItemResult): seq<byte>
  {
    if item.recordBuffer.Some? then item.recordBuffer.value else []
  }

  /** `read_item`: Success(None) when there is no item at `offset` (nothing left
      to read there, or a free item that ends the chain). `fuel` bounds how deeply
      oversized items may continue into further oversized items. */
  function ItemAt(g: Group, offset: nat, inOver30: bool, fuel: nat): (r: Result<Option<ReadItemResult>>)
    decreases fuel, 4
  {
    ItemIn(g, ItemFile(g, inOver30), offset, inOver30, fuel)
  }

  /** The item at `offset` of `f`, the file `read_item` reads from. */
  function ItemIn(g: Group, f: seq<byte>, offset: nat, inOver30: bool, fuel: nat): (r: Result<Option<ReadItemResult>>)
    decreases fuel, 3
  {
    var h := HeaderAt(g.info, f, offset);
    if |h.bytes| == 0 then Success(None)
    else
      var next := if h.forwardPointer == 0 then None else Some(h.forwardPointer);
      var nextInOver30 := h.flags.forwardToOver30 || inOver30;
      if h.flags.free then
        if h.forwardPointer == 0 then Success(None) else Success(Some(ReadItemResult(next, nextInOver30, None)))
      else if g.info.groupLength == 0 then Failure(DivisionByZero)
      else
        var buf :- ItemBuffer(g, f, offset, h, fuel);
        Success(Some(ReadItemResult(next, nextInOver30, Some(buf))))
  }

  /** The record bytes of a non-free item: those up to the item's end, then
      the continuations of an oversized item, then the padding dropped. */
  function ItemBuffer(g: Group, f: seq<byte>, offset: nat, h: ItemHeader, fuel: nat): (r: Result<seq<byte>>)
    requires g.info.groupLength > 0
    decreases fuel, 2
  {
    var buf := ItemBytes(g.info, f, offset, h);
    var whole :- if h.flags.oversized then Oversized(g, buf, fuel) else Success(buf);
    if h.flags.padded then TrimPadding(whole, g.info.byteorder) else Success(whole)
  }

  /** The bytes between the item's header and its end; none when the length
      is not positive. */
  function ItemBytes(info: FileInfo, f: seq<byte>, offset: nat, h: ItemHeader): (buf: seq<byte>)
    requires info.groupLength > 0
  {
    var n := ItemLength(info, offset, h.forwardPointer, h.size);
    if n > 0 then Read(f, offset + |h.bytes|, n) else []
  }

  /** The length of the start of an oversized item: the offset of its first
      continuation (a 4-byte word on 32-bit files, an 8-byte one on 64-bit
      files), then the number of continuation items there are at most (a
      4-byte word on both). */
  function OversizePrefix(arch: Arch): (n: nat)
  {
    match arch
    case Arch32 => 8
    case Arch64 => 12
  }

  function Oversized(g: Group, buf: seq<byte>, fuel: nat): (r: Result<seq<byte>>)
    decreases fuel, 1
  {
    var order := g.info.byteorder;
    var w := if g.info.arch == Arch32 then 4 else 8;
    var p := OversizePrefix(g.info.arch);
    var osOffset := FromBytes(Slice(buf, 0, w), order);
    var osCount := FromBytes(Slice(buf, w, p), order);
    ContinueFrom(g, Slice(buf, p, |buf|), osOffset, osCount, fuel)
  }

  /** The continuation loop: appends the payload of each continuation item, read
      in the overflow file, for at most `remaining` items, stopping early at an
      item with no next offset. */
  function ContinueFrom(g: Group, buf: seq<byte>, osOffset: nat, remaining: nat, fuel: nat): (r: Result<seq<byte>>)
    decreases fuel, 0, remaining
  {
    if remaining == 0 then Success(buf)
    else if fuel == 0 then Failure(OutOfFuel)
    else
      var item :- Continuation(g, osOffset, fuel - 1);
      if item.None? then Failure(MissingOversizeItem)
      else
        var buf' := buf + Payload(item.value);
        if item.value.nextItemOffset.None? then Success(buf')
        else ContinueFrom(g, buf', item.value.nextItemOffset.value, remaining - 1, fuel)
  }

  /** The item a continuation offset leads to, always read in the overflow file. */
  function Continuation(g: Group, osOffset: nat, fuel: nat): (r: Result<Option<ReadItemResult>>)
    decreases fuel, 5
  {
    ItemAt(g, osOffset, true, fuel)
  }

  /** One turn of the continuation loop that goes on to a further item. */
  lemma ContinueStep(g: Group, buf: seq<byte>, osOffset: nat, remaining: nat, fuel: nat, it: ReadItemResult)
    requires remaining > 0 && fuel > 0
    requires ItemAt(g, osOffset, true, fuel - 1) == Success(Some(it)) && it.nextItemOffset.Some?
    ensures ContinueFrom(g, buf, osOffset, remaining, fuel)
         == ContinueFrom(g, buf + Payload(it), it.nextItemOffset.value, remaining - 1, fuel)
  {
  }

  /** What was gathered before the continuation loop is kept at the front. */
  lemma {:induction false} ContinueKeepsPrefix(g: Group, buf: seq<byte>, osOffset: nat, remaining: nat, fuel: nat)
    requires ContinueFrom(g, buf, osOffset, remaining, fuel).Success?
    ensures buf <= ContinueFrom(g, buf, osOffset, remaining, fuel).value
    decreases remaining
  {
    if remaining > 0 && fuel > 0 {
      var item := ItemAt(g, osOffset, true, fuel - 1).value.value;
      var buf' := buf + Payload(item);
      if item.nextItemOffset.Some? {
        ContinueKeepsPrefix(g, buf', item.nextItemOffset.value, remaining - 1, fuel);
      }
    }
  }

  /** A continuation that is not there is an error. */
  lemma MissingContinuation(g: Group, buf: seq<byte>, osOffset: nat, remaining: nat, fuel: nat)
    requires remaining > 0 && fuel > 0
    requires osOffset >= |ItemFile(g, true)|
    ensures ContinueFrom(g, buf, osOffset, remaining, fuel) == Failure(MissingOversizeItem)
  {
    assert ItemAt(g, osOffset, true, fuel - 1) == Success(None);
  }

  /** The continuation loop with no items left to read keeps what it has. */
  lemma ContinueNone(g: Group, buf: seq<byte>, osOffset: nat, fuel: nat)
    ensures ContinueFrom(g, buf, osOffset, 0, fuel) == Success(buf)
  {
  }

  /** The turn of the continuation loop at an item with no next offset appends
      its payload and stops, however many items it might still read. */
  lemma ContinueLast(g: Group, buf: seq<byte>, osOffset: nat, remaining: nat, fuel: nat, it: ReadItemResult)
    requires remaining > 0 && fuel > 0
    requires ItemAt(g, osOffset, true, fuel - 1) == Success(Some(it)) && it.nextItemOffset.None?
    ensures ContinueFrom(g, buf, osOffset, remaining, fuel) == Success(buf + Payload(it))
  {
  }

  /** A failure reading a continuation item is the failure of the loop. */
  lemma ContinueFails(g: Group, buf: seq<byte>, osOffset: nat, remaining: nat, fuel: nat, e: ReadError)
    requires remaining > 0 && fuel > 0
    requires ItemAt(g, osOffset, true, fuel - 1) == Failure(e)
    ensures ContinueFrom(g, buf, osOffset, remaining, fuel) == Failure(e)
  {
  }

  /** The record bytes a sequence of continuation items contributes. */
  function Payloads(items: seq<ReadItemResult>): (r: seq<byte>)
    ensures items == [] ==> r == []
  {
    if items == [] then [] else Payload(items[0]) + Payloads(items[1..])
  }

  /** `items` are the continuation items read from `osOffset` on, each at the
      next offset of the one before. */
  predicate Linked(g: Group, osOffset: nat, items: seq<ReadItemResult>, fuel: nat)
    decreases |items|
  {
    items == [] ||
      (ItemAt(g, osOffset, true, fuel) == Success(Some(items[0]))
       && (|items| > 1 ==> items[0].nextItemOffset.Some?
                           && Linked(g, items[0].nextItemOffset.value, items[1..], fuel)))
  }

  /** A continuation loop that succeeds has read at most `remaining` linked
      items, appended their payloads in order, and stopped short of `remaining`
      only at an item with no next offset. */
  lemma {:induction false} ContinueChain(g: Group, buf: seq<byte>, osOffset: nat, remaining: nat, fuel: nat)
    returns (items: seq<ReadItemResult>)
    requires ContinueFrom(g, buf, osOffset, remaining, fuel).Success?
    ensures |items| <= remaining
    ensures items != [] ==> fuel > 0 && Linked(g, osOffset, items, fuel - 1)
    ensures ContinueFrom(g, buf, osOffset, remaining, fuel).value == buf + Payloads(items)
    ensures |items| < remaining ==> items != [] && items[|items| - 1].nextItemOffset.None?
    decreases remaining
  {
    if remaining == 0 {
      return [];
    }
    var it := ItemAt(g, osOffset, true, fuel - 1).value.value;
    if it.nextItemOffset.None? {
      items := [it];
      assert Payloads(items) == Payload(it) + Payloads([]);
      return;
    }
    var rest := ContinueChain(g, buf + Payload(it), it.nextItemOffset.value, remaining - 1, fuel);
    items := [it] + rest;
    assert items[1..] == rest;
    assert Payloads(items) == Payload(it) + Payloads(rest);
  }

  /** The start of an oversized item gives the offset of its first continuation
      (a 4-byte word on 32-bit files, an 8-byte one on 64-bit files) and then, in
      a 4-byte word, the number of continuations to read at most; the bytes after
      them start the record. */
  lemma OversizedLayout(g: Group, buf: seq<byte>, fuel: nat)
    ensures var order := g.info.byteorder;
      var w := if g.info.arch == Arch32 then 4 else 8;
      Oversized(g, buf, fuel) ==
        ContinueFrom(g, Slice(buf, w + 4, |buf|), FromBytes(Slice(buf, 0, w), order),
                     FromBytes(Slice(buf, w, w + 4), order), fuel)
  {
  }

  /** The record bytes of an item that is not oversized: those up to the item's
      end, with the padding dropped when the item is padded. */
  lemma ItemBufferNotOversized(g: Group, f: seq<byte>, offset: nat, h: ItemHeader, fuel: nat)
    requires g.info.groupLength > 0 && !h.flags.oversized
    ensures var n := ItemLength(g.info, offset, h.forwardPointer, h.size);
      var buf := if n > 0 then Read(f, offset + |h.bytes|, n) else [];
      ItemBuffer(g, f, offset, h, fuel) ==
        if h.flags.padded then TrimPadding(buf, g.info.byteorder) else Success(buf)
  {
  }

  /** The record bytes of an oversized item: its continuations gathered first,
      then the padding dropped from the whole when the item is padded. */
  lemma ItemBufferOversized(g: Group, f: seq<byte>, offset: nat, h: ItemHeader, fuel: nat)
    requires g.info.groupLength > 0 && h.flags.oversized
    ensures var n := ItemLength(g.info, offset, h.forwardPointer, h.size);
      var buf := if n > 0 then Read(f, offset + |h.bytes|, n) else [];
      ItemBuffer(g, f, offset, h, fuel) ==
        match Oversized(g, buf, fuel)
        case Failure(e) => Failure(e)
        case Success(whole) => if h.flags.padded then TrimPadding(whole, g.info.byteorder) else Success(whole)
  {
  }

  // ---------------------------------------------------------------- properties of items

  /** There is no item exactly where there is nothing left to read, or where a
      free item ends the chain. */
  lemma NoItem(g: Group, offset: nat, inOver30: bool, fuel: nat)
    ensures ItemAt(g, offset, inOver30, fuel) == Success(None) <==>
      offset >= |ItemFile(g, inOver30)|
      || (ReadItemHeader(g, offset, inOver30).flags.free && ReadItemHeader(g, offset, inOver30).forwardPointer == 0)
  {
  }

  /** A free item contributes no record bytes and passes the walk on to its
      forward pointer. */
  lemma FreeItem(g: Group, offset: nat, inOver30: bool, fuel: nat)
    requires offset < |ItemFile(g, inOver30)|
    requires ReadItemHeader(g, offset, inOver30).flags.free
    requires ReadItemHeader(g, offset, inOver30).forwardPointer != 0
    ensures ItemAt(g, offset, inOver30, fuel) ==
      var h := ReadItemHeader(g, offset, inOver30);
      Success(Some(ReadItemResult(Some(h.forwardPointer), h.flags.forwardToOver30 || inOver30, None)))
  {
  }

  /** Every item read tells the walk where to go next: its forward pointer, in
      the overflow file once the walk is there or the item forwards there. A
      non-free item always carries record bytes. */
  lemma ItemLinks(g: Group, offset: nat, inOver30: bool, fuel: nat)
    requires ItemAt(g, offset, inOver30, fuel).Success? && ItemAt(g, offset, inOver30, fuel).value.Some?
    ensures var it := ItemAt(g, offset, inOver30, fuel).value.value;
      var h := ReadItemHeader(g, offset, inOver30);
      && offset < |ItemFile(g, inOver30)|
      && it.nextItemInOver30 == (h.flags.forwardToOver30 || inOver30)
      && (inOver30 ==> it.nextItemInOver30)
      && (it.nextItemOffset.None? <==> h.forwardPointer == 0)
      && (it.nextItemOffset.Some? ==> it.nextItemOffset.value == h.forwardPointer)
      && (it.recordBuffer.None? <==> h.flags.free)
  {
  }

  /** Reading an item that is not free fails when the group length is 0: the
      source divides by it to find the item's buffer. */
  lemma ZeroGroupLength(g: Group, offset: nat, inOver30: bool, fuel: nat)
    requires g.info.groupLength == 0
    requires offset < |ItemFile(g, inOver30)| && !ReadItemHeader(g, offset, inOver30).flags.free
    ensures ItemAt(g, offset, inOver30, fuel) == Failure(DivisionByZero)
  {
  }

  // ---------------------------------------------------------------- the method

  /** `read_item`, reading the header, then the record bytes. */
  method ReadItem(g: Group, offset: nat, inOver30: bool, fuel: nat) returns (r: Result<Option<ReadItemResult>>)
    ensures r == ItemAt(g, offset, inOver30, fuel)
    decreases fuel, 4
  {
    var f := ItemFile(g, inOver30);
    var h := HeaderAt(g.info, f, offset);
    if |h.bytes| == 0 {
      return Success(None);
    }
    var next := if h.forwardPointer == 0 then None else Some(h.forwardPointer);
    var nextInOver30 := h.flags.forwardToOver30 || inOver30;
    if h.flags.free {
      if h.forwardPointer == 0 {
        return Success(None);
      }
      return Success(Some(ReadItemResult(next, nextInOver30, None)));
    }
    if g.info.groupLength == 0 {
      return Failure(DivisionByZero);
    }
    var buf := ReadItemBuffer(g, f, offset, h, fuel);
    if buf.Failure? {
      return Failure(buf.error);
    }
    return Success(Some(ReadItemResult(next, nextInOver30, Some(buf.value))));
  }

  /** The record bytes of `read_item`: the oversize continuations appended, the
      padding dropped. */
  method ReadItemBuffer(g: Group, f: seq<byte>, offset: nat, h: ItemHeader, fuel: nat) returns (r: Result<seq<byte>>)
    requires g.info.groupLength > 0
    ensures r == ItemBuffer(g, f, offset, h, fuel)
    decreases fuel, 2
  {
    var buf := ItemBytes(g.info, f, offset, h);
    if h.flags.oversized {
      var order := g.info.byteorder;
      var w := if g.info.arch == Arch32 then 4 else 8;
      var p := OversizePrefix(g.info.arch);
      var osOffset := FromBytes(Slice(buf, 0, w), order);
      var osCount := FromBytes(Slice(buf, w, p), order);
      var whole := ReadContinuations(g, Slice(buf, p, |buf|), osOffset, osCount, fuel);
      if whole.Failure? {
        return Failure(whole.error);
      }
      buf := whole.value;
    }
    if h.flags.padded {
      r := TrimPadding(buf, g.info.byteorder);
    } else {
      r := Success(buf);
    }
  }

  /** The `for i in range(os_count)` loop of `read_item`. */
  method ReadContinuations(g: Group, buf0: seq<byte>, osOffset0: nat, count: nat, fuel: nat)
    returns (r: Result<seq<byte>>)
    ensures r == ContinueFrom(g, buf0, osOffset0, count, fuel)
    decreases fuel, 1
  {
    var buf, osOffset, i := buf0, osOffset0, 0;
    while i < count
      invariant 0 <= i <= count
      invariant ContinueFrom(g, buf, osOffset, count - i, fuel) == ContinueFrom(g, buf0, osOffset0, count, fuel)
    {
      var stop, res, buf', next := ReadContinuation(g, buf, osOffset, count - i, fuel);
      if stop {
        return res;
      }
      buf, osOffset, i := buf', next, i + 1;
    }
    return Success(buf);
  }

  /** One turn of the continuation loop: reads the item at `osOffset` in the
      overflow file and appends its bytes; `stop` when the loop ends there. */
  method ReadContinuation(g: Group, buf: seq<byte>, osOffset: nat, remaining: nat, fuel: nat)
    returns (stop: bool, r: Result<seq<byte>>, buf': seq<byte>, next: nat)
    requires remaining > 0
    ensures stop ==> r == ContinueFrom(g, buf, osOffset, remaining, fuel)
    ensures !stop ==> ContinueFrom(g, buf, osOffset, remaining, fuel) == ContinueFrom(g, buf', next, remaining - 1, fuel)
    decreases fuel, 0
  {
    buf', next := buf, osOffset;
    if fuel == 0 {
      return true, Failure(OutOfFuel), buf', next;
    }
    var item := ReadItem(g, osOffset, true, fuel - 1);
    if item.Failure? {
      return true, Failure(item.error), buf', next;
    }
    if item.value.None? {
      return true, Failure(MissingOversizeItem), buf', next;
    }
    var it := item.value.value;
    if it.recordBuffer.Some? && |it.recordBuffer.value| > 0 {
      buf' := buf + it.recordBuffer.value;
    } else {
      assert buf + Payload(it) == buf;
    }
    assert buf' == buf + Payload(it);
    if it.nextItemOffset.None? {
      return true, Success(buf'), buf', next;
    }
    ContinueStep(g, buf, osOffset, remaining, fuel, it);
    next := it.nextItemOffset.value;
    stop, r := false, Success(buf');
  }

  // ---------------------------------------------------------------- the walk

  /** A record buffer split at its first 0xFF into key and value; a buffer with
      no 0xFF is an error. */
  function SplitKey(buf: seq<byte>): (r: Result<Record>)
    ensures r.Success? <==> KEY_MARK in buf
    ensures r.Success? ==> r.value.key + [KEY_MARK] + r.value.raw == buf && KEY_MARK !in r.value.key
    ensures r.Success? ==> r.value == MakeRecord(r.value.key, r.value.raw)
  {
    var i := Find(buf, KEY_MARK);
    if i < 0 then Failure(MissingKeyMark)
    else
      assert buf == buf[..i] + [KEY_MARK] + buf[i + 1..];
      Success(MakeRecord(buf[..i], buf[i + 1..]))
  }

  /** Where the walk of a group starts: the group's buffer in the primary file. */
  function GroupStart(g: Group): (o: nat)
    ensures o == g.info.headerLength + g.info.groupLength * g.groupIndex
  {
    g.info.headerLength + g.info.groupLength * g.groupIndex
  }

  /** The records of the chain from `state` on, at most `steps` items more (the
      source keeps following pointers for as long as they lead somewhere). */
  function WalkFrom(g: Group, state: ReadItemResult, steps: nat, fuel: nat): (s: Stream<Record>)
    decreases steps, 1
  {
    if state.nextItemOffset.None? then Done()
    else if steps == 0 then Fail(OutOfFuel)
    else WalkNext(g, state, steps, fuel)
  }

  /** The item `state` points at, then the walk on from it. */
  function WalkNext(g: Group, state: ReadItemResult, steps: nat, fuel: nat): (s: Stream<Record>)
    requires state.nextItemOffset.Some? && steps > 0
    decreases steps, 0
  {
    match ItemAt(g, state.nextItemOffset.value, state.nextItemInOver30, fuel)
    case Failure(e) => Fail(e)
    case Success(None) => Done()
    case Success(Some(it)) =>
      if it.recordBuffer.Some? && |it.recordBuffer.value| > 0 then
        match SplitKey(it.recordBuffer.value)
        case Failure(e) => Fail(e)
        case Success(rec) => Cons(rec, WalkFrom(g, it, steps - 1, fuel))
      else WalkFrom(g, it, steps - 1, fuel)
}

  /** `Group.records` */
  function GroupRecordStream(g: Group, steps: nat, fuel: nat): Stream<Record>
  {
    WalkFrom(g, ReadItemResult(Some(GroupStart(g)), false, None), steps, fuel)
  }

  /** No record key holds 0xFF, and each record is the buffer of an item split
      at its first 0xFF. */
  lemma {:induction false} WalkKeys(g: Group, state: ReadItemResult, steps: nat, fuel: nat)
    ensures forall r :: r in WalkFrom(g, state, steps, fuel).items ==>
      KEY_MARK !in r.key && r == MakeRecord(r.key, r.raw)
    decreases steps
  {
    if state.nextItemOffset.Some? && steps > 0 {
      var item := ItemAt(g, state.nextItemOffset.value, state.nextItemInOver30, fuel);
      if item.Success? && item.value.Some? {
        WalkKeys(g, item.value.value, steps - 1, fuel);
      }
    }
  }

  /** The walk ends without error after the last item of the chain, at the end
      of the file and at a free item with no forward pointer. */
  lemma WalkEnds(g: Group, state: ReadItemResult, steps: nat, fuel: nat)
    requires state.nextItemOffset.None? || (steps > 0 &&
      var o := state.nextItemOffset.value;
      || o >= |ItemFile(g, state.nextItemInOver30)|
      || (ReadItemHeader(g, o, state.nextItemInOver30).flags.free
          && ReadItemHeader(g, o, state.nextItemInOver30).forwardPointer == 0))
    ensures WalkFrom(g, state, steps, fuel) == Done()
  {
    if state.nextItemOffset.Some? {
      NoItem(g, state.nextItemOffset.value, state.nextItemInOver30, fuel);
    }
  }

  /** A record buffer with no 0xFF stops the walk with an error. */
  lemma WalkMissingKeyMark(g: Group, state: ReadItemResult, steps: nat, fuel: nat)
    requires state.nextItemOffset.Some? && steps > 0
    requires var item := ItemAt(g, state.nextItemOffset.value, state.nextItemInOver30, fuel);
      && item.Success? && item.value.Some? && item.value.value.recordBuffer.Some?
      && |item.value.value.recordBuffer.value| > 0 && KEY_MARK !in item.value.value.recordBuffer.value
    ensures WalkFrom(g, state, steps, fuel) == Fail(MissingKeyMark)
  {
  }

  /** A step of the walk past an item with record bytes yields its record. */
  lemma WalkYield(g: Group, state: ReadItemResult, steps: nat, fuel: nat, it: ReadItemResult, rec: Record)
    requires state.nextItemOffset.Some? && steps > 0
    requires ItemAt(g, state.nextItemOffset.value, state.nextItemInOver30, fuel) == Success(Some(it))
    requires it.recordBuffer.Some? && |it.recordBuffer.value| > 0
    requires SplitKey(it.recordBuffer.value) == Success(rec)
    ensures WalkFrom(g, state, steps, fuel) == Cons(rec, WalkFrom(g, it, steps - 1, fuel))
  {
  }

  /** A step of the walk past a free item or an empty buffer yields nothing. */
  lemma WalkSkip(g: Group, state: ReadItemResult, steps: nat, fuel: nat, it: ReadItemResult)
    requires state.nextItemOffset.Some? && steps > 0
    requires ItemAt(g, state.nextItemOffset.value, state.nextItemInOver30, fuel) == Success(Some(it))
    requires !(it.recordBuffer.Some? && |it.recordBuffer.value| > 0)
    ensures WalkFrom(g, state, steps, fuel) == WalkFrom(g, it, steps - 1, fuel)
  {
  }

  lemma PrefixPrefix(recs: seq<Record>, ys: seq<Record>, s: Stream<Record>)
    ensures Prefix(recs, Prefix(ys, s)) == Prefix(recs + ys, s)
  {
    assert recs + (ys + s.items) == recs + ys + s.items;
  }

  /** `Group.records`, threading the state of the walk through its loop. */
  method GroupRecords(g: Group, steps: nat, fuel: nat) returns (s: Stream<Record>)
    ensures s == GroupRecordStream(g, steps, fuel)
  {
    var state := ReadItemResult(Some(GroupStart(g)), false, None);
    var recs: seq<Record> := [];
    var left := steps;
    while state.nextItemOffset.Some?
      invariant Prefix(recs, WalkFrom(g, state, left, fuel)) == GroupRecordStream(g, steps, fuel)
      decreases left
    {
      if left == 0 {
        return Stream(recs, Some(OutOfFuel));
      }
      var yielded, stop, next := WalkStep(g, state, left, fuel);
      if stop.Some? {
        return Stream(recs + yielded, stop.value);
      }
      PrefixPrefix(recs, yielded, WalkFrom(g, next, left - 1, fuel));
      recs, state, left := recs + yielded, next, left - 1;
    }
    return Stream(recs, None);
  }

  /** One turn of the loop of `Group.records`: reads the item the state points
      at and yields its record, if it has one; `stop` holds how the walk ends
      when it ends there. */
  method WalkStep(g: Group, state: ReadItemResult, left: nat, fuel: nat)
    returns (yielded: seq<Record>, stop: Option<Option<ReadError>>, next: ReadItemResult)
    requires state.nextItemOffset.Some? && left > 0
    ensures stop.Some? ==> WalkFrom(g, state, left, fuel) == Stream(yielded, stop.value)
    ensures stop.None? ==> WalkFrom(g, state, left, fuel) == Prefix(yielded, WalkFrom(g, next, left - 1, fuel))
  {
    yielded, next := [], state;
    var item := ReadItem(g, state.nextItemOffset.value, state.nextItemInOver30, fuel);
    if item.Failure? {
      return [], Some(Some(item.error)), next;
    }
    if item.value.None? {
      return [], Some(None), next;
    }
    var it := item.value.value;
    next, stop := it, None;
    if it.recordBuffer.Some? && |it.recordBuffer.value| > 0 {
      var rec := SplitKey(it.recordBuffer.value);
      if rec.Failure? {
        return [], Some(Some(rec.error)), next;
      }
      WalkYield(g, state, left, fuel, it, rec.value);
      yielded := [rec.value];
    } else {
      WalkSkip(g, state, left, fuel, it);
    }
  }
}
