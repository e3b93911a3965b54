/** A B-tree file: pages of one group length each, either leaves holding
    records or parents holding fence keys and the group indices of their
    children; the root is group 0. */
module BTrees {
  import opened Wrappers
  import opened Bytes
  import opened UvFileInfo
  import opened Records

  const LEAF_PAGE: nat := 2
  const PARENT_PAGE: nat := 1
  const OVERSIZE_PAGE: nat := 8
  const KEY_MARK: byte := 0xFF
  const PADDED_BIT: nat := 0x20      // bit 5 of a leaf item's flag byte
  const OVERSIZE_BIT: nat := 0x40    // bit 6

  /** The file's bytes and its geometry. */
  datatype BTree = BTree(fd: seq<byte>, info: FileInfo)

  /** A page as `read_buffer` classifies it by its type tag. */
  datatype Page = Leaf(buf: seq<byte>) | Parent(buf: seq<byte>)

  /** An entry of a parent page: the child's group index and its fence key
      (None for an empty key slot). */
  datatype ChildRef = ChildRef(groupIndex: int, fence: Option<seq<byte>>)

  /** `int.from_bytes(page[i:j], order)` */
  function Word(page: seq<byte>, i: int, j: int, order: ByteOrder): nat
  {
    FromBytes(Slice(page, i, j), order)
  }

  /** The `i`-th two-byte word of the table that starts at `base`. */
  function TableWord(page: seq<byte>, base: nat, i: nat, order: ByteOrder): nat
  {
    Word(page, base + 2 * i, base + 2 * (i + 1), order)
  }

  /** Where a parent keeps the offset of its `i`-th child: the `i`-th 4-byte
      word after the first (32-bit) or the `i`-th 8-byte word after the first
      (64-bit). */
  function ChildWord(info: FileInfo, page: seq<byte>, i: nat): nat
  {
    match info.arch
    case Arch32 => Word(page, 4 + i * 4, 4 + (i + 1) * 4, info.byteorder)
    case Arch64 => Word(page, 8 + i * 8, 8 + (i + 1) * 8, info.byteorder)
  }

  /** `page[start:start + length]` */
  function Window(page: seq<byte>, start: int, length: int): seq<byte>
  {
    Slice(page, start, start + length)
  }

  // ---------------------------------------------------------------- pages

  /** Where the page of group `groupIndex` starts. */
  function GroupOffset(info: FileInfo, groupIndex: int): int
  {
    info.headerLength + info.groupLength * groupIndex
  }

  /** `BtreeBuffer.read_buffer`: the page of a group, by its type tag (2 for a
      leaf, 1 for a parent). Seeking before the start of the file fails, and an
      unknown tag is reported with the page's first byte. */
  function ReadBuffer(t: BTree, groupIndex: int): (r: Result<Page>)
    ensures GroupOffset(t.info, groupIndex) < 0 ==> r == Failure(NegativeSeek)
    ensures GroupOffset(t.info, groupIndex) >= 0 ==>
      var page := Read(t.fd, GroupOffset(t.info, groupIndex), t.info.groupLength);
      var tag := Word(page, 0, 2, t.info.byteorder);
      && (tag == LEAF_PAGE <==> r == Success(Leaf(page)))
      && (tag == PARENT_PAGE <==> r == Success(Parent(page)))
      && (tag != LEAF_PAGE && tag != PARENT_PAGE ==>
            r == if |page| == 0 then Failure(IndexOutOfRange) else Failure(UnknownPageType(page[0])))
  {
    var offset := GroupOffset(t.info, groupIndex);
    if offset < 0 then Failure(NegativeSeek)
    else
      var page := Read(t.fd, offset, t.info.groupLength);
      var tag := Word(page, 0, 2, t.info.byteorder);
      if tag == LEAF_PAGE then Success(Leaf(page))
      else if tag == PARENT_PAGE then Success(Parent(page))
      else if |page| == 0 then Failure(IndexOutOfRange)
      else Failure(UnknownPageType(page[0]))
  }

  // ---------------------------------------------------------------- oversize pages

  /** `BTreeLeaf.read_oversize`: a continuation page of type 8 holds the offset of
      the next one and `length` bytes of the record. */
  function ReadOversize(t: BTree, offset: nat): (r: Result<(nat, seq<byte>)>)
    ensures r.Success? <==> Word(Read(t.fd, offset, t.info.groupLength), 0, 2, t.info.byteorder) == OVERSIZE_PAGE
    ensures r.Failure? ==>
      r.error == BadOversizePageType(Word(Read(t.fd, offset, t.info.groupLength), 0, 2, t.info.byteorder))
    ensures r.Success? ==> |r.value.1| <= t.info.groupLength
    ensures r.Success? ==> OversizeLayout(t.info, Read(t.fd, offset, t.info.groupLength), r.value)
  {
    OversizePage(t.info, Read(t.fd, offset, t.info.groupLength))
  }

  /** Where a continuation page keeps the next offset and the record bytes: the
      offset at 4..8 and the length at 8..12 before the bytes from 12 on in the
      32-bit layout, the length at 4..8 and the offset at 8..16 before the bytes
      from 16 on in the 64-bit one. */
  predicate OversizeLayout(info: FileInfo, page: seq<byte>, v: (nat, seq<byte>))
  {
    var o := info.byteorder;
    v == if info.arch == Arch32
      then (Word(page, 4, 8, o), Slice(page, 12, 12 + Word(page, 8, 12, o)))
      else (Word(page, 8, 16, o), Slice(page, 16, 16 + Word(page, 4, 8, o)))
  }

  /** The next offset and the record bytes of a continuation page. */
  function OversizePage(info: FileInfo, page: seq<byte>): (r: Result<(nat, seq<byte>)>)
    ensures r.Success? <==> Word(page, 0, 2, info.byteorder) == OVERSIZE_PAGE
    ensures r.Failure? ==> r.error == BadOversizePageType(Word(page, 0, 2, info.byteorder))
    ensures r.Success? ==> |r.value.1| <= |page|
    ensures r.Success? ==> OversizeLayout(info, page, r.value)
  {
    var order := info.byteorder;
    var pageType := Word(page, 0, 2, order);
    if pageType != OVERSIZE_PAGE then Failure(BadOversizePageType(pageType))
    else match info.arch
      case Arch32 =>
        var length := Word(page, 8, 12, order);
        Success((Word(page, 4, 8, order), Slice(page, 12, 12 + length)))
      case Arch64 =>
        var length := Word(page, 4, 8, order);
        Success((Word(page, 8, 16, order), Slice(page, 16, 16 + length)))
  }

  /** The continuation chain from `next` on, as the `while next_offset > 0` loop
      gathers it after `acc`; `fuel` bounds the number of pages. */
  function ChainFrom(t: BTree, acc: seq<byte>, next: nat, fuel: nat): (r: Result<seq<byte>>)
    decreases fuel, 1
  {
    if next == 0 then Success(acc)
    else if fuel == 0 then Failure(OutOfFuel)
    else ChainFromPage(t, acc, next, fuel)
  }

  /** One turn of the loop: read the page at `next`, then go on from the page
      it points to. */
  function ChainFromPage(t: BTree, acc: seq<byte>, next: nat, fuel: nat): (r: Result<seq<byte>>)
    requires fuel > 0
    decreases fuel, 0
  {
    var page :- ReadOversize(t, next);
    ChainFrom(t, acc + page.1, page.0, fuel - 1)
  }

  /** The same chain defined page by page: this page's bytes, then the rest. */
  function Chain(t: BTree, next: nat, fuel: nat): (r: Result<seq<byte>>)
    decreases fuel, 1
  {
    if next == 0 then Success([])
    else if fuel == 0 then Failure(OutOfFuel)
    else ChainPage(t, next, fuel)
  }

  /** The page at `next`, followed by the pages it points to. */
  function ChainPage(t: BTree, next: nat, fuel: nat): (r: Result<seq<byte>>)
    requires fuel > 0
    decreases fuel, 0
  {
    var page :- ReadOversize(t, next);
    var rest :- Chain(t, page.0, fuel - 1);
    Success(page.1 + rest)
  }

  /** `acc` followed by what `r` read, or the error it raised. */
  function Prepend(acc: seq<byte>, r: Result<seq<byte>>): (p: Result<seq<byte>>)
    ensures p.Success? <==> r.Success?
    ensures p.Success? ==> p.value == acc + r.value
    ensures p.Failure? ==> p.error == r.error
  {
    if r.Success? then Success(acc + r.value) else r
  }

  /** The loop's accumulation is the chain appended to what it started with. */
  lemma {:induction false} ChainFromIsChain(t: BTree, acc: seq<byte>, next: nat, fuel: nat)
    ensures ChainFrom(t, acc, next, fuel) == Prepend(acc, Chain(t, next, fuel))
    decreases fuel
  {
    if next == 0 {
      assert acc + [] == acc;
    } else if fuel > 0 {
      var page := ReadOversize(t, next);
      assert ChainFrom(t, acc, next, fuel) == ChainFromPage(t, acc, next, fuel);
      assert Chain(t, next, fuel) == ChainPage(t, next, fuel);
      if page.Success? {
        var p := page.value;
        ChainFromIsChain(t, acc + p.1, p.0, fuel - 1);
        var rest := Chain(t, p.0, fuel - 1);
        if rest.Success? {
          assert acc + p.1 + rest.value == acc + (p.1 + rest.value);
        }
      }
    }
  }

  /** A first continuation that is not an oversize page is an error. */
  lemma ChainNeedsOversizePages(t: BTree, next: nat, fuel: nat)
    requires next > 0 && fuel > 0
    requires Word(Read(t.fd, next, t.info.groupLength), 0, 2, t.info.byteorder) != OVERSIZE_PAGE
    ensures Chain(t, next, fuel)
         == Failure(BadOversizePageType(Word(Read(t.fd, next, t.info.groupLength), 0, 2, t.info.byteorder)))
  {
  }

  /** The `while next_offset > 0` loop of `BTreeLeaf.records`. */
  method ReadOversizeChain(t: BTree, next0: nat, fuel: nat) returns (r: Result<seq<byte>>)
    ensures r == ChainFrom(t, [], next0, fuel)
  {
    var next, buf, left := next0, [], fuel;
    while next > 0
      invariant ChainFrom(t, buf, next, left) == ChainFrom(t, [], next0, fuel)
      decreases left
    {
      if left == 0 {
        return Failure(OutOfFuel);
      }
      assert ChainFrom(t, buf, next, left) == ChainFromPage(t, buf, next, left);
      var page := ReadOversize(t, next);
      if page.Failure? {
        return Failure(page.error);
      }
      next, buf, left := page.value.0, buf + page.value.1, left - 1;
    }
    return Success(buf);
  }

  // ---------------------------------------------------------------- leaves

  /** The leaf layout: the item offset table starts here, the item length table
      0x100 bytes later and the item data 0x200 bytes later; the item count is
      the word just before the offset table. */
  function LeafListOffset(arch: Arch): nat { if arch == Arch32 then 0x0e else 0x1a }

  function LeafCount(info: FileInfo, page: seq<byte>): nat
  {
    var l := LeafListOffset(info.arch);
    Word(page, l - 2, l, info.byteorder)
  }

  /** The bytes of item `i` of a leaf, located by its entries in the offset and
      length tables. */
  function LeafItemBytes(info: FileInfo, page: seq<byte>, i: nat): seq<byte>
  {
    var l, order := LeafListOffset(info.arch), info.byteorder;
    var itemOffset := TableWord(page, l, i, order);
    var itemLength := TableWord(page, l + 0x100, i, order);
    Window(page, l + 0x200 + itemOffset, itemLength)
  }

  /** The bytes of every item; locating them cannot fail, so the table is
      the same whether read ahead or item by item. */
  function LeafItems(info: FileInfo, page: seq<byte>): (items: seq<seq<byte>>)
    ensures var l := LeafListOffset(info.arch);
      |items| == Word(page, l - 2, l, info.byteorder)
  {
    seq(LeafCount(info, page), i requires 0 <= i => LeafItemBytes(info, page, i))
  }

  /** The leaf tables: item `i` starts at the data area (0x200 past the offset
      table) plus the i-th offset word, and is as long as the i-th word of the
      length table (0x100 past the offset table). */
  lemma LeafTable(info: FileInfo, page: seq<byte>, i: nat)
    requires i < |LeafItems(info, page)|
    ensures var l, o := LeafListOffset(info.arch), info.byteorder;
      LeafItems(info, page)[i] == Window(page, l + 0x200 + TableWord(page, l, i, o), TableWord(page, l + 0x100, i, o))
  {
    LeafEntry(info, page, i);
    LeafItemLayout(info, page, i);
  }

  /** Item `i` of the table is the one `LeafItemBytes` locates. */
  lemma LeafEntry(info: FileInfo, page: seq<byte>, i: nat)
    requires i < |LeafItems(info, page)|
    ensures LeafItems(info, page)[i] == LeafItemBytes(info, page, i)
  {
  }

  /** Where `LeafItemBytes` finds item `i`. */
  lemma LeafItemLayout(info: FileInfo, page: seq<byte>, i: nat)
    ensures var l, o := LeafListOffset(info.arch), info.byteorder;
      LeafItemBytes(info, page, i) == Window(page, l + 0x200 + TableWord(page, l, i, o), TableWord(page, l + 0x100, i, o))
  {
  }

  /** A leaf item's key and value: split at the first 0xFF. With no 0xFF the
      key is all but the last byte and the value is the whole item. */
  function SplitLeafItem(b: seq<byte>): (r: (seq<byte>, seq<byte>))
    ensures KEY_MARK in b ==> r.0 + [KEY_MARK] + r.1 == b && KEY_MARK !in r.0
    ensures KEY_MARK !in b ==> r.1 == b && r.0 == Slice(b, 0, -1)
  {
    var k := Find(b, KEY_MARK);
    assert k >= 0 ==> b == b[..k] + [KEY_MARK] + b[k + 1..];
    (Slice(b, 0, k), Slice(b, k + 1, |b|))
  }

  /** The ordering byte of a leaf item is its first byte in little order and
      its second in big order; the other one of the two is the flag byte. */
  function OrderIndex(order: ByteOrder): nat { if order == Little then 0 else 1 }
  function FlagIndex(order: ByteOrder): nat { if order == Little then 1 else 0 }

  /** The last, ordering and flag bytes of an item, read as the source reads
      them: the last byte first, then the ordering byte, compared with the
      ordering byte of the item before, then the flag byte. */
  function LeafItemHead(order: ByteOrder, itemBytes: seq<byte>, itemOrder: byte): (r: Result<(byte, byte, byte)>)
    ensures r.Success? ==> |itemBytes| >= 2
    ensures r.Success? ==>
      r.value == (itemBytes[|itemBytes| - 1], itemBytes[OrderIndex(order)], itemBytes[FlagIndex(order)])
    ensures r.Success? ==> itemOrder <= itemBytes[OrderIndex(order)]
    ensures |itemBytes| >= 2 && itemBytes[OrderIndex(order)] < itemOrder ==> r == Failure(LeafOutOfOrder)
    ensures |itemBytes| >= 2 && itemBytes[OrderIndex(order)] >= itemOrder ==> r.Success?
    ensures |itemBytes| < 2 ==>
      r == if |itemBytes| == 1 && order == Little && itemBytes[0] < itemOrder
           then Failure(LeafOutOfOrder) else Failure(IndexOutOfRange)
  {
    var padding :- At(itemBytes, -1);
    var o :- At(itemBytes, OrderIndex(order));
    if o < itemOrder then Failure(LeafOutOfOrder)
    else
      var flags :- At(itemBytes, FlagIndex(order));
      Success((padding, o, flags))
  }

  /** The item's bytes after the ordering and flag bytes, less the padding
      counted by the last byte when bit 5 of the flags is set. */
  function LeafItemBody(itemBytes: seq<byte>, padding: byte, flags: byte): seq<byte>
  {
    var pad := if HasBit(flags, PADDED_BIT) then padding else 0;
    Slice(itemBytes, 2, |itemBytes| - pad)
  }

  /** The width of the continuation pointer at the head of an oversized item. */
  function PointerWidth(arch: Arch): nat { if arch == Arch32 then 4 else 8 }

  /** A leaf item decoded after an item whose ordering byte was `itemOrder`:
      the record, and the item's own ordering byte. */
  function LeafItem(t: BTree, itemBytes: seq<byte>, itemOrder: byte, fuel: nat): (r: Result<(Record, byte)>)
  {
    var head :- LeafItemHead(t.info.byteorder, itemBytes, itemOrder);
    LeafItemRecord(t, itemBytes, head, fuel)
  }

  /** The record of a leaf item whose head has been read. */
  function LeafItemRecord(t: BTree, itemBytes: seq<byte>, head: (byte, byte, byte), fuel: nat): (r: Result<(Record, byte)>)
  {
    var (padding, o, flags) := head;
    var body := LeafItemBody(itemBytes, padding, flags);
    if HasBit(flags, OVERSIZE_BIT) then
      var w := PointerWidth(t.info.arch);
      var extra :- ChainFrom(t, [], Word(body, 0, w, t.info.byteorder), fuel);
      var (key, value) := SplitLeafItem(Slice(body, w, |body|));
      Success((MakeRecord(key, value + extra), o))
    else
      var (key, value) := SplitLeafItem(body);
      Success((MakeRecord(key, value), o))
  }

  /** The records of a leaf from item `i` on. */
  function LeafFrom(t: BTree, items: seq<seq<byte>>, i: nat, itemOrder: byte, fuel: nat): (s: Stream<Record>)
    decreases |items| - i, 2
  {
    if i >= |items| then Done() else LeafNext(t, items, i, itemOrder, fuel)
  }

  /** Item `i`, then the items after it. (Kept apart from LeafThen so that an
      item is decoded in a proof only where the proof asks for it.) */
  function LeafNext(t: BTree, items: seq<seq<byte>>, i: nat, itemOrder: byte, fuel: nat): (s: Stream<Record>)
    requires i < |items|
    decreases |items| - i, 1
  {
    LeafThen(t, items[i], items, i + 1, itemOrder, fuel)
  }

  /** The record of the item `itemBytes`, then the items from `next` on. */
  function LeafThen(t: BTree, itemBytes: seq<byte>, items: seq<seq<byte>>, next: nat, itemOrder: byte, fuel: nat): (s: Stream<Record>)
    requires 1 <= next <= |items|
    decreases |items| - next + 1, 0
  {
    match LeafItem(t, itemBytes, itemOrder, fuel)
    case Failure(e) => Fail(e)
    case Success(item) => Cons(item.0, LeafFrom(t, items, next, item.1, fuel))
  }

  /** Item `i` of a leaf is decoded first. */
  lemma LeafUnfold(t: BTree, items: seq<seq<byte>>, i: nat, itemOrder: byte, fuel: nat)
    requires i < |items|
    ensures LeafFrom(t, items, i, itemOrder, fuel) ==
      match LeafItem(t, items[i], itemOrder, fuel)
      case Failure(e) => Fail(e)
      case Success(item) => Cons(item.0, LeafFrom(t, items, i + 1, item.1, fuel))
  {
    assert LeafFrom(t, items, i, itemOrder, fuel) == LeafNext(t, items, i, itemOrder, fuel);
    assert LeafNext(t, items, i, itemOrder, fuel) == LeafThen(t, items[i], items, i + 1, itemOrder, fuel);
  }

  /** `BTreeLeaf.records` */
  function LeafStream(t: BTree, page: seq<byte>, fuel: nat): Stream<Record>
  {
    LeafFrom(t, LeafItems(t.info, page), 0, 0, fuel)
  }

  /** The ordering byte of an item, or -1 for an item too short to have one. */
  function ItemOrder(order: ByteOrder, itemBytes: seq<byte>): int
  {
    if OrderIndex(order) < |itemBytes| then itemBytes[OrderIndex(order)] else -1
  }

  lemma LeafItemOrder(t: BTree, itemBytes: seq<byte>, itemOrder: byte, fuel: nat)
    requires LeafItem(t, itemBytes, itemOrder, fuel).Success?
    ensures itemOrder <= LeafItem(t, itemBytes, itemOrder, fuel).value.1 == ItemOrder(t.info.byteorder, itemBytes)
  {
  }

  /** A leaf read to its end yields one record per item. */
  lemma {:induction false} LeafLength(t: BTree, items: seq<seq<byte>>, i: nat, itemOrder: byte, fuel: nat)
    requires LeafFrom(t, items, i, itemOrder, fuel).Complete()
    ensures |LeafFrom(t, items, i, itemOrder, fuel).items| == if i >= |items| then 0 else |items| - i
    decreases |items| - i
  {
    if i < |items| {
      var next := LeafCompleteStep(t, items, i, itemOrder, fuel);
      LeafLength(t, items, i + 1, next, fuel);
    }
  }

  /** In a leaf read to its end, the ordering bytes of the items never decrease. */
  lemma {:induction false} LeafOrdered(t: BTree, items: seq<seq<byte>>, i: nat, itemOrder: byte, fuel: nat)
    requires LeafFrom(t, items, i, itemOrder, fuel).Complete()
    ensures forall j :: i <= j < |items| ==> itemOrder <= ItemOrder(t.info.byteorder, items[j])
    ensures forall j, k :: i <= j < k < |items| ==>
      ItemOrder(t.info.byteorder, items[j]) <= ItemOrder(t.info.byteorder, items[k])
    decreases |items| - i
  {
    if i < |items| {
      var next := LeafCompleteStep(t, items, i, itemOrder, fuel);
      LeafOrdered(t, items, i + 1, next, fuel);
      var o := t.info.byteorder;
      forall j | i <= j < |items|
        ensures itemOrder <= ItemOrder(o, items[j])
      {
        if j > i {
          assert next <= ItemOrder(o, items[j]);
        }
      }
      forall j, k | i <= j < k < |items|
        ensures ItemOrder(o, items[j]) <= ItemOrder(o, items[k])
      {
        if j == i {
          assert next <= ItemOrder(o, items[k]);
        }
      }
    }
  }

  /** A complete leaf stream from item `i` decodes item `i` and goes on, complete,
      from its ordering byte `next`. */
  lemma LeafCompleteStep(t: BTree, items: seq<seq<byte>>, i: nat, itemOrder: byte, fuel: nat) returns (next: byte)
    requires i < |items| && LeafFrom(t, items, i, itemOrder, fuel).Complete()
    ensures itemOrder <= next == ItemOrder(t.info.byteorder, items[i])
    ensures LeafFrom(t, items, i + 1, next, fuel).Complete()
    ensures |LeafFrom(t, items, i, itemOrder, fuel).items| == 1 + |LeafFrom(t, items, i + 1, next, fuel).items|
  {
    LeafUnfold(t, items, i, itemOrder, fuel);
    next := LeafItem(t, items[i], itemOrder, fuel).value.1;
    LeafItemOrder(t, items[i], itemOrder, fuel);
  }

  /** An item whose ordering byte is below the one before it stops the leaf
      with an error. */
  lemma LeafOutOfOrderFails(t: BTree, items: seq<seq<byte>>, i: nat, itemOrder: byte, fuel: nat)
    requires i < |items| && |items[i]| >= 2 && ItemOrder(t.info.byteorder, items[i]) < itemOrder
    ensures LeafFrom(t, items, i, itemOrder, fuel) == Fail(LeafOutOfOrder)
  {
    LeafUnfold(t, items, i, itemOrder, fuel);
  }

  /** Without the oversize bit, an item's record is its body split at the first
      0xFF; the padding is dropped only when bit 5 of the flag byte is set. */
  lemma LeafItemPlain(t: BTree, b: seq<byte>, itemOrder: byte, fuel: nat)
    requires LeafItem(t, b, itemOrder, fuel).Success?
    requires !HasBit(b[FlagIndex(t.info.byteorder)], OVERSIZE_BIT)
    ensures var flags := b[FlagIndex(t.info.byteorder)];
      var body := Slice(b, 2, |b| - (if HasBit(flags, PADDED_BIT) then b[|b| - 1] else 0));
      var rec := LeafItem(t, b, itemOrder, fuel).value.0;
      (rec.key, rec.raw) == SplitLeafItem(body)
  {
    var head := LeafItemHead(t.info.byteorder, b, itemOrder).value;
    assert LeafItem(t, b, itemOrder, fuel) == LeafItemRecord(t, b, head, fuel);
    var body := LeafItemBody(b, head.0, head.2);
    assert LeafItemRecord(t, b, head, fuel).value.0 == MakeRecord(SplitLeafItem(body).0, SplitLeafItem(body).1);
  }

  /** With the oversize bit, the value is followed by the whole continuation chain. */
  lemma LeafItemOversized(t: BTree, b: seq<byte>, itemOrder: byte, fuel: nat)
    requires LeafItem(t, b, itemOrder, fuel).Success?
    requires HasBit(b[FlagIndex(t.info.byteorder)], OVERSIZE_BIT)
    ensures var body := LeafItemBody(b, b[|b| - 1], b[FlagIndex(t.info.byteorder)]);
      var w := PointerWidth(t.info.arch);
      var chain := Chain(t, Word(body, 0, w, t.info.byteorder), fuel);
      && chain.Success?
      && LeafItem(t, b, itemOrder, fuel).value.0.raw == SplitLeafItem(Slice(body, w, |body|)).1 + chain.value
  {
    var body := LeafItemBody(b, b[|b| - 1], b[FlagIndex(t.info.byteorder)]);
    var next := Word(body, 0, PointerWidth(t.info.arch), t.info.byteorder);
    ChainFromIsChain(t, [], next, fuel);
    assert [] + Chain(t, next, fuel).value == Chain(t, next, fuel).value;
  }

  /** One item of `BTreeLeaf.records`, with the oversize loop run by its method. */
  method DecodeLeafItem(t: BTree, itemBytes: seq<byte>, itemOrder: byte, fuel: nat) returns (r: Result<(Record, byte)>)
    ensures r == LeafItem(t, itemBytes, itemOrder, fuel)
  {
    var head := LeafItemHead(t.info.byteorder, itemBytes, itemOrder);
    if head.Failure? {
      return Failure(head.error);
    }
    var (padding, o, flags) := head.value;
    var body := LeafItemBody(itemBytes, padding, flags);
    if HasBit(flags, OVERSIZE_BIT) {
      var w := PointerWidth(t.info.arch);
      var chain := ReadOversizeChain(t, Word(body, 0, w, t.info.byteorder), fuel);
      if chain.Failure? {
        return Failure(chain.error);
      }
      var (key, value) := SplitLeafItem(Slice(body, w, |body|));
      return Success((MakeRecord(key, value + chain.value), o));
    }
    var (key, value) := SplitLeafItem(body);
    return Success((MakeRecord(key, value), o));
  }

  /** `BTreeLeaf.records`: the loop over the item table, keeping the ordering
      byte of the item before. */
  method LeafRecords(t: BTree, page: seq<byte>, fuel: nat) returns (s: Stream<Record>)
    ensures s == LeafStream(t, page, fuel)
  {
    var count := LeafCount(t.info, page);
    var recs: seq<Record> := [];
    var itemOrder: byte := 0;
    for i := 0 to count
      invariant Prefix(recs, LeafFrom(t, LeafItems(t.info, page), i, itemOrder, fuel)) == LeafStream(t, page, fuel)
    {
      var itemBytes := LeafItemBytes(t.info, page, i);
      var item := DecodeLeafItem(t, itemBytes, itemOrder, fuel);
      LeafLoop(t, page, fuel, i, itemOrder, recs);
      if item.Failure? {
        return Stream(recs, Some(item.error));
      }
      recs, itemOrder := recs + [item.value.0], item.value.1;
    }
    LeafLoopEnd(t, page, fuel, itemOrder, recs);
    return Stream(recs, None);
  }

  /** The invariant of the loop of `LeafRecords` carried over item `i`. */
  lemma LeafLoop(t: BTree, page: seq<byte>, fuel: nat, i: nat, itemOrder: byte, recs: seq<Record>)
    requires i < LeafCount(t.info, page)
    requires Prefix(recs, LeafFrom(t, LeafItems(t.info, page), i, itemOrder, fuel)) == LeafStream(t, page, fuel)
    ensures var item := LeafItem(t, LeafItemBytes(t.info, page, i), itemOrder, fuel);
      && (item.Failure? ==> Stream(recs, Some(item.error)) == LeafStream(t, page, fuel))
      && (item.Success? ==>
            Prefix(recs + [item.value.0], LeafFrom(t, LeafItems(t.info, page), i + 1, item.value.1, fuel))
              == LeafStream(t, page, fuel))
  {
    var items := LeafItems(t.info, page);
    assert items[i] == LeafItemBytes(t.info, page, i);
    LeafUnfold(t, items, i, itemOrder, fuel);
    if LeafItem(t, items[i], itemOrder, fuel).Success? {
      LeafStep(t, items, i, itemOrder, fuel, recs);
    }
  }

  /** The loop of `LeafRecords` run past the last item has read the leaf. */
  lemma LeafLoopEnd(t: BTree, page: seq<byte>, fuel: nat, itemOrder: byte, recs: seq<Record>)
    requires Prefix(recs, LeafFrom(t, LeafItems(t.info, page), LeafCount(t.info, page), itemOrder, fuel))
      == LeafStream(t, page, fuel)
    ensures Stream(recs, None) == LeafStream(t, page, fuel)
  {
    assert LeafFrom(t, LeafItems(t.info, page), LeafCount(t.info, page), itemOrder, fuel) == Done();
  }

  lemma LeafStep(t: BTree, items: seq<seq<byte>>, i: nat, itemOrder: byte, fuel: nat, recs: seq<Record>)
    requires i < |items| && LeafItem(t, items[i], itemOrder, fuel).Success?
    ensures var item := LeafItem(t, items[i], itemOrder, fuel).value;
      Prefix(recs, LeafFrom(t, items, i, itemOrder, fuel))
        == Prefix(recs + [item.0], LeafFrom(t, items, i + 1, item.1, fuel))
  {
    LeafUnfold(t, items, i, itemOrder, fuel);
    var item := LeafItem(t, items[i], itemOrder, fuel).value;
    var rest := LeafFrom(t, items, i + 1, item.1, fuel);
    assert recs + ([item.0] + rest.items) == (recs + [item.0]) + rest.items;
  }

  /** `BTreeLeaf.get_record`: the value of the first record with the key, found
      before any error the leaf raises further on. */
  function FirstMatch(recs: seq<Record>, failure: Option<ReadError>, key: seq<byte>): (r: Result<Option<seq<byte>>>)
    ensures r.Success? && r.value.Some? ==>
      exists i :: 0 <= i < |recs| && recs[i].key == key && recs[i].raw == r.value.value
    ensures (forall i :: 0 <= i < |recs| ==> recs[i].key != key) ==>
      r == if failure.Some? then Failure(failure.value) else Success(None)
  {
    if recs == [] then (if failure.Some? then Failure(failure.value) else Success(None))
    else if recs[0].key == key then Success(Some(recs[0].raw))
    else
      var r := FirstMatch(recs[1..], failure, key);
      assert forall i :: 1 <= i < |recs| ==> recs[i] == recs[1..][i - 1];
      r
  }

  /** The record found is the first with the key. */
  lemma {:induction false} FirstMatchIsFirst(recs: seq<Record>, failure: Option<ReadError>, key: seq<byte>, i: nat)
    requires i < |recs| && recs[i].key == key
    requires forall j :: 0 <= j < i ==> recs[j].key != key
    ensures FirstMatch(recs, failure, key) == Success(Some(recs[i].raw))
  {
    if i > 0 {
      FirstMatchIsFirst(recs[1..], failure, key, i - 1);
    }
  }

  // ---------------------------------------------------------------- parents

  /** The parent layout: the child offsets from byte 4 (32-bit, 4 bytes each) or
      8 (64-bit, 8 bytes each), then the key offset table here, the key length
      table 0x300 bytes later and the key data 0x600 bytes later, with the number
      of keys just before the key offset table. */
  function KeyOffsetList(arch: Arch): nat { if arch == Arch32 then 0x606 else 0xC0A }

  function KeyCount(info: FileInfo, page: seq<byte>): nat
  {
    var k := KeyOffsetList(info.arch);
    Word(page, k - 2, k, info.byteorder)
  }

  /** Entry `i` of a parent as stored: the child's offset and the key slot. */
  datatype Slot = Slot(childOffset: nat, key: seq<byte>)

  function SlotAt(info: FileInfo, page: seq<byte>, i: nat): Slot
  {
    var k, order := KeyOffsetList(info.arch), info.byteorder;
    var keyOffset := TableWord(page, k, i, order);
    var keyLength := TableWord(page, k + 0x300, i, order);
    Slot(ChildWord(info, page, i), Window(page, k + 0x600 + keyOffset, keyLength))
  }

  /** A parent has one entry more than it has keys. */
  function Slots(info: FileInfo, page: seq<byte>): (slots: seq<Slot>)
    ensures var k := KeyOffsetList(info.arch);
      |slots| == Word(page, k - 2, k, info.byteorder) + 1
  {
    seq(KeyCount(info, page) + 1, i requires 0 <= i => SlotAt(info, page, i))
  }

  /** The parent tables: one entry more than the key count word just before the
      key offset table; entry `i`'s child offset is the i-th pointer-width word
      after the first, and its key slot lies in the key data (0x600 past the key
      offset table) at the i-th key offset, as long as the i-th word of the key
      length table (0x300 past the key offset table). */
  lemma SlotTable(info: FileInfo, page: seq<byte>, i: nat)
    requires i < |Slots(info, page)|
    ensures Slots(info, page)[i].childOffset == ChildWord(info, page, i)
    ensures var k, o := KeyOffsetList(info.arch), info.byteorder;
      Slots(info, page)[i].key == Window(page, k + 0x600 + TableWord(page, k, i, o), TableWord(page, k + 0x300, i, o))
  {
    SlotEntry(info, page, i);
    SlotAtLayout(info, page, i);
  }

  /** Entry `i` of the table is the one `SlotAt` reads. */
  lemma SlotEntry(info: FileInfo, page: seq<byte>, i: nat)
    requires i < |Slots(info, page)|
    ensures Slots(info, page)[i] == SlotAt(info, page, i)
  {
  }

  /** Where `SlotAt` reads the child offset and the key slot of entry `i`. */
  lemma SlotAtLayout(info: FileInfo, page: seq<byte>, i: nat)
    ensures SlotAt(info, page, i).childOffset == ChildWord(info, page, i)
    ensures var k, o := KeyOffsetList(info.arch), info.byteorder;
      SlotAt(info, page, i).key == Window(page, k + 0x600 + TableWord(page, k, i, o), TableWord(page, k + 0x300, i, o))
  {
  }

  /** The group a child offset falls in: `(child_offset - header_length) //
      group_length`, which fails for a group length of 0. */
  function GroupIndexOf(info: FileInfo, childOffset: nat): (r: Result<int>)
    ensures r.Success? <==> info.groupLength > 0
    ensures r.Success? ==> GroupOffset(info, r.value) <= childOffset < GroupOffset(info, r.value) + info.groupLength
  {
    if info.groupLength == 0 then Failure(DivisionByZero)
    else
      var g := FloorDiv(childOffset - info.headerLength, info.groupLength);
      Success(g)
  }

  /** An entry of a parent, after an entry whose key began with `keyOrder`. An
      empty key slot gives no fence; otherwise its first byte may not be below
      `keyOrder`, and the fence is the slot less its first two bytes. */
  function ChildEntry(info: FileInfo, slot: Slot, keyOrder: byte): (r: Result<(ChildRef, byte)>)
    ensures r.Success? ==> GroupIndexOf(info, slot.childOffset) == Success(r.value.0.groupIndex)
    ensures r.Success? ==> (r.value.0.fence.None? <==> |slot.key| == 0)
    ensures r.Success? && r.value.0.fence.Some? ==>
      keyOrder <= slot.key[0] == r.value.1 && r.value.0.fence.value == Slice(slot.key, 2, |slot.key|)
    ensures r.Success? && r.value.0.fence.None? ==> r.value.1 == keyOrder
    ensures info.groupLength == 0 ==> r == Failure(DivisionByZero)
    ensures info.groupLength > 0 && |slot.key| > 0 && slot.key[0] < keyOrder ==> r == Failure(IndexEntriesOutOfOrder)
    ensures info.groupLength > 0 && (|slot.key| == 0 || slot.key[0] >= keyOrder) ==> r.Success?
  {
    var groupIndex :- GroupIndexOf(info, slot.childOffset);
    if |slot.key| == 0 then Success((ChildRef(groupIndex, None), keyOrder))
    else if slot.key[0] < keyOrder then Failure(IndexEntriesOutOfOrder)
    else Success((ChildRef(groupIndex, Some(Slice(slot.key, 2, |slot.key|))), slot.key[0]))
  }

  /** The entries of a parent from slot `i` on. */
  function ChildrenFrom(info: FileInfo, slots: seq<Slot>, i: nat, keyOrder: byte): (s: Stream<ChildRef>)
    decreases |slots| - i, 1
  {
    if i >= |slots| then Done() else ChildNext(info, slots, i, keyOrder)
  }

  /** Entry `i`, then the entries after it. */
  function ChildNext(info: FileInfo, slots: seq<Slot>, i: nat, keyOrder: byte): (s: Stream<ChildRef>)
    requires i < |slots|
    decreases |slots| - i, 0
  {
    match ChildEntry(info, slots[i], keyOrder)
    case Failure(e) => Fail(e)
    case Success(entry) => Cons(entry.0, ChildrenFrom(info, slots, i + 1, entry.1))
  }

  /** `BTreeParent.child_group_indices` */
  function ChildStream(info: FileInfo, page: seq<byte>): Stream<ChildRef>
  {
    ChildrenFrom(info, Slots(info, page), 0, 0)
  }

  /** A parent read to its end has one entry per slot, each pointing at the
      group its child offset falls in. */
  lemma {:induction false} ChildrenComplete(info: FileInfo, slots: seq<Slot>, i: nat, keyOrder: byte)
    requires ChildrenFrom(info, slots, i, keyOrder).Complete()
    ensures var s := ChildrenFrom(info, slots, i, keyOrder);
      && |s.items| == (if i >= |slots| then 0 else |slots| - i)
      && forall j :: 0 <= j < |s.items| ==>
           GroupIndexOf(info, slots[i + j].childOffset) == Success(s.items[j].groupIndex)
           && (s.items[j].fence.None? <==> |slots[i + j].key| == 0)
    decreases |slots| - i
  {
    if i < |slots| {
      assert ChildrenFrom(info, slots, i, keyOrder) == ChildNext(info, slots, i, keyOrder);
      var entry := ChildEntry(info, slots[i], keyOrder).value;
      ChildrenComplete(info, slots, i + 1, entry.1);
      var s := ChildrenFrom(info, slots, i, keyOrder);
      var rest := ChildrenFrom(info, slots, i + 1, entry.1);
      assert s.items == [entry.0] + rest.items;
      forall j | 1 <= j < |s.items|
        ensures GroupIndexOf(info, slots[i + j].childOffset) == Success(s.items[j].groupIndex)
        ensures s.items[j].fence.None? <==> |slots[i + j].key| == 0
      {
        assert s.items[j] == rest.items[j - 1];
        assert i + j == (i + 1) + (j - 1);
      }
    }
  }

  /** The first bytes of the non-empty key slots never decrease in a parent
      read to its end. */
  lemma {:induction false} ChildrenOrdered(info: FileInfo, slots: seq<Slot>, i: nat, keyOrder: byte)
    requires ChildrenFrom(info, slots, i, keyOrder).Complete()
    ensures forall j :: i <= j < |slots| && |slots[j].key| > 0 ==> keyOrder <= slots[j].key[0]
    ensures forall j, k :: i <= j < k < |slots| && |slots[j].key| > 0 && |slots[k].key| > 0 ==>
      slots[j].key[0] <= slots[k].key[0]
    decreases |slots| - i
  {
    if i < |slots| {
      assert ChildrenFrom(info, slots, i, keyOrder) == ChildNext(info, slots, i, keyOrder);
      var entry := ChildEntry(info, slots[i], keyOrder).value;
      ChildrenOrdered(info, slots, i + 1, entry.1);
    }
  }

  /** `BTreeParent.child_group_indices`: the loop over the slots, keeping the
      first byte of the last non-empty key. */
  method ChildGroupIndices(info: FileInfo, page: seq<byte>) returns (s: Stream<ChildRef>)
    ensures s == ChildStream(info, page)
  {
    var total := KeyCount(info, page) + 1;
    ghost var slots := Slots(info, page);
    var entries: seq<ChildRef> := [];
    var keyOrder: byte := 0;
    for i := 0 to total
      invariant Prefix(entries, ChildrenFrom(info, slots, i, keyOrder)) == ChildStream(info, page)
    {
      var slot := SlotAt(info, page, i);
      var entry := ChildEntry(info, slot, keyOrder);
      if entry.Failure? {
        return Stream(entries, Some(entry.error));
      }
      ChildStep(info, slots, i, keyOrder, entries);
      entries, keyOrder := entries + [entry.value.0], entry.value.1;
    }
    return Stream(entries, None);
  }

  lemma ChildStep(info: FileInfo, slots: seq<Slot>, i: nat, keyOrder: byte, entries: seq<ChildRef>)
    requires i < |slots| && ChildEntry(info, slots[i], keyOrder).Success?
    ensures var entry := ChildEntry(info, slots[i], keyOrder).value;
      Prefix(entries, ChildrenFrom(info, slots, i, keyOrder))
        == Prefix(entries + [entry.0], ChildrenFrom(info, slots, i + 1, entry.1))
  {
    var entry := ChildEntry(info, slots[i], keyOrder).value;
    var rest := ChildrenFrom(info, slots, i + 1, entry.1);
    assert entries + ([entry.0] + rest.items) == (entries + [entry.0]) + rest.items;
  }

  // ---------------------------------------------------------------- lookup

  /** Python's `a <= b` on byte strings: lexicographic order. */
  predicate LexLe(a: seq<byte>, b: seq<byte>)
  {
    if a == [] then true
    else if b == [] then false
    else if a[0] != b[0] then a[0] < b[0]
    else LexLe(a[1..], b[1..])
  }

  /** Whether a search for `key` descends into the child with this entry. */
  predicate Covers(entry: ChildRef, key: seq<byte>)
  {
    entry.fence.None? || LexLe(key, entry.fence.value)
  }

  /** The position of the first entry that covers `key`, or `|entries|`. */
  function FirstCover(entries: seq<ChildRef>, key: seq<byte>): (j: nat)
    ensures j <= |entries|
    ensures j < |entries| ==> Covers(entries[j], key)
    ensures forall i :: 0 <= i < j ==> !Covers(entries[i], key)
  {
    if entries == [] then 0
    else if Covers(entries[0], key) then 0
    else
      var j := FirstCover(entries[1..], key);
      assert forall i :: 1 <= i < |entries| ==> entries[i] == entries[1..][i - 1];
      1 + j
  }

  /** `get_record` on a page: a leaf looks for the key among its records, a
      parent descends into the first child that covers the key. `depth` bounds
      the number of parent levels. */
  function PageGet(t: BTree, page: Page, key: seq<byte>, depth: nat, fuel: nat): (r: Result<Option<seq<byte>>>)
    decreases depth, 1
  {
    match page
    case Leaf(buf) => LeafGet(t, buf, key, fuel)
    case Parent(buf) => ParentGet(t, buf, key, depth, fuel)
  }

  /** `get_record` on a leaf: the value of the first of its records with the key. */
  function LeafGet(t: BTree, buf: seq<byte>, key: seq<byte>, fuel: nat): (r: Result<Option<seq<byte>>>)
  {
    var s := LeafStream(t, buf, fuel);
    FirstMatch(s.items, s.failure, key)
  }

  /** `get_record` on a parent: the lookup in the first child that covers the key. */
  function ParentGet(t: BTree, buf: seq<byte>, key: seq<byte>, depth: nat, fuel: nat): (r: Result<Option<seq<byte>>>)
    decreases depth, 0
  {
    var cs := ChildStream(t.info, buf);
    var j := FirstCover(cs.items, key);
    if j < |cs.items| then
      if depth == 0 then Failure(OutOfFuel)
      else
        var child :- ReadBuffer(t, cs.items[j].groupIndex);
        PageGet(t, child, key, depth - 1, fuel)
    else if cs.failure.Some? then Failure(cs.failure.value)
    else Success(None)
  }

  /** `BtreeFile.get_record`: the lookup from the root, group 0. */
  function FileGet(t: BTree, key: seq<byte>, depth: nat, fuel: nat): Result<Option<seq<byte>>>
  {
    var root :- ReadBuffer(t, 0);
    PageGet(t, root, key, depth, fuel)
  }

  // ---------------------------------------------------------------- enumeration

  /** `records` on a page: a leaf's records, or each child's records in turn,
      stopping at the first failure, the parent's own failure coming after the
      records of the entries before it. */
  function PageRecords(t: BTree, page: Page, depth: nat, fuel: nat): (s: Stream<Record>)
    decreases depth, 2, 0
  {
    match page
    case Leaf(buf) => LeafStream(t, buf, fuel)
    case Parent(buf) =>
      var cs := ChildStream(t.info, buf);
      Append(ChildrenRecords(t, cs.items, depth, fuel), Stream([], cs.failure))
  }

  function ChildrenRecords(t: BTree, entries: seq<ChildRef>, depth: nat, fuel: nat): (s: Stream<Record>)
    decreases depth, 1, |entries|
  {
    if entries == [] then Done()
    else Append(ChildRecords(t, entries[0].groupIndex, depth, fuel), ChildrenRecords(t, entries[1..], depth, fuel))
  }

  function ChildRecords(t: BTree, groupIndex: int, depth: nat, fuel: nat): (s: Stream<Record>)
    decreases depth, 0, 0
  {
    if depth == 0 then Fail(OutOfFuel)
    else match ReadBuffer(t, groupIndex)
      case Failure(e) => Fail(e)
      case Success(child) => PageRecords(t, child, depth - 1, fuel)
  }

  /** `BtreeFile.records`: the records under the root, group 0. */
  function FileRecords(t: BTree, depth: nat, fuel: nat): Stream<Record>
  {
    match ReadBuffer(t, 0)
    case Failure(e) => Fail(e)
    case Success(root) => PageRecords(t, root, depth, fuel)
  }

  /** When the children's records are read to the end, they hold those of each child. */
  lemma {:induction false} ChildrenRecordsHold(t: BTree, entries: seq<ChildRef>, depth: nat, fuel: nat, j: nat)
    requires j < |entries| && ChildrenRecords(t, entries, depth, fuel).Complete()
    ensures ChildRecords(t, entries[j].groupIndex, depth, fuel).Complete()
    ensures forall r :: r in ChildRecords(t, entries[j].groupIndex, depth, fuel).items ==>
      r in ChildrenRecords(t, entries, depth, fuel).items
    decreases |entries|
  {
    if j > 0 {
      ChildrenRecordsHold(t, entries[1..], depth, fuel, j - 1);
      assert entries[1..][j - 1] == entries[j];
    }
  }

  /** A lookup that finds something in a parent found it in the first child
      that covers the key, one level down. */
  lemma ParentGetDescends(t: BTree, page: Page, key: seq<byte>, depth: nat, fuel: nat)
    returns (j: nat, child: Page, d: nat)
    requires page.Parent?
    requires PageGet(t, page, key, depth, fuel).Success? && PageGet(t, page, key, depth, fuel).value.Some?
    ensures depth == d + 1
    ensures var cs := ChildStream(t.info, page.buf);
      && j == FirstCover(cs.items, key) && j < |cs.items|
      && ReadBuffer(t, cs.items[j].groupIndex) == Success(child)
    ensures PageGet(t, child, key, d, fuel) == PageGet(t, page, key, depth, fuel)
  {
    ParentGetStep(t, page, key, depth, fuel);
    var cs := ChildStream(t.info, page.buf);
    j := FirstCover(cs.items, key);
    child := ReadBuffer(t, cs.items[j].groupIndex).value;
    d := depth - 1;
  }

  /** The records of a parent read to its end hold those of each of its children. */
  lemma ParentRecordsHold(t: BTree, page: Page, depth: nat, fuel: nat, j: nat, child: Page, d: nat)
    requires page.Parent? && PageRecords(t, page, depth, fuel).Complete()
    requires var cs := ChildStream(t.info, page.buf);
      j < |cs.items| && depth == d + 1 && ReadBuffer(t, cs.items[j].groupIndex) == Success(child)
    ensures PageRecords(t, child, d, fuel).Complete()
    ensures forall r :: r in PageRecords(t, child, d, fuel).items ==> r in PageRecords(t, page, depth, fuel).items
  {
    var cs := ChildStream(t.info, page.buf);
    ChildrenRecordsHold(t, cs.items, depth, fuel, j);
    assert ChildRecords(t, cs.items[j].groupIndex, depth, fuel) == PageRecords(t, child, d, fuel);
  }

  /** What a lookup finds is a record of the page, when its records can be read
      to the end with the same bounds. */
  lemma {:induction false} LookupSound(t: BTree, page: Page, key: seq<byte>, depth: nat, fuel: nat)
    requires PageRecords(t, page, depth, fuel).Complete()
    requires PageGet(t, page, key, depth, fuel).Success? && PageGet(t, page, key, depth, fuel).value.Some?
    ensures exists r :: (r in PageRecords(t, page, depth, fuel).items &&
      r.key == key && r.raw == PageGet(t, page, key, depth, fuel).value.value)
    decreases depth
  {
    if page.Leaf? {
      var v := PageGet(t, page, key, depth, fuel).value.value;
      var s := LeafStream(t, page.buf, fuel);
      var i :| 0 <= i < |s.items| && s.items[i].key == key && s.items[i].raw == v;
      assert s.items[i] in PageRecords(t, page, depth, fuel).items;
    } else {
      var j, child, d := ParentGetDescends(t, page, key, depth, fuel);
      ParentRecordsHold(t, page, depth, fuel, j, child, d);
      LookupSound(t, child, key, d, fuel);
    }
  }

  /** The record streams of the children the entries lead to, in entry order. */
  function ChildStreams(t: BTree, entries: seq<ChildRef>, depth: nat, fuel: nat): (ss: seq<Stream<Record>>)
    ensures |ss| == |entries|
    ensures forall i :: 0 <= i < |entries| ==> ss[i] == ChildRecords(t, entries[i].groupIndex, depth, fuel)
  {
    seq(|entries|, i requires 0 <= i < |entries| => ChildRecords(t, entries[i].groupIndex, depth, fuel))
  }

  /** The loop over the entries is the nested loop over the children's streams. */
  lemma {:induction false} ChildrenRecordsFlatten(t: BTree, entries: seq<ChildRef>, depth: nat, fuel: nat)
    ensures ChildrenRecords(t, entries, depth, fuel) == Flatten(ChildStreams(t, entries, depth, fuel))
    decreases |entries|
  {
    if entries != [] {
      ChildrenRecordsFlatten(t, entries[1..], depth, fuel);
      assert ChildStreams(t, entries, depth, fuel)[1..] == ChildStreams(t, entries[1..], depth, fuel);
    }
  }

  /** The records of a parent are those of its children in entry order, then the
      failure of its entries if any: they are read to the end exactly when the
      entries and every child are, and then they are the children's records one
      after another. */
  lemma ParentRecordsFlatten(t: BTree, page: Page, depth: nat, fuel: nat)
    requires page.Parent?
    ensures var cs := ChildStream(t.info, page.buf);
      var ss := ChildStreams(t, cs.items, depth, fuel);
      var s := PageRecords(t, page, depth, fuel);
      && s == Append(Flatten(ss), Stream([], cs.failure))
      && (s.Complete() <==> cs.Complete() && forall i :: 0 <= i < |ss| ==> ss[i].Complete())
      && (s.Complete() ==> s.items == ConcatItems(ss))
  {
    ChildrenRecordsFlatten(t, ChildStream(t.info, page.buf).items, depth, fuel);
  }

  /** The records of a parent stop at the first child whose records fail: the
      records of the children before it and what it yielded, then its error. */
  lemma ParentRecordsStop(t: BTree, page: Page, depth: nat, fuel: nat, k: nat)
    requires page.Parent?
    requires var ss := ChildStreams(t, ChildStream(t.info, page.buf).items, depth, fuel);
      k < |ss| && !ss[k].Complete() && forall i :: 0 <= i < k ==> ss[i].Complete()
    ensures var ss := ChildStreams(t, ChildStream(t.info, page.buf).items, depth, fuel);
      && PageRecords(t, page, depth, fuel).items == ConcatItems(ss[..k]) + ss[k].items
      && PageRecords(t, page, depth, fuel).failure == ss[k].failure
  {
    var ss := ChildStreams(t, ChildStream(t.info, page.buf).items, depth, fuel);
    ParentRecordsFlatten(t, page, depth, fuel);
    FlattenStops(ss, k);
  }

  /** A lookup in a parent: the first child covering the key is read and
      searched one level down; with no covering entry the lookup fails with the
      entries' failure, or finds nothing. */
  lemma ParentGetStep(t: BTree, page: Page, key: seq<byte>, depth: nat, fuel: nat)
    requires page.Parent?
    ensures var cs := ChildStream(t.info, page.buf);
      var j := FirstCover(cs.items, key);
      var r := PageGet(t, page, key, depth, fuel);
      && (j < |cs.items| && depth == 0 ==> r == Failure(OutOfFuel))
      && (j < |cs.items| && depth > 0 ==>
            r == match ReadBuffer(t, cs.items[j].groupIndex)
                 case Failure(e) => Failure(e)
                 case Success(child) => PageGet(t, child, key, depth - 1, fuel))
      && (j == |cs.items| ==> r == if cs.failure.Some? then Failure(cs.failure.value) else Success(None))
  {
  }

  /** A lookup in a leaf finds the value of the first record with the key. */
  lemma LeafGetFirst(t: BTree, page: Page, key: seq<byte>, fuel: nat, depth: nat, i: nat)
    requires page.Leaf?
    requires var recs := LeafStream(t, page.buf, fuel).items;
      i < |recs| && recs[i].key == key && forall j :: 0 <= j < i ==> recs[j].key != key
    ensures PageGet(t, page, key, depth, fuel) == Success(Some(LeafStream(t, page.buf, fuel).items[i].raw))
  {
    var s := LeafStream(t, page.buf, fuel);
    FirstMatchIsFirst(s.items, s.failure, key, i);
  }

  /** A lookup in a leaf with no record of the key fails with the leaf's
      failure, or finds nothing. */
  lemma LeafGetAbsent(t: BTree, page: Page, key: seq<byte>, fuel: nat, depth: nat)
    requires page.Leaf?
    requires var recs := LeafStream(t, page.buf, fuel).items;
      forall j :: 0 <= j < |recs| ==> recs[j].key != key
    ensures var s := LeafStream(t, page.buf, fuel);
      PageGet(t, page, key, depth, fuel) == if s.failure.Some? then Failure(s.failure.value) else Success(None)
  {
  }

  /** What a lookup from the root finds is a record of the file, when the
      file's records can be read to the end with the same bounds. */
  lemma FileLookupSound(t: BTree, key: seq<byte>, depth: nat, fuel: nat)
    requires FileRecords(t, depth, fuel).Complete()
    requires FileGet(t, key, depth, fuel).Success? && FileGet(t, key, depth, fuel).value.Some?
    ensures exists r :: (r in FileRecords(t, depth, fuel).items &&
      r.key == key && r.raw == FileGet(t, key, depth, fuel).value.value)
  {
    var root := ReadBuffer(t, 0).value;
    LookupSound(t, root, key, depth, fuel);
  }
}
