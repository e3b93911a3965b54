# mattock decoding core, modelled in Dafny

mattock reads Universe/Unidata storage files without the database engine.
This project models its decoding engine as functions over byte sequences and
proves properties of them. A file is a `seq<byte>`. A dynamic file's overflow
file (`OVER.30`) is a second `seq<byte>`. The model covers:

- **Key/path codec** (`path_codec.dfy`). Escaping a record key into a file name
  (`?` → `??`, `/` → `?\`, `?` in front of a leading `.`, `?` for the empty
  key) and unescaping it. Splitting a key into type-1 path segments of at most
  14 bytes, chosen greedily. The one-segment type-19 path. Reading a path back
  into a key.
- **File header** (`header.dfy`, `uv_file_info.dfy`). Decoding the first 1024
  bytes into the file geometry: byte order, 32/64-bit layout, file type,
  modulus (moved in type-30 files), separation, group length, header length
  and dynamic hash algorithm. An encoder is the partner for the round trip.
- **Hashed groups** (`group.dfy`). Item headers and their byte-order-dependent
  flag bits, and item lengths bounded by the group buffer. Forwarding into the
  overflow file, reassembly of oversized items and padding removal. The walk of
  a group's item chain, with each record split at its first 0xFF.
- **Hashed files** (`hashed.dfy`). The records of a static file's groups
  `0 .. modulus-1`, or of a dynamic file's groups `0 .. modulus`, one group
  after another.
- **B-tree files** (`btree.dfy`). Classifying pages by type tag. Leaf item
  tables, with their ordering check, padding and chains of oversize pages.
  Parent entries, with child group indices and fence keys. Point lookup and
  depth-first enumeration.
- **Records** (`record.dfy`). Splitting a raw value into fields (0xFE), values
  (0xFD) and subvalues (0xFC), with `get` and `to_list`.
- **Opening** (`dispatch.dfy`). The choice between a static hashed file and a
  B-tree (file type 25) made from the header, and a type-30 directory opened as
  a dynamic hashed file.

Python generators become `Stream`s: the items yielded before the generator
stopped, plus the exception that stopped it, if any. Exceptions become
`ReadError` values. Python's `bytes` operations are written out in `bytes.dfy`:
slicing with clamped and negative bounds, indexing that can fail,
`int.from_bytes`, `find`, `split`/`join` and `replace`.

Pointers stored in a file can form cycles. Every walk therefore takes a bound:

- `steps` bounds the items of a group chain;
- in hashed files, `fuel` bounds how deeply oversized items nest;
- in B-trees, `fuel` bounds the pages of an oversize chain;
- `depth` bounds the parent levels of a B-tree.

Running out of a bound yields `OutOfFuel`.

The loops of the source are methods, each proved equal to a specification
function:

- `KeyToType1Path` with `NextChunk`;
- `ReadItem` with `ReadItemBuffer`, `ReadContinuations` and `ReadContinuation`;
- `GroupRecords` with `WalkStep`;
- `LeafRecords` with `DecodeLeafItem`;
- `ReadOversizeChain`;
- `ChildGroupIndices`.

The round trip `type1_path_to_key(key_to_type1_path(k)) == k` holds only for
keys that contain no `?` directly followed by `\`. The key `?\` escapes to
`??\`, which unescapes to `?/` (`PathCodec.AmbiguousKey`). The round-trip
lemmas are therefore stated for `Unambiguous` keys. This is the code's
behaviour, and the model keeps it.

Two checks that a reader of the file format might expect are absent from the
code, and so from the model. The walk of a hashed group's item chain does not
compare any ordering byte between items. A parent page accepts an empty key
slot, which gives a child without a fence key, at any position among its
entries and not only at the first one (files.py:361-362).

## Model

| member | source | states |
|---|---|---|
| Wrappers.Flatten | mattock/files.py:207-210 | The nested loop over groups and their records completes exactly when every group's stream completes. When it completes, it yields the concatenation of their items. |
| Wrappers.FlattenStops | mattock/files.py:238-241 | The nested loop stops at the first group that raises. It yields everything before that group and what that group yielded, then raises that group's error. |
| Wrappers.FlattenMember | mattock/files.py:207-210 | Every record the nested loop yields comes from one of the groups. |
| Bytes.BytesRoundTrip | mattock/files.py:154 | `int.from_bytes` in either byte order inverts the n-byte encoding of any integer below 256^n. |
| Bytes.SliceBound | mattock/files.py:142 | A slice bound in range is itself. One past the end is clamped to the length. A negative one counts from the end and is clamped to 0. |
| Bytes.Slice | mattock/files.py:142 | Python slicing is the subsequence between the two clamped bounds, or empty when the start bound is not before the end bound. In-range bounds give `s[i..j]`. |
| Bytes.Read | mattock/files.py:428 | `seek(pos); read(n)` gives the bytes from pos up to pos + n or the end of the file, whichever comes first, and none past the end. |
| Bytes.At | mattock/files.py:295 | A Python index on bytes or a list succeeds exactly within `-len <= i < len`, counting negative positions from the end. Any other index raises IndexError. |
| Bytes.FloorDiv | mattock/files.py:355 | Python's `//` with a positive divisor: the quotient q satisfies q*b <= a < q*b + b. |
| Bytes.Find | mattock/files.py:329 | `find` gives -1 exactly when the byte is absent. Otherwise it gives a position holding the byte, with no earlier occurrence. |
| Bytes.SplitJoin | mattock/record.py:11 | Joining the pieces of `split` with the delimiter gives the input back. There is one piece more than there are delimiters, and no piece holds the delimiter. |
| Bytes.ReplaceByteAppend | mattock/files.py:16-17 | A one-byte `replace` acts on each part of a concatenation independently. |
| Header.HeaderBlock | mattock/files.py:140 | The header block is the first 1024 bytes of the file, or the whole file if it is shorter. |
| Header.HeaderLength | mattock/files.py:173-175 | The header length is the group length when the separation is even, and 1024 when it is odd. |
| Header.ReadFileHeader | mattock/files.py:139-186 | A file shorter than 4 bytes raises IndexError. Otherwise decoding succeeds exactly when the revision byte is 0x0c and raises UNSUPPORTED_REVISION when it is not. The order is little iff bytes 2..4 are EF AC. Arch and revision are bytes 1 and 0 in little order, 2 and 3 in big order. Arch byte 1 means 32-bit. File type is bytes 4..8. The modulus is bytes 12..16 or 8..16, moved to 0x24 or 0x20 for type 30. Separation is bytes 16..20, group length is separation*512, and the hash algorithm is bytes 0x48..0x4c. |
| Header.ModulusFieldOfEncoded | mattock/files.py:152-166 | The modulus slot the decoder picks in each layout holds the encoded modulus, for type-30 and other files alike. |
| Header.HeaderFields | mattock/files.py:142-168 | An encoded header holds each field at the offset the decoder reads it from. |
| Header.EncodeHeaderRoundTrip | mattock/files.py:139-186 | For any byte order, layout, file type, modulus, separation and hash algorithm that fit their fields, and whatever follows the first block, decoding an encoded header gives back exactly that geometry. |
| Records.MakeValue | mattock/record.py:10-11 | The subvalues are the bytes split on 0xFC. There is one more subvalue than there are 0xFC bytes, none holds 0xFC, and joining them gives the bytes back. |
| Records.MakeField | mattock/record.py:22-23 | The values are the bytes split on 0xFD, each made into a Value. There is one more value than there are 0xFD bytes. |
| Records.MakeRecord | mattock/record.py:36-39 | Key and raw are stored unchanged. The fields are raw split on 0xFE, each made into a Field, and there is one more field than there are 0xFE bytes. |
| Records.FieldRoundTrip | mattock/record.py:22-23 | Joining a field's values (and their subvalues) back with their marks gives the field's bytes. |
| Records.RecordRoundTrip | mattock/record.py:36-39 | Joining the fields, values and subvalues back with 0xFE/0xFD/0xFC reconstructs raw. |
| Records.PlainField | mattock/record.py:10-23 | A field without value or subvalue marks is one value with one subvalue: the field's bytes. |
| Records.ValueGet | mattock/record.py:4-5 | `Value.get(s)` is None for s at or past the end, and the subvalue for s in range. A negative s from `-len` on gives the subvalue counted from the end. It raises only below `-len`. |
| Records.FieldGet | mattock/record.py:16-17 | `Field.get(v, s)` is None for v at or past the end, raises below `-len`, and otherwise is `get(s)` of value v, a negative v counting from the end. |
| Records.RecordGet | mattock/record.py:30-31 | `Record.get(f, v, s)` is None for f at or past the end, raises below `-len`, and otherwise is `get(v, s)` of field f, a negative f counting from the end. |
| Records.GetInRange | mattock/record.py:30-31 | With non-negative positions, `get` never raises. It finds a subvalue exactly when every position is in range at its level, and that subvalue is the addressed one. |
| Records.GetFromEnd | mattock/record.py:30-31 | Position -1 addresses the last field. |
| Records.ValueList | mattock/record.py:7-8 | `Value.to_list()` is the list of subvalues. |
| Records.FieldList | mattock/record.py:19-20 | `Field.to_list()` has one entry per value, each that value's list. |
| Records.RecordList | mattock/record.py:33-34 | `Record.to_list()` has one entry per field, each that field's list. |
| Records.ListAgreesWithGet | mattock/record.py:30-34 | Every subvalue `get` finds is at the same position of `to_list()`. |
| Groups.ItemFile | mattock/group.py:27-30 | An item is read from the overflow file exactly when the walk is in it and the group has one. Otherwise it is read from the primary file. |
| Groups.HeaderSize | mattock/group.py:33-40 | An item header is 12 bytes in the 32-bit layout and 24 in the 64-bit one. |
| Groups.FlagsRoundTrip | mattock/group.py:46-59 | The six flag masks of each byte order are distinct single bits. Decoding the flag word that sets exactly the given flags gives back those flags. |
| Groups.LittleFlagsRoundTrip | mattock/group.py:46-52 | In little order, free/padded/new-style padding/forward/oversized/oversize buffer are bits 1/5/4/13/7/6, and each reads back independently. |
| Groups.BigFlagsRoundTrip | mattock/group.py:53-59 | In big order the same flags are bits 14/10/11/2/8/9, and each reads back independently. |
| Groups.ReadItemHeader | mattock/group.py:26-63 | The header is the header-size bytes at the offset of the file the walk is in. It is empty exactly when the offset is at or past that file's end. The forward pointer is its first word, the back link its second (4-byte words on 32-bit files, 8-byte on 64-bit), and the flags are decoded from the two bytes after the next two. |
| Groups.HeaderAt | mattock/group.py:32-44 | The header bytes are what `seek(offset); read(size)` returns. The forward pointer is bytes 0..w, the back link bytes w..2w, and the flags are decoded from bytes 2w+2..2w+4, with w 4 on 32-bit files and 8 on 64-bit ones. |
| Groups.BufferStart | mattock/group.py:98-99 | The start of the group buffer holding an offset is at most the offset, and the offset lies before the buffer's end. |
| Groups.BufferStartIsFloor | mattock/group.py:98-99 | That start is `header_length + ((offset - header_length) // group_length) * group_length`. |
| Groups.ItemLength | mattock/group.py:98-109 | A forward pointer strictly inside the current group buffer makes the item end at the pointer. A zero pointer, or one outside the buffer, makes it end at the buffer's end. Either way the item never passes the buffer's end. |
| Groups.TrimPadding | mattock/group.py:148-152 | Padding removal fails exactly on an empty buffer and never adds bytes. Otherwise the padding count p is the last byte, or, when that byte is 0, the last 8 bytes read as an integer. A count up to the length drops p trailing bytes. A larger count is a negative slice end, which keeps the first 2·len − p bytes, or none. |
| Groups.ContinueStep | mattock/group.py:133-142 | A continuation with a next offset appends its bytes, and the loop goes on from that offset with one fewer turn left. |
| Groups.ContinueKeepsPrefix | mattock/group.py:133-142 | What the item held before its continuations stays at the front of the reassembled buffer. |
| Groups.MissingContinuation | mattock/group.py:143-144 | A continuation offset past the end of the overflow file is the "expected os_item" error. |
| Groups.NoItem | mattock/group.py:82-91 | There is no item exactly when the header read is empty (offset at or past the end) or the item is free with a zero forward pointer. |
| Groups.FreeItem | mattock/group.py:89-96 | A free item with a forward pointer has no record buffer and passes the walk on to that pointer, in the overflow file if it forwards there. |
| Groups.ItemLinks | mattock/group.py:85-158 | Every item read names the next offset: none iff its forward pointer is 0, else the pointer. The next read is in the overflow file iff the item forwards there or the walk is already there, so the walk never leaves the overflow file. An item has a record buffer iff it is not free. |
| Groups.ZeroGroupLength | mattock/group.py:98 | A non-free item in a file whose group length is 0 raises a division by zero. |
| Groups.ItemAt | mattock/group.py:65-158 | `read_item` on the file the walk is in. No contract of its own: NoItem, FreeItem, ItemLinks and ZeroGroupLength state its cases, and ReadItem is proved to compute it. |
| Groups.ItemIn | mattock/group.py:65-158 | `read_item` on given file contents: no item for an empty header, the forward pointer alone for a free item, a division by zero for group length 0, else the record buffer. No contract of its own; the lemmas on ItemAt state it. |
| Groups.ItemBuffer | mattock/group.py:116-152 | The record buffer of a non-free item. No contract of its own: ItemBufferNotOversized and ItemBufferOversized state it. |
| Groups.ItemBufferNotOversized | mattock/group.py:98-152 | The record buffer of an item that is not oversized is the bytes read up to the item's end (none when the length is not positive), with the padding dropped exactly when the item is padded. |
| Groups.ItemBufferOversized | mattock/group.py:116-152 | An oversized item gathers its continuations from the bytes read. A failure there is the item's failure. The padding is dropped from the whole, after the continuations, exactly when the item is padded. |
| Groups.Oversized | mattock/group.py:122-146 | The reassembly of an oversized item. No contract of its own; OversizedLayout states it. |
| Groups.OversizedLayout | mattock/group.py:122-131 | The continuation offset is the first 4 bytes (32-bit) or 8 bytes (64-bit) of the buffer. The count of continuations is the next 4 bytes. The record continues with the bytes after them. |
| Groups.ContinueFrom | mattock/group.py:133-144 | The `for i in range(os_count)` loop. No contract of its own: ContinueNone, ContinueStep, ContinueLast, ContinueFails, MissingContinuation and ContinueChain state it. |
| Groups.ContinueNone | mattock/group.py:133 | With no continuations left to read, the loop keeps the buffer as it is. |
| Groups.ContinueLast | mattock/group.py:134-140 | A continuation with no next offset appends its bytes and breaks out of the loop, however many turns were left. |
| Groups.ContinueFails | mattock/group.py:134 | A failure reading a continuation item is the failure of the loop. |
| Groups.ContinueChain | mattock/group.py:133-144 | A loop that succeeds has read at most `os_count` items, each at the next offset of the one before. Their bytes are appended in order after the starting buffer. It stops short of `os_count` only at an item with no next offset. |
| Groups.ReadItem | mattock/group.py:65-158 | The method computes the item specified by ItemAt, including the error cases. |
| Groups.ReadItemBuffer | mattock/group.py:116-152 | The method computes the record buffer specified by ItemBuffer, whose cases ItemBufferNotOversized, ItemBufferOversized and OversizedLayout state. |
| Groups.ReadContinuations | mattock/group.py:133-146 | The `for i in range(os_count)` loop computes the continuation result specified by ContinueFrom, whose behaviour ContinueChain states. |
| Groups.ReadContinuation | mattock/group.py:134-144 | One turn of that loop either ends it with the loop's result or leaves the same result to be computed from the next offset, with one turn fewer. |
| Groups.SplitKey | mattock/group.py:180-189 | Splitting succeeds exactly when the buffer holds 0xFF. Then key + 0xFF + content is the buffer, the key holds no 0xFF, and the record is built from key and content. |
| Groups.GroupStart | mattock/group.py:163 | The walk starts at `header_length + group_length * groupIndex`. |
| Groups.WalkKeys | mattock/group.py:180-189 | No key the walk yields holds 0xFF, and every record is its raw bytes split into fields. |
| Groups.WalkFrom | mattock/group.py:161-189 | The walk of the item chain from a state. No contract of its own: WalkEnds, WalkYield, WalkSkip, WalkMissingKeyMark and WalkKeys state its turns. |
| Groups.GroupRecordStream | mattock/group.py:161-189 | `Group.records`: the walk from the group's start in the primary file. No contract of its own; GroupRecords is proved to compute it. |
| Groups.WalkEnds | mattock/group.py:165-178 | The walk ends without error after an item with no next offset, at an offset at or past the end of the file, and at a free item with a zero forward pointer. |
| Groups.WalkMissingKeyMark | mattock/group.py:180-184 | A non-empty record buffer without 0xFF ends the walk with an error. |
| Groups.WalkYield | mattock/group.py:180-189 | An item with a non-empty buffer yields its record, and the walk goes on from that item. |
| Groups.WalkSkip | mattock/group.py:171-180 | A free item or an empty buffer yields nothing, and the walk goes on from that item. |
| Groups.GroupRecords | mattock/group.py:161-189 | The `while True` loop over the walk state computes the stream specified by GroupRecordStream. |
| Groups.WalkStep | mattock/group.py:175-189 | One turn of that loop either ends the walk with what it yields or yields its records ahead of the walk from the next state. |
| PathCodec.Escape | mattock/files.py:13-22 | An escape is never empty and at most one byte longer than twice the key. |
| PathCodec.EscapeLegal | mattock/files.py:13-22 | An escape holds no `/` and does not start with `.`. |
| PathCodec.ReplacesEscapeEachByte | mattock/files.py:16-17 | The two `replace` calls amount to escaping each byte on its own (`?` → `??`, `/` → `?\`). |
| PathCodec.EscapeIsReplace | mattock/files.py:13-22 | Escape is the source's computation: `?` for the empty key; otherwise the two replaces, with `?` put in front when the result starts with `.`. |
| PathCodec.EscapePerByte | mattock/files.py:13-22 | The escape is the per-byte escape, behind an extra `?` exactly when the key starts with `.`. |
| PathCodec.Unescape | mattock/files.py:24-38 | Unescaping fails exactly on an empty segment. |
| PathCodec.UnescapeLong | mattock/files.py:31-38 | A segment other than `?` and `?0` loses the `?` of a leading `?.`, then `?\` becomes `/` and `??` becomes `?`, left to right. |
| PathCodec.UndoSlashes | mattock/files.py:35 | Replacing `?\` by `/` in an escaped key undoes the slash escape, for keys without `?\`. |
| PathCodec.UndoDoubling | mattock/files.py:36 | Replacing `??` by `?` undoes the doubling of every `?`, for all keys. |
| PathCodec.UnescapeEscape | mattock/files.py:13-38 | Unescaping an escaped key gives the key back, for every key without `?\`. |
| PathCodec.AmbiguousKey | mattock/files.py:13-38 | The key `?\` escapes to `??\` and unescapes to `?/`, so the round trip excludes such keys. |
| PathCodec.ChunkLenFrom | mattock/files.py:46-55 | Trying lengths from `len` down gives a length between 1 and `len`. |
| PathCodec.ChunkLenTry | mattock/files.py:46-55 | Trying one length above 1 gives a length between 1 and that length. |
| PathCodec.ChunkLenGreedy | mattock/files.py:46-55 | The chunk length chosen is the longest whose escape fits in 14 bytes: it fits, and no longer length up to the start fits. |
| PathCodec.ChunkLen | mattock/files.py:46-55 | A chunk is between 1 and 14 bytes long. |
| PathCodec.Type1SegmentsFrom | mattock/files.py:40-68 | The segments already placed stay in front, and at least one segment is added. |
| PathCodec.Type1Segments | mattock/files.py:40-70 | A type-1 path has at least one segment. Type1SegmentsLegal, Type1SegmentsChunks and Type1RoundTrip state the rest. |
| PathCodec.SegmentsFromLegal | mattock/files.py:40-68 | Continuing from legal segments yields only legal segments. |
| PathCodec.Type1SegmentsLegal | mattock/files.py:40-68 | Every segment of a type-1 path is non-empty, at most 14 bytes, free of `/` and does not start with `.`. |
| PathCodec.NextChunk | mattock/files.py:46-55 | The inner loop stops at the longest length whose escape fits, with that chunk's escape and the rest of the key. |
| PathCodec.KeyToType1Path | mattock/files.py:40-70 | The outer loop over `parts` and `last` computes the segments specified by Type1Segments. |
| PathCodec.SliceAt | mattock/files.py:48-49 | `last[:n]` and `last[n:]` are the prefix and the rest at n, clamped to the key. |
| PathCodec.RawChunks | mattock/files.py:46-63 | A key has at least one raw chunk. |
| PathCodec.RawChunksCover | mattock/files.py:40-68 | Concatenating the raw chunks gives the key back, and every chunk but the last is non-empty. |
| PathCodec.NextSplit | mattock/files.py:48-49 | A key is its next chunk followed by the rest, and a non-empty rest is shorter than the key. |
| PathCodec.SegmentsFromStep | mattock/files.py:60-68 | One turn of the outer loop: with bytes left, the escaped chunk is placed and the loop goes on. Otherwise the escaped chunk is the last segment, followed by `?` exactly when it is 14 bytes long. |
| PathCodec.SegmentsFromChunks | mattock/files.py:60-68 | Continuing from any placed segments adds the escapes of the raw chunks, then the filler. |
| PathCodec.Type1SegmentsChunks | mattock/files.py:60-68 | A type-1 path is the escape of each raw chunk, with one `?` segment more exactly when the last escaped chunk is 14 bytes long. |
| PathCodec.Type1PathToKey | mattock/files.py:76-77 | `type1_path_to_key`: the unescaped segments, concatenated. No contract of its own: PathToKeyFails, PathToKeyAppend and the round trips state it. |
| PathCodec.PathToKeyFails | mattock/files.py:76-77 | Reading a path back fails exactly when one of its segments is empty. |
| PathCodec.PathToKeyAppend | mattock/files.py:76-77 | Reading back a concatenated path gives the concatenation of the keys of its parts. |
| PathCodec.SegmentsFromAppend | mattock/files.py:60-63 | The segments placed before the rest of the key is split stay in front of the segments of that rest. |
| PathCodec.SegmentsFromMore | mattock/files.py:60-63 | A turn that leaves bytes places the escaped chunk and goes on from the rest. |
| PathCodec.AppendFinal | mattock/files.py:64-68 | The last turn appends the key's own segments to those already placed. |
| PathCodec.FirstSegment | mattock/files.py:60-63 | When bytes are left after the first chunk, the path is that chunk's escape followed by the path of the rest. |
| PathCodec.Type1RoundTrip | mattock/files.py:40-77 | `type1_path_to_key(key_to_type1_path(k)) == k` for every key without `?\`. |
| PathCodec.Type19Segments | mattock/files.py:72-73 | A type-19 path is one non-empty segment without `/`. |
| PathCodec.Type19RoundTrip | mattock/files.py:72-77 | `type1_path_to_key(key_to_type19_path(k)) == k` for every key without `?\`. |
| PathCodec.TextToRecordBody | mattock/files.py:94 | Replacing CR LF with 0xFE never lengthens the contents, and leaves contents without CR LF unchanged. |
| PathCodec.FieldMarkRoundTrip | mattock/files.py:94 | Contents whose field marks were written out as CR LF, and which hold no CR LF of their own, read back with each CR LF turned into 0xFE give the original contents. |
| PathCodec.EscapeEmptyExample | mattock/tests/test_mattock.py:74 | The empty key escapes to `?`. |
| PathCodec.EscapeDotExample | mattock/tests/test_mattock.py:77 | `.` escapes to `?.`. |
| PathCodec.EscapeQuestionExample | mattock/tests/test_mattock.py:80 | `?` escapes to `??`. |
| PathCodec.EscapeSlashExample | mattock/tests/test_mattock.py:83 | `/` escapes to `?\`. |
| PathCodec.EscapeInnerQuestionExample | mattock/tests/test_mattock.py:89 | `K?3` escapes to `K??3`. |
| PathCodec.ShortKey | mattock/files.py:40-68 | A key of at most 14 bytes whose escape is shorter than 14 is a path of one segment, its escape. |
| PathCodec.Type1SplitExample | mattock/tests/test_mattock.py:86 | `ABC023642/98734256` splits after 13 bytes into `ABC023642?\987` and `34256`. |
| PathCodec.ExampleChunk | mattock/tests/test_mattock.py:86 | The first chunk of that key is 13 bytes long: 13 bytes fit once escaped and 14 do not. |
| Hashed.MakeDynamic | mattock/files.py:218-224 | Building a dynamic file fails exactly when the geometry has no hashing algorithm. Otherwise it keeps both files, the geometry and the algorithm. |
| Hashed.FileGroups | mattock/files.py:202-205 | A static file has groups 0 to modulus-1 and no overflow file. A dynamic file has groups 0 to modulus, each with the overflow file. Each group has its index, the file's geometry and its bytes. |
| Hashed.GroupStreams | mattock/files.py:233-236 | One record stream per group, in group order. |
| Hashed.HashedRecords | mattock/files.py:238-241 | A file's records complete exactly when every group's do. They are then the groups' records, in group order. |
| Hashed.HashedRecordsStop | mattock/files.py:207-210 | The first group that fails ends the file's records: the earlier groups' records come first, then that group's partial records and its error. |
| Hashed.HashedKeys | mattock/files.py:207-210 | Every record of a hashed file has a key without 0xFF and is its raw bytes split into fields. |
| Hashed.StaticNeverForwards | mattock/files.py:202-205 | A static file's items are always read from the primary file, even when an item asks to forward. |
| BTrees.ReadBuffer | mattock/files.py:425-435 | A negative page offset fails, and the page is the next group length of bytes. Tag 2 gives a leaf and tag 1 a parent. Any other tag is an error naming the page's first byte, or an IndexError for an empty page. |
| BTrees.ReadOversize | mattock/files.py:249-265 | The page is `seek; read` of one group length at the offset. It succeeds exactly when its type is 8. Otherwise it fails with the oversize-page error; the model's error carries the type, which the source's message does not interpolate. On success it gives the next offset and the payload: in the 32-bit layout the next offset from bytes 4..8 and `page[12:12+length]` with the length from bytes 8..12, in the 64-bit layout the next offset from bytes 8..16 and `page[16:16+length]` with the length from bytes 4..8. The payload is never longer than a page. |
| BTrees.OversizePage | mattock/files.py:252-265 | A page read as a continuation page succeeds exactly when its type is 8. It then gives the next offset from bytes 4..8 (32-bit) or 8..16 (64-bit) and the payload `page[12:12+length]` (length from bytes 8..12) or `page[16:16+length]` (length from bytes 4..8). The payload is no longer than the page. |
| BTrees.Prepend | mattock/files.py:327 | Prepending accumulated bytes keeps success, failure and the error, and puts the bytes in front. |
| BTrees.ChainFromIsChain | mattock/files.py:325-327 | The `while next_offset > 0` accumulation is the page-by-page chain appended to what it started with, and has the same errors. |
| BTrees.ChainFrom | mattock/files.py:325-327 | The `while next_offset > 0` accumulation. No contract of its own: ChainFromIsChain and ChainNeedsOversizePages state it, and ReadOversizeChain is proved to compute it. |
| BTrees.ChainNeedsOversizePages | mattock/files.py:252-254 | A first continuation page whose type is not 8 fails the chain with the oversize-page error (carrying the type in the model). |
| BTrees.ReadOversizeChain | mattock/files.py:325-327 | The loop computes the chain specified by ChainFrom. |
| BTrees.LeafItems | mattock/files.py:278-291 | A leaf has as many items as the count word just before the offset table (bytes 0x0c..0x0e or 0x18..0x1a) says. |
| BTrees.LeafItemBytes | mattock/files.py:292-294 | A definition: item i's bytes, located by the i-th words of the offset and length tables; LeafItemLayout states where. |
| BTrees.LeafTable | mattock/files.py:276-294 | Item i is the page slice that starts at the data area (0x200 past the offset table at 0x0e or 0x1a) plus the i-th offset word, and is as long as the i-th word of the length table (0x100 past the offset table). |
| BTrees.LeafEntry | mattock/files.py:291-294 | Item i of the table is the one LeafItemBytes locates. |
| BTrees.LeafItemLayout | mattock/files.py:292-294 | LeafItemBytes takes item i from the data area at the i-th offset word, as long as the i-th length word. |
| BTrees.SplitLeafItem | mattock/files.py:329-330 | With a 0xFF, key + 0xFF + value is the item and the key holds no 0xFF. Without one, the key is all but the last byte and the value is the whole item. |
| BTrees.LeafItemHead | mattock/files.py:295-307 | An item of at least two bytes fails exactly when its ordering byte (byte 0 in little order, 1 in big) is below the previous item's. Otherwise the last, ordering and flag bytes are read. An empty item fails with IndexError; a one-byte item fails with "out of order" in little order when its byte is below the previous ordering byte (the check comes before the flag byte is read), and with IndexError otherwise. |
| BTrees.LeafItem | mattock/files.py:295-332 | One item of the leaf loop. No contract of its own: LeafItemHead, LeafItemOrder, LeafOutOfOrderFails, LeafItemPlain and LeafItemOversized state it. |
| BTrees.LeafStream | mattock/files.py:273-332 | `BTreeLeaf.records`. No contract of its own: LeafUnfold, LeafLength, LeafOrdered and LeafCompleteStep state it, and LeafRecords is proved to compute it. |
| BTrees.LeafUnfold | mattock/files.py:291-332 | The leaf loop decodes item i, then goes on with its ordering byte, or stops with the item's error. |
| BTrees.LeafItemOrder | mattock/files.py:297-307 | A decoded item's ordering byte is its byte 0 (little) or 1 (big), and is not below the previous one. |
| BTrees.LeafLength | mattock/files.py:291-332 | A leaf read to its end yields one record per item. |
| BTrees.LeafOrdered | mattock/files.py:297-307 | In a leaf read to its end, the ordering bytes never decrease. |
| BTrees.LeafCompleteStep | mattock/files.py:297-307 | A complete run from item i decodes item i, not below the previous ordering byte, and stays complete from its ordering byte. |
| BTrees.LeafOutOfOrderFails | mattock/files.py:298-305 | An item whose ordering byte is below the previous one stops the leaf with "out of order". |
| BTrees.LeafItemPlain | mattock/files.py:309-330 | Without bit 6 the record is the body split at its first 0xFF. The padding counted by the last byte is dropped only when bit 5 is set. |
| BTrees.LeafItemOversized | mattock/files.py:311-331 | With bit 6 the continuation chain succeeds, and the value is the body's value followed by the whole chain. |
| BTrees.DecodeLeafItem | mattock/files.py:295-332 | The method computes the item specified by LeafItem. |
| BTrees.LeafRecords | mattock/files.py:273-332 | The loop over the item table computes the stream specified by LeafStream. |
| BTrees.LeafStep | mattock/files.py:291-332 | A decoded item moves one record from the rest of the leaf into the records already yielded. |
| BTrees.FirstMatch | mattock/files.py:267-271 | A value found belongs to a record with that key. With no such record, the result is the leaf's error, or None. |
| BTrees.FirstMatchIsFirst | mattock/files.py:267-271 | The value found is that of the first record with the key. |
| BTrees.Slots | mattock/files.py:346-352 | A parent has one entry more than the key count word just before the key offset table (at 0x606 or 0xC0A) says. |
| BTrees.SlotTable | mattock/files.py:346-358 | Entry i's child offset is the i-th 4-byte word after the first (32-bit) or the i-th 8-byte word after the first (64-bit). Its key slot is the key data at 0x600 past the key offset table, found by the i-th words of the key offset table and of the key length table 0x300 past it. |
| BTrees.SlotEntry | mattock/files.py:352-358 | Entry i of the table is the one SlotAt reads. |
| BTrees.SlotAtLayout | mattock/files.py:353-358 | SlotAt reads the child offset from the i-th pointer word and the key slot from the i-th key offset and key length words. |
| BTrees.GroupIndexOf | mattock/files.py:355 | The child index succeeds exactly when the group length is not 0, and the child offset lies in that group's page. |
| BTrees.ChildEntry | mattock/files.py:354-369 | A group length of 0 fails. An empty key slot gives no fence and keeps the ordering byte. A non-empty slot fails exactly when its first byte is below the ordering byte; otherwise it gives the slot less two bytes as fence, and its first byte becomes the ordering byte. |
| BTrees.ChildrenComplete | mattock/files.py:353-369 | A parent read to its end has one entry per slot. Each entry points at the group its child offset falls in, and has no fence iff its key slot is empty. |
| BTrees.ChildrenOrdered | mattock/files.py:364-366 | In a parent read to its end, the first bytes of the non-empty key slots never decrease. |
| BTrees.ChildStream | mattock/files.py:340-397 | `child_group_indices`. No contract of its own: ChildrenComplete and ChildrenOrdered state it, and ChildGroupIndices is proved to compute it. |
| BTrees.ChildGroupIndices | mattock/files.py:340-397 | The loop over the slots computes the stream specified by ChildStream. |
| BTrees.ChildStep | mattock/files.py:353-369 | A decoded entry moves it from the rest of the parent into the entries already yielded. |
| BTrees.FirstCover | mattock/files.py:401-402 | The entry chosen is the first whose fence is None or at least the key; no earlier entry qualifies. |
| BTrees.PageGet | mattock/files.py:400-406 | `get_record` on a page. No contract of its own: LeafGetFirst and LeafGetAbsent state it on a leaf, ParentGetStep on a parent. |
| BTrees.LeafGet | mattock/files.py:267-271 | `get_record` on a leaf. No contract of its own; LeafGetFirst and LeafGetAbsent state it. |
| BTrees.ParentGet | mattock/files.py:400-406 | `get_record` on a parent. No contract of its own; ParentGetStep states it. |
| BTrees.LeafGetFirst | mattock/files.py:267-271 | A lookup in a leaf finds the value of the first record with the key. |
| BTrees.LeafGetAbsent | mattock/files.py:267-271 | A lookup in a leaf with no record of the key fails with the leaf's error if it has one, and otherwise finds nothing. |
| BTrees.ParentGetStep | mattock/files.py:400-406 | A lookup in a parent takes the first entry whose fence is None or at least the key. It reads that child and looks it up one level down; a read failure is the lookup's failure, and no levels left is OutOfFuel. With no such entry, it fails with the entries' error if they have one, and otherwise finds nothing. |
| BTrees.FileGet | mattock/files.py:464-466 | `BtreeFile.get_record`: the lookup from the root, group 0. No contract of its own; FileLookupSound states it. |
| BTrees.ParentGetDescends | mattock/files.py:400-406 | A lookup that finds a value in a parent found it one level down, in the page of the first entry that covers the key. |
| BTrees.PageRecords | mattock/files.py:408-413 | `records` on a page. No contract of its own: ParentRecordsFlatten and ParentRecordsStop state it on a parent, and the LeafStream lemmas on a leaf. |
| BTrees.ChildrenRecords | mattock/files.py:408-413 | The `for (i,_) in self.child_group_indices()` loop over the entries. No contract of its own; ChildrenRecordsFlatten states it. |
| BTrees.ChildRecords | mattock/files.py:410-413 | The records of one child: its page read, then its records one level down. No contract of its own; ParentRecordsHold states it. |
| BTrees.FileRecords | mattock/files.py:459-462 | `BtreeFile.records`: the records under the root, group 0. No contract of its own; FileLookupSound states it. |
| BTrees.ChildStreams | mattock/files.py:408-413 | One record stream per entry, that of the child the entry leads to, in entry order. |
| BTrees.ChildrenRecordsFlatten | mattock/files.py:408-413 | The loop over the entries is the nested loop over the children's record streams. |
| BTrees.ParentRecordsFlatten | mattock/files.py:408-413 | A parent's records are its children's record streams in entry order, then the entries' own error if they have one. They complete exactly when the entries and every child complete, and are then the children's records one after another. |
| BTrees.ParentRecordsStop | mattock/files.py:408-413 | The first child whose records fail ends the parent's records. The earlier children's records come first, then that child's partial records and its error. |
| BTrees.ChildrenRecordsHold | mattock/files.py:408-413 | When the children's records are read to the end, each child's records are complete and among them. |
| BTrees.ParentRecordsHold | mattock/files.py:408-413 | A parent's records, read to the end, hold those of each of its children. |
| BTrees.LookupSound | mattock/files.py:400-466 | What a lookup finds is the value of a record with that key among the page's records, when those can be read to the end with the same bounds. |
| BTrees.FileLookupSound | mattock/files.py:459-466 | What a lookup from the root finds is the value of a record with that key among the file's records, when those can be read to the end with the same bounds. |
| Dispatch.OpenDataFile | mattock/files.py:475-481 | Opening a file succeeds exactly when its header decodes, and otherwise fails with the header's error. A file of type 25 becomes a B-tree and any other type a static hashed file. |
| Dispatch.OpenDynamicFile | mattock/files.py:491-499 | A type-30 directory opens exactly when `DATA.30`'s header decodes, and otherwise fails with the header's error. It becomes a dynamic hashed file that reads `DATA.30` and `OVER.30`, with that geometry and the header's hashing algorithm, which a decoded header always names. |

## Left out

- File I/O, `seek`/`read` on handles, and closing handles: a file is its bytes, and `seek(p); read(n)` is a slice.
- The directory-backed files (`File1`, `File19`, `files.py:79-136`) walk directories with `rglob`/`iterdir` and read files. Only their key/path mapping and the CR LF → 0xFE replacement (`TextToRecordBody`) are modelled.
- The UTF-8 `codecs` conversions and `pathlib.Path` construction: a path is its list of segments as bytes.
- The filesystem probing of `open_uv_file` (`exists`, `is_file`, `is_dir`, the `.Type1`/`.Type30` marker files, and the fallback to `File19`). `Dispatch` models only the choices made from file contents.
- `account.py` (catalog lookup over the other readers) and `__main__.py` (command-line handling and printing) are not part of this model.
- Laziness: generators are streams measured at their end (items yielded, then the error). A consumer that stops early, as `get_record` does, is modelled by taking the first match of the stream.
- Unbounded pointer chasing: walks that the source follows for ever in a cyclic file stop with `OutOfFuel` once their `steps`, `fuel` or `depth` bound is reached.
- The error enum: `UNSUPPORTED_ARCH` and `FILE_NOT_FOUND` share a value in the source and so alias each other. The model keeps them as distinct constructors. Exception messages are not modelled.
- Fields that are read but never used: `blink`, the new-style padding and oversize-buffer flags (decoded, not acted on), the leaf `data_size` and the parent `key_offset_list_length`.
- `BtreeBuffer.records` checks that the root is a leaf or a parent. `read_buffer` returns nothing else, so the check never fires, and `FileRecords` omits it.
- Python's `bytes` truthiness on `os_item.record_buffer` is modelled by `Payload`: an empty buffer and a missing buffer both add nothing.
- PathCodec.Type1RoundTrip: stated only for keys without `?` directly followed by `\`, because the codec does not round-trip those keys (see PathCodec.AmbiguousKey).
- PathCodec.Type19RoundTrip: stated only for keys without `?` directly followed by `\`, for the same reason.
- BTrees.ReadOversize: the source's error for a page type other than 8 is a plain string with a literal `${page_type}` (files.py:254), so its message does not give the type; the model's `BadOversizePageType` carries the type, and messages are not modelled.
- BTrees.LookupSound: stated only when the page's records can be read to the end with the same bounds. A lookup may stop before an error that the enumeration later reaches.
