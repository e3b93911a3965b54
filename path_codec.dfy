/** The mapping between record keys and relative paths used by the directory
    layouts: type-1 files nest a key over segments of at most 14 characters,
    type-19 files keep it in one segment. A path is its list of segments. */
module PathCodec {
  import opened Wrappers
  import opened Bytes

  const QMARK: byte := 0x3F       // ?
  const SLASH: byte := 0x2F       // /
  const BACKSLASH: byte := 0x5C   // \
  const DOT: byte := 0x2E         // .
  const ZERO: byte := 0x30        // 0
  const MAX_SEGMENT: nat := 14

  // ---------------------------------------------------------------- one segment

  /** The escape of one byte: `?` is doubled and `/` becomes `?\`. */
  function EscapeByte(c: byte): (r: seq<byte>)
  {
    if c == QMARK then [QMARK, QMARK] else if c == SLASH then [QMARK, BACKSLASH] else [c]
  }

  /** Every byte escaped on its own. */
  function EscapeBytes(s: seq<byte>): (r: seq<byte>)
  {
    if s == [] then [] else EscapeByte(s[0]) + EscapeBytes(s[1..])
  }

  lemma {:induction false} EscapeBytesFacts(s: seq<byte>)
    ensures |s| <= |EscapeBytes(s)| <= 2 * |s|
    ensures SLASH !in EscapeBytes(s)
    ensures s != [] ==> EscapeBytes(s)[0] == EscapeByte(s[0])[0]
  {
    if s != [] {
      EscapeBytesFacts(s[1..]);
    }
  }

  /** The two `replace` calls of the source amount to escaping each byte. */
  lemma {:induction false} ReplacesEscapeEachByte(s: seq<byte>)
    ensures ReplaceByte(ReplaceByte(s, QMARK, [QMARK, QMARK]), SLASH, [QMARK, BACKSLASH]) == EscapeBytes(s)
  {
    if s != [] {
      var h1 := if s[0] == QMARK then [QMARK, QMARK] else [s[0]];
      var t1 := ReplaceByte(s[1..], QMARK, [QMARK, QMARK]);
      assert ReplaceByte(s, QMARK, [QMARK, QMARK]) == h1 + t1;
      ReplaceByteAppend(h1, t1, SLASH, [QMARK, BACKSLASH]);
      ReplacesEscapeEachByte(s[1..]);
      if s[0] == QMARK {
        assert [QMARK, QMARK][1..] == [QMARK];
        assert ReplaceByte([QMARK], SLASH, [QMARK, BACKSLASH]) == [QMARK];
        assert ReplaceByte(h1, SLASH, [QMARK, BACKSLASH]) == [QMARK, QMARK];
      } else {
        assert ReplaceByte(h1, SLASH, [QMARK, BACKSLASH]) == EscapeByte(s[0]);
      }
    }
  }

  /** `type1_escape_unix`. The result is never empty, never holds `/`, never starts
      with `.`, and is at most one byte longer than twice the key. */
  function Escape(s: seq<byte>): (r: seq<byte>)
    ensures 1 <= |r| <= 2 * |s| + 1
  {
    if |s| == 0 then [QMARK]
    else
      EscapeBytesFacts(s);
      var t := EscapeBytes(s);
      if t[0] == DOT then [QMARK] + t else t
  }

  /** An escape holds no `/` and does not start with `.`. */
  lemma EscapeLegal(s: seq<byte>)
    ensures SLASH !in Escape(s) && Escape(s)[0] != DOT
  {
    if s != [] {
      EscapeBytesFacts(s);
    }
  }

  /** Escape is what the source computes: `?` doubled, then `/` replaced by `?\`,
      then a `?` put in front of a leading `.`; the empty key becomes `?`. */
  lemma EscapeIsReplace(s: seq<byte>)
    ensures Escape(s) ==
      if |s| == 0 then [QMARK]
      else
        var t := ReplaceByte(ReplaceByte(s, QMARK, [QMARK, QMARK]), SLASH, [QMARK, BACKSLASH]);
        if Slice(t, 0, 1) == [DOT] then [QMARK] + t else t
  {
    if |s| != 0 {
      var t := EscapeBytes(s);
      ReplacesEscapeEachByte(s);
      EscapeBytesFacts(s);
      assert Slice(t, 0, 1) == [DOT] <==> t[0] == DOT by {
        assert Slice(t, 0, 1) == t[..1];
      }
    }
  }

  /** The escape is the per-byte escape, behind an extra `?` when the key starts
      with `.`; the empty key becomes `?`. */
  lemma EscapePerByte(s: seq<byte>)
    ensures Escape(s) == if s == [] then [QMARK] else (if s[0] == DOT then [QMARK] else []) + EscapeBytes(s)
  {
    if s != [] {
      EscapeBytesFacts(s);
      assert EscapeBytes(s)[0] == DOT <==> s[0] == DOT;
    }
  }

  /** `type1_unescape_unix`: `?` and `?0` stand for the empty key, a leading `?.` loses
      its `?`, then `?\` becomes `/` and `??` becomes `?`. The source raises on an
      empty segment. */
  function Unescape(s: seq<byte>): (r: Result<seq<byte>>)
    ensures r.Failure? <==> s == []
  {
    if |s| == 0 then Failure(EmptyPathSegment)
    else if s == [QMARK] then Success([])
    else if s == [QMARK, ZERO] then Success([])
    else
      var t := if |s| > 1 && s[..2] == [QMARK, DOT] then s[1..] else s;
      Success(Replace2(Replace2(t, QMARK, BACKSLASH, [SLASH]), QMARK, QMARK, [QMARK]))
  }

  /** The keys the escaping scheme can carry: no `?` directly followed by `\`. */
  predicate Unambiguous(k: seq<byte>)
  {
    forall i :: 0 <= i < |k| - 1 ==> !(k[i] == QMARK && k[i + 1] == BACKSLASH)
  }

  lemma UnambiguousTail(k: seq<byte>)
    requires k != [] && Unambiguous(k)
    ensures Unambiguous(k[1..])
    ensures |k| > 1 && k[0] == QMARK ==> k[1] != BACKSLASH
  {
    forall i | 0 <= i < |k[1..]| - 1
      ensures !(k[1..][i] == QMARK && k[1..][i + 1] == BACKSLASH)
    {
      assert k[1..][i] == k[i + 1] && k[1..][i + 1] == k[i + 2];
    }
  }

  lemma {:induction false} UndoSlashes(k: seq<byte>)
    requires Unambiguous(k)
    ensures Replace2(EscapeBytes(k), QMARK, BACKSLASH, [SLASH]) == ReplaceByte(k, QMARK, [QMARK, QMARK])
  {
    if k != [] {
      var e := EscapeBytes(k[1..]);
      var u := ReplaceByte(k[1..], QMARK, [QMARK, QMARK]);
      UnambiguousTail(k);
      UndoSlashes(k[1..]);
      assert Replace2(e, QMARK, BACKSLASH, [SLASH]) == u;
      assert EscapeBytes(k) == EscapeByte(k[0]) + e;
      assert ReplaceByte(k, QMARK, [QMARK, QMARK]) == (if k[0] == QMARK then [QMARK, QMARK] else [k[0]]) + u;
      if k[0] == QMARK {
        EscapeBytesFacts(k[1..]);
        assert e == [] || e[0] != BACKSLASH;
        assert EscapeBytes(k) == [QMARK] + ([QMARK] + e);
        Replace2Skip(QMARK, [QMARK] + e, QMARK, BACKSLASH, [SLASH]);
        Replace2Skip(QMARK, e, QMARK, BACKSLASH, [SLASH]);
      } else if k[0] == SLASH {
        Replace2Hit(e, QMARK, BACKSLASH, [SLASH]);
      } else {
        assert EscapeBytes(k) == [k[0]] + e;
        Replace2Skip(k[0], e, QMARK, BACKSLASH, [SLASH]);
      }
    }
  }

  lemma {:induction false} UndoDoubling(k: seq<byte>)
    ensures Replace2(ReplaceByte(k, QMARK, [QMARK, QMARK]), QMARK, QMARK, [QMARK]) == k
  {
    if k != [] {
      var d := ReplaceByte(k[1..], QMARK, [QMARK, QMARK]);
      UndoDoubling(k[1..]);
      if k[0] == QMARK {
        Replace2Hit(d, QMARK, QMARK, [QMARK]);
      } else {
        Replace2Skip(k[0], d, QMARK, QMARK, [QMARK]);
      }
      assert k == [k[0]] + k[1..];
    }
  }

  /** What Unescape does to a segment that is neither `?` nor `?0`. */
  lemma UnescapeLong(s: seq<byte>, t: seq<byte>)
    requires s != [] && s != [QMARK] && s != [QMARK, ZERO]
    requires t == if |s| > 1 && s[..2] == [QMARK, DOT] then s[1..] else s
    ensures Unescape(s) == Success(Replace2(Replace2(t, QMARK, BACKSLASH, [SLASH]), QMARK, QMARK, [QMARK]))
  {
  }

  /** Unescaping an escaped key gives the key back, for every key without `?\`. */
  lemma UnescapeEscape(k: seq<byte>)
    requires Unambiguous(k)
    ensures Unescape(Escape(k)) == Success(k)
  {
    if k != [] {
      var e := EscapeBytes(k);
      EscapePerByte(k);
      assert Replace2(Replace2(e, QMARK, BACKSLASH, [SLASH]), QMARK, QMARK, [QMARK]) == k by {
        UndoSlashes(k);
        UndoDoubling(k);
      }
      assert e == EscapeByte(k[0]) + EscapeBytes(k[1..]);
      if k[0] == DOT {
        var s := [QMARK] + e;
        assert Escape(k) == s;
        assert s[1..] == e && s[..2] == [QMARK, DOT];
        UnescapeLong(s, e);
      } else {
        assert Escape(k) == e;
        if k[0] == QMARK || k[0] == SLASH {
          assert |e| >= 2 && e[..2] == EscapeByte(k[0]);
        } else {
          assert e[0] == k[0];
        }
        UnescapeLong(e, e);
      }
    }
  }

  /** The key `?\` is where the round trip breaks: it comes back as `?/`. */
  lemma AmbiguousKey()
    ensures Escape([QMARK, BACKSLASH]) == [QMARK, QMARK, BACKSLASH]
    ensures Unescape(Escape([QMARK, BACKSLASH])) == Success([QMARK, SLASH])
  {
    var s := [QMARK, QMARK, BACKSLASH];
    EscapePerByte([QMARK, BACKSLASH]);
    assert EscapeBytes([QMARK, BACKSLASH]) == s by {
      assert [QMARK, BACKSLASH][1..] == [BACKSLASH];
      assert EscapeBytes([BACKSLASH]) == [BACKSLASH];
    }
    Replace2Skip(QMARK, [QMARK, BACKSLASH], QMARK, BACKSLASH, [SLASH]);
    Replace2Hit([], QMARK, BACKSLASH, [SLASH]);
    assert Replace2(s, QMARK, BACKSLASH, [SLASH]) == [QMARK, SLASH];
    Replace2Skip(QMARK, [SLASH], QMARK, QMARK, [QMARK]);
  }

  // ---------------------------------------------------------------- type-1 paths

  /** Whether the first `len` bytes of `last` escape into one segment. */
  predicate Fits(last: seq<byte>, len: nat)
  {
    |Escape(Slice(last, 0, len))| <= MAX_SEGMENT
  }

  lemma OneFits(last: seq<byte>)
    ensures Fits(last, 1)
  {
    assert |Slice(last, 0, 1)| <= 1;
  }

  /** The length of the next raw chunk: the first of `len`, `len - 1`, ..., 1 whose
      escape fits in a segment. */
  function ChunkLenFrom(last: seq<byte>, len: nat): (r: nat)
    requires 1 <= len <= MAX_SEGMENT
    ensures 1 <= r <= len
    decreases len, 1
  {
    if len == 1 then len else ChunkLenTry(last, len)
  }

  /** One try of a chunk length above 1. */
  function ChunkLenTry(last: seq<byte>, len: nat): (r: nat)
    requires 2 <= len <= MAX_SEGMENT
    ensures 1 <= r <= len
    decreases len, 0
  {
    if Fits(last, len) then len else ChunkLenFrom(last, len - 1)
  }

  /** Started from `len`, the chunk length is the longest up to `len` whose escape fits. */
  lemma {:induction false} ChunkLenGreedy(last: seq<byte>, len: nat)
    requires 1 <= len <= MAX_SEGMENT
    ensures Fits(last, ChunkLenFrom(last, len))
    ensures forall l :: ChunkLenFrom(last, len) < l <= len ==> !Fits(last, l)
    decreases len
  {
    if len == 1 {
      OneFits(last);
    } else {
      assert ChunkLenFrom(last, len) == ChunkLenTry(last, len);
      if !Fits(last, len) {
        ChunkLenGreedy(last, len - 1);
      }
    }
  }

  function ChunkLen(last: seq<byte>): (r: nat)
    ensures 1 <= r <= MAX_SEGMENT
  {
    ChunkLenFrom(last, MAX_SEGMENT)
  }

  /** The path `key_to_type1_path` builds, as the segments already placed (`done`)
      followed by those for the bytes still to place (`last`): each escaped chunk,
      and a final `?` when the last escaped chunk fills a segment. */
  function Type1SegmentsFrom(done: seq<seq<byte>>, last: seq<byte>): (r: seq<seq<byte>>)
    ensures |r| > |done| && r[..|done|] == done
    decreases |last|
  {
    var n := ChunkLen(last);
    var escapedLeft := Escape(Slice(last, 0, n));
    var right := Slice(last, n, |last|);
    if |right| > 0 then
      var r := Type1SegmentsFrom(done + [escapedLeft], right);
      assert r[..|done|] == r[..|done| + 1][..|done|];
      r
    else if |escapedLeft| == MAX_SEGMENT then done + [escapedLeft, Escape([])]
    else done + [escapedLeft]
  }

  /** The segments of the type-1 path of `key`. */
  function Type1Segments(key: seq<byte>): (r: seq<seq<byte>>)
    ensures |r| > 0
  {
    Type1SegmentsFrom([], key)
  }

  /** A segment the file system takes as one file name: not empty, at most 14
      bytes, without `/`, and not starting with `.` (so neither `.` nor `..`). */
  predicate LegalSegment(seg: seq<byte>)
  {
    1 <= |seg| <= MAX_SEGMENT && SLASH !in seg && seg[0] != DOT
  }

  lemma {:induction false} SegmentsFromLegal(done: seq<seq<byte>>, last: seq<byte>)
    requires forall i :: 0 <= i < |done| ==> LegalSegment(done[i])
    ensures forall i :: 0 <= i < |Type1SegmentsFrom(done, last)| ==> LegalSegment(Type1SegmentsFrom(done, last)[i])
    decreases |last|
  {
    var n := ChunkLen(last);
    var escapedLeft := Escape(Slice(last, 0, n));
    var right := Slice(last, n, |last|);
    ChunkLenGreedy(last, MAX_SEGMENT);
    EscapeLegal(Slice(last, 0, n));
    EscapeLegal([]);
    assert LegalSegment(escapedLeft) && LegalSegment(Escape([]));
    if |right| > 0 {
      SegmentsFromLegal(done + [escapedLeft], right);
    }
  }

  /** Every segment of a type-1 path is a legal file name of at most 14 bytes. */
  lemma Type1SegmentsLegal(key: seq<byte>)
    ensures forall i :: 0 <= i < |Type1Segments(key)| ==> LegalSegment(Type1Segments(key)[i])
  {
    SegmentsFromLegal([], key);
  }

  /** The inner loop of `key_to_type1_path`: tries chunk lengths from 14 down and
      stops at the first whose escape fits. */
  method NextChunk(last: seq<byte>) returns (len: nat, escapedLeft: seq<byte>, right: seq<byte>)
    ensures len == ChunkLen(last)
    ensures escapedLeft == Escape(Slice(last, 0, len)) && right == Slice(last, len, |last|)
  {
    len := MAX_SEGMENT;
    var left := Slice(last, 0, len);
    right := Slice(last, len, |last|);
    escapedLeft := Escape(left);
    while |escapedLeft| > MAX_SEGMENT && len > 1
      invariant 1 <= len <= MAX_SEGMENT
      invariant left == Slice(last, 0, len) && right == Slice(last, len, |last|)
      invariant escapedLeft == Escape(left)
      invariant ChunkLenFrom(last, len) == ChunkLen(last)
      decreases len
    {
      len := len - 1;
      left := Slice(last, 0, len);
      right := Slice(last, len, |last|);
      escapedLeft := Escape(left);
    }
  }

  /** `key_to_type1_path`, with the path as its list of segments. */
  method KeyToType1Path(key: seq<byte>) returns (parts: seq<seq<byte>>)
    ensures parts == Type1Segments(key)
  {
    parts := [key];
    var last := parts[|parts| - 1];
    while true
      invariant |parts| >= 1 && last == parts[|parts| - 1]
      invariant Type1SegmentsFrom(parts[..|parts| - 1], last) == Type1Segments(key)
      decreases |last|
    {
      var len, escapedLeft, right := NextChunk(last);
      ghost var done := parts[..|parts| - 1] + [escapedLeft];
      if |right| > 0 {
        parts := parts[|parts| - 1 := escapedLeft] + [right];
        assert parts[..|parts| - 1] == done;
        last := parts[|parts| - 1];
      } else {
        parts := parts[|parts| - 1 := escapedLeft];
        assert parts == done;
        if |escapedLeft| == MAX_SEGMENT {
          parts := parts + [Escape([])];
        }
        break;
      }
    }
  }

  /** The two slices the source takes at `n`: a prefix and the rest. */
  lemma SliceAt(last: seq<byte>, n: nat)
    ensures var m := if n <= |last| then n else |last|;
      Slice(last, 0, n) == last[..m] && Slice(last, n, |last|) == last[m..]
  {
  }

  /** The raw chunks of the key that the segments escape, in order. */
  function RawChunks(last: seq<byte>): (r: seq<seq<byte>>)
    ensures |r| >= 1
    decreases |last|
  {
    var n := ChunkLen(last);
    var right := Slice(last, n, |last|);
    if |right| > 0 then [Slice(last, 0, n)] + RawChunks(right) else [Slice(last, 0, n)]
  }

  function Concat(ps: seq<seq<byte>>): seq<byte>
  {
    if ps == [] then [] else ps[0] + Concat(ps[1..])
  }

  function EscapeAll(ps: seq<seq<byte>>): (r: seq<seq<byte>>)
    ensures |r| == |ps|
  {
    if ps == [] then [] else [Escape(ps[0])] + EscapeAll(ps[1..])
  }

  /** The raw chunks put back together are the key, and every chunk but the last
      is non-empty. That each chunk is the longest whose escape fits is
      ChunkLenGreedy's. */
  lemma {:induction false} RawChunksCover(last: seq<byte>)
    ensures Concat(RawChunks(last)) == last
    ensures forall i :: 0 <= i < |RawChunks(last)| - 1 ==> RawChunks(last)[i] != []
    decreases |last|
  {
    var left, right := NextSplit(last);
    var r := RawChunks(last);
    if |right| > 0 {
      var rest := RawChunks(right);
      RawChunksCover(right);
      assert r == [left] + rest;
      assert Concat(r) == left + Concat(rest) by {
        assert r[0] == left && r[1..] == rest;
      }
      assert forall i :: 1 <= i < |r| - 1 ==> r[i] == rest[i - 1];
    } else {
      assert r == [left] && left == last;
      assert Concat(r) == left + Concat([]) by {
        assert r[0] == left && r[1..] == [];
      }
    }
  }

  /** The `?` segment that follows a last escaped chunk filling 14 bytes. */
  function Filler(chunks: seq<seq<byte>>): seq<seq<byte>>
    requires |chunks| >= 1
  {
    if |Escape(chunks[|chunks| - 1])| == MAX_SEGMENT then [Escape([])] else []
  }

  /** The next chunk and what is left of `last` after it. */
  lemma NextSplit(last: seq<byte>) returns (left: seq<byte>, right: seq<byte>)
    ensures left == Slice(last, 0, ChunkLen(last)) && right == Slice(last, ChunkLen(last), |last|)
    ensures last == left + right
    ensures |right| > 0 ==> |right| < |last|
  {
    var n := ChunkLen(last);
    SliceAt(last, n);
    left, right := Slice(last, 0, n), Slice(last, n, |last|);
    var m := if n <= |last| then n else |last|;
    assert left == last[..m] && right == last[m..];
  }

  /** One iteration of the outer loop of `key_to_type1_path`. */
  lemma SegmentsFromStep(done: seq<seq<byte>>, last: seq<byte>, left: seq<byte>, right: seq<byte>)
    requires left == Slice(last, 0, ChunkLen(last)) && right == Slice(last, ChunkLen(last), |last|)
    ensures Type1SegmentsFrom(done, last) ==
      if |right| > 0 then Type1SegmentsFrom(done + [Escape(left)], right)
      else if |Escape(left)| == MAX_SEGMENT then done + [Escape(left), Escape([])]
      else done + [Escape(left)]
  {
  }

  lemma {:induction false} SegmentsFromChunks(done: seq<seq<byte>>, last: seq<byte>)
    ensures Type1SegmentsFrom(done, last) == done + EscapeAll(RawChunks(last)) + Filler(RawChunks(last))
    decreases |last|
  {
    var left, right := NextSplit(last);
    var c := RawChunks(last);
    if |right| > 0 {
      var c' := RawChunks(right);
      SegmentsFromChunks(done + [Escape(left)], right);
      assert c == [left] + c';
      assert Type1SegmentsFrom(done, last) == Type1SegmentsFrom(done + [Escape(left)], right);
      ChunksStep(done, left, c', c, Type1SegmentsFrom(done, last));
    } else {
      assert c == [left];
      assert EscapeAll(c) == [Escape(left)] by {
        assert c[1..] == [];
      }
    }
  }

  lemma ChunksStep(done: seq<seq<byte>>, left: seq<byte>, c': seq<seq<byte>>, c: seq<seq<byte>>, segs: seq<seq<byte>>)
    requires c == [left] + c' && |c'| >= 1
    requires segs == done + [Escape(left)] + EscapeAll(c') + Filler(c')
    ensures segs == done + EscapeAll(c) + Filler(c)
  {
    FillerCons(left, c', c);
    EscapeAllCons(left, c', c);
    Regroup(done, Escape(left), EscapeAll(c'), Filler(c'));
  }

  lemma Regroup<T>(done: seq<T>, e: T, rest: seq<T>, fill: seq<T>)
    ensures done + [e] + rest + fill == done + ([e] + rest) + fill
  {
  }

  lemma PrefixRegroup<T>(done: seq<T>, e: T, rest: seq<T>, none: seq<T>)
    requires none == []
    ensures done + [e] + rest == done + (none + [e] + rest)
  {
    assert none + [e] == [e];
  }

  lemma FillerCons(left: seq<byte>, c': seq<seq<byte>>, c: seq<seq<byte>>)
    requires c == [left] + c' && |c'| >= 1
    ensures Filler(c) == Filler(c')
  {
    assert c[|c| - 1] == c'[|c'| - 1];
    FillerLast(c, c');
  }

  lemma FillerLast(c: seq<seq<byte>>, c': seq<seq<byte>>)
    requires |c| >= 1 && |c'| >= 1 && c[|c| - 1] == c'[|c'| - 1]
    ensures Filler(c) == Filler(c')
  {
  }

  lemma EscapeAllCons(left: seq<byte>, c': seq<seq<byte>>, c: seq<seq<byte>>)
    requires c == [left] + c'
    ensures EscapeAll(c) == [Escape(left)] + EscapeAll(c')
  {
    assert c[0] == left && c[1..] == c';
  }

  /** A type-1 path is the escape of each raw chunk, with one more `?` segment
      exactly when the last escaped chunk fills a whole segment. */
  lemma Type1SegmentsChunks(key: seq<byte>)
    ensures Type1Segments(key) == EscapeAll(RawChunks(key)) + Filler(RawChunks(key))
  {
    SegmentsFromChunks([], key);
    var none: seq<seq<byte>> := [];
    assert none + EscapeAll(RawChunks(key)) == EscapeAll(RawChunks(key));
  }

  /** The key a type-1 path stands for: its unescaped segments, concatenated. */
  function Type1PathToKey(parts: seq<seq<byte>>): (r: Result<seq<byte>>)
  {
    if parts == [] then Success([])
    else
      var head :- Unescape(parts[0]);
      var tail :- Type1PathToKey(parts[1..]);
      Success(head + tail)
  }

  /** Reading a path back fails exactly when one of its segments is empty. */
  lemma {:induction false} PathToKeyFails(parts: seq<seq<byte>>)
    ensures Type1PathToKey(parts).Failure? <==> exists i :: 0 <= i < |parts| && parts[i] == []
  {
    if parts != [] {
      PathToKeyFails(parts[1..]);
      if exists i :: 0 <= i < |parts[1..]| && parts[1..][i] == [] {
        var i :| 0 <= i < |parts[1..]| && parts[1..][i] == [];
        assert parts[i + 1] == [];
      }
      if exists i :: 0 <= i < |parts| && parts[i] == [] {
        var i :| 0 <= i < |parts| && parts[i] == [];
        if i > 0 { assert parts[1..][i - 1] == []; }
      }
    }
  }

  lemma {:induction false} PathToKeyAppend(a: seq<seq<byte>>, b: seq<seq<byte>>)
    requires Type1PathToKey(a).Success? && Type1PathToKey(b).Success?
    ensures Type1PathToKey(a + b) == Success(Type1PathToKey(a).value + Type1PathToKey(b).value)
  {
    if a == [] {
      assert a + b == b;
      var none: seq<byte> := [];
      assert none + Type1PathToKey(b).value == Type1PathToKey(b).value;
    } else {
      var ab := a + b;
      assert ab[0] == a[0] && ab[1..] == a[1..] + b;
      var h := Unescape(a[0]).value;
      var t := Type1PathToKey(a[1..]).value;
      PathToKeyAppend(a[1..], b);
      assert Type1PathToKey(ab) == Success(h + (t + Type1PathToKey(b).value));
      assert h + (t + Type1PathToKey(b).value) == (h + t) + Type1PathToKey(b).value;
    }
  }

  lemma OneSegment(seg: seq<byte>, k: seq<byte>)
    requires Unescape(seg) == Success(k)
    ensures Type1PathToKey([seg]) == Success(k)
  {
    assert [seg][1..] == [];
    assert k + [] == k;
  }

  /** The segments already placed stay in front of those still to come. */
  lemma {:induction false} SegmentsFromAppend(done: seq<seq<byte>>, last: seq<byte>)
    ensures Type1SegmentsFrom(done, last) == done + Type1Segments(last)
    decreases |last|
  {
    var left, right := NextSplit(last);
    if |right| > 0 {
      var none: seq<seq<byte>> := [];
      var e := Escape(left);
      SegmentsFromAppend(done + [e], right);
      SegmentsFromAppend(none + [e], right);
      SegmentsFromMore(done, last, left, right);
      SegmentsFromMore(none, last, left, right);
      PrefixRegroup(done, e, Type1Segments(right), none);
    } else {
      AppendFinal(done, last, left, right);
    }
  }

  /** An iteration of the outer loop that leaves bytes for the next one. */
  lemma SegmentsFromMore(done: seq<seq<byte>>, last: seq<byte>, left: seq<byte>, right: seq<byte>)
    requires left == Slice(last, 0, ChunkLen(last)) && right == Slice(last, ChunkLen(last), |last|)
    requires |right| > 0
    ensures Type1SegmentsFrom(done, last) == Type1SegmentsFrom(done + [Escape(left)], right)
  {
  }

  lemma AppendFinal(done: seq<seq<byte>>, last: seq<byte>, left: seq<byte>, right: seq<byte>)
    requires left == Slice(last, 0, ChunkLen(last)) && right == Slice(last, ChunkLen(last), |last|)
    requires |right| == 0
    ensures Type1SegmentsFrom(done, last) == done + Type1Segments(last)
  {
    var none: seq<seq<byte>> := [];
    SegmentsFromStep(done, last, left, right);
    SegmentsFromStep(none, last, left, right);
    assert none + [Escape(left), Escape([])] == [Escape(left), Escape([])];
    assert none + [Escape(left)] == [Escape(left)];
  }

  /** A key survives the trip through its type-1 path. */
  lemma {:induction false} Type1RoundTrip(key: seq<byte>)
    requires Unambiguous(key)
    ensures Type1PathToKey(Type1Segments(key)) == Success(key)
    decreases |key|
  {
    var left, right := NextSplit(key);
    var none: seq<seq<byte>> := [];
    SegmentsFromStep(none, key, left, right);
    UnambiguousSplit(key, |left|);
    assert key[..|left|] == left && key[|left|..] == right;
    UnescapeEscape(left);
    OneSegment(Escape(left), left);
    assert none + [Escape(left)] == [Escape(left)];
    if |right| > 0 {
      Type1RoundTrip(right);
      SegmentsFromAppend([Escape(left)], right);
      PathToKeyAppend([Escape(left)], Type1Segments(right));
    } else if |Escape(left)| == MAX_SEGMENT {
      var empty: seq<byte> := [];
      UnescapeEscape(empty);
      OneSegment(Escape(empty), empty);
      PathToKeyAppend([Escape(left)], [Escape(empty)]);
      assert none + [Escape(left), Escape(empty)] == [Escape(left)] + [Escape(empty)];
      assert left + empty == key;
    } else {
      assert left == key;
    }
  }

  lemma UnambiguousSplit(k: seq<byte>, n: nat)
    requires Unambiguous(k) && n <= |k|
    ensures Unambiguous(k[..n]) && Unambiguous(k[n..])
  {
    forall i | 0 <= i < |k[n..]| - 1
      ensures !(k[n..][i] == QMARK && k[n..][i + 1] == BACKSLASH)
    {
      assert k[n..][i] == k[n + i] && k[n..][i + 1] == k[n + i + 1];
    }
  }

  // ---------------------------------------------------------------- type-19 paths

  /** `key_to_type19_path`: the whole key escaped into a single segment. */
  function Type19Segments(key: seq<byte>): (r: seq<seq<byte>>)
    ensures |r| == 1 && r[0] != [] && SLASH !in r[0]
  {
    EscapeLegal(key);
    [Escape(key)]
  }

  lemma Type19RoundTrip(key: seq<byte>)
    requires Unambiguous(key)
    ensures Type1PathToKey(Type19Segments(key)) == Success(key)
  {
    UnescapeEscape(key);
    assert |Type19Segments(key)[1..]| == 0;
    assert key + [] == key;
  }

  // ---------------------------------------------------------------- record bodies

  const CR: byte := 0x0D
  const LF: byte := 0x0A
  const FIELD_MARK: byte := 0xFE

  /** A directory file's contents as a record: each CR LF becomes the field mark. */
  function TextToRecordBody(contents: seq<byte>): (r: seq<byte>)
    ensures |r| <= |contents|
    ensures (forall i :: 0 <= i < |contents| - 1 ==> !(contents[i] == CR && contents[i + 1] == LF)) ==> r == contents
  {
    Replace2Facts(contents, CR, LF, [FIELD_MARK]);
    Replace2(contents, CR, LF, [FIELD_MARK])
  }

  /** Record contents written out as text, each field mark as CR LF, read back
      as the same contents, as long as they hold no CR LF of their own. */
  lemma {:induction false} FieldMarkRoundTrip(v: seq<byte>)
    requires forall i :: 0 <= i < |v| - 1 ==> !(v[i] == CR && v[i + 1] == LF)
    ensures TextToRecordBody(ReplaceByte(v, FIELD_MARK, [CR, LF])) == v
    decreases |v|
  {
    if v != [] {
      var rest := v[1..];
      assert forall i :: 0 <= i < |rest| - 1 ==> !(rest[i] == CR && rest[i + 1] == LF) by {
        forall i | 0 <= i < |rest| - 1 ensures !(rest[i] == CR && rest[i + 1] == LF) {
          assert rest[i] == v[i + 1] && rest[i + 1] == v[i + 2];
        }
      }
      FieldMarkRoundTrip(rest);
      var t := ReplaceByte(rest, FIELD_MARK, [CR, LF]);
      assert v == [v[0]] + rest;
      if v[0] == FIELD_MARK {
        assert ReplaceByte(v, FIELD_MARK, [CR, LF]) == [CR, LF] + t;
        Replace2Hit(t, CR, LF, [FIELD_MARK]);
      } else {
        assert ReplaceByte(v, FIELD_MARK, [CR, LF]) == [v[0]] + t;
        if v[0] == CR && t != [] {
          // t starts with the escape of rest[0], which is not LF: rest[0] is
          // not LF, and 0xFE becomes CR.
          assert rest[0] != LF;
          assert t == (if rest[0] == FIELD_MARK then [CR, LF] else [rest[0]]) + ReplaceByte(rest[1..], FIELD_MARK, [CR, LF]);
        }
        Replace2Skip(v[0], t, CR, LF, [FIELD_MARK]);
      }
    }
  }

  lemma {:induction false} Replace2Facts(s: seq<byte>, a: byte, b: byte, to: seq<byte>)
    requires |to| <= 2
    ensures |Replace2(s, a, b, to)| <= |s|
    ensures (forall i :: 0 <= i < |s| - 1 ==> !(s[i] == a && s[i + 1] == b)) ==> Replace2(s, a, b, to) == s
    decreases |s|
  {
    if |s| >= 2 {
      if s[0] == a && s[1] == b {
        Replace2Facts(s[2..], a, b, to);
      } else {
        Replace2Facts(s[1..], a, b, to);
        if forall i :: 0 <= i < |s| - 1 ==> !(s[i] == a && s[i + 1] == b) {
          forall i | 0 <= i < |s[1..]| - 1
            ensures !(s[1..][i] == a && s[1..][i + 1] == b)
          {
            assert s[1..][i] == s[i + 1] && s[1..][i + 1] == s[i + 2];
          }
          assert s == [s[0]] + s[1..];
        }
      }
    }
  }

  // ---------------------------------------------------------------- examples

  /** The bytes of an ASCII string. */
  function Ascii(s: string): (r: seq<byte>)
    requires forall i :: 0 <= i < |s| ==> s[i] < 128 as char
    ensures |r| == |s|
  {
    if s == [] then [] else [s[0] as int] + Ascii(s[1..])
  }

  lemma {:induction false} EscapeBytesAppend(a: seq<byte>, b: seq<byte>)
    ensures EscapeBytes(a + b) == EscapeBytes(a) + EscapeBytes(b)
  {
    if a != [] {
      assert (a + b)[0] == a[0] && (a + b)[1..] == a[1..] + b;
      EscapeBytesAppend(a[1..], b);
    } else {
      assert a + b == b;
    }
  }

  /** Bytes other than `?` and `/` escape to themselves. */
  lemma {:induction false} EscapePlain(s: seq<byte>)
    requires QMARK !in s && SLASH !in s
    ensures EscapeBytes(s) == s
  {
    if s != [] {
      EscapePlain(s[1..]);
      assert s == [s[0]] + s[1..];
    }
  }

  // The escapes of the literal keys the source's tests use.

  lemma EscapeEmptyExample()
    ensures Escape([]) == Ascii("?")
  {
  }

  lemma EscapeDotExample()
    ensures Escape(Ascii(".")) == Ascii("?.")
  {
    assert Ascii(".") == [DOT];
    EscapePerByte([DOT]);
  }

  lemma EscapeQuestionExample()
    ensures Escape(Ascii("?")) == Ascii("??")
  {
    assert Ascii("?") == [QMARK];
    EscapePerByte([QMARK]);
  }

  lemma EscapeSlashExample()
    ensures Escape(Ascii("/")) == Ascii("?\\")
  {
    assert Ascii("/") == [SLASH];
    EscapePerByte([SLASH]);
  }

  lemma EscapeInnerQuestionExample()
    ensures Escape(Ascii("K?3")) == Ascii("K??3")
  {
    var k := Ascii("K?3");
    assert k == [75] + [QMARK] + [51];
    EscapePerByte(k);
    EscapeBytesAppend([75] + [QMARK], [51]);
    EscapeBytesAppend([75], [QMARK]);
    assert Ascii("K??3") == [75, QMARK, QMARK, 51];
  }

  /** A key that escapes into less than a segment is a path of one segment. */
  lemma ShortKey(k: seq<byte>)
    requires |k| <= MAX_SEGMENT && |Escape(k)| < MAX_SEGMENT
    ensures Type1Segments(k) == [Escape(k)]
  {
    assert Slice(k, 0, MAX_SEGMENT) == k;
    assert ChunkLen(k) == MAX_SEGMENT;
    var none: seq<seq<byte>> := [];
    assert none + [Escape(k)] == [Escape(k)];
  }

  /** The example of the source's tests: the key "ABC023642/98734256" (written
      here byte by byte) splits after 13 bytes, the longest chunk whose escape
      "ABC023642?\\987" fits, and the remaining "34256" makes the second segment. */
  lemma Type1SplitExample(k: seq<byte>)
    requires k == [65, 66, 67, 48, 50, 51, 54, 52, 50, 47, 57, 56, 55, 51, 52, 50, 53, 54]
    ensures Type1Segments(k) == [[65, 66, 67, 48, 50, 51, 54, 52, 50, 63, 92, 57, 56, 55], [51, 52, 50, 53, 54]]
  {
    var c13 := ExampleChunk(k);
    var r := Slice(k, 13, |k|);
    ExampleTail(r);
    FirstSegment(k, c13, r);
  }

  /** The rest of the example key is a path of one segment. */
  lemma ExampleTail(r: seq<byte>)
    requires r == [51, 52, 50, 53, 54]
    ensures Type1Segments(r) == [r]
  {
    EscapePerByte(r);
    EscapePlain(r);
    ShortKey(r);
  }

  /** The first segment of a path is the first escaped chunk. */
  lemma FirstSegment(last: seq<byte>, left: seq<byte>, right: seq<byte>)
    requires left == Slice(last, 0, ChunkLen(last)) && right == Slice(last, ChunkLen(last), |last|)
    requires |right| > 0
    ensures Type1Segments(last) == [Escape(left)] + Type1Segments(right)
  {
    var none: seq<seq<byte>> := [];
    SegmentsFromMore(none, last, left, right);
    assert none + [Escape(left)] == [Escape(left)];
    SegmentsFromAppend([Escape(left)], right);
  }

  /** The first chunk of the example key and its escape. */
  lemma ExampleChunk(k: seq<byte>) returns (c13: seq<byte>)
    requires k == [65, 66, 67, 48, 50, 51, 54, 52, 50, 47, 57, 56, 55, 51, 52, 50, 53, 54]
    ensures ChunkLen(k) == 13 && c13 == Slice(k, 0, 13)
    ensures Slice(k, 13, |k|) == [51, 52, 50, 53, 54]
    ensures Escape(c13) == [65, 66, 67, 48, 50, 51, 54, 52, 50, 63, 92, 57, 56, 55]
  {
    var p: seq<byte> := [65, 66, 67, 48, 50, 51, 54, 52, 50];
    c13 := p + [SLASH] + [57, 56, 55];
    var c14 := p + [SLASH] + [57, 56, 55, 51];
    assert Fits(k, 13) by {
      assert Slice(k, 0, 13) == c13;
      EscapeChunk(p, [57, 56, 55]);
    }
    assert !Fits(k, 14) by {
      assert Slice(k, 0, 14) == c14;
      EscapeChunk(p, [57, 56, 55, 51]);
    }
    assert Escape(c13) == [65, 66, 67, 48, 50, 51, 54, 52, 50, 63, 92, 57, 56, 55] by {
      EscapeChunk(p, [57, 56, 55]);
    }
    assert ChunkLenFrom(k, 14) == ChunkLenTry(k, 14);
    assert ChunkLenTry(k, 14) == ChunkLenFrom(k, 13);
    assert ChunkLenFrom(k, 13) == ChunkLenTry(k, 13);
    assert Slice(k, 0, 13) == c13;
  }

  lemma EscapeChunk(p: seq<byte>, q: seq<byte>)
    requires p != [] && p[0] != DOT
    requires QMARK !in p && SLASH !in p && QMARK !in q && SLASH !in q
    ensures Escape(p + [SLASH] + q) == p + [QMARK, BACKSLASH] + q
  {
    EscapePerByte(p + [SLASH] + q);
    EscapeBytesAppend(p + [SLASH], q);
    EscapeBytesAppend(p, [SLASH]);
    EscapePlain(p);
    EscapePlain(q);
    assert EscapeBytes([SLASH]) == [QMARK, BACKSLASH];
  }
}
