/** Byte strings and the Python `bytes` operations the decoder is built from:
    slicing with clamped and negative bounds, indexing, `int.from_bytes`,
    `find`/`index`, `split`/`join` and `replace`. */
module Bytes {
  import opened Wrappers

  type byte = b: int | 0 <= b < 256

  datatype ByteOrder = Little | Big

  function Pow256(n: nat): (r: nat)
    ensures r >= 1
  {
    if n == 0 then 1 else 256 * Pow256(n - 1)
  }

  // ---------------------------------------------------------------- integers

  /** `int.from_bytes(s, 'little')` */
  function FromLittle(s: seq<byte>): (r: nat)
    ensures r < Pow256(|s|)
  {
    if s == [] then 0 else s[0] + 256 * FromLittle(s[1..])
  }

  /** `int.from_bytes(s, 'big')` */
  function FromBig(s: seq<byte>): (r: nat)
    ensures r < Pow256(|s|)
  {
    if s == [] then 0 else 256 * FromBig(s[..|s| - 1]) + s[|s| - 1]
  }

  /** `int.from_bytes(s, order)`; an empty slice reads as 0. */
  function FromBytes(s: seq<byte>, order: ByteOrder): (r: nat)
    ensures r < Pow256(|s|)
  {
    match order
    case Little => FromLittle(s)
    case Big => FromBig(s)
  }

  /** The `n`-byte encoding of `x` (the inverse of FromBytes). */
  function ToLittle(x: nat, n: nat): (r: seq<byte>)
    ensures |r| == n
  {
    if n == 0 then [] else [x % 256] + ToLittle(x / 256, n - 1)
  }

  function ToBig(x: nat, n: nat): (r: seq<byte>)
    ensures |r| == n
  {
    if n == 0 then [] else ToBig(x / 256, n - 1) + [x % 256]
  }

  function ToBytes(x: nat, n: nat, order: ByteOrder): (r: seq<byte>)
    ensures |r| == n
  {
    match order
    case Little => ToLittle(x, n)
    case Big => ToBig(x, n)
  }

  lemma {:induction false} LittleRoundTrip(x: nat, n: nat)
    requires x < Pow256(n)
    ensures FromLittle(ToLittle(x, n)) == x
  {
    if n > 0 {
      var r := ToLittle(x, n);
      assert r[1..] == ToLittle(x / 256, n - 1);
      LittleRoundTrip(x / 256, n - 1);
    }
  }

  lemma {:induction false} BigRoundTrip(x: nat, n: nat)
    requires x < Pow256(n)
    ensures FromBig(ToBig(x, n)) == x
  {
    if n > 0 {
      var r := ToBig(x, n);
      assert r[..|r| - 1] == ToBig(x / 256, n - 1);
      BigRoundTrip(x / 256, n - 1);
    }
  }

  /** Decoding what was encoded gives the integer back, in either byte order. */
  lemma BytesRoundTrip(x: nat, n: nat, order: ByteOrder)
    requires x < Pow256(n)
    ensures FromBytes(ToBytes(x, n, order), order) == x
  {
    match order
    case Little => LittleRoundTrip(x, n);
    case Big => BigRoundTrip(x, n);
  }

  /** `x & mask != 0` for a one-bit mask (a power of two). */
  predicate HasBit(x: nat, mask: nat)
    requires mask > 0
  {
    (x / mask) % 2 == 1
  }

  /** Floor division as Python's `//` computes it for a positive divisor. */
  function FloorDiv(a: int, b: int): (q: int)
    requires b > 0
    ensures q * b <= a < q * b + b
  {
    a / b
  }

  // ---------------------------------------------------------------- slicing

  /** The position a Python slice bound `i` denotes in a sequence of length `n`. */
  function SliceBound(i: int, n: nat): (r: nat)
    ensures r <= n
    ensures 0 <= i <= n ==> r == i
    ensures i >= n ==> r == n
    ensures i < 0 ==> r == (if i + n < 0 then 0 else i + n)
  {
    if i < 0 then (if i + n < 0 then 0 else i + n) else if i > n then n else i
  }

  /** Python's `s[i:j]`: bounds are clamped, negative ones count from the end. */
  function Slice<T>(s: seq<T>, i: int, j: int): (r: seq<T>)
    ensures |r| <= |s|
    ensures 0 <= i <= j <= |s| ==> r == s[i..j]
    ensures SliceBound(i, |s|) <= SliceBound(j, |s|) ==> r == s[SliceBound(i, |s|)..SliceBound(j, |s|)]
    ensures SliceBound(i, |s|) >= SliceBound(j, |s|) ==> r == []
    ensures |r| == (if SliceBound(i, |s|) < SliceBound(j, |s|) then SliceBound(j, |s|) - SliceBound(i, |s|) else 0)
  {
    var a, b := SliceBound(i, |s|), SliceBound(j, |s|);
    if a < b then s[a..b] else []
  }

  /** `f.seek(pos); f.read(n)` on a file whose contents are `f`. */
  function Read(f: seq<byte>, pos: nat, n: nat): (r: seq<byte>)
    ensures |r| == (if pos >= |f| then 0 else if pos + n <= |f| then n else |f| - pos)
    ensures pos + n <= |f| ==> r == f[pos..pos + n]
    ensures pos <= |f| ==> r == f[pos..if pos + n <= |f| then pos + n else |f|]
  {
    Slice(f, pos, pos + n)
  }

  /** Python's `s[i]` on bytes or a list, which raises IndexError outside
      `-|s| <= i < |s|`. */
  function At<T>(s: seq<T>, i: int): (r: Result<T>)
    ensures r.Success? <==> -|s| <= i < |s|
    ensures 0 <= i < |s| ==> r == Success(s[i])
    ensures -|s| <= i < 0 ==> r == Success(s[|s| + i])
  {
    if 0 <= i < |s| then Success(s[i])
    else if -|s| <= i < 0 then Success(s[|s| + i])
    else Failure(IndexOutOfRange)
  }

  // ---------------------------------------------------------------- searching

  /** `s.find(bytes([b]))`: the first position of `b`, or -1. */
  function Find(s: seq<byte>, b: byte): (r: int)
    ensures -1 <= r < |s|
    ensures r == -1 <==> b !in s
    ensures r >= 0 ==> s[r] == b && b !in s[..r]
  {
    if s == [] then -1
    else if s[0] == b then 0
    else
      var k := Find(s[1..], b);
      assert s == [s[0]] + s[1..];
      if k == -1 then -1
      else
        assert s[..k + 1] == [s[0]] + s[1..][..k];
        k + 1
  }

  /** `s.split(bytes([d]))`: the pieces between the delimiters, always at least one. */
  function Split(s: seq<byte>, d: byte): (r: seq<seq<byte>>)
    ensures |r| >= 1
  {
    if s == [] then [[]]
    else
      var rest := Split(s[1..], d);
      if s[0] == d then [[]] + rest else [[s[0]] + rest[0]] + rest[1..]
  }

  /** `bytes([d]).join(ps)` */
  function Join(ps: seq<seq<byte>>, d: byte): seq<byte>
  {
    if ps == [] then [] else if |ps| == 1 then ps[0] else ps[0] + [d] + Join(ps[1..], d)
  }

  /** How many times `b` occurs in `s`. */
  function Count(s: seq<byte>, b: byte): nat
  {
    if s == [] then 0 else (if s[0] == b then 1 else 0) + Count(s[1..], b)
  }

  /** Joining the pieces with the delimiter gives the original, there is one piece
      more than there are delimiters, and no piece holds the delimiter. */
  lemma {:induction false} SplitJoin(s: seq<byte>, d: byte)
    ensures Join(Split(s, d), d) == s
    ensures |Split(s, d)| == Count(s, d) + 1
    ensures forall i :: 0 <= i < |Split(s, d)| ==> d !in Split(s, d)[i]
  {
    if s != [] {
      var rest := Split(s[1..], d);
      SplitJoin(s[1..], d);
      assert s == [s[0]] + s[1..];
      if s[0] == d {
        assert Split(s, d) == [[]] + rest;
        assert Split(s, d)[1..] == rest;
        assert forall i :: 1 <= i < |Split(s, d)| ==> Split(s, d)[i] == rest[i - 1];
      } else {
        var r := Split(s, d);
        assert r == [[s[0]] + rest[0]] + rest[1..];
        assert forall i :: 1 <= i < |r| ==> r[i] == rest[i];
        if |rest| == 1 {
          assert Join(r, d) == [s[0]] + rest[0];
        } else {
          assert r[1..] == rest[1..];
          assert Join(rest, d) == rest[0] + [d] + Join(rest[1..], d);
        }
      }
    }
  }

  // ---------------------------------------------------------------- replacing

  /** `s.replace(bytes([b]), to)` for a one-byte pattern. */
  function ReplaceByte(s: seq<byte>, b: byte, to: seq<byte>): seq<byte>
  {
    if s == [] then [] else (if s[0] == b then to else [s[0]]) + ReplaceByte(s[1..], b, to)
  }

  /** `s.replace(bytes([a, b]), to)`: occurrences are replaced left to right and do not overlap. */
  function Replace2(s: seq<byte>, a: byte, b: byte, to: seq<byte>): seq<byte>
  {
    if |s| < 2 then s
    else if s[0] == a && s[1] == b then to + Replace2(s[2..], a, b, to)
    else [s[0]] + Replace2(s[1..], a, b, to)
  }

  lemma ReplaceByteAppend(x: seq<byte>, y: seq<byte>, b: byte, to: seq<byte>)
    ensures ReplaceByte(x + y, b, to) == ReplaceByte(x, b, to) + ReplaceByte(y, b, to)
  {
    if x != [] {
      assert (x + y)[0] == x[0] && (x + y)[1..] == x[1..] + y;
      ReplaceByteAppend(x[1..], y, b, to);
      var h := if x[0] == b then to else [x[0]];
      calc {
        ReplaceByte(x + y, b, to);
        h + ReplaceByte(x[1..] + y, b, to);
        h + (ReplaceByte(x[1..], b, to) + ReplaceByte(y, b, to));
        (h + ReplaceByte(x[1..], b, to)) + ReplaceByte(y, b, to);
      }
    } else {
      assert x + y == y;
    }
  }

  /** A byte that does not start the pattern is copied. */
  lemma Replace2Skip(c: byte, rest: seq<byte>, a: byte, b: byte, to: seq<byte>)
    requires c != a || rest == [] || rest[0] != b
    ensures Replace2([c] + rest, a, b, to) == [c] + Replace2(rest, a, b, to)
  {
    assert ([c] + rest)[1..] == rest;
  }

  /** The pattern at the front is replaced. */
  lemma Replace2Hit(rest: seq<byte>, a: byte, b: byte, to: seq<byte>)
    ensures Replace2([a, b] + rest, a, b, to) == to + Replace2(rest, a, b, to)
  {
    assert ([a, b] + rest)[2..] == rest;
  }
}
