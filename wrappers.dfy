/** Options, results and finite record streams shared by every reader. */
module Wrappers {

  datatype Option<+T> = None | Some(value: T)

  /** The decoder's failures. The source raises an exception for each of these;
      the enum it uses for the first two gives UNSUPPORTED_ARCH and FILE_NOT_FOUND
      the same value (so Python treats them as one member), which is not reproduced here. */
  datatype ReadError =
    | FileNotFound
    | UnsupportedRevision
    | IndexOutOfRange            // Python IndexError: a byte read past the end of a short buffer
    | DivisionByZero             // a group length of 0 used as a divisor
    | NegativeSeek               // a page offset below 0 handed to seek
    | MissingKeyMark             // no 0xFF between key and value in a hashed item
    | MissingOversizeItem        // an oversize continuation that is not there
    | LeafOutOfOrder             // B-tree leaf ordering bytes decrease
    | IndexEntriesOutOfOrder     // B-tree parent fence ordering bytes decrease
    | BadOversizePageType(pageType: nat)
    | UnknownPageType(firstByte: nat)
    | EmptyPathSegment           // unescaping an empty path segment
    | MissingDynHashAlg
    | UnknownPathKind
    | OutOfFuel                  // the model's bound on pointer chasing was reached

  datatype Result<+T> = Success(value: T) | Failure(error: ReadError) {
    predicate IsFailure() { Failure? }
    function PropagateFailure<U>(): Result<U>
      requires Failure?
    {
      Failure(error)
    }
    function Extract(): T
      requires Success?
    {
      value
    }
  }

  /** What a Python generator produces when it is run to its end: the items it
      yielded, and the exception that stopped it, if one did. */
  datatype Stream<+T> = Stream(items: seq<T>, failure: Option<ReadError>) {
    predicate Complete() { failure.None? }
  }

  function Done<T>(): Stream<T> { Stream([], None) }

  function Fail<T>(e: ReadError): Stream<T> { Stream([], Some(e)) }

  /** `yield x` followed by the rest of the generator. */
  function Cons<T>(x: T, s: Stream<T>): (r: Stream<T>)
    ensures r.items == [x] + s.items && r.failure == s.failure
  {
    Stream([x] + s.items, s.failure)
  }

  /** Yields `xs`, then behaves as `s`. */
  function Prefix<T>(xs: seq<T>, s: Stream<T>): (r: Stream<T>)
    ensures r.items == xs + s.items && r.failure == s.failure
  {
    Stream(xs + s.items, s.failure)
  }

  /** Runs `a`, then, when `a` did not raise, `b`. */
  function Append<T>(a: Stream<T>, b: Stream<T>): (r: Stream<T>)
    ensures a.Complete() ==> r.items == a.items + b.items && r.failure == b.failure
    ensures !a.Complete() ==> r == a
  {
    if a.failure.Some? then a else Prefix(a.items, b)
  }

  /** The items of every stream, in order. */
  function ConcatItems<T>(ss: seq<Stream<T>>): seq<T>
  {
    if ss == [] then [] else ss[0].items + ConcatItems(ss[1..])
  }

  /** The nested `for s in ss: for x in s: yield x`: runs the streams in order and
      stops with the first failure. */
  function Flatten<T>(ss: seq<Stream<T>>): (r: Stream<T>)
    ensures r.Complete() <==> forall i :: 0 <= i < |ss| ==> ss[i].Complete()
    ensures r.Complete() ==> r.items == ConcatItems(ss)
  {
    if ss == [] then Done()
    else
      assert forall i :: 1 <= i < |ss| ==> ss[i] == ss[1..][i - 1];
      Append(ss[0], Flatten(ss[1..]))
  }

  /** Every item of the nested loop comes from one of the streams. */
  lemma {:induction false} FlattenMember<T>(ss: seq<Stream<T>>, x: T)
    requires x in Flatten(ss).items
    ensures exists i :: 0 <= i < |ss| && x in ss[i].items
  {
    if x !in ss[0].items {
      FlattenMember(ss[1..], x);
      var i :| 0 <= i < |ss[1..]| && x in ss[1..][i].items;
      assert x in ss[i + 1].items;
    }
  }

  /** The nested loop stops at the first stream that fails: it yields everything
      before that stream and what that stream yielded, then raises its error. */
  lemma {:induction false} FlattenStops<T>(ss: seq<Stream<T>>, k: nat)
    requires k < |ss| && !ss[k].Complete()
    requires forall i :: 0 <= i < k ==> ss[i].Complete()
    ensures Flatten(ss).items == ConcatItems(ss[..k]) + ss[k].items
    ensures Flatten(ss).failure == ss[k].failure
  {
    if k == 0 {
      assert ss[..0] == [];
    } else {
      FlattenStops(ss[1..], k - 1);
      assert ss[1..][..k - 1] == ss[..k][1..];
    }
  }
}
