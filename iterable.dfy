/**
  Iteration helpers: a bounded prefix of an iterable (`itake`), its first
  element (`first`), and a wrapper that makes a function's result iterable
  (`ensure_iterable`).  An iterable is a finite sequence here.
 */
module Iterables {
  import opened Wrappers
  // `Value` is the value model shared with the HDF5 nodes: its `List` case
  // is the tuple that both `ensure_iterable` and `H5Node.__setitem__` wrap a
  // lone value in.
  import opened Store

  // ---------------------------------------------------------------------------
  // itake

  /** `izip(count(), xs)` */
  function Enumerate<T>(xs: seq<T>): (r: seq<(int, T)>)
    ensures |r| == |xs| && forall i :: 0 <= i < |xs| ==> r[i] == (i, xs[i])
  {
    seq(|xs|, i requires 0 <= i < |xs| => (i, xs[i]))
  }

  /** `takewhile(lambda x: x[0] < n, pairs)` */
  function TakeWhileBelow<T>(pairs: seq<(int, T)>, n: int): seq<(int, T)> {
    if |pairs| == 0 || !(pairs[0].0 < n) then []
    else [pairs[0]] + TakeWhileBelow(pairs[1..], n)
  }

  /** `imap(lambda x: x[1], pairs)` */
  function Seconds<T>(pairs: seq<(int, T)>): (r: seq<T>)
    ensures |r| == |pairs| && forall i :: 0 <= i < |pairs| ==> r[i] == pairs[i].1
  {
    seq(|pairs|, i requires 0 <= i < |pairs| => pairs[i].1)
  }

  /** Numbering a sequence and dropping the numbers gives it back. */
  lemma SecondsOfEnumerate<T>(xs: seq<T>)
    ensures Seconds(Enumerate(xs)) == xs
  {
    assert forall i :: 0 <= i < |xs| ==> Seconds(Enumerate(xs))[i] == xs[i];
  }

  /** `itake(n, xs)`: exactly the first `min(n, |xs|)` elements, in order,
      and nothing when `n <= 0`; always a prefix of `xs`. */
  function ITake<T>(n: int, xs: seq<T>): (r: seq<T>)
    ensures r == xs[..TakeCount(n, |xs|)]
    ensures n <= 0 ==> r == []
    ensures n >= |xs| ==> r == xs
  {
    TakeWhileOfCounted(Enumerate(xs), 0, n);
    var taken := Enumerate(xs)[..TakeCount(n, |xs|)];
    assert Seconds(taken) == xs[..TakeCount(n, |xs|)];
    Seconds(TakeWhileBelow(Enumerate(xs), n))
  }

  /** How many elements `itake(n, xs)` yields. */
  function TakeCount(n: int, len: nat): (c: nat)
    ensures c <= len
  {
    if n <= 0 then 0 else if n < len then n else len
  }

  /** Counting from `from`, the pairs below `n` are a prefix. */
  lemma {:induction false} TakeWhileOfCounted<T>(pairs: seq<(int, T)>, from: int, n: int)
    requires forall i :: 0 <= i < |pairs| ==> pairs[i].0 == from + i
    ensures TakeWhileBelow(pairs, n) == pairs[..TakeCount(n - from, |pairs|)]
    decreases |pairs|
  {
    if |pairs| > 0 && pairs[0].0 < n {
      TakeWhileOfCounted(pairs[1..], from + 1, n);
      assert TakeCount(n - from, |pairs|) == 1 + TakeCount(n - (from + 1), |pairs| - 1);
      assert pairs[..TakeCount(n - from, |pairs|)] == [pairs[0]] + pairs[1..][..TakeCount(n - (from + 1), |pairs| - 1)];
    }
  }

  // ---------------------------------------------------------------------------
  // first

  /** `first(xs)`: the element at position 0, or `None` for an empty (falsy)
      sequence; that is the only element of `itake(1, xs)`, if it has one. */
  function First<T>(xs: seq<T>): (r: Option<T>)
    ensures |ITake(1, xs)| <= 1
    ensures r == if |ITake(1, xs)| == 0 then None else Some(ITake(1, xs)[0])
  {
    if |xs| > 0 then Some(xs[0]) else None
  }

  // ---------------------------------------------------------------------------
  // ensure_iterable

  /** `ensure_iterable(f)(*args)`: `f`'s result when the runtime test
      `isiterable` accepts it, else a one-element tuple holding it. */
  function EnsureIterable<A>(f: A -> Value, isIterable: Value -> bool, args: A): (r: Value)
    ensures isIterable(f(args)) ==> r == f(args)
    ensures !isIterable(f(args)) ==> r == List([f(args)])
  {
    var result := f(args);
    if isIterable(result) then result else List([result])
  }

  /** Since a tuple is iterable, the result is always iterable, and wrapping
      twice is wrapping once. */
  lemma EnsureIterableIdempotent<A>(f: A -> Value, isIterable: Value -> bool, args: A)
    requires forall items :: isIterable(List(items))
    ensures isIterable(EnsureIterable(f, isIterable, args))
    ensures EnsureIterable(a => EnsureIterable(f, isIterable, a), isIterable, args) == EnsureIterable(f, isIterable, args)
  {
    assert isIterable(List([f(args)]));
  }
}
