/**
  Function-level helpers: right-to-left composition (`combinator`), argument
  reversal (`flip`) and first-success choice (`maybe`).  A Python callable
  taking positional arguments is a function from the argument sequence to a
  result.
 */
module Functional {
  import opened Wrappers

  /** A callable applied to positional arguments `*args`. */
  type Fn<!T> = seq<T> -> T

  // ---------------------------------------------------------------------------
  // combinator

  /** `reduce(lambda acc, fnc: (fnc(*acc),), reversed(fncs), acc)`: the last
      function is applied first, to the whole argument tuple, and each result
      is wrapped as a one-element tuple for the next. */
  function FoldReversed<T>(fncs: seq<Fn<T>>, acc: seq<T>): seq<T>
    decreases |fncs|
  {
    if |fncs| == 0 then acc
    else FoldReversed(fncs[..|fncs| - 1], [fncs[|fncs| - 1](acc)])
  }

  /** `combinator(*fncs)(*args)`: the first element of the folded tuple.
      That is `f1(f2(...fk(*args)...))`: the last function receives every
      argument and each earlier one the result of the next.  With no
      functions it is the first argument, and IndexError when there is
      none. */
  function Combinator<T>(fncs: seq<Fn<T>>, args: seq<T>): (r: Result<T>)
    ensures |fncs| > 0 ==> r == Success(Nested(fncs, args))
    ensures |fncs| == 0 ==> r == if |args| > 0 then Success(args[0]) else Failure(IndexError)
  {
    var out := FoldReversed(fncs, args);
    if |fncs| > 0 then
      FoldReversedIsNested(fncs, args);
      Success(out[0])
    else if |out| == 0 then Failure(IndexError)
    else Success(out[0])
  }

  /** The reference meaning: `f1(f2(...fk(*args)...))`. */
  function Nested<T>(fncs: seq<Fn<T>>, args: seq<T>): T
    requires |fncs| > 0
  {
    if |fncs| == 1 then fncs[0](args) else fncs[0]([Nested(fncs[1..], args)])
  }

  lemma {:induction false} FoldReversedSplit<T>(xs: seq<Fn<T>>, ys: seq<Fn<T>>, acc: seq<T>)
    ensures FoldReversed(xs + ys, acc) == FoldReversed(xs, FoldReversed(ys, acc))
    decreases |ys|
  {
    if |ys| == 0 {
      assert xs + ys == xs;
    } else {
      var zs := xs + ys;
      assert zs[..|zs| - 1] == xs + ys[..|ys| - 1];
      assert zs[|zs| - 1] == ys[|ys| - 1];
      FoldReversedSplit(xs, ys[..|ys| - 1], [ys[|ys| - 1](acc)]);
    }
  }

  lemma {:induction false} FoldReversedIsNested<T>(fncs: seq<Fn<T>>, args: seq<T>)
    requires |fncs| > 0
    ensures FoldReversed(fncs, args) == [Nested(fncs, args)]
    decreases |fncs|
  {
    if |fncs| == 1 {
      assert FoldReversed(fncs[..0], [fncs[0](args)]) == [fncs[0](args)];
    } else {
      FoldReversedIsNested(fncs[1..], args);
      assert fncs == [fncs[0]] + fncs[1..];
      FoldReversedSplit([fncs[0]], fncs[1..], args);
      assert FoldReversed([fncs[0]], [Nested(fncs[1..], args)]) == FoldReversed([], [fncs[0]([Nested(fncs[1..], args)])]);
    }
  }

  /** `combinator(f)` behaves exactly like `f`. */
  lemma CombinatorOfOne<T>(f: Fn<T>, args: seq<T>)
    ensures Combinator([f], args) == Success(f(args))
  {
  }

  /** Composing two lists of functions is applying the combinator of the
      first to the result of the combinator of the second. */
  lemma CombinatorComposes<T>(fs: seq<Fn<T>>, gs: seq<Fn<T>>, args: seq<T>)
    requires |fs| > 0 && |gs| > 0
    ensures Combinator(fs + gs, args) == Combinator(fs, [Nested(gs, args)])
    ensures Combinator(gs, args) == Success(Nested(gs, args))
  {
    FoldReversedSplit(fs, gs, args);
    FoldReversedIsNested(gs, args);
  }

  // ---------------------------------------------------------------------------
  // flip

  /** `reversed(a)` */
  function Reverse<T>(a: seq<T>): (r: seq<T>)
    ensures |r| == |a| && forall i :: 0 <= i < |a| ==> r[i] == a[|a| - 1 - i]
  {
    if |a| == 0 then [] else Reverse(a[1..]) + [a[0]]
  }

  /** `flip(f)`: `f` applied to its arguments in reverse order, so that
      `flip(f)(a1, ..., an) == f(an, ..., a1)` and in particular
      `flip(f)(x, y) == f(y, x)`. */
  function Flip<T(!new)>(f: Fn<T>): (r: Fn<T>)
    ensures forall a: seq<T> :: r(a) == f(seq(|a|, i requires 0 <= i < |a| => a[|a| - 1 - i]))
  {
    assert forall a: seq<T> :: Reverse(a) == seq(|a|, i requires 0 <= i < |a| => a[|a| - 1 - i]);
    a => f(Reverse(a))
  }

  lemma ReverseTwice<T>(a: seq<T>)
    ensures Reverse(Reverse(a)) == a
  {
    assert forall i :: 0 <= i < |a| ==> Reverse(Reverse(a))[i] == a[i];
  }

  /** With two arguments, `flip(f)(x, y) == f(y, x)`. */
  lemma FlipSwapsTwo<T(!new)>(f: Fn<T>, x: T, y: T)
    ensures Flip(f)([x, y]) == f([y, x])
  {
    assert seq(2, i requires 0 <= i < 2 => [x, y][1 - i]) == [y, x];
  }

  /** `flip(flip(f))` behaves like `f`, whatever the number of arguments. */
  lemma FlipTwice<T(!new)>(f: Fn<T>, a: seq<T>)
    ensures Flip(Flip(f))(a) == f(a)
  {
    ReverseTwice(a);
  }

  // ---------------------------------------------------------------------------
  // maybe

  /** What calling one function did: returned a value or `None`, or raised. */
  datatype Attempt<T> = Returned(result: Option<T>) | Raised

  /** A raised exception counts as `None`. */
  function Yield<T>(a: Attempt<T>): Option<T> {
    match a
    case Returned(o) => o
    case Raised => None
  }

  /** `maybe(*functions)(*args)`: the result of the first function, in order,
      that neither raised nor returned `None`; `None` when there is none. */
  method Maybe<T>(functions: seq<seq<T> -> Attempt<T>>, args: seq<T>) returns (r: Option<T>)
    ensures r.None? <==> forall i :: 0 <= i < |functions| ==> Yield(functions[i](args)).None?
    ensures r.Some? ==>
      (exists i :: 0 <= i < |functions| && Yield(functions[i](args)) == r &&
         (forall j :: 0 <= j < i ==> Yield(functions[j](args)).None?))
  {
    var k := 0;
    while k < |functions|
      invariant 0 <= k <= |functions|
      invariant forall j :: 0 <= j < k ==> Yield(functions[j](args)).None?
    {
      var res := Yield(functions[k](args));
      if res.Some? {
        return res;
      }
      k := k + 1;
    }
    return None;
  }
}
