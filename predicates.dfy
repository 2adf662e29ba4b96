/**
  The predicate algebra of the dataset module: leaf terms that bind a field
  name to a comparison or membership test, and the four boolean combinators
  (conjunction, disjunction, exclusive-or, equivalence) that splice in the
  children of operands of their own kind.  A predicate is evaluated against a
  matrix and a column accessor supplied by the owning table, and yields one
  boolean per row.
 */
module Predicates {
  import opened Wrappers

  /** A dense integer matrix, row-major. */
  type Matrix = seq<seq<int>>

  /** Every row has `width` cells: the shape of a table with `width` fields. */
  predicate Rectangular(m: Matrix, width: nat) {
    forall i :: 0 <= i < |m| ==> |m[i]| == width
  }

  /** A boolean row vector. */
  type Mask = seq<bool>

  /** The callback a predicate receives: given the matrix and a field name,
      the column of that field (or the exception the lookup raises). */
  type Accessor = (Matrix, string) -> Result<seq<int>>

  datatype Comparison = Lt | Gt | Le | Ge | Eq | Ne

  /** The reduction operator of a combinator: `and_`, `or_`, `xor`, `eq`. */
  datatype Connective = Conj | Dis | Xor | Equ

  datatype Pred =
    | Compare(cmp: Comparison, field: string, value: int)
    | Always(field: string)
    | Never(field: string)
    | In(field: string, candidates: seq<int>)
    | Binary(conn: Connective, preds: seq<Operand>)
  {
    /** `self & other` */
    function And(other: Operand): Pred { Build(Conj, [Call(this), other]) }

    /** `self | other` */
    function Or(other: Operand): Pred { Build(Dis, [Call(this), other]) }

    /** `self ^ other` */
    function ExclusiveOr(other: Operand): Pred { Build(Connective.Xor, [Call(this), other]) }

    /** `self == other` (overloaded to build an equivalence) */
    function Iff(other: Operand): Pred { Build(Equ, [Call(this), other]) }
  }

  /** A child of a combinator: a predicate, called at evaluation time, or a
      non-callable value that is passed through unevaluated. */
  datatype Operand = Call(p: Pred) | Value(mask: Mask)

  /** The factory that builds leaf terms from a field name. */
  datatype Variable = Variable(field: string) {
    function LessThan(v: int): Pred { Compare(Lt, field, v) }
    function GreaterThan(v: int): Pred { Compare(Gt, field, v) }
    function AtMost(v: int): Pred { Compare(Le, field, v) }
    function AtLeast(v: int): Pred { Compare(Ge, field, v) }
    function EqualTo(v: int): Pred { Compare(Eq, field, v) }
    function NotEqualTo(v: int): Pred { Compare(Ne, field, v) }
    function Among(candidates: seq<int>): Pred { In(field, candidates) }
    function AlwaysTrue(): Pred { Always(field) }
    function NeverTrue(): Pred { Never(field) }
  }

  // ---------------------------------------------------------------------------
  // Construction: same-kind operands are spliced into the new child list.

  /** The children an operand contributes to a combinator of kind `conn`. */
  function Contributed(conn: Connective, o: Operand): seq<Operand> {
    if o.Call? && o.p.Binary? && o.p.conn == conn then o.p.preds else [o]
  }

  function Splice(conn: Connective, args: seq<Operand>): (r: seq<Operand>)
    ensures forall o :: o in r <==> exists i :: 0 <= i < |args| && o in Contributed(conn, args[i])
  {
    if |args| == 0 then []
    else
      var rest := Splice(conn, args[1..]);
      assert forall i :: 1 <= i < |args| ==> args[i] == args[1..][i - 1];
      Contributed(conn, args[0]) + rest
  }

  /** The combinator constructor: `Conj(*args)`, `Dis(*args)`, ...  A child
      of the result is an operand of another kind or a child of a same-kind
      operand, and every such operand and child is a child. */
  function Build(conn: Connective, args: seq<Operand>): (r: Pred)
    ensures r.Binary? && r.conn == conn
    ensures forall o :: o in r.preds <==>
      exists i :: 0 <= i < |args| && ((!SameKind(conn, args[i]) && o == args[i]) || (SameKind(conn, args[i]) && o in args[i].p.preds))
  {
    Binary(conn, Splice(conn, args))
  }

  /** An operand that is a combinator of kind `conn`. */
  predicate SameKind(conn: Connective, o: Operand) {
    o.Call? && o.p.Binary? && o.p.conn == conn
  }

  /** No child of the list is itself a combinator of kind `conn`. */
  predicate Flat(conn: Connective, ops: seq<Operand>) {
    forall i :: 0 <= i < |ops| ==> !SameKind(conn, ops[i])
  }

  // ---------------------------------------------------------------------------
  // Evaluation

  function Holds(cmp: Comparison, x: int, v: int): bool {
    match cmp
    case Lt => x < v
    case Gt => x > v
    case Le => x <= v
    case Ge => x >= v
    case Eq => x == v
    case Ne => x != v
  }

  function Apply(conn: Connective, x: bool, y: bool): bool {
    match conn
    case Conj => x && y
    case Dis => x || y
    case Xor => x != y
    case Equ => x == y
  }

  /** Elementwise combination of two masks; masks of different lengths cannot
      be broadcast together. */
  function Combine(conn: Connective, a: Mask, b: Mask): Result<Mask> {
    if |a| != |b| then Failure(ValueError)
    else Success(seq(|a|, i requires 0 <= i < |a| => Apply(conn, a[i], b[i])))
  }

  /** `col == c` elementwise. */
  function EqualMask(col: seq<int>, c: int): Mask {
    seq(|col|, i requires 0 <= i < |col| => col[i] == c)
  }

  /** `reduce(or_, (c == col for c in cands))`, a left fold. */
  function AnyEqual(col: seq<int>, cands: seq<int>): Mask
    requires |cands| > 0
    decreases |cands|
  {
    if |cands| == 1 then EqualMask(col, cands[0])
    else
      var prefix := AnyEqual(col, cands[..|cands| - 1]);
      seq(|col|, i requires 0 <= i < |col| => (if i < |prefix| then prefix[i] else false) || col[i] == cands[|cands| - 1])
  }

  /** A leaf term succeeds only when its column is found, with one entry per
      cell of the column; a combinator succeeds only with children, and with
      the length of its first child's mask. */
  function Eval(p: Pred, m: Matrix, acc: Accessor): (r: Result<Mask>)
    ensures !p.Binary? && r.Success? ==> acc(m, p.field).Success? && |r.value| == |acc(m, p.field).value|
    ensures p.Binary? && r.Success? ==>
      |p.preds| > 0 && EvalOperand(p.preds[0], m, acc).Success? && |r.value| == |EvalOperand(p.preds[0], m, acc).value|
    decreases p, 2
  {
    match p
    case Compare(cmp, f, v) =>
      var col :- acc(m, f);
      Success(seq(|col|, i requires 0 <= i < |col| => Holds(cmp, col[i], v)))
    case Always(f) =>
      var col :- acc(m, f);
      Success(seq(|col|, i => true))
    case Never(f) =>
      var col :- acc(m, f);
      Success(seq(|col|, i => false))
    case In(f, cands) =>
      var col :- acc(m, f);
      if |cands| == 0 then Failure(TypeError) else Success(AnyEqual(col, cands))
    case Binary(conn, ops) =>
      if |ops| == 0 then Failure(TypeError)
      else
        var first :- EvalOperand(ops[0], m, acc);
        Reduce(conn, first, ops[1..], m, acc)
  }

  function EvalOperand(o: Operand, m: Matrix, acc: Accessor): Result<Mask>
    decreases o, 1
  {
    match o
    case Call(p) => Eval(p, m, acc)
    case Value(mask) => Success(mask)
  }

  /** The rest of `reduce(reduction, children)`: each child is evaluated in
      turn and folded into the accumulator. */
  function Reduce(conn: Connective, acc: Mask, ops: seq<Operand>, m: Matrix, a: Accessor): (r: Result<Mask>)
    ensures r.Success? ==> |r.value| == |acc|
    decreases ops, 0
  {
    if |ops| == 0 then Success(acc)
    else
      var next :- EvalOperand(ops[0], m, a);
      var folded :- Combine(conn, acc, next);
      Reduce(conn, folded, ops[1..], m, a)
  }

  /** Two evaluations agree when both fail or both succeed with the same mask. */
  predicate Agree(r1: Result<Mask>, r2: Result<Mask>) {
    (r1.Success? <==> r2.Success?) && (r1.Success? ==> r1.value == r2.value)
  }

  // ---------------------------------------------------------------------------
  // Construction properties

  /** `(a & b) & c` has the three children `a, b, c` when none of them is
      itself a conjunction. */
  lemma ConjunctionFlattens(a: Pred, b: Pred, c: Pred)
    requires !SameKind(Conj, Call(a)) && !SameKind(Conj, Call(b)) && !SameKind(Conj, Call(c))
    ensures a.And(Call(b)).And(Call(c)) == Binary(Conj, [Call(a), Call(b), Call(c)])
  {
    assert Splice(Conj, [Call(b)]) == [Call(b)];
    assert Splice(Conj, [Call(c)]) == [Call(c)];
  }

  /** Repetitions are kept: `a ^ a` has two children `a`, which the xor
      reduction cancels. */
  lemma RepeatedOperandsKept(conn: Connective, o: Operand)
    requires !SameKind(conn, o)
    ensures Build(conn, [o, o]).preds == [o, o]
  {
    assert [o, o][1..] == [o];
    assert [o][1..] == [];
    assert Contributed(conn, o) == [o];
    assert Splice(conn, [o]) == [o] + Splice(conn, []);
  }

  /** An operand of a different kind is kept as one nested child. */
  lemma OtherKindStaysNested(conn: Connective, o: Operand, rest: seq<Operand>)
    requires !SameKind(conn, o)
    ensures Build(conn, [o] + rest).preds[0] == o
    ensures |Build(conn, [o] + rest).preds| == 1 + |Splice(conn, rest)|
  {
    assert ([o] + rest)[1..] == rest;
  }

  /** Splicing is compositional: the children of concatenated operands are
      the concatenation of their children, so order and repetitions are
      kept. */
  lemma {:induction false} SpliceAppend(conn: Connective, xs: seq<Operand>, ys: seq<Operand>)
    ensures Splice(conn, xs + ys) == Splice(conn, xs) + Splice(conn, ys)
    decreases |xs|
  {
    if |xs| == 0 {
      assert xs + ys == ys;
    } else {
      assert (xs + ys)[1..] == xs[1..] + ys;
      SpliceAppend(conn, xs[1..], ys);
    }
  }

  /** Building from operands whose same-kind children are already flat yields
      a combinator with no directly nested combinator of its own kind. */
  lemma {:induction false} BuildIsFlat(conn: Connective, args: seq<Operand>)
    requires forall i :: 0 <= i < |args| && SameKind(conn, args[i]) ==> Flat(conn, args[i].p.preds)
    ensures Flat(conn, Build(conn, args).preds)
    decreases |args|
  {
    if |args| > 0 {
      BuildIsFlat(conn, args[1..]);
    }
  }

  // ---------------------------------------------------------------------------
  // Evaluation properties

  /** Every leaf term succeeds once its column is found: a comparison term
      yields, for each cell of the field's column, that cell compared with
      the value; `always` yields all true and `never` all false, one entry
      per cell. */
  lemma TermSemantics(f: string, v: int, m: Matrix, acc: Accessor)
    requires acc(m, f).Success?
    ensures var col := acc(m, f).value;
      && Eval(Variable(f).LessThan(v), m, acc) == Success(seq(|col|, j requires 0 <= j < |col| => col[j] < v))
      && Eval(Variable(f).GreaterThan(v), m, acc) == Success(seq(|col|, j requires 0 <= j < |col| => col[j] > v))
      && Eval(Variable(f).AtMost(v), m, acc) == Success(seq(|col|, j requires 0 <= j < |col| => col[j] <= v))
      && Eval(Variable(f).AtLeast(v), m, acc) == Success(seq(|col|, j requires 0 <= j < |col| => col[j] >= v))
      && Eval(Variable(f).EqualTo(v), m, acc) == Success(seq(|col|, j requires 0 <= j < |col| => col[j] == v))
      && Eval(Variable(f).NotEqualTo(v), m, acc) == Success(seq(|col|, j requires 0 <= j < |col| => col[j] != v))
      && Eval(Variable(f).AlwaysTrue(), m, acc) == Success(seq(|col|, j => true))
      && Eval(Variable(f).NeverTrue(), m, acc) == Success(seq(|col|, j => false))
  {
    var col := acc(m, f).value;
    CompareMask(Lt, f, v, m, acc);
    CompareMask(Gt, f, v, m, acc);
    CompareMask(Le, f, v, m, acc);
    CompareMask(Ge, f, v, m, acc);
    CompareMask(Eq, f, v, m, acc);
    CompareMask(Ne, f, v, m, acc);
  }

  /** One comparison term: success, one entry per cell, entry `j` comparing
      cell `j` with the value. */
  lemma CompareMask(cmp: Comparison, f: string, v: int, m: Matrix, acc: Accessor)
    requires acc(m, f).Success?
    ensures var col := acc(m, f).value;
      var r := Eval(Compare(cmp, f, v), m, acc);
      && r.Success? && |r.value| == |col|
      && match cmp
         case Lt => r.value == seq(|col|, j requires 0 <= j < |col| => col[j] < v)
         case Gt => r.value == seq(|col|, j requires 0 <= j < |col| => col[j] > v)
         case Le => r.value == seq(|col|, j requires 0 <= j < |col| => col[j] <= v)
         case Ge => r.value == seq(|col|, j requires 0 <= j < |col| => col[j] >= v)
         case Eq => r.value == seq(|col|, j requires 0 <= j < |col| => col[j] == v)
         case Ne => r.value == seq(|col|, j requires 0 <= j < |col| => col[j] != v)
  {
    var col := acc(m, f).value;
    var r := Eval(Compare(cmp, f, v), m, acc).value;
    assert forall j :: 0 <= j < |col| ==> r[j] == Holds(cmp, col[j], v);
  }

  /** A failing column lookup is the failure of every leaf term on that field. */
  lemma TermLookupFails(p: Pred, m: Matrix, acc: Accessor)
    requires !p.Binary? && acc(m, p.field).Failure?
    ensures Eval(p, m, acc) == Failure(acc(m, p.field).error)
  {
  }

  lemma {:induction false} AnyEqualMeansMember(col: seq<int>, cands: seq<int>)
    requires |cands| > 0
    ensures |AnyEqual(col, cands)| == |col|
    ensures forall i :: 0 <= i < |col| ==> (AnyEqual(col, cands)[i] <==> col[i] in cands)
    decreases |cands|
  {
    if |cands| > 1 {
      var init := cands[..|cands| - 1];
      AnyEqualMeansMember(col, init);
      assert cands == init + [cands[|cands| - 1]];
      forall i | 0 <= i < |col|
        ensures AnyEqual(col, cands)[i] <==> col[i] in cands
      {
        assert col[i] in cands <==> col[i] in init || col[i] == cands[|cands| - 1];
      }
    }
  }

  /** Membership: a row is selected iff its cell equals some candidate; with
      no candidates the reduction has no initial value and raises. */
  lemma InSemantics(f: string, cands: seq<int>, m: Matrix, acc: Accessor)
    requires acc(m, f).Success?
    ensures |cands| == 0 ==> Eval(Variable(f).Among(cands), m, acc) == Failure(TypeError)
    ensures |cands| > 0 ==>
      var r := Eval(Variable(f).Among(cands), m, acc);
      var col := acc(m, f).value;
      && r.Success? && |r.value| == |col|
      && forall i :: 0 <= i < |col| ==> (r.value[i] <==> col[i] in cands)
  {
    if |cands| > 0 {
      AnyEqualMeansMember(acc(m, f).value, cands);
    }
  }

  /** Folding over a concatenation is folding over the first part and then
      continuing with the second, failures included. */
  lemma {:induction false} ReduceAppend(conn: Connective, acc: Mask, xs: seq<Operand>, ys: seq<Operand>, m: Matrix, a: Accessor)
    ensures Reduce(conn, acc, xs + ys, m, a) ==
      (match Reduce(conn, acc, xs, m, a)
       case Success(r) => Reduce(conn, r, ys, m, a)
       case Failure(e) => Failure(e))
    decreases |xs|
  {
    if |xs| == 0 {
      assert xs + ys == ys;
    } else {
      assert (xs + ys)[0] == xs[0];
      assert (xs + ys)[1..] == xs[1..] + ys;
      var next := EvalOperand(xs[0], m, a);
      if next.Success? {
        var folded := Combine(conn, acc, next.value);
        if folded.Success? {
          ReduceAppend(conn, folded.value, xs[1..], ys, m, a);
        }
      }
    }
  }

  /** A successful fold keeps the accumulator's length, and every child it
      consumed evaluated to a mask of that length. */
  lemma {:induction false} ReduceShape(conn: Connective, acc: Mask, ops: seq<Operand>, m: Matrix, a: Accessor)
    requires Reduce(conn, acc, ops, m, a).Success?
    ensures |Reduce(conn, acc, ops, m, a).value| == |acc|
    ensures forall j :: 0 <= j < |ops| ==>
      EvalOperand(ops[j], m, a).Success? && |EvalOperand(ops[j], m, a).value| == |acc|
    decreases |ops|
  {
    if |ops| > 0 {
      var next := EvalOperand(ops[0], m, a).value;
      var folded := Combine(conn, acc, next).value;
      ReduceShape(conn, folded, ops[1..], m, a);
      forall j | 0 <= j < |ops|
        ensures EvalOperand(ops[j], m, a).Success? && |EvalOperand(ops[j], m, a).value| == |acc|
      {
        if j > 0 { assert ops[j] == ops[1..][j - 1]; }
      }
    }
  }

  lemma CombineAssociative(conn: Connective, x: Mask, y: Mask, z: Mask)
    requires |x| == |y| == |z|
    ensures Combine(conn, Combine(conn, x, y).value, z) == Combine(conn, x, Combine(conn, y, z).value)
  {
    var l := Combine(conn, Combine(conn, x, y).value, z).value;
    var r := Combine(conn, x, Combine(conn, y, z).value).value;
    assert |l| == |r|;
    forall i | 0 <= i < |l| ensures l[i] == r[i] {
      assert l[i] == Apply(conn, Apply(conn, x[i], y[i]), z[i]);
      assert r[i] == Apply(conn, x[i], Apply(conn, y[i], z[i]));
    }
    assert l == r;
  }

  /** Folding the right operand first and then combining agrees with
      combining first and then folding. */
  lemma {:induction false} ReduceAssociative(conn: Connective, x: Mask, y: Mask, ops: seq<Operand>, m: Matrix, a: Accessor)
    ensures Agree(
      (match Combine(conn, x, y) case Success(xy) => Reduce(conn, xy, ops, m, a) case Failure(e) => Failure(e)),
      (match Reduce(conn, y, ops, m, a) case Success(r) => Combine(conn, x, r) case Failure(e) => Failure(e)))
    decreases |ops|
  {
    var right := Reduce(conn, y, ops, m, a);
    if right.Success? {
      ReduceShape(conn, y, ops, m, a);
    }
    if |ops| > 0 && |x| == |y| {
      var next := EvalOperand(ops[0], m, a);
      if next.Success? && |next.value| == |y| {
        var xy := Combine(conn, x, y).value;
        var yn := Combine(conn, y, next.value).value;
        CombineAssociative(conn, x, y, next.value);
        ReduceAssociative(conn, x, yn, ops[1..], m, a);
      }
    }
  }

  /** A combinator's children, evaluated and folded; `Eval` of a `Binary`. */
  function EvalList(conn: Connective, ops: seq<Operand>, m: Matrix, a: Accessor): Result<Mask> {
    if |ops| == 0 then Failure(TypeError)
    else
      var first :- EvalOperand(ops[0], m, a);
      Reduce(conn, first, ops[1..], m, a)
  }

  lemma ReduceSingle(conn: Connective, acc: Mask, o: Operand, m: Matrix, a: Accessor)
    ensures EvalOperand(o, m, a).Failure? ==> Reduce(conn, acc, [o], m, a) == Failure(EvalOperand(o, m, a).error)
    ensures EvalOperand(o, m, a).Success? ==> Reduce(conn, acc, [o], m, a) == Combine(conn, acc, EvalOperand(o, m, a).value)
  {
    assert [o][1..] == [];
    var next := EvalOperand(o, m, a);
    if next.Success? {
      var c := Combine(conn, acc, next.value);
      if c.Success? {
        assert Reduce(conn, c.value, [], m, a) == Success(c.value);
      }
    }
  }

  /** What an operand contributes evaluates exactly like the operand. */
  lemma ContributedEvaluatesLikeOperand(conn: Connective, o: Operand, m: Matrix, a: Accessor)
    requires SameKind(conn, o) ==> |o.p.preds| > 0
    ensures EvalList(conn, Contributed(conn, o), m, a) == EvalOperand(o, m, a)
  {
    if !SameKind(conn, o) {
      assert Contributed(conn, o) == [o];
      assert [o][1..] == [];
    }
  }

  /** Splicing a same-kind operand does not change what the combinator
      evaluates to (provided the spliced combinators have children). */
  lemma FlatteningPreservesMeaning(conn: Connective, o1: Operand, o2: Operand, m: Matrix, a: Accessor)
    requires SameKind(conn, o1) ==> |o1.p.preds| > 0
    requires SameKind(conn, o2) ==> |o2.p.preds| > 0
    ensures Agree(Eval(Build(conn, [o1, o2]), m, a), Eval(Binary(conn, [o1, o2]), m, a))
  {
    var c1, c2 := Contributed(conn, o1), Contributed(conn, o2);
    assert Splice(conn, [o2]) == c2;
    assert Build(conn, [o1, o2]).preds == c1 + c2;
    assert |c1| > 0;
    var flat := Eval(Build(conn, [o1, o2]), m, a);
    var nested := Eval(Binary(conn, [o1, o2]), m, a);
    ContributedEvaluatesLikeOperand(conn, o1, m, a);
    var left := EvalOperand(o1, m, a);
    var first := EvalOperand(c1[0], m, a);
    assert (c1 + c2)[0] == c1[0];
    assert (c1 + c2)[1..] == c1[1..] + c2;
    if first.Success? {
      ReduceAppend(conn, first.value, c1[1..], c2, m, a);
    }
    if left.Success? {
      var l := left.value;
      assert flat == Reduce(conn, l, c2, m, a);
      assert nested == Reduce(conn, l, [o2], m, a);
      if SameKind(conn, o2) {
        var ys := o2.p.preds;
        var y0 := EvalOperand(ys[0], m, a);
        ReduceSingle(conn, l, o2, m, a);
        if y0.Success? {
          assert EvalOperand(o2, m, a) == Reduce(conn, y0.value, ys[1..], m, a);
          ReduceAssociative(conn, l, y0.value, ys[1..], m, a);
          assert flat == (match Combine(conn, l, y0.value)
                          case Success(xy) => Reduce(conn, xy, ys[1..], m, a)
                          case Failure(e) => Failure(e));
          assert nested == (match Reduce(conn, y0.value, ys[1..], m, a)
                            case Success(r) => Combine(conn, l, r)
                            case Failure(e) => Failure(e));
        } else {
          assert EvalOperand(o2, m, a).Failure?;
        }
      } else {
        assert c2 == [o2];
      }
    }
  }

  /** `t` is the identity of `conn` at every position: all true for a
      conjunction, all false for a disjunction. */
  predicate IsUnit(conn: Connective, t: Mask) {
    (conn == Conj && forall i :: 0 <= i < |t| ==> t[i])
    || (conn == Dis && forall i :: 0 <= i < |t| ==> !t[i])
  }

  lemma UnitLaw(conn: Connective, t: Mask, e: Mask)
    requires IsUnit(conn, t) && |t| == |e|
    ensures Combine(conn, t, e) == Success(e)
  {
    var r := Combine(conn, t, e).value;
    assert forall i :: 0 <= i < |r| ==> r[i] == e[i];
    assert r == e;
  }

  /** `Always(f) & p` evaluates like `p`, given that the column of `f` has as
      many rows as `p`'s mask. */
  lemma AlwaysIsConjunctionUnit(f: string, p: Pred, m: Matrix, a: Accessor)
    requires a(m, f).Success? && Eval(p, m, a).Success?
    requires |a(m, f).value| == |Eval(p, m, a).value|
    ensures Eval(Always(f).And(Call(p)), m, a) == Eval(p, m, a)
  {
    var t := Eval(Always(f), m, a).value;
    UnitCase(Conj, Always(f), p, t, m, a);
  }

  /** `Never(f) | p` evaluates like `p`, under the same condition. */
  lemma NeverIsDisjunctionUnit(f: string, p: Pred, m: Matrix, a: Accessor)
    requires a(m, f).Success? && Eval(p, m, a).Success?
    requires |a(m, f).value| == |Eval(p, m, a).value|
    ensures Eval(Never(f).Or(Call(p)), m, a) == Eval(p, m, a)
  {
    var t := Eval(Never(f), m, a).value;
    UnitCase(Dis, Never(f), p, t, m, a);
  }

  lemma UnitCase(conn: Connective, u: Pred, p: Pred, t: Mask, m: Matrix, a: Accessor)
    requires !u.Binary? && Eval(u, m, a) == Success(t) && IsUnit(conn, t)
    requires Eval(p, m, a).Success? && |Eval(p, m, a).value| == |t|
    ensures Eval(Build(conn, [Call(u), Call(p)]), m, a) == Eval(p, m, a)
  {
    var b := Build(conn, [Call(u), Call(p)]);
    assert Splice(conn, [Call(p)]) == Contributed(conn, Call(p));
    assert b.preds == [Call(u)] + Contributed(conn, Call(p));
    if SameKind(conn, Call(p)) {
      var ps := p.preds;
      var e := EvalOperand(ps[0], m, a).value;
      ReduceShape(conn, e, ps[1..], m, a);
      UnitLaw(conn, t, e);
      assert b.preds[1..] == ps;
      assert Eval(b, m, a) == Reduce(conn, t, ps, m, a);
    } else {
      UnitLaw(conn, t, Eval(p, m, a).value);
      assert b.preds == [Call(u), Call(p)];
      assert b.preds[1..] == [Call(p)];
      ReduceSingle(conn, t, Call(p), m, a);
      assert Eval(b, m, a) == Reduce(conn, t, [Call(p)], m, a);
    }
  }

  /** A conjunction selects a row iff its first child and every later child
      select it. */
  lemma {:induction false} ConjunctionIsAll(acc: Mask, ops: seq<Operand>, m: Matrix, a: Accessor, i: nat)
    requires Reduce(Conj, acc, ops, m, a).Success?
    requires i < |acc|
    ensures ReduceShapeHolds(Conj, acc, ops, m, a)
    ensures Reduce(Conj, acc, ops, m, a).value[i] <==>
      acc[i] && forall j :: 0 <= j < |ops| ==> EvalOperand(ops[j], m, a).value[i]
    decreases |ops|
  {
    ReduceShape(Conj, acc, ops, m, a);
    if |ops| > 0 {
      var next := EvalOperand(ops[0], m, a).value;
      var folded := Combine(Conj, acc, next).value;
      ConjunctionIsAll(folded, ops[1..], m, a, i);
      assert forall j :: 1 <= j < |ops| ==> ops[j] == ops[1..][j - 1];
    }
  }

  /** A disjunction selects a row iff its first child or some later child
      selects it. */
  lemma {:induction false} DisjunctionIsAny(acc: Mask, ops: seq<Operand>, m: Matrix, a: Accessor, i: nat)
    requires Reduce(Dis, acc, ops, m, a).Success?
    requires i < |acc|
    ensures ReduceShapeHolds(Dis, acc, ops, m, a)
    ensures Reduce(Dis, acc, ops, m, a).value[i] <==>
      acc[i] || exists j :: 0 <= j < |ops| && EvalOperand(ops[j], m, a).value[i]
    decreases |ops|
  {
    ReduceShape(Dis, acc, ops, m, a);
    if |ops| > 0 {
      var next := EvalOperand(ops[0], m, a).value;
      var folded := Combine(Dis, acc, next).value;
      DisjunctionIsAny(folded, ops[1..], m, a, i);
      assert forall j :: 1 <= j < |ops| ==> ops[j] == ops[1..][j - 1];
    }
  }

  /** Whether an odd number of the operands select row `i` (an operand that
      fails or is too short counts as not selecting it). */
  function OddAt(ops: seq<Operand>, m: Matrix, a: Accessor, i: nat): bool
    decreases |ops|
  {
    if |ops| == 0 then false
    else
      var e := EvalOperand(ops[0], m, a);
      (e.Success? && i < |e.value| && e.value[i]) != OddAt(ops[1..], m, a, i)
  }

  /** An exclusive-or selects a row iff its first child and the later
      children, counted together, select it an odd number of times. */
  lemma {:induction false} ExclusiveIsParity(acc: Mask, ops: seq<Operand>, m: Matrix, a: Accessor, i: nat)
    requires Reduce(Xor, acc, ops, m, a).Success?
    requires i < |acc|
    ensures Reduce(Xor, acc, ops, m, a).value[i] <==> acc[i] != OddAt(ops, m, a, i)
    decreases |ops|
  {
    ReduceShape(Xor, acc, ops, m, a);
    if |ops| > 0 {
      var next := EvalOperand(ops[0], m, a).value;
      var folded := Combine(Xor, acc, next).value;
      ExclusiveIsParity(folded, ops[1..], m, a, i);
    }
  }

  /** The left fold of `==` selects a row iff the first child and the later
      children, counted together, select it an odd number of times exactly
      when the number of later children is even: each `==` is a negated
      exclusive-or. */
  lemma {:induction false} EquivalenceIsParity(acc: Mask, ops: seq<Operand>, m: Matrix, a: Accessor, i: nat)
    requires Reduce(Equ, acc, ops, m, a).Success?
    requires i < |acc|
    ensures Reduce(Equ, acc, ops, m, a).value[i] <==> ((acc[i] != OddAt(ops, m, a, i)) <==> |ops| % 2 == 0)
    decreases |ops|
  {
    ReduceShape(Equ, acc, ops, m, a);
    if |ops| > 0 {
      var next := EvalOperand(ops[0], m, a).value;
      var folded := Combine(Equ, acc, next).value;
      EquivalenceIsParity(folded, ops[1..], m, a, i);
    }
  }

  /** The shape facts of `ReduceShape`, as a predicate usable in contracts. */
  predicate ReduceShapeHolds(conn: Connective, acc: Mask, ops: seq<Operand>, m: Matrix, a: Accessor) {
    && Reduce(conn, acc, ops, m, a).Success?
    && |Reduce(conn, acc, ops, m, a).value| == |acc|
    && forall j :: 0 <= j < |ops| ==>
         EvalOperand(ops[j], m, a).Success? && |EvalOperand(ops[j], m, a).value| == |acc|
  }
}
