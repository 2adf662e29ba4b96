/**
  How a `Table` turns a key into a region of its matrix: key parsing and the
  field check, the row and column index objects of `_get_indexing`, the
  positions numpy derives from them, projection, ordering, broadcasting of
  an assigned value and the write-back of `set_fields`.  All of it is pure;
  the `Table` class in module Dataset applies it to its own fields.
 */
module Indexing {
  import opened Wrappers
  import opened Predicates

  // ---------------------------------------------------------------------------
  // Keys

  /** A row selector: an int, a slice of ints, `Ellipsis`, or a predicate.
      `All` is also what a key led by a field name, and `select` without a
      predicate, address. */
  datatype RowSel =
    | At(i: int)
    | Span(start: Option<int>, stop: Option<int>, step: Option<int>)
    | All
    | Where(p: Pred)

  /** A column selector: a field name, a `start:stop` slice of names, or an
      integer in column position (never a field name). */
  datatype ColSel = Name(name: string) | NameSpan(first: string, last: string) | Position(i: int)

  /** The shapes of key `Table.__getitem__` and friends accept. */
  datatype Key =
    | Rows(row: RowSel)                        // a row selector alone
    | RowsCols(row: RowSel, cols: seq<ColSel>) // a tuple led by a row selector
    | Names(first: string, rest: seq<ColSel>)  // a tuple led by a field name
    | Field(name: string)                      // a field name alone

  /** `_parse_key`'s triple: row selector, column selectors, `retdset`. */
  datatype Parsed = Parsed(row: RowSel, cols: Option<seq<ColSel>>, asTable: bool)

  /** The field names a column key refers to are all present, by
      `_check_fields`' rule: both ends of a lone name range, otherwise every
      item (so a name range among several items, or an integer, is never
      present). */
  predicate KnownColumns(fields: seq<string>, cols: Option<seq<ColSel>>) {
    match cols
    case None => true
    case Some(cs) =>
      if |cs| == 1 && cs[0].NameSpan? then cs[0].first in fields && cs[0].last in fields
      else forall c :: c in cs ==> c.Name? && c.name in fields
  }

  function CheckFields(fields: seq<string>, cols: Option<seq<ColSel>>): (r: Outcome)
    ensures r.Pass? <==> KnownColumns(fields, cols)
    ensures r.Fail? ==> r.error == ValueError
  {
    Need(KnownColumns(fields, cols), ValueError)
  }

  /** `_parse_key`: split the key into row selector, column items and
      `retdset`, after checking the column items' field names. */
  function ParseKey(fields: seq<string>, key: Key): (r: Result<Parsed>)
    ensures r.Success? <==> KnownColumns(fields, KeyColumns(key))
    ensures r.Failure? ==> r.error == ValueError
    ensures r.Success? ==> r.value.cols == KeyColumns(key)
  {
    var parsed := match key
      case Rows(r) => Parsed(r, None, true)
      case RowsCols(r, cs) => Parsed(r, Some(cs), true)
      case Names(n, cs) => Parsed(All, Some([Name(n)] + cs), false)
      case Field(n) => Parsed(All, Some([Name(n)]), false);
    :- CheckFields(fields, parsed.cols);
    Success(parsed)
  }

  /** Every name a key mentions, as the field check sees them. */
  function KeyColumns(key: Key): Option<seq<ColSel>> {
    match key
    case Rows(_) => None
    case RowsCols(_, cs) => Some(cs)
    case Names(n, cs) => Some([Name(n)] + cs)
    case Field(n) => Some([Name(n)])
  }

  /** A key is rejected with ValueError exactly when it refers to a field the
      table lacks; a row selector alone is never checked.  A table comes
      back for keys led by a row selector, a bare matrix for keys led by a
      name. */
  lemma ParseKeyChecksFields(fields: seq<string>, key: Key)
    ensures ParseKey(fields, key).Success? <==> KnownColumns(fields, KeyColumns(key))
    ensures ParseKey(fields, key).Failure? ==> ParseKey(fields, key).error == ValueError
    ensures key.Rows? ==> ParseKey(fields, key).Success?
    ensures ParseKey(fields, key).Success? ==>
      var p := ParseKey(fields, key).value;
      && p.cols == KeyColumns(key)
      && (p.asTable <==> key.Rows? || key.RowsCols?)
      && (p.asTable ==> p.row == key.row)
      && (!p.asTable ==> p.row == All)
  {
  }

  // ---------------------------------------------------------------------------
  // Field lookup

  /** `fields.index(f)`: the first position holding `f`. */
  function IndexOf(fields: seq<string>, f: string): (k: nat)
    requires f in fields
    ensures k < |fields| && fields[k] == f
    ensures forall j :: 0 <= j < k ==> fields[j] != f
  {
    if fields[0] == f then 0 else 1 + IndexOf(fields[1..], f)
  }

  /** `_getfield`: the column of a field, as the accessor handed to
      predicates. */
  function Column(fields: seq<string>, m: Matrix, f: string): (r: Result<seq<int>>)
    ensures f !in fields ==> r == Failure(ValueError)
    ensures f in fields && Rectangular(m, |fields|) ==>
      r.Success? && |r.value| == |m| && forall i :: 0 <= i < |m| ==> r.value[i] == m[i][IndexOf(fields, f)]
  {
    if f !in fields then Failure(ValueError)
    else
      var k := IndexOf(fields, f);
      if exists i :: 0 <= i < |m| && |m[i]| <= k then Failure(IndexError)
      else Success(seq(|m|, i requires 0 <= i < |m| => m[i][k]))
  }

  function FieldAccessor(fields: seq<string>): Accessor {
    (m, f) => Column(fields, m, f)
  }

  // ---------------------------------------------------------------------------
  // Index objects and the positions they select

  /** What `_get_indexing` produces along one axis: a boolean mask, a slice
      or `Ellipsis`. */
  datatype Idx = Bits(bits: Mask) | Slice(start: Option<int>, stop: Option<int>, step: Option<int>) | Whole

  /** The labels of the selected columns: field names, except that a
      several-item column key passes the caller's items through. */
  datatype Region = Region(rows: Idx, cols: Idx, labels: seq<ColSel>)

  function AsLabels(fs: seq<string>): (r: seq<ColSel>)
    ensures |r| == |fs| && forall i :: 0 <= i < |fs| ==> r[i] == Name(fs[i])
  {
    seq(|fs|, i requires 0 <= i < |fs| => Name(fs[i]))
  }

  /** Python's `fields[a:b]` for `0 <= a, b`. */
  function Between<T>(s: seq<T>, a: nat, b: nat): seq<T>
    requires a <= |s| && b <= |s|
  {
    if a < b then s[a..b] else []
  }

  /** `_get_indexing`: the row index (a predicate is evaluated through the
      table's accessor, an int `i` becomes `slice(i, i+1)`) and the column
      index (a lone name or name range becomes a slice, several items a mask
      over the table's fields, no items every column). */
  function GetIndexing(data: Matrix, fields: seq<string>, row: RowSel, cols: Option<seq<ColSel>>): (r: Result<Region>)
    ensures row.Where? && Eval(row.p, data, FieldAccessor(fields)).Failure? ==>
      r == Failure(Eval(row.p, data, FieldAccessor(fields)).error)
    ensures row.Where? && r.Success? ==> r.value.rows == Bits(Eval(row.p, data, FieldAccessor(fields)).value)
    ensures row.At? && r.Success? ==> r.value.rows == Slice(Some(row.i), Some(row.i + 1), None)
    ensures !row.Where? && r.Failure? ==> r.error == ValueError
    ensures !row.Where? && (cols.None? || |cols.value| != 1) ==> r.Success?
    ensures r.Success? && (cols.None? || cols == Some([])) ==> r.value.cols == Whole && r.value.labels == AsLabels(fields)
  {
    var rows :- match row
      case Where(p) => var m :- Eval(p, data, FieldAccessor(fields)); Success(Bits(m))
      case At(i) => Success(Slice(Some(i), Some(i + 1), None))
      case Span(a, b, s) => Success(Slice(a, b, s))
      case All => Success(Whole);
    if cols.Some? && |cols.value| == 1 then
      match cols.value[0]
      case NameSpan(a, b) =>
        if a in fields && b in fields then
          var ia, ib := IndexOf(fields, a), IndexOf(fields, b);
          Success(Region(rows, Slice(Some(ia), Some(ib), None), AsLabels(Between(fields, ia, ib))))
        else Failure(ValueError)
      case Name(n) =>
        if n in fields then
          var k := IndexOf(fields, n);
          Success(Region(rows, Slice(Some(k), Some(k + 1), None), [Name(fields[k])]))
        else Failure(ValueError)
      case Position(_) => Failure(ValueError)
    else if cols.Some? && |cols.value| > 0 then
      Success(Region(rows, Bits(seq(|fields|, k requires 0 <= k < |fields| => Name(fields[k]) in cols.value)), cols.value))
    else Success(Region(rows, Whole, AsLabels(fields)))
  }

  /** One bound of a slice, as `slice.indices(n)` normalises it: a negative
      bound counts from the end, and the result is clamped into [0, n], or
      into [-1, n - 1] for a negative step. */
  function Clamp(x: int, n: nat, backwards: bool): (r: int)
    ensures backwards ==> -1 <= r < n || (n == 0 && r == -1)
    ensures !backwards ==> 0 <= r <= n
    ensures var lo, hi := (if backwards then -1 else 0), (if backwards then n - 1 else n);
      var y := if x < 0 then x + n else x;
      r == (if y < lo then lo else if y > hi then hi else y)
  {
    if x < 0 then (if x + n < 0 then (if backwards then -1 else 0) else x + n)
    else if x >= n then (if backwards then n - 1 else n)
    else x
  }

  /** `range(from, to, step)` */
  function Stride(from: int, to: int, step: int): (r: seq<int>)
    requires step != 0
    ensures |r| > 0 ==> r[0] == from
    ensures forall i :: 0 <= i < |r| ==> (step > 0 ==> from <= r[i] < to) && (step < 0 ==> to < r[i] <= from)
    ensures forall i, j :: 0 <= i < j < |r| ==> (step > 0 ==> r[i] < r[j]) && (step < 0 ==> r[i] > r[j])
    decreases if step > 0 then to - from else from - to
  {
    if (step > 0 && from >= to) || (step < 0 && from <= to) then []
    else [from] + Stride(from + step, to, step)
  }

  /** Entry `i` of `range(from, to, step)` is `from + i * step`, and it has
      as many entries as stay strictly before `to`: one more step would reach
      or pass it. */
  lemma {:induction false} StrideEntries(from: int, to: int, step: int)
    requires step != 0
    ensures forall i :: 0 <= i < |Stride(from, to, step)| ==> Stride(from, to, step)[i] == from + i * step
    ensures step > 0 ==> from + |Stride(from, to, step)| * step >= to
    ensures step < 0 ==> from + |Stride(from, to, step)| * step <= to
    decreases if step > 0 then to - from else from - to
  {
    var r := Stride(from, to, step);
    if !((step > 0 && from >= to) || (step < 0 && from <= to)) {
      var t := Stride(from + step, to, step);
      StrideEntries(from + step, to, step);
      assert r == [from] + t;
      forall i | 1 <= i < |r|
        ensures r[i] == from + i * step
      {
        assert r[i] == t[i - 1] == from + step + (i - 1) * step;
        assert (i - 1) * step + step == i * step;
      }
      assert |r| * step == |t| * step + step;
    }
  }

  lemma StrideOne(a: int)
    ensures Stride(a, a + 1, 1) == [a]
  {
    assert Stride(a + 1, a + 1, 1) == [];
  }

  predicate InRange(s: seq<int>, n: nat) {
    forall i :: 0 <= i < |s| ==> 0 <= s[i] < n
  }

  predicate Distinct(s: seq<int>) {
    forall i, j :: 0 <= i < j < |s| ==> s[i] != s[j]
  }

  /** The start `slice.indices(n)` gives: the first or last position by the
      step's sign when absent, else the clamped bound. */
  function SliceStart(n: nat, start: Option<int>, s: int): int {
    match start
    case None => if s < 0 then n - 1 else 0
    case Some(x) => Clamp(x, n, s < 0)
  }

  /** The stop `slice.indices(n)` gives: just past either end by the step's
      sign when absent, else the clamped bound. */
  function SliceStop(n: nat, stop: Option<int>, s: int): int {
    match stop
    case None => if s < 0 then -1 else n
    case Some(x) => Clamp(x, n, s < 0)
  }

  /** The positions a slice selects in a sequence of length `n`: from the
      normalised start, every `step`-th position up to the normalised stop.
      A zero step raises ValueError. */
  function SliceIndices(n: nat, start: Option<int>, stop: Option<int>, step: Option<int>): (r: Result<seq<int>>)
    ensures r.Failure? <==> step == Some(0)
    ensures r.Failure? ==> r.error == ValueError
    ensures r.Success? ==> InRange(r.value, n) && Distinct(r.value)
    ensures r.Success? ==>
      var s := step.GetOr(1);
      var a, b := SliceStart(n, start, s), SliceStop(n, stop, s);
      && (forall i :: 0 <= i < |r.value| ==> r.value[i] == a + i * s)
      && (s > 0 ==> a + |r.value| * s >= b && forall i :: 0 <= i < |r.value| ==> r.value[i] < b)
      && (s < 0 ==> a + |r.value| * s <= b && forall i :: 0 <= i < |r.value| ==> r.value[i] > b)
  {
    var s := step.GetOr(1);
    if s == 0 then Failure(ValueError)
    else
      StrideEntries(SliceStart(n, start, s), SliceStop(n, stop, s), s);
      Success(Stride(SliceStart(n, start, s), SliceStop(n, stop, s), s))
  }

  /** The positions where a mask is true, in increasing order. */
  function TrueIndices(b: Mask): (r: seq<int>)
    ensures InRange(r, |b|)
    ensures forall i, j :: 0 <= i < j < |r| ==> r[i] < r[j]
    ensures forall k :: 0 <= k < |b| ==> (b[k] <==> k in r)
  {
    if |b| == 0 then []
    else
      var prefix := TrueIndices(b[..|b| - 1]);
      assert forall k :: 0 <= k < |b| - 1 ==> b[..|b| - 1][k] == b[k];
      prefix + (if b[|b| - 1] then [|b| - 1] else [])
  }

  function Range(n: nat): (r: seq<int>)
    ensures |r| == n && forall i :: 0 <= i < n ==> r[i] == i
  {
    seq(n, i requires 0 <= i < n => i)
  }

  /** The positions along an axis of length `n` an index object selects; a
      mask of another length raises IndexError. */
  function Positions(idx: Idx, n: nat): (r: Result<seq<int>>)
    ensures r.Success? ==> InRange(r.value, n) && Distinct(r.value)
    ensures idx.Whole? ==> r == Success(Range(n))
    ensures idx.Bits? ==> (r.Success? <==> |idx.bits| == n)
    ensures idx.Bits? && r.Failure? ==> r.error == IndexError
  {
    match idx
    case Whole => Success(Range(n))
    case Bits(b) => if |b| != n then Failure(IndexError) else Success(TrueIndices(b))
    case Slice(a, b, s) => SliceIndices(n, a, b, s)
  }

  /** An int row key `i` selects row `i` when `0 <= i < n`, row `n + i` when
      `-n <= i < -1`, and nothing otherwise: `slice(-1, 0)` is empty, so
      `-1` does not address the last row. */
  lemma IntRowKey(data: Matrix, fields: seq<string>, i: int)
    ensures GetIndexing(data, fields, At(i), None).Success?
    ensures Positions(GetIndexing(data, fields, At(i), None).value.rows, |data|)
         == Success(if 0 <= i < |data| then [i] else if -|data| <= i < -1 then [i + |data|] else [])
  {
    var n := |data|;
    assert GetIndexing(data, fields, At(i), None).value.rows == Slice(Some(i), Some(i + 1), None);
    var a, b := Clamp(i, n, false), Clamp(i + 1, n, false);
    assert Positions(Slice(Some(i), Some(i + 1), None), n) == Success(Stride(a, b, 1));
    if 0 <= i < n {
      assert a == i && b == i + 1;
      StrideOne(i);
    } else if -n <= i < -1 {
      assert a == i + n && b == i + n + 1;
      StrideOne(i + n);
    } else {
      assert a >= b;
    }
  }

  // ---------------------------------------------------------------------------
  // Projection, ordering and selection

  /** The submatrix at the given rows and columns, in the order given. */
  function Project(data: Matrix, w: nat, rs: seq<int>, cs: seq<int>): (r: Matrix)
    requires Rectangular(data, w) && InRange(rs, |data|) && InRange(cs, w)
    ensures |r| == |rs| && Rectangular(r, |cs|)
  {
    seq(|rs|, i requires 0 <= i < |rs| => seq(|cs|, j requires 0 <= j < |cs| => data[rs[i]][cs[j]]))
  }

  predicate Wide(m: Matrix, k: nat) {
    forall i :: 0 <= i < |m| ==> k < |m[i]|
  }

  predicate SortedOn(m: Matrix, k: nat)
    requires Wide(m, k)
  {
    forall i, j :: 0 <= i < j < |m| ==> m[i][k] <= m[j][k]
  }

  function InsertOn(x: seq<int>, m: Matrix, k: nat): (r: Matrix)
    requires k < |x| && Wide(m, k) && SortedOn(m, k)
    ensures Wide(r, k) && SortedOn(r, k)
    ensures multiset(r) == multiset(m) + multiset{x}
    ensures |r| == |m| + 1 && (r[0] == x || (|m| > 0 && r[0] == m[0]))
  {
    if |m| == 0 || x[k] <= m[0][k] then
      ConsSorted(x, m, k);
      [x] + m
    else
      var rest := InsertOn(x, m[1..], k);
      assert m == [m[0]] + m[1..];
      ConsSorted(m[0], rest, k);
      [m[0]] + rest
  }

  /** A row no larger on column `k` than the head of sorted rows can be put
      in front of them. */
  lemma ConsSorted(y: seq<int>, rest: Matrix, k: nat)
    requires k < |y| && Wide(rest, k) && SortedOn(rest, k)
    requires |rest| > 0 ==> y[k] <= rest[0][k]
    ensures Wide([y] + rest, k) && SortedOn([y] + rest, k)
  {
    var r := [y] + rest;
    assert forall j :: 0 < j < |r| ==> r[j] == rest[j - 1];
  }

  /** `result[argsort(result[..., k])]`: the rows, permuted so that column
      `k` ascends.  Rows with equal keys come out in reverse order here
      (`SortReversesTies` shows it); `argsort` promises nothing about them and no
      property of their order is claimed. */
  function SortOn(m: Matrix, k: nat): (r: Matrix)
    requires Wide(m, k)
    ensures Wide(r, k) && SortedOn(r, k)
    ensures multiset(r) == multiset(m)
  {
    if |m| == 0 then []
    else
      assert m == m[..|m| - 1] + [m[|m| - 1]];
      InsertOn(m[|m| - 1], SortOn(m[..|m| - 1], k), k)
  }

  /** A selection: its cells, its number of columns and its labels. */
  datatype Selected = Selected(cells: Matrix, width: nat, labels: seq<ColSel>)

  /** The region a key addresses: the index objects and the row and column
      positions they select. */
  datatype Located = Located(region: Region, rs: seq<int>, cs: seq<int>)

  function Locate(data: Matrix, fields: seq<string>, row: RowSel, cols: Option<seq<ColSel>>): (r: Result<Located>)
    ensures r.Success? ==> InRange(r.value.rs, |data|) && Distinct(r.value.rs)
    ensures r.Success? ==> InRange(r.value.cs, |fields|) && Distinct(r.value.cs)
  {
    var reg :- GetIndexing(data, fields, row, cols);
    var rs :- Positions(reg.rows, |data|);
    var cs :- Positions(reg.cols, |fields|);
    Success(Located(reg, rs, cs))
  }

  lemma SortKeepsShape(m: Matrix, k: nat, w: nat)
    requires Rectangular(m, w) && k < w
    ensures Wide(m, k) && Rectangular(SortOn(m, k), w)
  {
    var r := SortOn(m, k);
    forall i | 0 <= i < |r| ensures |r[i]| == w {
      assert r[i] in multiset(r);
      assert r[i] in multiset(m);
      var j :| 0 <= j < |m| && m[j] == r[i];
    }
  }

  /** The projected cells, sorted by `order` when that names one of the
      labels.  The column to sort on is looked up in the full table, so a
      position past the width of the cells raises IndexError. */
  function Arrange(cells: Matrix, width: nat, fields: seq<string>, labels: seq<ColSel>, order: Option<string>): (r: Result<Selected>)
    requires Rectangular(cells, width)
    ensures r.Success? ==> Rectangular(r.value.cells, r.value.width) && r.value.width == width && r.value.labels == labels
  {
    if order.Some? && Name(order.value) in labels then
      if order.value !in fields then Failure(ValueError)
      else
        var k := IndexOf(fields, order.value);
        if k >= width then Failure(IndexError)
        else
          SortKeepsShape(cells, k, width);
          Success(Selected(SortOn(cells, k), width, labels))
    else Success(Selected(cells, width, labels))
  }

  /** `Table.select(predicate, order, fields=cols)` without `retdset`. */
  function Select(data: Matrix, fields: seq<string>, row: RowSel, cols: Option<seq<ColSel>>, order: Option<string>): (r: Result<Selected>)
    requires Rectangular(data, |fields|)
    ensures r.Success? ==> Rectangular(r.value.cells, r.value.width)
  {
    var loc :- Locate(data, fields, row, cols);
    Arrange(Project(data, |fields|, loc.rs, loc.cs), |loc.cs|, fields, loc.region.labels, order)
  }

  /** The field tuple of a table built from a selection: labels that are not
      names cannot become attributes (TypeError), and labels that do not
      match the columns one to one are refused by this model (ShapeError). */
  function TableFields(s: Selected): (r: Result<seq<string>>)
    ensures r.Success? ==> AsLabels(r.value) == s.labels && |r.value| == s.width
  {
    if exists i :: 0 <= i < |s.labels| && !s.labels[i].Name? then Failure(TypeError)
    else if |s.labels| != s.width then Failure(ShapeError)
    else
      var fs := seq(|s.labels|, i requires 0 <= i < |s.labels| => s.labels[i].name);
      assert forall i :: 0 <= i < |fs| ==> AsLabels(fs)[i] == s.labels[i];
      assert AsLabels(fs) == s.labels;
      assert |fs| == s.width;
      Success(fs)
  }

  /** The field tuple of a selection labelled with names is those names:
      `AsLabels` and `TableFields` are inverse. */
  lemma TableFieldsOfLabels(cells: Matrix, fs: seq<string>)
    ensures TableFields(Selected(cells, |fs|, AsLabels(fs))) == Success(fs)
  {
    var labels := AsLabels(fs);
    assert !exists i :: 0 <= i < |labels| && !labels[i].Name?;
    var r := TableFields(Selected(cells, |fs|, labels)).value;
    forall i | 0 <= i < |r| ensures r[i] == fs[i] {
      assert AsLabels(r)[i] == labels[i];
    }
    assert r == fs;
  }

  /** Selecting everything returns the matrix unchanged, labelled with the
      table's own fields. */
  lemma SelectEverything(data: Matrix, fields: seq<string>)
    requires Rectangular(data, |fields|)
    ensures Select(data, fields, All, None, None) == Success(Selected(data, |fields|, AsLabels(fields)))
    ensures TableFields(Select(data, fields, All, None, None).value) == Success(fields)
  {
    var cells := Project(data, |fields|, Range(|data|), Range(|fields|));
    forall i | 0 <= i < |data| ensures cells[i] == data[i] { }
    assert cells == data;
    TableFieldsOfLabels(data, fields);
  }

  /** A lone field name selects that one column (its first occurrence): row
      `i` of the result is the one cell the column holds in the `i`-th
      addressed row. */
  lemma SingleNameColumn(data: Matrix, fields: seq<string>, row: RowSel, f: string)
    requires Rectangular(data, |fields|) && f in fields
    ensures var r := Select(data, fields, row, Some([Name(f)]), None);
      r.Success? ==>
        var rs := Locate(data, fields, row, Some([Name(f)])).value.rs;
        && r.value.width == 1 && r.value.labels == [Name(f)]
        && |r.value.cells| == |rs|
        && forall i :: 0 <= i < |rs| ==> r.value.cells[i] == [Column(fields, data, f).value[rs[i]]]
  {
    var r := Select(data, fields, row, Some([Name(f)]), None);
    if r.Success? {
      var k := IndexOf(fields, f);
      SingleNameLocates(data, fields, row, f);
      var loc := Locate(data, fields, row, Some([Name(f)])).value;
      assert r.value.cells == Project(data, |fields|, loc.rs, [k]);
      var col := Column(fields, data, f).value;
      forall i | 0 <= i < |loc.rs| ensures r.value.cells[i] == [col[loc.rs[i]]] {
        assert r.value.cells[i][0] == data[loc.rs[i]][k] == col[loc.rs[i]];
      }
    }
  }

  lemma SingleNameLocates(data: Matrix, fields: seq<string>, row: RowSel, f: string)
    requires f in fields
    ensures var loc := Locate(data, fields, row, Some([Name(f)]));
      loc.Success? ==> loc.value.cs == [IndexOf(fields, f)] && loc.value.region.labels == [Name(f)]
  {
    var k := IndexOf(fields, f);
    var reg := GetIndexing(data, fields, row, Some([Name(f)]));
    if reg.Success? {
      assert reg.value.cols == Slice(Some(k), Some(k + 1), None);
      assert Clamp(k, |fields|, false) == k && Clamp(k + 1, |fields|, false) == k + 1;
      StrideOne(k);
      assert Positions(reg.value.cols, |fields|) == Success(Stride(k, k + 1, 1));
    }
  }

  /** A name range `a:b` selects the columns from the position of `a` up to,
      not including, the position of `b`, labelled with their names. */
  lemma NameRangeColumns(data: Matrix, fields: seq<string>, a: string, b: string)
    requires Rectangular(data, |fields|) && a in fields && b in fields
    ensures var r := Select(data, fields, All, Some([NameSpan(a, b)]), None);
      var ia, ib := IndexOf(fields, a), IndexOf(fields, b);
      && r.Success?
      && r.value.labels == AsLabels(Between(fields, ia, ib))
      && |r.value.cells| == |data|
      && forall i :: 0 <= i < |data| ==> r.value.cells[i] == Between(data[i], ia, ib)
  {
    var ia, ib := IndexOf(fields, a), IndexOf(fields, b);
    var cs := Stride(ia, ib, 1);
    assert Positions(Slice(Some(ia), Some(ib), None), |fields|) == Success(cs);
    StrideStep(ia, ib);
    var cells := Project(data, |fields|, Range(|data|), cs);
    forall i | 0 <= i < |data| ensures cells[i] == Between(data[i], ia, ib) { }
  }

  /** An ascending stride by one from `a` is the run `a, a+1, ...` up to `b`. */
  lemma {:induction false} StrideStep(a: int, b: int)
    ensures |Stride(a, b, 1)| == if a < b then b - a else 0
    ensures forall i :: 0 <= i < |Stride(a, b, 1)| ==> Stride(a, b, 1)[i] == a + i
    decreases b - a
  {
    if a < b {
      StrideStep(a + 1, b);
    }
  }

  /** Several names select every table column whose name is among them, in
      the table's order and each once, while the labels are the caller's
      items as given (so `('b', 'a')` labels columns stored as `a, b` the
      other way round, and unknown names are silently dropped). */
  lemma SeveralNamesColumns(data: Matrix, fields: seq<string>, row: RowSel, cols: seq<ColSel>)
    requires Rectangular(data, |fields|) && |cols| >= 2
    ensures var reg := GetIndexing(data, fields, row, Some(cols));
      reg.Success? ==>
        && reg.value.labels == cols
        && reg.value.cols.Bits?
        && var cs := Positions(reg.value.cols, |fields|);
        && cs.Success?
        && (forall i, j :: 0 <= i < j < |cs.value| ==> cs.value[i] < cs.value[j])
        && (forall k :: 0 <= k < |fields| ==> (k in cs.value <==> Name(fields[k]) in cols))
  {
  }

  /** With `order` naming a selected field, the result holds the same rows as
      the unordered selection, ascending on the column of the selection that
      sits at the position `order` has in the full table.  That is the
      field's own column only when the selection keeps the table's leading
      columns; `OrderUsesTablePosition` shows a case where it is not. */
  lemma OrderSorts(data: Matrix, fields: seq<string>, row: RowSel, cols: Option<seq<ColSel>>, f: string)
    requires Rectangular(data, |fields|)
    requires Select(data, fields, row, cols, Some(f)).Success?
    requires Name(f) in Select(data, fields, row, cols, None).value.labels
    ensures f in fields
    ensures var sorted := Select(data, fields, row, cols, Some(f)).value;
      var plain := Select(data, fields, row, cols, None).value;
      && multiset(sorted.cells) == multiset(plain.cells)
      && sorted.labels == plain.labels
      && Wide(sorted.cells, IndexOf(fields, f))
      && SortedOn(sorted.cells, IndexOf(fields, f))
  {
  }

  /** In a table with fields `a, b, c`, selecting columns `b, c` ordered by
      `b` sorts on the selection's column 1 (the position of `b` in the
      table), which holds `c`, so the `b` column of the result descends. */
  lemma OrderUsesTablePosition()
    ensures Arrange([[9, 0], [1, 5]], 2, ["a", "b", "c"], [Name("b"), Name("c")], Some("b"))
      == Success(Selected([[9, 0], [1, 5]], 2, [Name("b"), Name("c")]))
  {
    assert IndexOf(["a", "b", "c"], "b") == 1;
    SortTwo([9, 0], [1, 5], 1);
  }

  /** Rows with equal keys come out of the sort in reverse order. */
  lemma SortReversesTies()
    ensures SortOn([[1, 0], [1, 1]], 0) == [[1, 1], [1, 0]]
  {
    SortTwo([1, 0], [1, 1], 0);
  }

  /** Sorting two rows puts the second first exactly when its key is no
      larger. */
  lemma SortTwo(x: seq<int>, y: seq<int>, k: nat)
    requires k < |x| && k < |y|
    ensures SortOn([x, y], k) == if y[k] <= x[k] then [y, x] else [x, y]
  {
    var m := [x, y];
    assert m[..1] == [x] && m[..1][..0] == [];
    assert SortOn([x], k) == InsertOn(x, [], k) == [x];
    assert SortOn(m, k) == InsertOn(y, [x], k);
    if y[k] > x[k] {
      assert [x][1..] == [];
      assert InsertOn(y, [], k) == [y];
    }
  }

  /** `Table.__delitem__`: the table becomes the selection its key makes.  A
      key led by a field name selects a bare matrix, which has no `fields`
      attribute, so it raises AttributeError and nothing changes. */
  function Narrow(data: Matrix, fields: seq<string>, key: Key): (r: Result<(Matrix, seq<string>)>)
    requires Rectangular(data, |fields|)
    ensures r.Success? ==> Rectangular(r.value.0, |r.value.1|)
  {
    var p :- ParseKey(fields, key);
    var sel :- Select(data, fields, p.row, p.cols, None);
    if !p.asTable then Failure(AttributeError)
    else
      var fs :- TableFields(sel);
      Success((sel.cells, fs))
  }

  /** Deleting with a key led by a name never succeeds: an unknown name
      raises ValueError, known names AttributeError.  Deleting with
      `Ellipsis` alone leaves the table as it was. */
  lemma NarrowNeedsRowKey(data: Matrix, fields: seq<string>, key: Key)
    requires Rectangular(data, |fields|)
    ensures key.Names? || key.Field? ==>
      Narrow(data, fields, key) == Failure(if KnownColumns(fields, KeyColumns(key)) then AttributeError else ValueError)
    ensures key == Rows(All) ==> Narrow(data, fields, key) == Success((data, fields))
  {
    ParseKeyChecksFields(fields, key);
    if key == Rows(All) {
      SelectEverything(data, fields);
    } else if key.Names? || key.Field? {
      var p := ParseKey(fields, key);
      if p.Success? {
        assert !p.value.asTable;
        var sel := Select(data, fields, p.value.row, p.value.cols, None);
        KnownColumnsSelect(data, fields, p.value.row, p.value.cols);
      }
    }
  }

  /** With every named field known and no row key, selecting succeeds. */
  lemma KnownColumnsSelect(data: Matrix, fields: seq<string>, row: RowSel, cols: Option<seq<ColSel>>)
    requires Rectangular(data, |fields|) && row == All && KnownColumns(fields, cols)
    ensures Select(data, fields, row, cols, None).Success?
  {
  }

  // ---------------------------------------------------------------------------
  // Assignment

  /** A value assigned to a region: a scalar, a vector (one value per
      column) or a two-dimensional block. */
  datatype Fill = Scalar(v: int) | Vector(vs: seq<int>) | Block(rows: seq<seq<int>>)

  /** A fill, or a function of the region's current contents. */
  datatype Assignment = Given(fill: Fill) | Computed(f: Matrix -> Fill)

  function BlockWidth(b: seq<seq<int>>): nat {
    if |b| == 0 then 0 else |b[0]|
  }

  /** numpy broadcasting of a two-dimensional block to an `h` by `w` region:
      the block must be rectangular, with `h` rows or one and `w` columns or
      one. */
  function BroadcastBlock(b: seq<seq<int>>, h: nat, w: nat): (r: Result<Matrix>)
    ensures r.Success? ==> |r.value| == h && Rectangular(r.value, w)
    ensures r.Failure? ==> r.error == ValueError
    ensures r.Success? <==>
      Rectangular(b, BlockWidth(b)) && (|b| == h || |b| == 1) && (BlockWidth(b) == w || BlockWidth(b) == 1)
    ensures h > 0 && |b| == h && Rectangular(b, w) ==> r == Success(b)
  {
    var bw := BlockWidth(b);
    if !Rectangular(b, bw) || (|b| != h && |b| != 1) || (bw != w && bw != 1) then Failure(ValueError)
    else
      var m := seq(h, i requires 0 <= i < h =>
        seq(w, j requires 0 <= j < w => b[if |b| == 1 then 0 else i][if bw == 1 then 0 else j]));
      assert |b| == h && bw == w && h > 0 ==> m == b by {
        if |b| == h && bw == w && h > 0 {
          forall i | 0 <= i < h ensures m[i] == b[i] {
            assert |m[i]| == |b[i]|;
          }
        }
      }
      Success(m)
  }

  /** numpy broadcasting of a fill to an `h` by `w` region: a scalar goes
      everywhere, a vector must have `w` entries or one. */
  function Broadcast(fill: Fill, h: nat, w: nat): (r: Result<Matrix>)
    ensures r.Success? ==> |r.value| == h && Rectangular(r.value, w)
    ensures r.Failure? ==> r.error == ValueError
    ensures fill.Scalar? ==> r.Success? && forall i, j :: 0 <= i < h && 0 <= j < w ==> r.value[i][j] == fill.v
    ensures fill.Vector? ==> (r.Success? <==> |fill.vs| == w || |fill.vs| == 1)
    ensures fill.Vector? && |fill.vs| == w ==> r.Success? && forall i :: 0 <= i < h ==> r.value[i] == fill.vs
    ensures fill.Block? ==> r == BroadcastBlock(fill.rows, h, w)
  {
    match fill
    case Scalar(v) => Success(seq(h, _ => seq(w, _ => v)))
    case Vector(vs) =>
      if |vs| == w then Success(seq(h, _ => vs))
      else if |vs| == 1 then Success(seq(h, _ => seq(w, _ => vs[0])))
      else Failure(ValueError)
    case Block(b) => BroadcastBlock(b, h, w)
  }

  /** The position of `x` in `s`. */
  function Find(s: seq<int>, x: int): (k: nat)
    requires x in s
    ensures k < |s| && s[k] == x
  {
    if s[0] == x then 0 else 1 + Find(s[1..], x)
  }

  lemma FindDistinct(s: seq<int>, k: nat)
    requires Distinct(s) && k < |s|
    ensures Find(s, s[k]) == k
  {
    if k > 0 {
      assert s[0] != s[k];
      assert s[1..][k - 1] == s[k];
      assert Distinct(s[1..]) by {
        forall i, j | 0 <= i < j < |s| - 1 ensures s[1..][i] != s[1..][j] {
          assert s[1..][i] == s[i + 1] && s[1..][j] == s[j + 1];
        }
      }
      FindDistinct(s[1..], k - 1);
    }
  }

  /** `data[rows, cols] = block`: the addressed cells take the block's values. */
  function Scatter(data: Matrix, rs: seq<int>, cs: seq<int>, block: Matrix): (r: Matrix)
    requires |block| == |rs| && Rectangular(block, |cs|)
    ensures |r| == |data| && forall i :: 0 <= i < |data| ==> |r[i]| == |data[i]|
  {
    seq(|data|, i requires 0 <= i < |data| =>
      seq(|data[i]|, j requires 0 <= j < |data[i]| =>
        if i in rs && j in cs then block[Find(rs, i)][Find(cs, j)] else data[i][j]))
  }

  /** Exactly the addressed cells change, each to its block value. */
  lemma ScatterWrites(data: Matrix, w: nat, rs: seq<int>, cs: seq<int>, block: Matrix)
    requires Rectangular(data, w) && InRange(rs, |data|) && InRange(cs, w) && Distinct(rs) && Distinct(cs)
    requires |block| == |rs| && Rectangular(block, |cs|)
    ensures forall a, b :: 0 <= a < |rs| && 0 <= b < |cs| ==> Scatter(data, rs, cs, block)[rs[a]][cs[b]] == block[a][b]
    ensures forall i, j :: 0 <= i < |data| && 0 <= j < w && (i !in rs || j !in cs) ==> Scatter(data, rs, cs, block)[i][j] == data[i][j]
  {
    var out := Scatter(data, rs, cs, block);
    forall a, b | 0 <= a < |rs| && 0 <= b < |cs|
      ensures out[rs[a]][cs[b]] == block[a][b]
    {
      FindDistinct(rs, a);
      FindDistinct(cs, b);
      assert rs[a] in rs && cs[b] in cs;
      assert out[rs[a]][cs[b]] == block[Find(rs, rs[a])][Find(cs, cs[b])];
    }
  }

  /** Where a row mask and a several-name column mask would meet, numpy pairs
      the two masks instead of taking their rectangle. */
  predicate PairedMasks(row: RowSel, cols: Option<seq<ColSel>>) {
    row.Where? && cols.Some? && |cols.value| >= 2
  }

  /** The outcome of `set_fields`: the new matrix, and the length of the row
      mask when rows were addressed by a predicate, -1 otherwise. */
  datatype Written = Written(data: Matrix, count: int)

  /** The fill to write: the given one, or the function applied to the
      region's current cells. */
  function FillFor(data: Matrix, w: nat, loc: Located, value: Assignment): Fill
    requires Rectangular(data, w) && InRange(loc.rs, |data|) && InRange(loc.cs, w)
  {
    match value
    case Given(f) => f
    case Computed(fn) => fn(Project(data, w, loc.rs, loc.cs))
  }

  /** `Table.set_fields(predicate, fields, value)` */
  function SetFields(data: Matrix, fields: seq<string>, row: RowSel, cols: Option<seq<ColSel>>, value: Assignment): (r: Result<Written>)
    requires Rectangular(data, |fields|) && !PairedMasks(row, cols)
    ensures r.Success? ==> |r.value.data| == |data| && Rectangular(r.value.data, |fields|)
    ensures r.Success? ==> r.value.count == (if row.Where? then |data| else -1)
  {
    var loc :- Locate(data, fields, row, cols);
    var block :- Broadcast(FillFor(data, |fields|, loc, value), |loc.rs|, |loc.cs|);
    Success(Written(Scatter(data, loc.rs, loc.cs, block), if loc.region.rows.Bits? then |loc.region.rows.bits| else -1))
  }

  /** `set_fields` writes the broadcast value (or the function's result on the
      region it read) into exactly the addressed cells; every other cell
      keeps its value. */
  lemma SetFieldsWritesRegion(data: Matrix, fields: seq<string>, row: RowSel, cols: Option<seq<ColSel>>, value: Assignment)
    requires Rectangular(data, |fields|) && !PairedMasks(row, cols)
    requires SetFields(data, fields, row, cols, value).Success?
    ensures Locate(data, fields, row, cols).Success?
    ensures var loc := Locate(data, fields, row, cols).value;
      var fill := FillFor(data, |fields|, loc, value);
      var out := SetFields(data, fields, row, cols, value).value.data;
      && Broadcast(fill, |loc.rs|, |loc.cs|).Success?
      && (forall a, b :: 0 <= a < |loc.rs| && 0 <= b < |loc.cs| ==>
            out[loc.rs[a]][loc.cs[b]] == Broadcast(fill, |loc.rs|, |loc.cs|).value[a][b])
      && (forall i, j :: 0 <= i < |data| && 0 <= j < |fields| && (i !in loc.rs || j !in loc.cs) ==> out[i][j] == data[i][j])
  {
    var loc := Locate(data, fields, row, cols).value;
    var fill := FillFor(data, |fields|, loc, value);
    ScatterWrites(data, |fields|, loc.rs, loc.cs, Broadcast(fill, |loc.rs|, |loc.cs|).value);
  }

  // ---------------------------------------------------------------------------
  // Column edits

  /** `hstack((data, column))` */
  function AppendColumn(data: Matrix, column: Matrix): (r: Matrix)
    requires |column| == |data| && Rectangular(column, 1)
    ensures |r| == |data|
    ensures forall i :: 0 <= i < |data| ==> r[i] == data[i] + [column[i][0]]
  {
    seq(|data|, i requires 0 <= i < |data| => data[i] + [column[i][0]])
  }

  /** `data[..., tuple(fields.index(f) for f in fs)]`, after checking that every
      name is present. */
  function Retain(data: Matrix, fields: seq<string>, fs: seq<string>): (r: Result<Matrix>)
    requires Rectangular(data, |fields|)
    ensures r.Success? <==> forall f :: f in fs ==> f in fields
    ensures r.Failure? ==> r.error == ValueError
    ensures r.Success? ==> |r.value| == |data| && Rectangular(r.value, |fs|)
    ensures r.Success? ==> forall i, j :: 0 <= i < |data| && 0 <= j < |fs| ==> r.value[i][j] == data[i][IndexOf(fields, fs[j])]
  {
    if exists f :: f in fs && f !in fields then Failure(ValueError)
    else
      var cs := seq(|fs|, j requires 0 <= j < |fs| => IndexOf(fields, fs[j]));
      Success(Project(data, |fields|, Range(|data|), cs))
  }

  predicate NoDuplicates(fields: seq<string>) {
    forall i, j :: 0 <= i < j < |fields| ==> fields[i] != fields[j]
  }

  /** Retaining the table's own fields changes nothing, provided no field
      name repeats (a repeated name always resolves to its first column). */
  lemma RetainOwnFields(data: Matrix, fields: seq<string>)
    requires Rectangular(data, |fields|) && NoDuplicates(fields)
    ensures Retain(data, fields, fields) == Success(data)
  {
    var r := Retain(data, fields, fields).value;
    forall i | 0 <= i < |data| ensures r[i] == data[i] {
      assert |r[i]| == |data[i]|;
      forall j | 0 <= j < |fields| ensures r[i][j] == data[i][j] {
        assert IndexOf(fields, fields[j]) == j;
      }
    }
    assert r == data;
  }

  /** `add_field` followed by `retain_fields` of the old fields gives the old
      matrix back: the new column goes last and leaves the others alone. */
  lemma RetainUndoesAppend(data: Matrix, fields: seq<string>, name: string, column: Matrix)
    requires Rectangular(data, |fields|) && NoDuplicates(fields)
    requires |column| == |data| && Rectangular(column, 1)
    ensures Retain(AppendColumn(data, column), fields + [name], fields) == Success(data)
  {
    var wide := AppendColumn(data, column);
    var all := fields + [name];
    forall j | 0 <= j < |fields| ensures IndexOf(all, fields[j]) == j {
      var k := IndexOf(all, fields[j]);
      assert all[j] == fields[j];
    }
    assert forall f :: f in fields ==> f in all;
    var r := Retain(wide, all, fields).value;
    forall i | 0 <= i < |data| ensures r[i] == data[i] {
      assert |r[i]| == |data[i]|;
      forall j | 0 <= j < |fields| ensures r[i][j] == data[i][j] {
        assert r[i][j] == wide[i][IndexOf(all, fields[j])] == wide[i][j];
      }
    }
    assert r == data;
  }

  /** With a repeated name, retaining the table's own fields copies the first
      column over the later one. */
  lemma RetainRepeatedField()
    ensures Retain([[1, 2]], ["a", "a"], ["a", "a"]) == Success([[1, 1]])
  {
    assert forall f :: f in ["a", "a"] ==> f in ["a", "a"];
    var r := Retain([[1, 2]], ["a", "a"], ["a", "a"]).value;
    assert IndexOf(["a", "a"], "a") == 0;
    assert |r| == 1 && |r[0]| == 2;
    assert r[0][0] == 1 && r[0][1] == 1;
    assert r[0] == [1, 1];
    assert r == [[1, 1]];
  }
}
