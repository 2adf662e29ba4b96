/**
  The two stateful classes of the dataset module.  A `Table` owns an integer
  matrix and its field names and rebinds them when it is narrowed, widened or
  written; an `H5Node` is a view of one group of a shared `H5File`, whose
  tree its writes, deletions and auto-creating reads change.  Every method
  is specified by the pure functions of modules Indexing and Store.
 */
module Dataset {
  import opened Wrappers
  import opened Predicates
  import opened Store
  import opened Indexing

  /** What `Table.select` and `Table.__getitem__` return. */
  datatype Selection = Cells(cells: Matrix) | Sub(table: Table)

  /** What `H5Node.__getitem__` returns for the node it reaches. */
  datatype Item = NodeItem(node: H5Node) | TableItem(table: Table) | LeafItem(value: Value)

  class Table {
    var data: Matrix
    var fields: seq<string>
    var h5: H5Node?

    /** One cell per field in every row. */
    ghost predicate Valid()
      reads this
    {
      Rectangular(data, |fields|)
    }

    /** `Table(data=data, fields=fields)` */
    constructor (data: Matrix, fields: seq<string>)
      requires Rectangular(data, |fields|)
      ensures this.data == data && this.fields == fields && this.h5 == null
      ensures Valid()
    {
      this.data := data;
      this.fields := fields;
      this.h5 := null;
    }

    /** `Table(h5=node)`: the table stored in the node's group. */
    static method Load(node: H5Node) returns (r: Result<Table>)
      ensures LoadTable(node.h5.tree, node.group).Failure? ==> r == Failure(LoadTable(node.h5.tree, node.group).error)
      ensures LoadTable(node.h5.tree, node.group).Success? ==>
        && r.Success? && fresh(r.value) && r.value.Valid() && r.value.h5 == node
        && (r.value.data, r.value.fields) == LoadTable(node.h5.tree, node.group).value
    {
      var loaded := LoadTable(node.h5.tree, node.group);
      if loaded.Failure? {
        return Failure(loaded.error);
      }
      var t := new Table(loaded.value.0, loaded.value.1);
      t.h5 := node;
      return Success(t);
    }

    /** `len(table)`: the number of rows, which is the length of every
        field's column. */
    function Len(): (r: nat)
      reads this
      ensures Valid() ==> forall f :: f in fields ==> Column(fields, data, f).Success? && |Column(fields, data, f).value| == r
    {
      |data|
    }

    /** `self + other`: the rows of both tables, which must have the same
        fields.  An empty left operand gives a new table over the other's
        rows; an empty right operand gives this very table. */
    method Add(other: Table?) returns (r: Result<Table>)
      requires Valid() && (other != null ==> other.Valid())
      ensures other == null || other.fields != fields ==> r == Failure(TypeError)
      ensures other != null && other.fields == fields ==>
        && r.Success? && r.value.Valid()
        && r.value.fields == fields && r.value.data == data + other.data
      ensures other != null && other.fields == fields && |data| > 0 && |other.data| == 0 ==> r == Success(this)
      ensures other != null && other.fields == fields && (|data| == 0 || |other.data| > 0) ==> fresh(r.value)
    {
      if other == null || other.fields != fields {
        return Failure(TypeError);
      }
      if |data| == 0 {
        var t := new Table(other.data, fields);
        assert data + other.data == other.data;
        return Success(t);
      } else if |other.data| == 0 {
        assert data + other.data == data;
        return Success(this);
      }
      var t := new Table(data + other.data, fields);
      return Success(t);
    }

    /** `Table.select(predicate, order, retdset, fields)` */
    method Select(row: RowSel, cols: Option<seq<ColSel>>, order: Option<string>, asTable: bool) returns (r: Result<Selection>)
      requires Valid()
      ensures Indexing.Select(data, fields, row, cols, order).Failure? ==>
        r == Failure(Indexing.Select(data, fields, row, cols, order).error)
      ensures Indexing.Select(data, fields, row, cols, order).Success? && !asTable ==>
        r == Success(Cells(Indexing.Select(data, fields, row, cols, order).value.cells))
      ensures Indexing.Select(data, fields, row, cols, order).Success? && asTable ==>
        var sel := Indexing.Select(data, fields, row, cols, order).value;
        && (TableFields(sel).Failure? ==> r == Failure(TableFields(sel).error))
        && (TableFields(sel).Success? ==>
              && r.Success? && r.value.Sub? && fresh(r.value.table) && r.value.table.Valid()
              && r.value.table.data == sel.cells && r.value.table.fields == TableFields(sel).value)
    {
      var sel :- Indexing.Select(data, fields, row, cols, order);
      if !asTable {
        return Success(Cells(sel.cells));
      }
      var fs :- TableFields(sel);
      var t := new Table(sel.cells, fs);
      return Success(Sub(t));
    }

    /** `table[key]`: parse the key (checking its field names) and select
        without ordering. */
    method GetItem(key: Key) returns (r: Result<Selection>)
      requires Valid()
      ensures ParseKey(fields, key).Failure? ==> r == Failure(ValueError)
      ensures ParseKey(fields, key).Success? ==>
        var p := ParseKey(fields, key).value;
        var sel := Indexing.Select(data, fields, p.row, p.cols, None);
        && (sel.Failure? ==> r == Failure(sel.error))
        && (sel.Success? && !p.asTable ==> r == Success(Cells(sel.value.cells)))
        && (sel.Success? && p.asTable && TableFields(sel.value).Failure? ==> r == Failure(TableFields(sel.value).error))
        && (sel.Success? && p.asTable && TableFields(sel.value).Success? ==>
              && r.Success? && r.value.Sub? && fresh(r.value.table)
              && r.value.table.data == sel.value.cells && r.value.table.fields == TableFields(sel.value).value)
    {
      ParseKeyChecksFields(fields, key);
      var p :- ParseKey(fields, key);
      r := Select(p.row, p.cols, None, p.asTable);
    }

    /** `del table[key]`: the table becomes the selection the key makes. */
    method DelItem(key: Key) returns (r: Outcome)
      requires Valid()
      modifies this
      ensures Valid() && h5 == old(h5)
      ensures Narrow(old(data), old(fields), key).Failure? ==>
        r == Fail(Narrow(old(data), old(fields), key).error) && data == old(data) && fields == old(fields)
      ensures Narrow(old(data), old(fields), key).Success? ==>
        r == Pass && (data, fields) == Narrow(old(data), old(fields), key).value
    {
      var narrowed := Narrow(data, fields, key);
      if narrowed.Failure? {
        return Fail(narrowed.error);
      }
      data, fields := narrowed.value.0, narrowed.value.1;
      return Pass;
    }

    /** `table.set_fields(predicate, fields, value)`: write the value into the
        addressed region, returning the row mask's length for a predicate
        row key and -1 otherwise; nothing changes when it raises. */
    method SetFields(row: RowSel, cols: Option<seq<ColSel>>, value: Assignment) returns (r: Result<int>)
      requires Valid() && !PairedMasks(row, cols)
      modifies this
      ensures Valid() && fields == old(fields) && h5 == old(h5)
      ensures Indexing.SetFields(old(data), fields, row, cols, value).Failure? ==>
        r == Failure(Indexing.SetFields(old(data), fields, row, cols, value).error) && data == old(data)
      ensures Indexing.SetFields(old(data), fields, row, cols, value).Success? ==>
        var w := Indexing.SetFields(old(data), fields, row, cols, value).value;
        r == Success(w.count) && data == w.data
    {
      var w :- Indexing.SetFields(data, fields, row, cols, value);
      data := w.data;
      return Success(w.count);
    }

    /** `table[key] = value`: nothing at all happens on a table without rows
        (the key is not even checked); otherwise the key is parsed and the
        region written. */
    method SetItem(key: Key, value: Assignment) returns (r: Result<Option<int>>)
      requires Valid() && !(key.RowsCols? && PairedMasks(key.row, Some(key.cols)))
      modifies this
      ensures Valid() && fields == old(fields) && h5 == old(h5)
      ensures old(|data|) == 0 ==> r == Success(None) && data == old(data)
      ensures old(|data|) > 0 && ParseKey(fields, key).Failure? ==> r == Failure(ValueError) && data == old(data)
      ensures old(|data|) > 0 && ParseKey(fields, key).Success? ==>
        var p := ParseKey(fields, key).value;
        var w := Indexing.SetFields(old(data), fields, p.row, p.cols, value);
        && (w.Failure? ==> r == Failure(w.error) && data == old(data))
        && (w.Success? ==> r == Success(Some(w.value.count)) && data == w.value.data)
    {
      if |data| == 0 {
        return Success(None);
      }
      ParseKeyChecksFields(fields, key);
      var p :- ParseKey(fields, key);
      var count :- SetFields(p.row, p.cols, value);
      return Success(Some(count));
    }

    /** `table.add_field(name, default)`: append a column holding the default
        broadcast to one cell per row, and its name after the others. */
    method AddField(name: string, default: Fill) returns (r: Outcome)
      requires Valid()
      modifies this
      ensures Valid() && h5 == old(h5)
      ensures Broadcast(default, old(|data|), 1).Failure? ==>
        r == Fail(ValueError) && data == old(data) && fields == old(fields)
      ensures Broadcast(default, old(|data|), 1).Success? ==>
        var column := Broadcast(default, old(|data|), 1).value;
        && r == Pass && fields == old(fields) + [name] && |data| == old(|data|)
        && forall i :: 0 <= i < |data| ==> data[i] == old(data)[i] + [column[i][0]]
    {
      var column := Broadcast(default, |data|, 1);
      if column.Failure? {
        return Fail(ValueError);
      }
      data, fields := AppendColumn(data, column.value), fields + [name];
      return Pass;
    }

    /** `table.retain_fields(fs)`: keep the named columns, in the given order;
        an unknown name raises ValueError before anything changes. */
    method RetainFields(fs: seq<string>) returns (r: Outcome)
      requires Valid()
      modifies this
      ensures Valid() && h5 == old(h5)
      ensures Retain(old(data), old(fields), fs).Failure? ==>
        r == Fail(ValueError) && data == old(data) && fields == old(fields)
      ensures Retain(old(data), old(fields), fs).Success? ==>
        r == Pass && data == Retain(old(data), old(fields), fs).value && fields == fs
    {
      var kept := Retain(data, fields, fs);
      if kept.Failure? {
        return Fail(ValueError);
      }
      data, fields := kept.value, fs;
      return Pass;
    }

    /** `table.save(node)`: `node['data'] = data`, then
        `node['fields'] = fields`; the second write is not attempted when the
        first raises. */
    method Save(node: H5Node) returns (r: Outcome)
      requires Valid() && node.Valid()
      modifies node.h5
      ensures node.Valid()
      ensures var first := Assign(old(node.h5.tree), node.group, "data", EncodeMatrix(data));
        && (first.Failure? ==> r == Fail(first.error) && node.h5.tree == old(node.h5.tree))
        && (first.Success? ==>
              var second := Assign(first.value, node.group, "fields", EncodeNames(fields));
              && (second.Failure? ==> r == Fail(second.error) && node.h5.tree == first.value)
              && (second.Success? ==> r == Pass && node.h5.tree == second.value))
      ensures Join(node.group, "data") !in old(node.h5.tree) && Join(node.group, "fields") !in old(node.h5.tree) ==>
        r == Pass && LoadTable(node.h5.tree, node.group) == Success((data, fields))
    {
      ghost var before := node.h5.tree;
      var first := node.SetItem("data", EncodeMatrix(data));
      if first.Fail? {
        r := first;
      } else {
        r := node.SetItem("fields", EncodeNames(fields));
      }
      if Join(node.group, "data") !in before && Join(node.group, "fields") !in before {
        SaveTableWrites(before, node.group, data, fields);
        SaveThenLoad(before, node.group, data, fields);
      }
    }
  }

  /** An open HDF5 file: its tree of groups and leaves. */
  class H5File {
    var tree: Tree

    /** A new file holds only the root group. */
    constructor ()
      ensures tree == map["/" := Group] && WellFormed(tree)
    {
      tree := map["/" := Group];
    }
  }

  /** A view of one group of a file. */
  class H5Node {
    const h5: H5File
    const group: string
    const autoCreate: bool

    /** The file is well formed and the group is one of its groups. */
    ghost predicate Valid()
      reads h5
    {
      WellFormed(h5.tree) && group in h5.tree && h5.tree[group] == Group
    }

    /** `H5Node(opt, h5=file, grp=group, auto_create_grps=autoCreate)` */
    constructor (h5: H5File, group: string, autoCreate: bool)
      ensures this.h5 == h5 && this.group == group && this.autoCreate == autoCreate
    {
      this.h5 := h5;
      this.group := group;
      this.autoCreate := autoCreate;
    }

    /** `item in node`: whether the path below this group names a node.
        For a plain name that is exactly when `node[item]` finds it without
        creating anything. */
    function Contains(item: string): (r: bool)
      reads h5
      ensures r <==> Join(group, item) in h5.tree
      ensures Valid() && ValidName(item) ==> (r <==> Lookup(h5.tree, group, item, false).Success?)
    {
      PresentIffFound(h5.tree, group, item);
      Join(group, item) in h5.tree
    }

    /** `len(node)`: the number of nodes directly below the group. */
    function Len(): nat
      reads h5
    {
      |Children(h5.tree, group)|
    }

    /** The objects an item's description reads. */
    static function ItemFrame(r: Result<Item>): set<object> {
      if r.Failure? then {}
      else match r.value
        case NodeItem(n) => {n.h5}
        case TableItem(t) => {t}
        case LeafItem(_) => {}
    }

    /** `r` and the tree are what `node[key]` gives from the tree before the
        call: the key is resolved (a missing group is created when
        auto-creation is on), a leaf comes back as its value, a group holding
        `data` and `fields` as a table, any other group as a new
        auto-creating node. */
    twostate predicate Answers(key: string, new r: Result<Item>)
      requires old(WellFormed(h5.tree))
      reads h5, ItemFrame(r)
    {
      var found := Lookup(old(h5.tree), group, key, autoCreate);
      && (found.Failure? ==> r == Failure(found.error) && h5.tree == old(h5.tree))
      && (found.Success? ==>
            var (t, path) := found.value;
            && h5.tree == t
            && (Classify(t, path).LeafKind? ==> r == Success(LeafItem(Classify(t, path).value)))
            && (Classify(t, path).GroupKind? ==>
                  r.Success? && r.value.NodeItem? && fresh(r.value.node)
                  && r.value.node.h5 == h5 && r.value.node.group == path && r.value.node.autoCreate
                  && r.value.node.Valid())
            && (Classify(t, path).TableKind? ==>
                  && (LoadTable(t, path).Failure? ==> r == Failure(LoadTable(t, path).error))
                  && (LoadTable(t, path).Success? ==>
                        r.Success? && r.value.TableItem?
                        && (r.value.table.data, r.value.table.fields) == LoadTable(t, path).value)))
    }

    /** `node[key]`: resolve the key and wrap what is found. */
    method GetItem(key: string) returns (r: Result<Item>)
      requires Valid()
      modifies h5
      ensures Valid()
      ensures Answers(key, r)
    {
      var found := Lookup(h5.tree, group, key, autoCreate);
      if found.Failure? {
        return Failure(found.error);
      }
      var (t, path) := found.value;
      h5.tree := t;
      match Classify(t, path)
      case LeafKind(v) =>
        return Success(LeafItem(v));
      case TableKind =>
        var node := new H5Node(h5, path, true);
        var table :- Table.Load(node);
        return Success(TableItem(table));
      case GroupKind =>
        var node := new H5Node(h5, path, true);
        return Success(NodeItem(node));
    }

    /** `node[key] = value`: store the value as a new leaf, wrapping a
        non-sequence as a one-element sequence and creating missing groups. */
    method SetItem(key: string, value: Value) returns (r: Outcome)
      requires Valid()
      modifies h5
      ensures Valid()
      ensures Assign(old(h5.tree), group, key, value).Failure? ==>
        r == Fail(Assign(old(h5.tree), group, key, value).error) && h5.tree == old(h5.tree)
      ensures Assign(old(h5.tree), group, key, value).Success? ==>
        r == Pass && h5.tree == Assign(old(h5.tree), group, key, value).value
    {
      var written := Assign(h5.tree, group, key, value);
      if written.Failure? {
        return Fail(written.error);
      }
      h5.tree := written.value;
      return Pass;
    }

    /** `del node[key]`: remove the node below this group and everything
        under it. */
    method DelItem(key: string) returns (r: Outcome)
      requires Valid()
      modifies h5
      ensures Valid()
      ensures RemoveSubtree(old(h5.tree), Join(group, key)).Failure? ==>
        r == Fail(RemoveSubtree(old(h5.tree), Join(group, key)).error) && h5.tree == old(h5.tree)
      ensures RemoveSubtree(old(h5.tree), Join(group, key)).Success? ==>
        r == Pass && h5.tree == RemoveSubtree(old(h5.tree), Join(group, key)).value
    {
      var removed := RemoveSubtree(h5.tree, Join(group, key));
      if removed.Failure? {
        return Fail(removed.error);
      }
      assert !IsDescendant(Join(group, key), group);
      h5.tree := removed.value;
      return Pass;
    }

    /** `node.get(key, d)`: `node[key]` when the key names a node below this
        group, `d` otherwise. */
    method Get(key: string, d: Item) returns (r: Result<Item>)
      requires Valid()
      modifies h5
      ensures Valid()
      ensures old(Contains(key)) ==> Answers(key, r)
      ensures !old(Contains(key)) ==> r == Success(d) && h5.tree == old(h5.tree)
    {
      if Contains(key) {
        r := GetItem(key);
      } else {
        r := Success(d);
      }
    }
  }
}
