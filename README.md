# quirks — a verified model of the dataset, functional and iterable helpers

This project models the core of the `quirks` Python package in Dafny and
proves properties of the model.

`quirks/dataset.py` has three parts:

- **Predicates.** A predicate algebra selects the rows of a table.
  - Leaf terms bind a field name to a comparison, a membership test, or the constant `always`/`never`.
  - The combinators `Conj`, `Dis`, `Xor` and `Equ` fold their children with `and`, `or`, `xor` and `==`.
  - A combinator splices in the children of operands of its own kind.
  - A predicate is evaluated against the table's matrix and a column accessor, and yields one boolean per row.
- **`Table`.** A table is an integer matrix plus a tuple of field names.
  - It can be indexed by a row key (an integer, a slice, everything, or a predicate) and a column key (one name, a `start:stop` name range, or several names).
  - It can be projected, sorted, concatenated, widened, narrowed and assigned to in place.
  - It can be saved to, and loaded from, a group of the hierarchical store.
- **`H5Node`.** A node is a group of an HDF5 file.
  - Keys resolve to paths relative to the group.
  - Reading a key gives a value, a sub-node, or a `Table` (for a group holding both `data` and `fields`).
  - Reading a missing group creates it when auto-creation is on.
  - Writing a value wraps a non-sequence as a one-element tuple.
  - Deleting a key removes a whole subtree.

The file itself is an abstract in-memory tree: a map from absolute path to
`Group` or `Leaf(value)`, kept well formed (every node's parent is a group).

`quirks/functional.py` provides:

- `combinator`, right-to-left composition;
- `flip`, argument reversal;
- `maybe`, the first result that is not `None`, with exceptions counting as `None`.

`quirks/iterable.py` provides:

- `itake`, a bounded prefix;
- `first`;
- `ensure_iterable`.

Layout:

- `wrappers.dfy`: `Option`, `Result` and `Outcome`, and the exception kinds.
- `predicates.dfy`: the predicate algebra.
- `store.dfy`: path arithmetic, the tree and its operations, and the encoding of a table as two leaves.
- `indexing.dfy`: key parsing, region resolution, selection, broadcasting and assignment, as functions on matrices.
- `dataset.dfy`: the classes `Table`, `H5File` and `H5Node`. Their methods update `data`/`fields` or the file's tree in place, and each is specified by the functions above.
- `functional.dfy` and `iterable.dfy`: the two helper modules.

## Model

| member | source | states |
|---|---|---|
| Predicates.Build | quirks/dataset.py:451-455 | a combinator of the requested kind whose children, as a set, are the operands, except that an operand of the same kind is replaced by its own children (order and repetitions: Predicates.SpliceAppend) |
| Predicates.Splice | quirks/dataset.py:453-454 | the spliced child tuple holds, as a set, the children some operand contributes |
| Predicates.SpliceAppend | quirks/dataset.py:453-454 | the child tuple of concatenated operands is the concatenation of their child tuples, so order and repetitions are kept |
| Predicates.RepeatedOperandsKept | quirks/dataset.py:453-454 | a repeated operand of another kind stays twice among the children, as in `a ^ a` |
| Predicates.Eval | quirks/dataset.py:412-457 | a leaf term that succeeds read its field's column and has one entry per cell of it; a combinator that succeeds has the length of its first child's mask |
| Predicates.Reduce | quirks/dataset.py:456-457 | a successful fold has the length of the accumulator mask |
| Predicates.ConjunctionFlattens | quirks/dataset.py:451-455 | `(a & b) & c` has exactly the three children `a, b, c` when none of them is a conjunction |
| Predicates.OtherKindStaysNested | quirks/dataset.py:453-454 | an operand that is not a combinator of the same kind stays one child, in first position |
| Predicates.BuildIsFlat | quirks/dataset.py:451-455 | a combinator built from already-flat operands has no directly nested child of its own kind |
| Predicates.TermSemantics | quirks/dataset.py:412-437 | when the column lookup succeeds, each of `<`, `>`, `<=`, `>=`, `==`, `!=` yields exactly the mask whose row `j` is `column[j] op value`; `always` yields all true and `never` all false, one entry per row |
| Predicates.TermLookupFails | quirks/dataset.py:412-448 | when the column lookup raises, every leaf term on that field raises the same exception |
| Predicates.AnyEqualMeansMember | quirks/dataset.py:444-448 | the or-reduction of `candidate == column` is true at a row iff the cell is among the candidates |
| Predicates.InSemantics | quirks/dataset.py:444-448 | `In` selects a row iff its cell equals some candidate; with no candidates the reduction raises TypeError |
| Predicates.ReduceAppend | quirks/dataset.py:456-457 | folding over a concatenation of children is folding the first part and continuing with the second, failures included |
| Predicates.ReduceShape | quirks/dataset.py:456-457 | a successful fold keeps the mask length, and every child it consumed produced a mask of that length |
| Predicates.CombineAssociative | quirks/dataset.py:458-473 | each of the four elementwise operators is associative on equal-length masks |
| Predicates.ReduceAssociative | quirks/dataset.py:456-457 | combining then folding agrees with folding then combining |
| Predicates.ReduceSingle | quirks/dataset.py:456-457 | folding in one child evaluates it and combines it with the accumulator, or raises its exception |
| Predicates.ContributedEvaluatesLikeOperand | quirks/dataset.py:453-457 | the children an operand contributes when spliced evaluate exactly like the operand |
| Predicates.FlatteningPreservesMeaning | quirks/dataset.py:451-457 | splicing same-kind operands does not change what a combinator evaluates to |
| Predicates.UnitLaw | quirks/dataset.py:458-465 | an all-true mask is the unit of `and`, an all-false mask the unit of `or` |
| Predicates.UnitCase | quirks/dataset.py:399-402 | combining a unit leaf term with `p` evaluates like `p` |
| Predicates.AlwaysIsConjunctionUnit | quirks/dataset.py:412-415 | `always(f) & p` evaluates like `p` when the column has as many rows as `p`'s mask |
| Predicates.NeverIsDisjunctionUnit | quirks/dataset.py:416-419 | `never(f) \| p` evaluates like `p` under the same condition |
| Predicates.ConjunctionIsAll | quirks/dataset.py:456-461 | a conjunction selects a row iff its first child and every later child select it |
| Predicates.DisjunctionIsAny | quirks/dataset.py:462-465 | a disjunction selects a row iff its first child or some later child selects it |
| Predicates.ExclusiveIsParity | quirks/dataset.py:466-469 | an exclusive-or selects a row iff the first child and the later ones select it an odd number of times in all |
| Predicates.EquivalenceIsParity | quirks/dataset.py:470-473 | the left fold of `==` selects a row iff the children select it an odd number of times in all exactly when the number of later children is even (each `==` is a negated exclusive-or) |
| Store.LastSlash | quirks/dataset.py:95 | the split point of `rsplit('/', 1)`: the position of the last `/`, or -1 when there is none |
| Store.LStripSlash | quirks/dataset.py:99 | the result never starts with `/` and is the input when that does not start with `/` |
| Store.RStripSlash | quirks/dataset.py:87 | the result never ends with `/` and is the input when that does not end with `/` |
| Store.LStripRemovesLeading | quirks/dataset.py:99 | `lstrip('/')` removes a prefix made only of slashes and keeps the rest |
| Store.RStripRemovesTrailing | quirks/dataset.py:87 | `rstrip('/')` removes a suffix made only of slashes and keeps the rest |
| Store.KeyOf | quirks/dataset.py:33-34 | a node's key is all of its path after the last `/`, or the whole path when it has none; it contains no `/` |
| Store.LastSlashOfJoin | quirks/dataset.py:95-97 | splitting `path/name` at its last `/` gives back `path` and `name` |
| Store.LStripKeepsTail | quirks/dataset.py:99 | stripping leading slashes only touches the prefix |
| Store.LStripAllSlashes | quirks/dataset.py:99 | a prefix made only of slashes disappears under stripping |
| Store.CurrentPath | quirks/dataset.py:83-87 | the root's path is `/`; any other group's path is its pathname with exactly the trailing slashes removed |
| Store.AbsolutePath | quirks/dataset.py:92-105 | resolving fails iff the key is empty or starts with `/` below the root; the name is the key's last component, and a key without `/` resolves to the current path |
| Store.AbsolutePathErrors | quirks/dataset.py:92-94 | resolving a key fails iff it is empty (IndexError) or starts with `/` below the root (ValueError) |
| Store.AbsolutePathOfName | quirks/dataset.py:102-104 | a key without `/` resolves to the current group and the key itself |
| Store.AbsolutePathJoins | quirks/dataset.py:92-105 | the resolved name has no `/`, and path plus name is `/` + the stripped key at the root, else the group path + `/` + key |
| Store.RootJoin | quirks/dataset.py:98-99 | at the root, joining the stripped prefix with the name is stripping the whole key |
| Store.JoinParent | quirks/dataset.py:83-87 | the parent of `path/name` is `path` and its key is `name` |
| Store.CurrentPathOfNode | quirks/dataset.py:83-90 | the current path of an existing node is its own pathname |
| Store.EnsureGroup | quirks/dataset.py:119 | creating parents yields a well-formed tree in which the path is a group; it only adds groups, each the path or one of its ancestors, and leaves an existing group unchanged |
| Store.CreateGroup | quirks/dataset.py:119 | an invalid name raises ValueError, an existing node NodeError; otherwise the new group exists and the only nodes added are it and its missing ancestors |
| Store.CreateArray | quirks/dataset.py:125 | same errors; otherwise the leaf holds the value, every old node is unchanged and any other new node is a group at or above the parent path |
| Store.DescendantOfParent | quirks/dataset.py:69-70 | a descendant of a node's parent subtree is a descendant of that subtree |
| Store.RemoveSubtree | quirks/dataset.py:69-70 | a missing node raises NoSuchNode and the root cannot be removed; otherwise exactly the node and its descendants disappear and the rest is unchanged |
| Store.Assign | quirks/dataset.py:121-125 | a key that cannot be resolved raises that error and an existing target raises; otherwise the target holds the value (wrapped as a one-tuple unless it is a sequence), every old node is unchanged, and every other new node is a group at or above the target's parent |
| Store.AssignStores | quirks/dataset.py:121-125 | in a group, a new key stores the value, wrapped as a one-tuple unless it is a sequence; an existing key raises NodeError |
| Store.EncodingRoundTrip | quirks/dataset.py:392-393 | decoding the stored matrix and field tuple gives back the originals |
| Store.Classify | quirks/dataset.py:71-81 | a leaf is a value, and a group is a table iff it holds both `data` and `fields` |
| Store.LoadTable | quirks/dataset.py:215-218 | a loaded table is rectangular, with as many columns as fields |
| Store.SaveTable | quirks/dataset.py:392-393 | saving keeps the tree well formed |
| Store.SaveTableWrites | quirks/dataset.py:392-393 | saving into a group without `data` and `fields` adds exactly those two leaves |
| Store.SaveThenLoad | quirks/dataset.py:213-218 | after saving, the group reads back as a table with the same data and fields |
| Store.LoadEncoded | quirks/dataset.py:215-218 | two leaves holding encoded data and fields load as that table |
| Store.SaveRefusesExistingData | quirks/dataset.py:392 | saving into a group that already has `data` raises NodeError |
| Store.Lookup | quirks/dataset.py:107-120 | a successful lookup names an existing node of a well-formed tree that only gained groups |
| Store.LookupCreatesOnlyWhenAllowed | quirks/dataset.py:113-119 | without auto-creation a missing key raises NoSuchNode and nothing changes; with it, exactly that group is created |
| Store.PresentIffFound | quirks/dataset.py:62-68 | for a plain name in a group, `name in node` holds iff looking it up without auto-creation succeeds |
| Store.AssignAddsChild | quirks/dataset.py:37-38 | writing a new name into a group adds exactly that child, so `len(node)` (Dataset.H5Node.Len, the number of direct children) grows by one |
| Indexing.CheckFields | quirks/dataset.py:242-245 | passes iff every referenced field exists, else ValueError |
| Indexing.ParseKey | quirks/dataset.py:246-261 | parsing succeeds iff every field the key mentions exists, fails with ValueError otherwise, and passes on exactly the key's column items |
| Indexing.ParseKeyChecksFields | quirks/dataset.py:246-261 | parsing fails with ValueError iff the key names an unknown field (both ends of a range); row-led keys return a table, name-led keys cells of all rows |
| Indexing.IndexOf | quirks/dataset.py:301-303 | `fields.index(f)` is the first position holding `f` |
| Indexing.Column | quirks/dataset.py:284-286 | the accessor returns the field's column, or raises ValueError for an unknown field |
| Indexing.GetIndexing | quirks/dataset.py:287-312 | a predicate row key is evaluated into a mask (its exception propagates); an int `i` becomes `slice(i, i+1)`; without a predicate only a lone unknown column item raises, with ValueError; no column items select every column, labelled with the fields |
| Indexing.Clamp | quirks/dataset.py:292-295 | a slice bound is normalised as numpy does: a negative bound counts from the end, then it is clamped into `[0, n]`, or `[-1, n-1]` for a negative step |
| Indexing.Stride | quirks/dataset.py:292-295 | slice positions start at the start, stay strictly between the bounds and move strictly in the step's direction |
| Indexing.StrideEntries | quirks/dataset.py:292-295 | entry `i` of a stride is `start + i * step`, and one more step would reach or pass the stop |
| Indexing.StrideOne | quirks/dataset.py:293 | `slice(i, i+1)` with step 1 gives the single position `i` |
| Indexing.StrideStep | quirks/dataset.py:300-301 | a unit-step slice `a:b` gives `a, a+1, ..., b-1` |
| Indexing.SliceIndices | quirks/dataset.py:292-295 | a zero step raises ValueError; otherwise the positions are the normalised start plus successive multiples of the step, strictly before the normalised stop, in range and distinct |
| Indexing.TrueIndices | quirks/dataset.py:342-343 | a boolean mask selects exactly its true positions, in increasing order |
| Indexing.Positions | quirks/dataset.py:342-345 | positions are in range and distinct; a mask of the wrong length raises IndexError |
| Indexing.IntRowKey | quirks/dataset.py:292-293 | row key `i` selects row `i`, or row `i + n` for `-n <= i < -1`, and nothing otherwise (including `-1`) |
| Indexing.Project | quirks/dataset.py:342-345 | projecting keeps one row per selected row and one cell per selected column |
| Indexing.InsertOn | quirks/dataset.py:348 | inserting a row into rows sorted on a column keeps them sorted and adds exactly that row |
| Indexing.SortOn | quirks/dataset.py:348 | sorting on a column gives a permutation of the rows, ascending on that column; nothing is claimed about the order of equal keys |
| Indexing.Locate | quirks/dataset.py:341-345 | resolved row and column positions are in range and distinct |
| Indexing.SortKeepsShape | quirks/dataset.py:348 | sorting keeps every row's width |
| Indexing.Arrange | quirks/dataset.py:347-348 | ordering keeps the width and labels of the selection |
| Indexing.Select | quirks/dataset.py:315-352 | a selection is rectangular |
| Indexing.TableFields | quirks/dataset.py:349-350 | a table built from a selection has the selection's labels as its fields, one per column |
| Indexing.TableFieldsOfLabels | quirks/dataset.py:308-310 | the field tuple of a selection labelled with names is exactly those names |
| Indexing.SelectEverything | quirks/dataset.py:308-310 | selecting all rows and no columns returns the matrix unchanged, labelled with the table's fields |
| Indexing.SingleNameColumn | quirks/dataset.py:299-305 | a single name gives a one-column result: that field's cells of the selected rows |
| Indexing.SingleNameLocates | quirks/dataset.py:302-304 | a single name addresses exactly the column `fields.index(name)` |
| Indexing.NameRangeColumns | quirks/dataset.py:300-301 | a name range gives the columns from `index(start)` up to but excluding `index(stop)`, labelled by those fields |
| Indexing.SeveralNamesColumns | quirks/dataset.py:306-307 | several names keep the matching columns in the table's order, while the labels are the names as given |
| Indexing.OrderSorts | quirks/dataset.py:347-348 | with `order`, the rows are a permutation of the unordered selection, with the same labels, ascending on the selection's column at the position `order` has in the full table |
| Indexing.OrderUsesTablePosition | quirks/dataset.py:347-348 | selecting `b, c` of a table with fields `a, b, c`, ordered by `b`, sorts on the `c` column and leaves `b` descending |
| Indexing.SortReversesTies | quirks/dataset.py:348 | two rows with equal keys come out of the sort in reverse order |
| Indexing.Narrow | quirks/dataset.py:265-268 | deleting with a key leaves a rectangular table |
| Indexing.NarrowNeedsRowKey | quirks/dataset.py:265-268 | a name-led key raises (AttributeError, or ValueError for an unknown name); deleting everything-rows changes nothing |
| Indexing.KnownColumnsSelect | quirks/dataset.py:257-260 | once field checking passes, selecting all rows succeeds |
| Indexing.BroadcastBlock | quirks/dataset.py:376 | a block broadcasts iff it is rectangular and each dimension matches or is 1, else ValueError; a matching block is kept |
| Indexing.Broadcast | quirks/dataset.py:357 | a scalar fills every cell; a vector broadcasts iff its length is the width or 1; failures are ValueError |
| Indexing.Find | quirks/dataset.py:374-376 | finds a position holding the element |
| Indexing.FindDistinct | quirks/dataset.py:374-376 | in a list of distinct positions, looking up entry `k` gives `k` |
| Indexing.Scatter | quirks/dataset.py:374-376 | writing a block keeps the matrix's shape |
| Indexing.ScatterWrites | quirks/dataset.py:374-376 | every addressed cell receives its block entry and every other cell is unchanged |
| Indexing.SetFields | quirks/dataset.py:365-380 | the shape and fields are unchanged; the count is the mask length for a predicate row key, else -1 |
| Indexing.SetFieldsWritesRegion | quirks/dataset.py:371-376 | the addressed cells get the broadcast value (or the callable's result on the region) and nothing else changes |
| Indexing.Retain | quirks/dataset.py:359-364 | ValueError iff some name is unknown; otherwise column `j` is the column of `fs[j]`, in the given order |
| Indexing.RetainOwnFields | quirks/dataset.py:359-364 | retaining the table's own distinct fields changes nothing |
| Indexing.RetainUndoesAppend | quirks/dataset.py:353-364 | adding a field and then retaining the old distinct fields gives back the old matrix |
| Indexing.RetainRepeatedField | quirks/dataset.py:363 | a repeated field name always reads its first column |
| Dataset.Table.constructor | quirks/dataset.py:219-221 | the table holds exactly the given data and fields |
| Dataset.Table.Load | quirks/dataset.py:215-218 | loading from a node fails as the stored group does, or yields a fresh valid table with its data and fields |
| Dataset.Table.Len | quirks/dataset.py:239-241 | `len(table)` is the length of every field's column |
| Dataset.Table.Add | quirks/dataset.py:226-238 | a missing table or different fields raise TypeError; otherwise the rows are self's followed by other's, and an empty right operand returns `self` |
| Dataset.Table.Select | quirks/dataset.py:315-352 | the selected cells (sorted as Indexing.OrderSorts states when `order` is given), or a fresh table with the resolved fields when a table is requested; every error propagates |
| Dataset.Table.GetItem | quirks/dataset.py:262-264 | parses the key (ValueError for an unknown field), then selects without ordering: cells for a name-led key, a fresh table for a row-led key; selection and field-tuple errors propagate |
| Dataset.Table.DelItem | quirks/dataset.py:265-268 | replaces data and fields with the key's selection, or raises and changes nothing |
| Dataset.Table.SetFields | quirks/dataset.py:365-380 | writes the addressed region in place and returns the row count, or raises and changes nothing |
| Dataset.Table.SetItem | quirks/dataset.py:269-273 | a zero-row table is left alone; otherwise parses the key and sets fields |
| Dataset.Table.AddField | quirks/dataset.py:353-358 | appends the name and one broadcast column, keeping every old cell and the row count |
| Dataset.Table.RetainFields | quirks/dataset.py:359-364 | unknown names raise ValueError and change nothing; otherwise only the named columns remain, in that order |
| Dataset.Table.Save | quirks/dataset.py:382-393 | writes `data` then `fields` into the node; into a fresh group, the group then loads back as this table |
| Dataset.H5File.constructor | quirks/dataset.py:29-30 | a new file holds only the root group |
| Dataset.H5Node.constructor | quirks/dataset.py:23-32 | the node records its file, its group and the auto-create flag |
| Dataset.H5Node.Contains | quirks/dataset.py:62-68 | `item in node` iff the path below the group exists; for a plain name, iff a lookup without auto-creation finds it |
| Dataset.H5Node.GetItem | quirks/dataset.py:107-120 | resolves the key (creating groups if allowed) and returns a value, a fresh auto-creating sub-node, or the stored table |
| Dataset.H5Node.SetItem | quirks/dataset.py:121-125 | stores the value as the tree update `Assign` describes, or raises and changes nothing |
| Dataset.H5Node.DelItem | quirks/dataset.py:69-70 | removes the key's subtree, or raises and changes nothing |
| Dataset.H5Node.Get | quirks/dataset.py:60-61 | a present key gives exactly what `node[key]` gives from the same tree; an absent key returns the default and changes nothing |
| Functional.FoldReversedSplit | quirks/functional.py:8-9 | folding over concatenated function lists is folding the second list, then the first |
| Functional.FoldReversedIsNested | quirks/functional.py:8-9 | the fold leaves the one-tuple holding the nested application |
| Functional.Combinator | quirks/functional.py:6-10 | `combinator(f1, ..., fk)(*args)` is `f1(f2(...fk(*args)...))`; with no functions it is the first argument, and IndexError when there is none |
| Functional.CombinatorOfOne | quirks/functional.py:7-10 | `combinator(f)` behaves exactly like `f` |
| Functional.CombinatorComposes | quirks/functional.py:6-10 | the combinator of `fs + gs` is the combinator of `fs` applied to the combinator of `gs` |
| Functional.Reverse | quirks/functional.py:13 | `reversed(a)` has element `i` at position `len(a) - 1 - i` |
| Functional.ReverseTwice | quirks/functional.py:13 | reversing twice gives back the arguments |
| Functional.Flip | quirks/functional.py:12-13 | `flip(f)(a1, ..., an)` is `f(an, ..., a1)` for any number of arguments |
| Functional.FlipSwapsTwo | quirks/functional.py:12-13 | `flip(f)(x, y)` is `f(y, x)` |
| Functional.FlipTwice | quirks/functional.py:12-13 | `flip(flip(f))` behaves like `f` for any number of arguments |
| Functional.Maybe | quirks/functional.py:19-27 | returns the first result, in order, that neither raised nor was `None`; returns `None` iff every function raised or returned `None` |
| Iterables.SecondsOfEnumerate | quirks/iterable.py:11 | numbering the elements and then dropping the numbers gives the sequence back |
| Iterables.TakeCount | quirks/iterable.py:11 | at most the length of the input is taken |
| Iterables.TakeWhileOfCounted | quirks/iterable.py:11 | taking pairs while the counter is below `n` takes a prefix of the right length |
| Iterables.ITake | quirks/iterable.py:9-11 | `itake(n, xs)` is exactly the first `min(n, len(xs))` elements; nothing when `n <= 0`; all of `xs` when `n >= len(xs)` |
| Iterables.First | quirks/iterable.py:14-15 | `first(xs)` is the only element of `itake(1, xs)` when that has one, and `None` otherwise |
| Iterables.EnsureIterableIdempotent | quirks/iterable.py:20-22 | since a tuple is iterable, the result is always iterable, and wrapping twice is wrapping once |

## Left out

- PyTables and HDF5 input and output are not modelled: `openFile`, `createArray`, `createGroup`, `getNode`, `_f_remove`, `iterNodes` and `close` (quirks/dataset.py:24-29, 115-127). The file is an in-memory map from path to node, and each store operation is atomic.
- `handle_exit` is left out: it is process control that calls `exit()` (quirks/dataset.py:128-140).
- `printTree` and `_printNode` are left out: they are terminal output (quirks/dataset.py:141-199).
- `__str__`, `__repr__` and `squeeze` are left out: they are formatting only.
- The mapping protocol of `H5Node` is left out: `__iter__`, `keys`, `values`, `items`, `iteritems`, `itervalues`, `__reversed__` and `has_key`. `H5Node.Len` counts the direct children of the group.
- Cells are integers. numpy dtypes, floats and NaN are not modelled, so `always` can never be false.
- `Variable.nonzero` is left out: it refers to an undefined `Nz`.
- The bitwise `&`/`|` terms built from a `Variable` (`And`, `Or`) are left out. They produce integer vectors, not masks.
- Non-callable children of a combinator are boolean masks only. Scalar children and numpy's broadcasting of length-1 masks are not modelled: masks of different lengths raise ValueError.
- Dataset.Table.SetFields: the case where both the row key and the column key are boolean masks (a predicate row key with two or more names) is excluded by its precondition, because numpy pairs the two masks instead of addressing a rectangle.
- Dataset.Table.SetItem: excludes the same two-mask case.
- Dataset.Table.Load: when `data` or `fields` is missing below the group, the model raises NoSuchNode and leaves the tree unchanged. The source would read through an auto-creating node.
- Dataset.Table.Load: a non-matrix `data` leaf or a non-string `fields` leaf raises TypeError.
- Dataset.Table.Load: a width that does not match the field count raises ShapeError, where the source builds an inconsistent table.
- Dataset.Table.constructor: requires rectangular data with one column per field. The source's "no data" exception for a missing argument is not modelled, because both arguments are always given.
- Indexing.TableFields: a selection returned as a table whose labels do not match its columns one to one raises ShapeError, where the source builds an inconsistent table.
- Indexing.TableFields: a label that is not a name raises TypeError, as `setattr` does.
- Setting each field as an attribute of the table (quirks/dataset.py:224-225) is not modelled, so a field name that shadows a method is not detected.
- numpy views and aliasing are not modelled: every mutation reassigns `data` as a whole value.
- `scalar` and `isSequenceType` come from a `util` module that is not part of this model. `scalar` is the identity. A sequence is a list or a string.
- `isiterable` is a parameter of `Iterables.EnsureIterable`.
- Indexing.SortOn: `argsort` is not a stable sort. In the model, rows with equal keys come out in reverse order (Indexing.SortReversesTies); no property about the order of equal keys is claimed.
- Indexing.OrderSorts: the column sorted on is the one at `order`'s position in the full table, which is `order`'s own column only when the selection keeps the table's leading columns (Indexing.OrderUsesTablePosition). The model follows the code and does not promise that the result ascends on the `order` field.
- Dataset.Table.Select: for the same reason, the result is not promised to ascend on the `order` field.
- Row slices bounded by strings, the empty tuple as a key, and a predicate in column position are not modelled.
- `first` and `itake` are modelled on finite sequences. Consuming an iterator, and the truthiness of a generator (always true), are not modelled.
- Functional.Combinator: the functions it composes are total. An exception raised by one of them propagates unchanged in the source and is not modelled.
- `minkowski` and `euclid` are left out: they use floating-point `pow`.
- `quirks/colorize.py` (terminal colouring) and `setup.py` (packaging) are not part of this model.
- The docstring of `set_fields` calls its result the updated row count. The code returns the length of the row mask for a predicate key, and -1 otherwise; the model follows the code.
- The docstring of `add_field` says the default may be a vector. The code broadcasts it into one column, so any vector longer than 1 raises ValueError; the model follows the code (`Indexing.Broadcast` into `n` by 1).
