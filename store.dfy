/**
  The logical part of the hierarchical store behind `H5Node`: path strings,
  their splitting and resolution, and the HDF5 file itself as an abstract
  tree, a map from absolute path to group or leaf.  Every operation here is a
  pure function; the `H5Node` class in module Dataset applies them to the
  shared file object.
 */
module Store {
  import opened Wrappers
  import opened Predicates

  /** What a leaf holds: a number, a string or a (nested) sequence. */
  datatype Value = Int(i: int) | Str(s: string) | List(items: seq<Value>)

  datatype Entry = Group | Leaf(value: Value)

  /** The file: absolute path to node. */
  type Tree = map<string, Entry>

  // ---------------------------------------------------------------------------
  // String helpers

  /** Index of the last '/' in `s`, or -1 when there is none. */
  function LastSlash(s: string): (r: int)
    ensures -1 <= r < |s|
    ensures r >= 0 ==> s[r] == '/'
    ensures forall j :: r < j < |s| ==> s[j] != '/'
  {
    if |s| == 0 then -1
    else if s[|s| - 1] == '/' then |s| - 1
    else LastSlash(s[..|s| - 1])
  }

  /** `s.lstrip('/')` */
  function LStripSlash(s: string): (r: string)
    ensures |r| <= |s|
    ensures |r| > 0 ==> r[0] != '/'
    ensures |s| > 0 && s[0] != '/' ==> r == s
  {
    if |s| > 0 && s[0] == '/' then LStripSlash(s[1..]) else s
  }

  /** Exactly the leading separators are removed: what is dropped is all
      separators, and the rest is kept as it is. */
  lemma {:induction false} LStripRemovesLeading(s: string)
    ensures s == s[..|s| - |LStripSlash(s)|] + LStripSlash(s)
    ensures forall j :: 0 <= j < |s| - |LStripSlash(s)| ==> s[j] == '/'
    decreases |s|
  {
    if |s| > 0 && s[0] == '/' {
      LStripRemovesLeading(s[1..]);
      assert s == [s[0]] + s[1..];
    }
  }

  /** `s.rstrip('/')` */
  function RStripSlash(s: string): (r: string)
    ensures |r| <= |s|
    ensures |r| > 0 ==> r[|r| - 1] != '/'
    ensures |s| > 0 && s[|s| - 1] != '/' ==> r == s
  {
    if |s| > 0 && s[|s| - 1] == '/' then RStripSlash(s[..|s| - 1]) else s
  }

  /** Exactly the trailing separators are removed. */
  lemma {:induction false} RStripRemovesTrailing(s: string)
    ensures s == RStripSlash(s) + s[|RStripSlash(s)|..]
    ensures forall j :: |RStripSlash(s)| <= j < |s| ==> s[j] == '/'
    decreases |s|
  {
    if |s| > 0 && s[|s| - 1] == '/' {
      RStripRemovesTrailing(s[..|s| - 1]);
      assert s == s[..|s| - 1] + [s[|s| - 1]];
    }
  }

  // ---------------------------------------------------------------------------
  // Paths

  predicate IsAbsolute(p: string) { |p| > 0 && p[0] == '/' }

  /** A node name the store accepts: non-empty and free of '/'. */
  predicate ValidName(name: string) { |name| > 0 && '/' !in name }

  /** `_keyfnc`: the last component of a path, `rsplit('/', 1)[-1]`: all of
      the path after its last separator, or the whole path without one. */
  function KeyOf(path: string): (r: string)
    ensures '/' !in r
    ensures |r| <= |path| && path == path[..|path| - |r|] + r
    ensures |r| == |path| || path[|path| - |r| - 1] == '/'
  {
    path[LastSlash(path) + 1..]
  }

  /** `_get_current_path`: "/" at the root, otherwise the group's path with
      trailing separators removed. */
  function CurrentPath(group: string): (r: string)
    ensures group == "/" ==> r == "/"
    ensures group != "/" ==>
      && |r| <= |group| && group == r + group[|r|..]
      && (forall j :: |r| <= j < |group| ==> group[j] == '/')
      && (|r| == 0 || r[|r| - 1] != '/')
  {
    if group == "/" then "/"
    else
      RStripRemovesTrailing(group);
      RStripSlash(group)
  }

  /** The path of child `name` of the node at `path`. */
  function Join(path: string, name: string): string {
    if path == "/" then "/" + name else path + "/" + name
  }

  function Parent(p: string): string
    requires IsAbsolute(p) && p != "/"
  {
    var i := LastSlash(p);
    if i == 0 then "/" else p[..i]
  }

  /** `_get_absolute_path`: the key resolved against the group at `group`,
      as (parent path, last component).  It fails exactly for an empty key
      and for a leading separator below the root; the name is always the
      key's last component, and a key without separator lies in the current
      group. */
  function AbsolutePath(group: string, key: string): (r: Result<(string, string)>)
    ensures r.Failure? <==> |key| == 0 || (key[0] == '/' && group != "/")
    ensures r.Success? ==> r.value.1 == KeyOf(key)
    ensures r.Success? && '/' !in key ==> r.value.0 == CurrentPath(group)
  {
    if |key| == 0 then Failure(IndexError)
    else if key[0] == '/' && group != "/" then Failure(ValueError)
    else
      var i := LastSlash(key);
      if i >= 0 then
        var prefix, name := key[..i], key[i + 1..];
        if group == "/" then Success(("/" + LStripSlash(prefix), name))
        else Success((CurrentPath(group) + "/" + prefix, name))
      else Success((CurrentPath(group), key))
  }

  lemma LastSlashOfJoin(path: string, name: string)
    requires '/' !in name
    ensures LastSlash(path + "/" + name) == |path|
    decreases |name|
  {
    var s := path + "/" + name;
    if |name| > 0 {
      assert s[|s| - 1] == name[|name| - 1];
      assert s[..|s| - 1] == path + "/" + name[..|name| - 1];
      LastSlashOfJoin(path, name[..|name| - 1]);
    }
  }

  lemma LStripKeepsTail(a: string, b: string)
    requires |LStripSlash(a)| > 0
    ensures LStripSlash(a + b) == LStripSlash(a) + b
    decreases |a|
  {
    assert |a| > 0;
    assert (a + b)[0] == a[0];
    if a[0] == '/' {
      assert (a + b)[1..] == a[1..] + b;
      LStripKeepsTail(a[1..], b);
    }
  }

  lemma LStripAllSlashes(a: string, b: string)
    requires |LStripSlash(a)| == 0
    ensures LStripSlash(a + b) == LStripSlash(b)
    decreases |a|
  {
    if |a| > 0 {
      assert a[0] == '/';
      assert (a + b)[0] == '/';
      assert (a + b)[1..] == a[1..] + b;
      LStripAllSlashes(a[1..], b);
    } else {
      assert a + b == b;
    }
  }

  /** Resolving a key fails exactly for an empty key (IndexError) and for a
      leading '/' below the root (ValueError). */
  lemma AbsolutePathErrors(group: string, key: string)
    ensures AbsolutePath(group, key).Failure? <==> |key| == 0 || (key[0] == '/' && group != "/")
    ensures |key| == 0 ==> AbsolutePath(group, key) == Failure(IndexError)
    ensures |key| > 0 && key[0] == '/' && group != "/" ==> AbsolutePath(group, key) == Failure(ValueError)
  {
  }

  /** A key without separators names a child of the current group. */
  lemma AbsolutePathOfName(group: string, key: string)
    requires |key| > 0 && '/' !in key
    ensures AbsolutePath(group, key) == Success((CurrentPath(group), key))
  {
  }

  /** The resolved name carries no separator, and parent path and name join
      back into the key, read from the root with its leading separators
      dropped, or read from the current group. */
  lemma AbsolutePathJoins(group: string, key: string)
    requires AbsolutePath(group, key).Success?
    ensures '/' !in AbsolutePath(group, key).value.1
    ensures Join(AbsolutePath(group, key).value.0, AbsolutePath(group, key).value.1)
         == (if group == "/" then "/" + LStripSlash(key) else CurrentPath(group) + "/" + key)
  {
    if LastSlash(key) >= 0 {
      NestedKeyJoins(group, key);
    } else {
      assert KeyOf(key) == key;
      AbsolutePathOfName(group, key);
      if group == "/" {
        assert LStripSlash(key) == key;
      } else {
        assert CurrentPath(group) != "/";
      }
    }
  }

  /** `AbsolutePathJoins` for a key with a separator: the key is the prefix,
      a separator and the name. */
  lemma NestedKeyJoins(group: string, key: string)
    requires AbsolutePath(group, key).Success? && LastSlash(key) >= 0
    ensures AbsolutePath(group, key).value.1 == KeyOf(key)
    ensures Join(AbsolutePath(group, key).value.0, KeyOf(key))
         == (if group == "/" then "/" + LStripSlash(key) else CurrentPath(group) + "/" + key)
  {
    var prefix := key[..LastSlash(key)];
    SplitAtLastSlash(key);
    if group == "/" {
      assert AbsolutePath(group, key).value.0 == "/" + LStripSlash(prefix);
      RootJoin(prefix, KeyOf(key));
    } else {
      assert AbsolutePath(group, key).value.0 == CurrentPath(group) + "/" + prefix;
      assert |prefix| > 0 by { assert key[0] != '/'; }
      GroupJoin(CurrentPath(group), prefix, KeyOf(key));
    }
  }

  lemma SplitAtLastSlash(key: string)
    requires LastSlash(key) >= 0
    ensures key == key[..LastSlash(key)] + ("/" + KeyOf(key))
  {
  }

  lemma GroupJoin(current: string, prefix: string, name: string)
    requires |prefix| > 0
    ensures Join(current + "/" + prefix, name) == current + "/" + (prefix + ("/" + name))
  {
    assert |current + "/" + prefix| > 1;
  }

  lemma RootJoin(prefix: string, name: string)
    requires '/' !in name
    ensures Join("/" + LStripSlash(prefix), name) == "/" + LStripSlash(prefix + ("/" + name))
  {
    if |LStripSlash(prefix)| > 0 {
      LStripKeepsTail(prefix, "/" + name);
      assert Join("/" + LStripSlash(prefix), name) == "/" + LStripSlash(prefix) + ("/" + name);
    } else {
      assert "/" + LStripSlash(prefix) == "/";
      LStripAllSlashes(prefix, "/" + name);
      assert ("/" + name)[0] == '/' && ("/" + name)[1..] == name;
      assert |name| == 0 || name[0] != '/' by { if |name| > 0 { assert name[0] in name; } }
      assert LStripSlash("/" + name) == LStripSlash(name);
    }
  }

  /** A child path's parent is the path it was joined onto, and its key is
      the name it was joined with. */
  lemma JoinParent(path: string, name: string)
    requires IsAbsolute(path) && ValidName(name)
    ensures IsAbsolute(Join(path, name)) && Join(path, name) != "/"
    ensures Parent(Join(path, name)) == path
    ensures KeyOf(Join(path, name)) == name
  {
    if path == "/" {
      LastSlashOfJoin("", name);
      assert Join(path, name) == "" + "/" + name;
    } else {
      LastSlashOfJoin(path, name);
      assert (path + "/" + name)[..|path|] == path;
    }
  }

  // ---------------------------------------------------------------------------
  // The tree

  /** The root is a group, every other node has a valid name and its parent
      is a group. */
  predicate WellFormed(t: Tree) {
    && "/" in t && t["/"] == Group
    && forall k :: k in t && k != "/" ==>
         IsAbsolute(k) && ValidName(KeyOf(k)) && Parent(k) in t && t[Parent(k)].Group?
  }

  /** `t'` keeps every node of `t` and adds only groups. */
  predicate GrowsByGroups(t: Tree, t': Tree) {
    && (forall k :: k in t ==> k in t' && t'[k] == t[k])
    && (forall k :: k in t' && k !in t ==> t'[k] == Group)
  }

  /** A well-formed node's path has no trailing separator, so it is its own
      current path. */
  lemma CurrentPathOfNode(t: Tree, g: string)
    requires WellFormed(t) && g in t
    ensures CurrentPath(g) == g
  {
    if g != "/" {
      var name := KeyOf(g);
      assert g[|g| - 1] == name[|name| - 1];
    }
  }

  /** `k` is `p` itself or one of its ancestors. */
  predicate AncestorOrSelf(k: string, p: string) {
    k == p || IsDescendant(k, p)
  }

  /** Create the group at `p` and any missing ancestors (`createparents`):
      the only nodes added are `p` and ancestors of `p`, all of them groups. */
  function EnsureGroup(t: Tree, p: string): (r: Result<Tree>)
    requires WellFormed(t) && IsAbsolute(p)
    ensures r.Success? ==> WellFormed(r.value) && p in r.value && r.value[p] == Group
    ensures r.Success? ==> GrowsByGroups(t, r.value)
    ensures r.Success? ==> forall k :: k in r.value && k !in t ==> |k| <= |p|
    ensures r.Success? ==> forall k :: k in r.value && k !in t ==> AncestorOrSelf(k, p)
    ensures p in t && t[p] == Group ==> r == Success(t)
    decreases |p|
  {
    if p in t then
      if t[p].Group? then Success(t) else Failure(NodeError)
    else if !ValidName(KeyOf(p)) then Failure(ValueError)
    else
      var t' :- EnsureGroup(t, Parent(p));
      NewGroupsAbove(t, t', p);
      Success(t'[p := Group])
  }

  /** The step of `EnsureGroup`: ancestors of the parent, and the node
      itself, are ancestors of the node or the node. */
  lemma NewGroupsAbove(t: Tree, t': Tree, p: string)
    requires IsAbsolute(p) && p != "/" && "/" in t && WellFormed(t')
    requires forall k :: k in t' && k !in t ==> AncestorOrSelf(k, Parent(p))
    ensures forall k :: k in t'[p := Group] && k !in t ==> AncestorOrSelf(k, p)
  {
    forall k | k in t'[p := Group] && k !in t && k != p
      ensures IsDescendant(k, p)
    {
      assert k in t' && k != "/";
      DescendantOfParent(k, p);
    }
  }

  /** `createGroup(path, name, createparents=True)` */
  function CreateGroup(t: Tree, path: string, name: string): (r: Result<Tree>)
    requires WellFormed(t) && IsAbsolute(path)
    ensures !ValidName(name) ==> r == Failure(ValueError)
    ensures ValidName(name) && Join(path, name) in t ==> r == Failure(NodeError)
    ensures r.Success? ==> WellFormed(r.value) && GrowsByGroups(t, r.value)
    ensures r.Success? ==> Join(path, name) !in t && Join(path, name) in r.value && r.value[Join(path, name)] == Group
    ensures r.Success? ==> forall k :: k in r.value && k !in t ==> AncestorOrSelf(k, Join(path, name))
  {
    if !ValidName(name) then Failure(ValueError)
    else if Join(path, name) in t then Failure(NodeError)
    else
      JoinParent(path, name);
      EnsureGroup(t, Join(path, name))
  }

  /** `createArray(path, name, value, createparents=True)` */
  function CreateArray(t: Tree, path: string, name: string, v: Value): (r: Result<Tree>)
    requires WellFormed(t) && IsAbsolute(path)
    ensures !ValidName(name) ==> r == Failure(ValueError)
    ensures ValidName(name) && Join(path, name) in t ==> r == Failure(NodeError)
    ensures r.Success? ==> WellFormed(r.value)
    ensures r.Success? ==> Join(path, name) !in t && Join(path, name) in r.value && r.value[Join(path, name)] == Leaf(v)
    ensures r.Success? ==> forall k :: k in t ==> k in r.value && r.value[k] == t[k]
    ensures r.Success? ==> forall k :: k in r.value && k !in t && k != Join(path, name) ==> r.value[k] == Group
    ensures r.Success? ==> forall k :: k in r.value && k !in t && k != Join(path, name) ==> AncestorOrSelf(k, path)
  {
    if !ValidName(name) then Failure(ValueError)
    else if Join(path, name) in t then Failure(NodeError)
    else
      var t' :- EnsureGroup(t, path);
      JoinParent(path, name);
      Success(t'[Join(path, name) := Leaf(v)])
  }

  /** `d` lies strictly below `p`. */
  predicate IsDescendant(p: string, d: string) {
    |d| > |p| && d[..|p| + 1] == p + "/"
  }

  lemma ParentPrefix(k: string)
    requires IsAbsolute(k) && k != "/" && Parent(k) != "/"
    ensures IsDescendant(Parent(k), k)
  {
    var i := LastSlash(k);
    assert k[..i + 1] == k[..i] + "/";
  }

  lemma DescendantOfParent(p: string, k: string)
    requires IsAbsolute(k) && k != "/" && |p| > 0 && p != "/"
    requires Parent(k) == p || IsDescendant(p, Parent(k))
    ensures IsDescendant(p, k)
  {
    ParentPrefix(k);
    var q := Parent(k);
    if q != p {
      assert k[..|q| + 1][..|p| + 1] == k[..|p| + 1];
    }
  }

  /** `_f_remove(True)`: remove a node and everything below it. */
  function RemoveSubtree(t: Tree, p: string): (r: Result<Tree>)
    requires WellFormed(t)
    ensures p !in t ==> r == Failure(NoSuchNode)
    ensures p == "/" ==> r.Failure?
    ensures r.Success? ==> WellFormed(r.value)
    ensures r.Success? ==> forall k :: k in r.value <==> k in t && k != p && !IsDescendant(p, k)
    ensures r.Success? ==> forall k :: k in r.value ==> r.value[k] == t[k]
  {
    if p !in t then Failure(NoSuchNode)
    else if p == "/" then Failure(NodeError)
    else
      var t' := map k | k in t && k != p && !IsDescendant(p, k) :: t[k];
      assert WellFormed(t') by {
        forall k | k in t' && k != "/"
          ensures IsAbsolute(k) && ValidName(KeyOf(k)) && Parent(k) in t' && t'[Parent(k)].Group?
        {
          if Parent(k) == p || IsDescendant(p, Parent(k)) {
            DescendantOfParent(p, k);
          }
        }
      }
      Success(t')
  }

  /** The names directly below the group at `g` (`len(node)` counts them). */
  function Children(t: Tree, g: string): set<string> {
    set k | k in t && IsAbsolute(k) && k != "/" && Parent(k) == g
  }

  // ---------------------------------------------------------------------------
  // Writing a value, and tables as groups

  /** `isSequenceType`: sequences and strings are stored as they are. */
  predicate IsSequence(v: Value) { v.List? || v.Str? }

  /** `H5Node.__setitem__` on the tree: resolve the key, wrap a non-sequence
      value as a 1-tuple, and create the leaf (with missing parents). */
  function Assign(t: Tree, group: string, key: string, v: Value): (r: Result<Tree>)
    requires WellFormed(t) && IsAbsolute(group)
    ensures AbsolutePath(group, key).Failure? ==> r == Failure(AbsolutePath(group, key).error)
    ensures AbsolutePath(group, key).Success? && Join(AbsolutePath(group, key).value.0, AbsolutePath(group, key).value.1) in t ==> r.Failure?
    ensures r.Success? ==> WellFormed(r.value)
    ensures r.Success? ==> forall k :: k in t ==> k in r.value && r.value[k] == t[k]
    ensures r.Success? ==>
      var (path, name) := AbsolutePath(group, key).value;
      && Join(path, name) in r.value && r.value[Join(path, name)] == Leaf(if IsSequence(v) then v else List([v]))
      && forall k :: k in r.value && k !in t && k != Join(path, name) ==> r.value[k] == Group && AncestorOrSelf(k, path)
  {
    var pn :- AbsolutePath(group, key);
    var stored := if IsSequence(v) then v else List([v]);
    if IsAbsolute(pn.0) then CreateArray(t, pn.0, pn.1, stored) else Failure(ValueError)
  }

  /** A group whose leaves `data` and `fields` hold exactly these. */
  function EncodeMatrix(m: seq<seq<int>>): Value {
    List(seq(|m|, i requires 0 <= i < |m| => List(seq(|m[i]|, j requires 0 <= j < |m[i]| => Int(m[i][j])))))
  }

  function EncodeNames(fs: seq<string>): Value {
    List(seq(|fs|, i requires 0 <= i < |fs| => Str(fs[i])))
  }

  predicate IsIntRow(v: Value) {
    v.List? && forall j :: 0 <= j < |v.items| ==> v.items[j].Int?
  }

  function DecodeMatrix(v: Value): Option<seq<seq<int>>> {
    if v.List? && forall i :: 0 <= i < |v.items| ==> IsIntRow(v.items[i]) then
      Some(seq(|v.items|, i requires 0 <= i < |v.items| =>
        seq(|v.items[i].items|, j requires 0 <= j < |v.items[i].items| => v.items[i].items[j].i)))
    else None
  }

  function DecodeNames(v: Value): Option<seq<string>> {
    if v.List? && forall i :: 0 <= i < |v.items| ==> v.items[i].Str? then
      Some(seq(|v.items|, i requires 0 <= i < |v.items| => v.items[i].s))
    else None
  }

  /** Decoding undoes encoding. */
  lemma EncodingRoundTrip(m: seq<seq<int>>, fs: seq<string>)
    ensures DecodeMatrix(EncodeMatrix(m)) == Some(m)
    ensures DecodeNames(EncodeNames(fs)) == Some(fs)
  {
    var v := EncodeMatrix(m);
    assert forall i :: 0 <= i < |v.items| ==> IsIntRow(v.items[i]);
    var dm := DecodeMatrix(v).value;
    assert |dm| == |m|;
    forall i | 0 <= i < |m| ensures dm[i] == m[i] {
      assert |dm[i]| == |m[i]|;
    }
    assert dm == m;
    var w := EncodeNames(fs);
    assert forall i :: 0 <= i < |w.items| ==> w.items[i].Str?;
    assert DecodeNames(w).value == fs;
  }

  /** What `_get_item` makes of the node at `p`. */
  datatype Kind = LeafKind(value: Value) | TableKind | GroupKind

  function Classify(t: Tree, p: string): (k: Kind)
    requires p in t
    ensures k.LeafKind? <==> t[p].Leaf?
    ensures k.TableKind? <==> t[p].Group? && Join(p, "data") in t && Join(p, "fields") in t
  {
    if t[p].Leaf? then LeafKind(t[p].value)
    else if Join(p, "data") in t && Join(p, "fields") in t then TableKind
    else GroupKind
  }

  /** `Table(h5=node)`: read the `data` and `fields` leaves of the group. */
  function LoadTable(t: Tree, g: string): (r: Result<(seq<seq<int>>, seq<string>)>)
    ensures r.Success? ==> Rectangular(r.value.0, |r.value.1|)
  {
    var dataPath, fieldsPath := Join(CurrentPath(g), "data"), Join(CurrentPath(g), "fields");
    if dataPath !in t || fieldsPath !in t then Failure(NoSuchNode)
    else if !t[dataPath].Leaf? || !t[fieldsPath].Leaf? then Failure(TypeError)
    else
      var data := DecodeMatrix(t[dataPath].value);
      var fields := DecodeNames(t[fieldsPath].value);
      if data.None? || fields.None? then Failure(TypeError)
      else if !Rectangular(data.value, |fields.value|) then Failure(ShapeError)
      else Success((data.value, fields.value))
  }

  /** `Table.save(node)`: `node['data'] = data` followed by
      `node['fields'] = fields`. */
  function SaveTable(t: Tree, g: string, data: seq<seq<int>>, fields: seq<string>): (r: Result<Tree>)
    requires WellFormed(t) && IsAbsolute(g)
    ensures r.Success? ==> WellFormed(r.value)
  {
    var t1 :- Assign(t, g, "data", EncodeMatrix(data));
    Assign(t1, g, "fields", EncodeNames(fields))
  }

  /** Writing a non-sequence stores it wrapped in a one-element sequence; a
      sequence is stored as it is, at the path the key resolves to. */
  lemma AssignStores(t: Tree, g: string, key: string, v: Value)
    requires WellFormed(t) && g in t && t[g] == Group && ValidName(key)
    ensures Join(g, key) !in t ==> Assign(t, g, key, v).Success?
    ensures Join(g, key) in t ==> Assign(t, g, key, v) == Failure(NodeError)
    ensures Assign(t, g, key, v).Success? ==>
      Assign(t, g, key, v).value == t[Join(g, key) := Leaf(if IsSequence(v) then v else List([v]))]
  {
    AbsolutePathOfName(g, key);
    CurrentPathOfNode(t, g);
    var stored := if IsSequence(v) then v else List([v]);
    var r := Assign(t, g, key, v);
    if r.Success? {
      assert EnsureGroup(t, g) == Success(t);
      assert r.value == t[Join(g, key) := Leaf(stored)];
    }
  }

  /** Saving into a group without `data` and `fields` adds exactly those two
      leaves. */
  lemma SaveTableWrites(t: Tree, g: string, data: seq<seq<int>>, fields: seq<string>)
    requires WellFormed(t) && g in t && t[g] == Group
    requires Join(g, "data") !in t && Join(g, "fields") !in t
    ensures SaveTable(t, g, data, fields)
         == Success(t[Join(g, "data") := Leaf(EncodeMatrix(data))][Join(g, "fields") := Leaf(EncodeNames(fields))])
  {
    var d, f := EncodeMatrix(data), EncodeNames(fields);
    assert ValidName("data") && ValidName("fields");
    AssignStores(t, g, "data", d);
    var t1 := t[Join(g, "data") := Leaf(d)];
    assert Assign(t, g, "data", d) == Success(t1);
    assert Join(g, "fields") != Join(g, "data");
    assert WellFormed(t1) && g in t1 && t1[g] == Group && Join(g, "fields") !in t1;
    AssignStores(t1, g, "fields", f);
    assert Assign(t1, g, "fields", f) == Success(t1[Join(g, "fields") := Leaf(f)]);
  }

  /** Saving a table into a group that holds neither `data` nor `fields`
      succeeds, turns the group into a table group, and loading it back
      gives the same fields and data. */
  lemma SaveThenLoad(t: Tree, g: string, data: seq<seq<int>>, fields: seq<string>)
    requires WellFormed(t) && g in t && t[g] == Group
    requires Rectangular(data, |fields|)
    requires Join(g, "data") !in t && Join(g, "fields") !in t
    ensures SaveTable(t, g, data, fields).Success?
    ensures var t' := SaveTable(t, g, data, fields).value;
      && WellFormed(t') && g in t' && Classify(t', g) == TableKind
      && LoadTable(t', g) == Success((data, fields))
  {
    SaveTableWrites(t, g, data, fields);
    var t2 := t[Join(g, "data") := Leaf(EncodeMatrix(data))][Join(g, "fields") := Leaf(EncodeNames(fields))];
    assert Join(g, "fields") != Join(g, "data");
    CurrentPathOfNode(t, g);
    LoadEncoded(t2, g, data, fields);
  }

  lemma LoadEncoded(t: Tree, g: string, data: seq<seq<int>>, fields: seq<string>)
    requires CurrentPath(g) == g && Rectangular(data, |fields|)
    requires Join(g, "data") in t && t[Join(g, "data")] == Leaf(EncodeMatrix(data))
    requires Join(g, "fields") in t && t[Join(g, "fields")] == Leaf(EncodeNames(fields))
    ensures LoadTable(t, g) == Success((data, fields))
  {
    EncodingRoundTrip(data, fields);
  }

  /** Saving fails, before anything is written, when the group already holds
      a `data` node. */
  lemma SaveRefusesExistingData(t: Tree, g: string, data: seq<seq<int>>, fields: seq<string>)
    requires WellFormed(t) && g in t && t[g] == Group
    requires Join(g, "data") in t
    ensures SaveTable(t, g, data, fields) == Failure(NodeError)
  {
    AssignStores(t, g, "data", EncodeMatrix(data));
  }

  // ---------------------------------------------------------------------------
  // Reading a key

  /** `H5Node.__getitem__` on the tree: the resolved path, with the group
      created first when it is missing and auto-creation is on. */
  function Lookup(t: Tree, group: string, key: string, autoCreate: bool): (r: Result<(Tree, string)>)
    requires WellFormed(t)
    ensures r.Success? ==> WellFormed(r.value.0) && r.value.1 in r.value.0
    ensures r.Success? ==> GrowsByGroups(t, r.value.0)
  {
    var pn :- AbsolutePath(group, key);
    var target := Join(pn.0, pn.1);
    if target in t then Success((t, target))
    else if !autoCreate then Failure(NoSuchNode)
    else if !IsAbsolute(pn.0) then Failure(ValueError)
    else
      var t' :- CreateGroup(t, pn.0, pn.1);
      Success((t', target))
  }

  /** Without auto-creation a read never changes the store, and a missing
      node is reported as not found; with it, a missing node becomes an
      empty group. */
  lemma LookupCreatesOnlyWhenAllowed(t: Tree, g: string, key: string)
    requires WellFormed(t) && g in t && t[g] == Group && ValidName(key)
    ensures Lookup(t, g, key, false).Success? ==> Lookup(t, g, key, false).value == (t, Join(g, key))
    ensures Join(g, key) !in t ==> Lookup(t, g, key, false) == Failure(NoSuchNode)
    ensures Join(g, key) !in t ==>
      var r := Lookup(t, g, key, true);
      && r.Success? && r.value.1 == Join(g, key)
      && r.value.0 == t[Join(g, key) := Group]
  {
    AbsolutePathOfName(g, key);
    CurrentPathOfNode(t, g);
    if Join(g, key) !in t {
      JoinParent(g, key);
      assert EnsureGroup(t, Join(g, key)) == Success(t[Join(g, key) := Group]);
    }
  }

  /** `item in node` for a plain name: the child exists exactly when a read
      without auto-creation finds it. */
  lemma PresentIffFound(t: Tree, g: string, key: string)
    ensures WellFormed(t) && g in t && t[g] == Group && ValidName(key) ==>
      (Join(g, key) in t <==> Lookup(t, g, key, false).Success?)
  {
    if WellFormed(t) && g in t && t[g] == Group && ValidName(key) {
      LookupCreatesOnlyWhenAllowed(t, g, key);
    }
  }

  /** Writing a new plain key adds exactly one child to the group, so the
      group's length grows by one. */
  lemma AssignAddsChild(t: Tree, g: string, key: string, v: Value)
    requires WellFormed(t) && g in t && t[g] == Group && ValidName(key) && Join(g, key) !in t
    ensures Assign(t, g, key, v).Success?
    ensures Children(Assign(t, g, key, v).value, g) == Children(t, g) + {Join(g, key)}
    ensures |Children(Assign(t, g, key, v).value, g)| == |Children(t, g)| + 1
  {
    AssignStores(t, g, key, v);
    assert IsAbsolute(g);
    JoinParent(g, key);
    ChildrenAfterInsert(t, g, Join(g, key), Leaf(if IsSequence(v) then v else List([v])));
  }

  lemma ChildrenAfterInsert(t: Tree, g: string, c: string, e: Entry)
    requires IsAbsolute(c) && c != "/" && Parent(c) == g && c !in t
    ensures Children(t[c := e], g) == Children(t, g) + {c}
    ensures c !in Children(t, g)
  {
  }
}
