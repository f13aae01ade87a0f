/** The mount tree (src/vfs.c:78-203, 289-303, 447-550): nodes with a name, a file and a list of children, walked by
    component. A node is named by its place in `nodes`. */
module Vfs {
  import opened Machine
  import opened MountMap

  /** vfs_entry_s and the children of its gtreenode_s. */
  datatype Node = Node(name: string, file: Option<File>, children: seq<nat>)

  predicate Unlike(paths: seq<Path>, i: nat, j: nat) {
    i < j < |paths| ==> paths[i] != paths[j]
  }

  /** Child number `x` of node `i` is a later node, one component further down. */
  predicate ChildFits(nodes: seq<Node>, paths: seq<Path>, i: nat, x: nat) {
    i < |nodes| == |paths| && x < |nodes[i].children| ==>
      var c := nodes[i].children[x];
      i < c < |nodes| && paths[c] == paths[i] + [nodes[c].name]
  }

  predicate HangsOn(nodes: seq<Node>, paths: seq<Path>, i: nat, j: nat) {
    i < j < |nodes| == |paths| && paths[j] == paths[i] + [nodes[j].name] && j in nodes[i].children
  }

  ghost predicate HasParent(nodes: seq<Node>, paths: seq<Path>, j: nat) {
    0 < j < |nodes| ==> exists i: nat :: HangsOn(nodes, paths, i, j)
  }

  /** `paths` gives every node its path from the root; no two nodes have the same. */
  ghost predicate Shape(nodes: seq<Node>, paths: seq<Path>) {
    && |nodes| == |paths| > 0 && paths[0] == []
    && (forall i: nat, j: nat :: Unlike(paths, i, j))
    && (forall i: nat, x: nat :: ChildFits(nodes, paths, i, x)) && (forall j: nat :: HasParent(nodes, paths, j))
  }

  /** The path map that the tree stands for. */
  function TreeOf(nodes: seq<Node>, paths: seq<Path>): Tree
    requires |nodes| == |paths|
  {
    map q | q in paths :: nodes[Place(paths, q)].file
  }

  lemma TreeAt(nodes: seq<Node>, paths: seq<Path>, i: nat)
    requires Shape(nodes, paths) && i < |nodes|
    ensures paths[i] in TreeOf(nodes, paths) && TreeOf(nodes, paths)[paths[i]] == nodes[i].file
  {
    var j := Place(paths, paths[i]);
    assert Unlike(paths, i, j) && Unlike(paths, j, i);
  }

  /** Sibling names are unique. */
  lemma SiblingsDiffer(nodes: seq<Node>, paths: seq<Path>, i: nat, c: nat, d: nat)
    requires Shape(nodes, paths) && i < |nodes| && c in nodes[i].children && d in nodes[i].children && c != d
    ensures c < |nodes| && d < |nodes| && nodes[c].name != nodes[d].name
  {
    var x :| 0 <= x < |nodes[i].children| && nodes[i].children[x] == c;
    var y :| 0 <= y < |nodes[i].children| && nodes[i].children[y] == d;
    assert ChildFits(nodes, paths, i, x) && ChildFits(nodes, paths, i, y);
    assert Unlike(paths, c, d) && Unlike(paths, d, c);
  }

  /** A node one component below node `i` is one of its children. */
  lemma ChildListed(nodes: seq<Node>, paths: seq<Path>, i: nat, tok: string)
    requires Shape(nodes, paths) && i < |nodes| && paths[i] + [tok] in paths
    ensures exists x ::
      0 <= x < |nodes[i].children| && nodes[i].children[x] < |nodes| && nodes[nodes[i].children[x]].name == tok
  {
    var j := Place(paths, paths[i] + [tok]);
    assert HasParent(nodes, paths, j);
    var p: nat :| HangsOn(nodes, paths, p, j);
    assert paths[p] == paths[j][..|paths[j]| - 1] == paths[i];
    assert Unlike(paths, i, p) && Unlike(paths, p, i);
    assert j in nodes[i].children;
  }

  lemma {:induction false} ShapeClosed(nodes: seq<Node>, paths: seq<Path>, j: nat, k: nat)
    requires Shape(nodes, paths) && j < |nodes| && k <= |paths[j]|
    ensures paths[j][..k] in paths
    decreases j
  {
    if k < |paths[j]| {
      assert HasParent(nodes, paths, j);
      var i: nat :| HangsOn(nodes, paths, i, j);
      ShapeClosed(nodes, paths, i, k);
      assert paths[j][..k] == paths[i][..k];
    } else {
      assert paths[j][..k] == paths[j];
    }
  }

  lemma TreeClosed(nodes: seq<Node>, paths: seq<Path>)
    requires Shape(nodes, paths)
    ensures PrefixClosed(TreeOf(nodes, paths))
  {
    var t := TreeOf(nodes, paths);
    forall p: Path, k: nat | p in t ensures PrefixIn(t, p, k) {
      if k <= |p| {
        ShapeClosed(nodes, paths, Place(paths, p), k);
      }
    }
    assert paths[0] in paths;
  }

  // ---- changing the tree ----------------------------------------------------------------------------------

  /** The nodes after tree_insert of a new node below node `i`. */
  function WithChild(nodes: seq<Node>, i: nat, tok: string): seq<Node>
    requires i < |nodes|
  {
    nodes[i := nodes[i].(children := [|nodes|] + nodes[i].children)] + [Node(tok, None, [])]
  }

  lemma WithChildShape(nodes: seq<Node>, paths: seq<Path>, i: nat, tok: string)
    requires Shape(nodes, paths) && i < |nodes| && paths[i] + [tok] !in paths
    ensures Shape(WithChild(nodes, i, tok), paths + [paths[i] + [tok]])
  {
    var n, nodes', paths' := |nodes|, WithChild(nodes, i, tok), paths + [paths[i] + [tok]];
    forall a: nat, b: nat ensures Unlike(paths', a, b) {
      assert Unlike(paths, a, b);
    }
    forall a: nat, x: nat ensures ChildFits(nodes', paths', a, x) {
      if a == i && x > 0 {
        assert ChildFits(nodes, paths, i, x - 1);
      } else {
        assert ChildFits(nodes, paths, a, x);
      }
    }
    forall j: nat ensures HasParent(nodes', paths', j) {
      if j == n {
        assert nodes'[i].children[0] == n;
        assert HangsOn(nodes', paths', i, j);
      } else if 0 < j < n {
        assert HasParent(nodes, paths, j);
        var a: nat :| HangsOn(nodes, paths, a, j);
        assert HangsOn(nodes', paths', a, j);
      }
    }
  }

  lemma WithChildTree(nodes: seq<Node>, paths: seq<Path>, i: nat, tok: string)
    requires Shape(nodes, paths) && i < |nodes| && paths[i] + [tok] !in paths
    ensures TreeOf(WithChild(nodes, i, tok), paths + [paths[i] + [tok]])
            == TreeOf(nodes, paths)[paths[i] + [tok] := None]
  {
    var q := paths[i] + [tok];
    var nodes', paths' := WithChild(nodes, i, tok), paths + [q];
    WithChildShape(nodes, paths, i, tok);
    var t', t := TreeOf(nodes', paths'), TreeOf(nodes, paths)[q := None];
    assert paths'[|paths|] == q;
    forall p | p in t' ensures p in t && t'[p] == t[p] {
      var j := Place(paths', p);
      TreeAt(nodes', paths', j);
      if j < |paths| {
        TreeAt(nodes, paths, j);
      }
    }
    forall p | p in t ensures p in t' {
      if p in paths {
        assert paths'[Place(paths, p)] == p;
      }
    }
  }

  lemma FileShape(nodes: seq<Node>, paths: seq<Path>, i: nat, f: Option<File>)
    requires Shape(nodes, paths) && i < |nodes|
    ensures Shape(nodes[i := nodes[i].(file := f)], paths)
    ensures TreeOf(nodes[i := nodes[i].(file := f)], paths) == TreeOf(nodes, paths)[paths[i] := f]
  {
    var nodes' := nodes[i := nodes[i].(file := f)];
    forall a: nat, x: nat ensures ChildFits(nodes', paths, a, x) {
      assert ChildFits(nodes, paths, a, x);
    }
    forall j: nat ensures HasParent(nodes', paths, j) {
      assert HasParent(nodes, paths, j);
      if 0 < j < |nodes| {
        var a: nat :| HangsOn(nodes, paths, a, j);
        assert HangsOn(nodes', paths, a, j);
      }
    }
    forall p | p in paths ensures TreeOf(nodes', paths)[p] == TreeOf(nodes, paths)[paths[i] := f][p] {
      var j := Place(paths, p);
      TreeAt(nodes', paths, j);
      TreeAt(nodes, paths, j);
      assert Unlike(paths, i, j) && Unlike(paths, j, i);
    }
  }

  /** A node that was made on the way does not change what the mount comes to. */
  lemma MakeThenMount(t: Tree, q: Path, p: Path, fs: File)
    requires PrefixClosed(t) && IsPrefix(q, p) && q !in t
    ensures Mounted(t[q := None], p, fs) == Mounted(t, p, fs)
  {
    Shorter(t, p, |q|, |p|);
    assert p[..|p|] == p;
    assert !Taken(t, p) && !Taken(t[q := None], p);
    assert t[q := None].Keys + Prefixes(p) == t.Keys + Prefixes(p);
  }

  /** At the end of the path: the node is there already. */
  lemma MountHere(t: Tree, p: Path, fs: File)
    requires PrefixClosed(t) && p in t && !Taken(t, p)
    ensures Mounted(t, p, fs) == t[p := Some(fs)]
  {
    forall q | IsPrefix(q, p) ensures q in t {
      assert PrefixIn(t, p, |q|);
    }
    assert IsPrefix(p, p);
    assert t.Keys + Prefixes(p) == t.Keys;
  }

  /** The components in front of the first empty one: strsep's empty token ends a walk. */
  function Trim(path: Path): (r: Path)
    ensures |r| <= |path| && r == path[..|r|]
    ensures (forall k :: 0 <= k < |path| ==> path[k] != "") ==> r == path
    ensures forall k :: 0 <= k < |r| ==> r[k] != ""
  {
    if path == [] || path[0] == "" then [] else [path[0]] + Trim(path[1..])
  }

  lemma AppendStep(p: Path, x: string, rest: Path)
    ensures p + ([x] + rest) == (p + [x]) + rest && IsPrefix(p + [x], p + ([x] + rest))
  {
    assert (p + ([x] + rest))[..|p| + 1] == p + [x];
  }

  lemma TrimStep(p: Path, path: Path)
    requires path != [] && path[0] != ""
    ensures p + Trim(path) == (p + [path[0]]) + Trim(path[1..]) && IsPrefix(p + [path[0]], p + Trim(path))
  {
    AppendStep(p, path[0], Trim(path[1..]));
  }

  /** An empty component that ends a walk is dropped. */
  function Gap(path: Path, matched: Path): nat {
    if |matched| == |Trim(path)| < |path| then 1 else 0
  }

  /** The split of `path` below the node path `p`: `matched` has a node, and none goes one component further. */
  predicate Splits(t: Tree, p: Path, path: Path, matched: Path, rest: Path) {
    && matched <= Trim(path) && p + matched in t && Lookup(t, p + Trim(path)).rest == Trim(path)[|matched|..]
    && |matched| + Gap(path, matched) <= |path| && rest == path[|matched| + Gap(path, matched)..]
  }

  /** Matched components, the empty component that ended the walk if there was one, and remainder are the path. */
  lemma SplitWhole(t: Tree, p: Path, path: Path, matched: Path, rest: Path)
    requires Splits(t, p, path, matched, rest)
    ensures path == matched + (if Gap(path, matched) == 1 then [""] else []) + rest
  {
    TrimEnds(path);
    assert path[..|matched|] == matched;
  }

  /** An empty component and what is behind it make no difference to the walk. */
  lemma {:induction false} TrimMore(path: Path, more: Path)
    requires forall k :: 0 <= k < |path| ==> path[k] != ""
    ensures Trim(path + [""] + more) == path
  {
    if path != [] {
      assert (path + [""] + more)[1..] == path[1..] + [""] + more;
      TrimMore(path[1..], more);
    } else {
      assert (path + [""] + more)[0] == "";
    }
  }

  lemma {:induction false} TrimEnds(path: Path)
    ensures |Trim(path)| < |path| ==> path[|Trim(path)|] == ""
  {
    if path != [] && path[0] != "" {
      TrimEnds(path[1..]);
    }
  }

  class MountTree {
    var nodes: seq<Node>
    var vfsRoot: Option<File>
    ghost var paths: seq<Path>

    ghost predicate Valid()
      reads this
    {
      (if Shape(nodes, paths) then Clean else Corrupt).Clean? && |nodes| == |paths|
    }

    ghost function Mounts(): Tree
      reads this
      requires Valid()
    {
      TreeOf(nodes, paths)
    }

    constructor ()
      ensures Valid() && Mounts() == map[[] := None] && vfsRoot == None
    {
      nodes := [Node("/", None, [])];
      paths := [[]];
      vfsRoot := None;
      new;
      assert Shape(nodes, paths);
    }

    /** The loop over the children of a node. */
    method FindChild(subroot: nat, token: string) returns (found: bool, child: nat)
      requires Valid() && subroot < |nodes|
      ensures found <==> paths[subroot] + [token] in paths
      ensures found ==> child < |nodes| && paths[child] == paths[subroot] + [token]
    {
      var x := 0;
      found, child := false, 0;
      while x < |nodes[subroot].children|
        invariant 0 <= x <= |nodes[subroot].children|
        invariant forall y :: 0 <= y < x ==>
          nodes[subroot].children[y] < |nodes| && nodes[nodes[subroot].children[y]].name != token
      {
        assert ChildFits(nodes, paths, subroot, x);
        child := nodes[subroot].children[x];
        if nodes[child].name == token {
          found := true;
          return;
        }
        x := x + 1;
      }
      if paths[subroot] + [token] in paths {
        ChildListed(nodes, paths, subroot, token);
      }
    }

    /** tree_insert */
    method TreeInsert(subroot: nat, name: string) returns (child: nat)
      requires Valid() && subroot < |nodes| && paths[subroot] + [name] !in paths
      modifies this`nodes, this`paths
      ensures Valid() && child < |nodes| && paths[child] == old(paths[subroot]) + [name]
      ensures Mounts() == old(Mounts())[old(paths[subroot]) + [name] := None] && |nodes| == old(|nodes|) + 1
    {
      WithChildShape(nodes, paths, subroot, name);
      WithChildTree(nodes, paths, subroot, name);
      child := |nodes|;
      paths := paths + [paths[subroot] + [name]];
      nodes := nodes[subroot := nodes[subroot].(children := [child] + nodes[subroot].children)] + [Node(name, None,
        [])];
    }

    /** vfs_mount_recur below node `subroot` */
    method MountRecur(path: Path, subroot: nat, fs: File)
      requires Valid() && subroot < |nodes|
      modifies this
      ensures Valid() && Mounts() == Mounted(old(Mounts()), old(paths[subroot]) + Trim(path), fs)
      ensures vfsRoot == if old(paths[subroot]) + Trim(path) == [] && !Taken(old(Mounts()), []) then Some(fs)
              else old(vfsRoot)
      decreases |path|
    {
      ghost var p, t := paths[subroot], Mounts();
      TreeClosed(nodes, paths);
      TreeAt(nodes, paths, subroot);
      if path == [] || path[0] == "" {
        assert p + [] == p;
        if nodes[subroot].file.Some? {
          return;
        }
        MountHere(t, p, fs);
        FileShape(nodes, paths, subroot, Some(fs));
        RootOnly(nodes, paths, subroot);
        if subroot == 0 {
          vfsRoot := Some(fs);
        }
        nodes := nodes[subroot := nodes[subroot].(file := Some(fs))];
        return;
      }
      TrimStep(p, path);
      var found, child := FindChild(subroot, path[0]);
      if !found {
        MakeThenMount(t, p + [path[0]], p + Trim(path), fs);
        child := TreeInsert(subroot, path[0]);
      }
      MountRecur(path[1..], child, fs);
    }

    /** vfs_mount of `/` followed by `path`. */
    method Mount(path: Path, fs: File)
      requires Valid()
      modifies this
      ensures Valid() && Mounts() == Mounted(old(Mounts()), Trim(path), fs)
      ensures vfsRoot == if Trim(path) == [] && !Taken(old(Mounts()), []) then Some(fs) else old(vfsRoot)
    {
      assert [] + Trim(path) == Trim(path);
      MountRecur(path, 0, fs);
    }

    /** get_mountpoint_recur below node `subroot` */
    method GetMountpointRecur(path: Path, subroot: nat) returns (file: Option<File>, rest: Path, ghost matched: Path)
      requires Valid() && subroot < |nodes|
      ensures file == Lookup(Mounts(), paths[subroot] + Trim(path)).file
      ensures Splits(Mounts(), paths[subroot], path, matched, rest)
      decreases |path|
    {
      ghost var p, t := paths[subroot], Mounts();
      TreeClosed(nodes, paths);
      TreeAt(nodes, paths, subroot);
      if path == [] || path[0] == "" {
        assert p + [] == p;
        LookupAt(t, p, []);
        EndsHere(t, p, path);
        return nodes[subroot].file, if path == [] then [] else path[1..], [];
      }
      TrimStep(p, path);
      var found, child := FindChild(subroot, path[0]);
      if !found {
        LookupAt(t, p, Trim(path));
        assert p + [] == p;
        return nodes[subroot].file, path, [];
      }
      AppendStep(p, path[0], path[1..]);
      file, rest, matched := GetMountpointRecur(path[1..], child);
      SplitStep(t, p, path, matched, rest);
      matched := [path[0]] + matched;
    }

    /** get_mountpoint of `/` followed by `path`: the file of the deepest node on the way, and what file_open still has
        to walk. */
    method GetMountpoint(path: Path) returns (file: Option<File>, rest: Path, ghost matched: Path)
      requires Valid()
      ensures file == Lookup(Mounts(), Trim(path)).file
      ensures Splits(Mounts(), [], path, matched, rest)
    {
      assert [] + Trim(path) == Trim(path);
      file, rest, matched := GetMountpointRecur(path, 0);
    }

    /** The walk of file_open from `startpoint`: 256 components at most. */
    method WalkRest(startpoint: File, newStart: Path, find: Finddir) returns (node: Option<File>)
      ensures node == if |newStart| <= 256 then Resolve(find, startpoint, newStart) else None
    {
      var curr := startpoint;
      var i := 0;
      while i < |newStart|
        invariant 0 <= i <= |newStart| && i <= 256
                  && Resolve(find, curr, newStart[i..]) == Resolve(find, startpoint, newStart)
      {
        assert newStart[i..][0] == newStart[i] && newStart[i..][1..] == newStart[i + 1..];
        var nextnode := find(curr, newStart[i]);
        if nextnode == None || i >= 1024 / 4 {
          return None;
        }
        curr := nextnode.value;
        i := i + 1;
      }
      return Some(curr);
    }

    /** file_open: the remainder that get_mountpoint leaves is walked inside the file system found. */
    method FileOpen(path: Path, find: Finddir) returns (node: Option<File>, ghost matched: Path, ghost rest: Path)
      requires Valid()
      ensures Splits(Mounts(), [], path, matched, rest)
      ensures node == match Lookup(Mounts(), Trim(path)).file
                case None => None
                case Some(f) => if |rest| <= 256 then Resolve(find, f, rest) else None
      ensures Trim(path) == path && |path| <= 256 ==> node == Opened(Mounts(), find, path)
      ensures var start := Lookup(Mounts(), Trim(path)).file;
        && (forall g: File :: node == Some(g) <==> start.Some? && |rest| <= 256 && Reaches(find, start.value, rest, g))
        && (node == None <==>
              start == None || |rest| > 256 || forall g: File :: !Reaches(find, start.value, rest, g))
    {
      var startpoint, newStart;
      startpoint, newStart, matched := GetMountpoint(path);
      rest := newStart;
      PlainSplit(Mounts(), path, matched, rest);
      if startpoint == None {
        return None, matched, rest;
      }
      node := WalkRest(startpoint.value, newStart, find);
      ResolveMeans(find, startpoint.value, rest);
    }
  }

  /** Without empty components the remainder is the lookup's. */
  lemma PlainSplit(t: Tree, path: Path, matched: Path, rest: Path)
    requires Splits(t, [], path, matched, rest)
    ensures Trim(path) == path ==> Lookup(t, path).rest == rest && |rest| <= |path|
  {
    assert [] + Trim(path) == Trim(path);
  }

  /** A walk that ends on the node at `p`, at the end of the path or at an empty component. */
  lemma EndsHere(t: Tree, p: Path, path: Path)
    requires Trim(path) == [] && p in t && Lookup(t, p) == Found(t[p], [])
    ensures Splits(t, p, path, [], if path == [] then [] else path[1..])
  {
    assert p + [] == p;
  }

  /** One component more in front. */
  lemma SplitStep(t: Tree, p: Path, path: Path, matched: Path, rest: Path)
    requires path != [] && path[0] != "" && Splits(t, p + [path[0]], path[1..], matched, rest)
    ensures Splits(t, p, path, [path[0]] + matched, rest)
  {
    var m, n := [path[0]] + matched, |matched|;
    TrimStep(p, path);
    assert p + m == (p + [path[0]]) + matched;
    assert Trim(path) == [path[0]] + Trim(path[1..]) && m <= Trim(path);
    assert Trim(path)[n + 1..] == Trim(path[1..])[n..];
  }

  /** Only the root has the empty path. */
  lemma RootOnly(nodes: seq<Node>, paths: seq<Path>, i: nat)
    requires Shape(nodes, paths) && i < |nodes|
    ensures paths[i] == [] <==> i == 0
  {
    assert Unlike(paths, 0, i);
  }

  /** A walk that has come to node path `p` and finds no node for the next component. */
  lemma LookupAt(t: Tree, p: Path, rest: Path)
    requires PrefixClosed(t) && p in t && (rest != [] ==> p + [rest[0]] !in t)
    ensures Lookup(t, p + rest) == Found(t[p], rest)
  {
    assert (p + rest)[..|p|] == p;
    assert rest != [] ==> (p + rest)[..|p| + 1] == p + [rest[0]];
    DeepestUnique(t, p + rest, |p|);
  }
}
