/** What mounting means: a map from paths to files (src/vfs.c:78-203, 447-550). A path is the sequence of its
    components; the map knows every path that has a node in the tree, with the file mounted there, if any. */
module MountMap {
  import opened Machine

  datatype Option<T> = None | Some(value: T)

  type Path = seq<string>
  type File = nat
  type Tree = map<Path, Option<File>>

  predicate PrefixIn(t: Tree, p: Path, k: nat) {
    k <= |p| ==> p[..k] in t
  }

  /** Every path in the tree comes with all its prefixes. */
  ghost predicate PrefixClosed(t: Tree) {
    [] in t && forall p: Path, k: nat :: p in t ==> PrefixIn(t, p, k)
  }

  /** How many components of `q` have nodes, counting on from `k`. */
  function Deepest(t: Tree, q: Path, k: nat): (r: nat)
    requires k <= |q|
    ensures k <= r <= |q|
    decreases |q| - k
  {
    if k < |q| && q[..k + 1] in t then Deepest(t, q, k + 1) else k
  }

  lemma {:induction false} DeepestIs(t: Tree, q: Path, k: nat)
    requires k <= |q| && q[..k] in t
    ensures var r := Deepest(t, q, k);
      q[..r] in t && (r < |q| ==> q[..r + 1] !in t) && forall j :: k <= j <= r ==> q[..j] in t
    decreases |q| - k
  {
    if k < |q| && q[..k + 1] in t {
      DeepestIs(t, q, k + 1);
    }
  }

  lemma Shorter(t: Tree, q: Path, j: nat, k: nat)
    requires PrefixClosed(t)
    ensures j <= k <= |q| && q[..k] in t ==> q[..j] in t
  {
    if j <= k <= |q| && q[..k] in t {
      assert PrefixIn(t, q[..k], j) && q[..k][..j] == q[..j];
    }
  }

  /** The longest prefix of `q` in the tree is unique. */
  lemma DeepestUnique(t: Tree, q: Path, k: nat)
    requires PrefixClosed(t) && k <= |q| && q[..k] in t && (k < |q| ==> q[..k + 1] !in t)
    ensures Deepest(t, q, 0) == k
  {
    DeepestIs(t, q, 0);
    var r := Deepest(t, q, 0);
    Shorter(t, q, r + 1, k);
    Shorter(t, q, k + 1, r);
  }

  /** get_mountpoint: the file of the deepest node on the way, and the components behind it. */
  datatype Found = Found(file: Option<File>, rest: Path)

  function Lookup(t: Tree, q: Path): Found {
    var k := Deepest(t, q, 0);
    Found(if q[..k] in t then t[q[..k]] else None, q[k..])
  }

  /** Of all the ways to split a path into a node and a remainder, a lookup finds the one at which no node goes one
      component further. */
  lemma LookupSplits(t: Tree, p: Path, rest: Path)
    requires PrefixClosed(t) && p in t
    ensures Lookup(t, p + rest) == Found(t[p], rest) <==> (rest != [] ==> p + [rest[0]] !in t)
  {
    var q := p + rest;
    assert q[..|p|] == p && q[|p|..] == rest && q[..0] == [];
    assert rest != [] ==> q[..|p| + 1] == p + [rest[0]];
    DeepestIs(t, q, 0);
    if rest != [] ==> p + [rest[0]] !in t {
      DeepestUnique(t, q, |p|);
    }
    if Lookup(t, q).rest == rest {
      assert |q[Deepest(t, q, 0)..]| == |rest|;
    }
  }

  predicate IsPrefix(p: Path, q: Path) {
    |p| <= |q| && q[..|p|] == p
  }

  /** Something is mounted at `p` already. */
  predicate Taken(t: Tree, p: Path) {
    p in t && t[p].Some?
  }

  /** The tree after vfs_mount: nodes appear along the whole path, without a file on the way. */
  function Mounted(t: Tree, p: Path, fs: File): Tree {
    if Taken(t, p) then t
    else (map q | q in t.Keys + Prefixes(p) :: if q == p then Some(fs) else if q in t then t[q] else None)
  }

  function Prefixes(p: Path): (r: set<Path>)
    ensures forall q :: q in r <==> IsPrefix(q, p)
  {
    var r := set k | 0 <= k <= |p| :: p[..k];
    assert forall q :: IsPrefix(q, p) ==> q == p[..|q|];
    r
  }

  lemma MountedClosed(t: Tree, p: Path, fs: File)
    requires PrefixClosed(t)
    ensures PrefixClosed(Mounted(t, p, fs))
  {
    var t' := Mounted(t, p, fs);
    assert IsPrefix([], p);
    forall q: Path, k: nat | q in t' ensures PrefixIn(t', q, k) {
      if k <= |q| {
        if q in t {
          assert PrefixIn(t, q, k);
        } else if !Taken(t, p) {
          assert IsPrefix(q, p) && q[..k] == p[..k];
          assert IsPrefix(q[..k], p);
        }
      }
    }
  }

  /** A taken path changes nothing; otherwise the path gets the file, and every other node keeps its own. */
  lemma MountedNodes(t: Tree, p: Path, fs: File, q: Path)
    ensures Taken(t, p) ==> Mounted(t, p, fs) == t
    ensures !Taken(t, p) ==> p in Mounted(t, p, fs) && Mounted(t, p, fs)[p] == Some(fs)
    ensures q in t && q != p ==> q in Mounted(t, p, fs) && Mounted(t, p, fs)[q] == t[q]
    ensures q !in t && q in Mounted(t, p, fs) ==> IsPrefix(q, p)
  {
    assert IsPrefix(p, p);
  }

  /** Mounting on a free path makes get_mountpoint of it return the file, with nothing left over. */
  lemma MountThenLookup(t: Tree, p: Path, fs: File)
    requires PrefixClosed(t) && !Taken(t, p)
    ensures Lookup(Mounted(t, p, fs), p) == Found(Some(fs), [])
  {
    MountedClosed(t, p, fs);
    MountedNodes(t, p, fs, p);
    assert p[..|p|] == p;
    DeepestUnique(Mounted(t, p, fs), p, |p|);
  }

  /** The number of leading components two paths share. */
  function Common(p: Path, q: Path): (k: nat)
    ensures k <= |p| && k <= |q|
  {
    if p == [] || q == [] || p[0] != q[0] then 0 else 1 + Common(p[1..], q[1..])
  }

  lemma {:induction false} CommonIs(p: Path, q: Path, k: nat)
    requires k <= |q|
    ensures k <= Common(p, q) <==> IsPrefix(q[..k], p)
  {
    if k > 0 {
      if p != [] && p[0] == q[0] {
        CommonIs(p[1..], q[1..], k - 1);
        assert q[1..][..k - 1] == q[..k][1..];
        assert p[1..][..if k - 1 <= |p| - 1 then k - 1 else 0] == p[..if k <= |p| then k else 1][1..];
        assert IsPrefix(q[..k], p) <==> IsPrefix(q[..k][1..], p[1..]) by {
          if k <= |p| {
            assert p[..k] == [p[0]] + p[..k][1..] && q[..k] == [q[0]] + q[..k][1..];
            assert p[..k][1..] == p[1..][..k - 1];
          }
        }
      } else {
        assert q[..k][0] == q[0] && (k <= |p| ==> p[..k][0] == p[0]);
      }
    }
  }

  /** How deep a lookup gets after a mount. */
  lemma DeepestMounted(t: Tree, p: Path, fs: File, q: Path)
    requires PrefixClosed(t) && !Taken(t, p)
    ensures Deepest(Mounted(t, p, fs), q, 0) == Max(Deepest(t, q, 0), Common(p, q))
  {
    var t', m, c := Mounted(t, p, fs), Deepest(t, q, 0), Common(p, q);
    assert q[..0] == [];
    MountedClosed(t, p, fs);
    DeepestIs(t, q, 0);
    CommonIs(p, q, c);
    var k: nat := if m >= c then m else c;
    CommonIs(p, q, k);
    if k < |q| {
      CommonIs(p, q, k + 1);
      NoDeeper(t, q, k);
    }
    DeepestUnique(t', q, k);
  }

  lemma NoDeeper(t: Tree, q: Path, k: nat)
    requires PrefixClosed(t) && Deepest(t, q, 0) <= k < |q|
    ensures q[..k + 1] !in t
  {
    assert q[..0] == [];
    DeepestIs(t, q, 0);
    var r := Deepest(t, q, 0);
    Shorter(t, q, r + 1, k + 1);
  }

  /** A mount changes what another path finds exactly if the path goes along with the mounted one beyond the nodes there
      were, or had found the very node that got the file. In the first case it now finds an intermediate node, which has
      no file, or the new file. */
  lemma LookupChanges(t: Tree, p: Path, fs: File, q: Path)
    requires PrefixClosed(t) && !Taken(t, p)
    ensures Lookup(Mounted(t, p, fs), q) != Lookup(t, q)
      <==> Common(p, q) > Deepest(t, q, 0) || q[..Deepest(t, q, 0)] == p
    ensures Common(p, q) > Deepest(t, q, 0) ==>
      Lookup(Mounted(t, p, fs), q) == Found(if Common(p, q) == |p| then Some(fs) else None, q[Common(p, q)..])
  {
    var t', m, c := Mounted(t, p, fs), Deepest(t, q, 0), Common(p, q);
    assert q[..0] == [];
    DeepestIs(t, q, 0);
    DeepestMounted(t, p, fs, q);
    CommonIs(p, q, c);
    MountedNodes(t, p, fs, q[..m]);
    if c > m {
      assert |q[c..]| < |q[m..]|;
      NoDeeper(t, q, c - 1);
      assert q[..c] !in t && IsPrefix(q[..c], p);
      assert c == |p| <==> q[..c] == p;
    }
  }

  // ---- opening a file ------------------------------------------------------------------------------------

  /** What a file system finds below a directory, None if the file is no directory or has no such entry. */
  type Finddir = (File, string) -> Option<File>

  /** The file at `comps` below `f`, component by component. */
  function Resolve(find: Finddir, f: File, comps: Path): Option<File>
    decreases comps
  {
    if comps == [] then Some(f)
    else match find(f, comps[0])
      case None => None
      case Some(next) => Resolve(find, next, comps[1..])
  }

  /** The files `c` lead from `f` along `comps` to `g`, each found in the one before it. */
  ghost predicate Leads(find: Finddir, c: seq<File>, f: File, comps: Path, g: File) {
    && |c| == |comps| + 1 && c[0] == f && c[|comps|] == g
    && forall i :: 0 <= i < |comps| ==> find(c[i], comps[i]) == Some(c[i + 1])
  }

  ghost predicate Reaches(find: Finddir, f: File, comps: Path, g: File) {
    exists c: seq<File> :: Leads(find, c, f, comps, g)
  }

  /** The walk finds exactly the file that such a chain leads to. */
  lemma {:induction false} ResolveExact(find: Finddir, f: File, comps: Path, g: File)
    ensures Resolve(find, f, comps) == Some(g) <==> Reaches(find, f, comps, g)
    decreases |comps|
  {
    if comps == [] {
      assert f == g ==> Leads(find, [f], f, [], g);
    } else {
      var rest, next := comps[1..], find(f, comps[0]);
      if c: seq<File> :| Leads(find, c, f, comps, g) {
        assert find(c[0], comps[0]) == Some(c[1]);
        assert Leads(find, c[1..], c[1], rest, g) by {
          forall i | 0 <= i < |rest| ensures find(c[1..][i], rest[i]) == Some(c[1..][i + 1]) {
            assert find(c[i + 1], comps[i + 1]) == Some(c[i + 2]);
          }
        }
      }
      if next.Some? {
        ResolveExact(find, next.value, rest, g);
        if d: seq<File> :| Leads(find, d, next.value, rest, g) {
          LeadsFirst(find, d, f, comps, g);
        }
      }
    }
  }

  lemma LeadsFirst(find: Finddir, d: seq<File>, f: File, comps: Path, g: File)
    requires comps != [] && |d| > 0 && find(f, comps[0]) == Some(d[0]) && Leads(find, d, d[0], comps[1..], g)
    ensures Leads(find, [f] + d, f, comps, g)
  {
    var c := [f] + d;
    forall i | 0 <= i < |comps| ensures find(c[i], comps[i]) == Some(c[i + 1]) {
      if i > 0 {
        assert find(d[i - 1], comps[1..][i - 1]) == Some(d[i]);
      }
    }
  }

  /** At most one file is reached, and none exactly if the walk fails. */
  lemma ResolveMeans(find: Finddir, f: File, comps: Path)
    ensures forall g: File :: Resolve(find, f, comps) == Some(g) <==> Reaches(find, f, comps, g)
    ensures Resolve(find, f, comps) == None <==> forall g: File :: !Reaches(find, f, comps, g)
  {
    forall g: File ensures Resolve(find, f, comps) == Some(g) <==> Reaches(find, f, comps, g) {
      ResolveExact(find, f, comps, g);
    }
  }

  /** file_open: the deepest mount point on the way, and the rest of the path inside its file system. */
  function Opened(t: Tree, find: Finddir, q: Path): Option<File> {
    match Lookup(t, q)
    case Found(None, _) => None
    case Found(Some(f), rest) => Resolve(find, f, rest)
  }

  /** A path that goes through a fresh mount point and meets no other below it leads into the mounted file system. */
  lemma OpenBelowMount(t: Tree, p: Path, fs: File, find: Finddir, rest: Path)
    requires PrefixClosed(t) && !Taken(t, p) && (rest != [] ==> p + [rest[0]] !in t)
    ensures forall g: File :: Opened(Mounted(t, p, fs), find, p + rest) == Some(g) <==> Reaches(find, fs, rest, g)
  {
    ResolveMeans(find, fs, rest);
    MountedClosed(t, p, fs);
    MountedNodes(t, p, fs, p);
    if rest != [] {
      MountedNodes(t, p, fs, p + [rest[0]]);
    }
    LookupSplits(Mounted(t, p, fs), p, rest);
  }

  lemma ResolveTwo(find: Finddir, f: File, a: string, c: string)
    ensures Resolve(find, f, [a, c]) == if find(f, a).Some? then find(find(f, a).value, c) else None
  {
    if find(f, a).Some? {
      var d := find(f, a).value;
      assert [a, c][1..] == [c];
      assert Resolve(find, d, [c]) == find(d, c) by {
        assert [c][1..] == [];
        assert find(d, c).Some? ==> Resolve(find, find(d, c).value, []) == find(d, c);
      }
    }
  }

  /** A root file system and nothing else. */
  function RootOnlyTree(root: File): Tree {
    map[[] := Some(root)]
  }

  lemma RootClosed(root: File)
    ensures PrefixClosed(RootOnlyTree(root))
  {
    forall p: Path, k: nat | p in RootOnlyTree(root) ensures PrefixIn(RootOnlyTree(root), p, k) {
      assert p == [];
    }
  }

  /** A mount below the root file system hides what that had along the new path: the intermediate nodes have no file. */
  lemma MountHides(root: File, fs: File, find: Finddir, a: string, b: string, c: string)
    requires b != c
    ensures Opened(RootOnlyTree(root), find, [a, c])
            == if find(root, a).Some? then find(find(root, a).value, c) else None
    ensures Opened(Mounted(RootOnlyTree(root), [a, b], fs), find, [a, c]) == None
  {
    var t := RootOnlyTree(root);
    RootClosed(root);
    assert [] + [a, c] == [a, c];
    LookupSplits(t, [], [a, c]);
    ResolveTwo(find, root, a, c);
    MountedClosed(t, [a, b], fs);
    HiddenNodes(root, fs, a, b, c);
    assert [a] + [c] == [a, c];
    LookupSplits(Mounted(t, [a, b], fs), [a], [c]);
  }

  lemma HiddenNodes(root: File, fs: File, a: string, b: string, c: string)
    requires b != c
    ensures var t' := Mounted(RootOnlyTree(root), [a, b], fs); [a] in t' && t'[[a]] == None && [a] + [c] !in t'
  {
    assert [a, b][..1] == [a] && IsPrefix([a], [a, b]);
    assert [a, b][..2] == [a, b] && ([a] + [c])[1] == c && !IsPrefix([a] + [c], [a, b]);
  }
}
