/**
 * The library hierarchy: a forest of folders and playlists, the paths that
 * locate nodes in it, and the pre-order listing from which the path index
 * is derived.
 */
module Tree {
  import opened Wrappers

  type Id = string

  /** A sequence of child positions leading from the root array to a node. */
  type Path = seq<nat>

  /** A folder owns an ordered list of children; a playlist holds track ids. */
  datatype Node =
    | Folder(id: Id, name: string, parentId: Option<Id>, children: seq<Node>)
    | Playlist(id: Id, name: string, parentId: Option<Id>, trackIds: seq<int>)

  /** One index assignment made by the traversal: node `id` sits at `path`. */
  datatype Entry = Entry(id: Id, path: Path)

  /** The node reached from the root array `forest` by indexing along `path`. */
  function At(forest: seq<Node>, path: Path): Option<Node>
    decreases |path|, 0
  {
    if path == [] || path[0] >= |forest| then None
    else AtNode(forest[path[0]], path[1..])
  }

  /** The node reached from `n` by indexing its children along `rest`. */
  function AtNode(n: Node, rest: Path): Option<Node>
    decreases |rest|, 1
  {
    if rest == [] then Some(n)
    else match n
      case Folder(_, _, _, children) => At(children, rest)
      case Playlist(_, _, _, _) => None
  }

  /**
   * The children array reached by starting at a pseudo-root whose children
   * are `forest` and stepping into `children[i]` for each `i` of `path`;
   * None when a step leaves the array or lands on a node without children.
   */
  function ChildrenAt(forest: seq<Node>, path: Path): Option<seq<Node>>
    decreases |path|
  {
    if path == [] then Some(forest)
    else if path[0] < |forest| && forest[path[0]].Folder? then
      ChildrenAt(forest[path[0]].children, path[1..])
    else None
  }

  /** Every id in `forest` is carried by exactly one reachable node. */
  ghost predicate UniqueIds(forest: seq<Node>) {
    forall p, q ::
      At(forest, p).Some? && At(forest, q).Some? && At(forest, p).value.id == At(forest, q).value.id
      ==> p == q
  }

  /** No node reachable in `forest` carries `id`. */
  ghost predicate Fresh(forest: seq<Node>, id: Id) {
    forall p :: At(forest, p).Some? ==> At(forest, p).value.id != id
  }

  /**
   * The pre-order visit of the first `k` nodes of `nodes`, whose parent is at
   * `prefix`: each node is listed with its path, then its subtree.
   */
  function Entries(nodes: seq<Node>, prefix: Path, k: nat): seq<Entry>
    requires k <= |nodes|
    decreases nodes, k
  {
    if k == 0 then []
    else Entries(nodes, prefix, k - 1) + NodeEntries(nodes[k - 1], prefix + [k - 1])
  }

  /** The pre-order visit of `n` (at `path`) and its subtree. */
  function NodeEntries(n: Node, path: Path): seq<Entry>
    decreases n
  {
    [Entry(n.id, path)] + (if n.Folder? then Entries(n.children, path, |n.children|) else [])
  }

  /** The whole hierarchy in pre-order. */
  function PreOrder(hierarchy: seq<Node>): seq<Entry> {
    Entries(hierarchy, [], |hierarchy|)
  }

  /** Applies the entries in order to an empty dictionary: a later entry overwrites an earlier one. */
  function LastWins(es: seq<Entry>): map<Id, Path> {
    if es == [] then map[]
    else LastWins(es[..|es| - 1])[es[|es| - 1].id := es[|es| - 1].path]
  }

  /** The path index of a hierarchy, as the traversal of rebuildIndex builds it. */
  function Index(hierarchy: seq<Node>): map<Id, Path> {
    LastWins(PreOrder(hierarchy))
  }

  // ---------------------------------------------------------------------------
  // LastWins

  lemma {:induction false} LastWinsAppend(a: seq<Entry>, b: seq<Entry>)
    ensures LastWins(a + b) == LastWins(a) + LastWins(b)
    decreases |b|
  {
    if b == [] {
      assert a + b == a;
    } else {
      var n := |b| - 1;
      assert (a + b)[..|a + b| - 1] == a + b[..n];
      LastWinsAppend(a, b[..n]);
    }
  }

  /** The keys of the dictionary are exactly the ids listed. */
  lemma {:induction false} LastWinsKeys(es: seq<Entry>, id: Id)
    ensures id in LastWins(es) <==> exists k :: 0 <= k < |es| && es[k].id == id
  {
    if es != [] {
      var n := |es| - 1;
      LastWinsKeys(es[..n], id);
      if id in LastWins(es[..n]) {
        var k :| 0 <= k < n && es[..n][k].id == id;
        assert es[k].id == id;
      }
    }
  }

  /** A dictionary entry is one of the listed entries. */
  lemma {:induction false} LastWinsValue(es: seq<Entry>, id: Id)
    requires id in LastWins(es)
    ensures Entry(id, LastWins(es)[id]) in es
  {
    var n := |es| - 1;
    if es[n].id != id {
      LastWinsValue(es[..n], id);
      assert es == es[..n] + [es[n]];
    }
  }

  /** When an id is listed several times, the last listing owns the entry. */
  lemma {:induction false} LastWinsLatest(es: seq<Entry>, k: nat)
    requires k < |es|
    requires forall j :: k < j < |es| ==> es[j].id != es[k].id
    ensures es[k].id in LastWins(es) && LastWins(es)[es[k].id] == es[k].path
  {
    var n := |es| - 1;
    if k < n {
      LastWinsLatest(es[..n], k);
    }
  }

  // ---------------------------------------------------------------------------
  // Paths

  /** Stepping into the root array at `i` and then along `rest`. */
  lemma AtCons(forest: seq<Node>, i: nat, rest: Path)
    requires i < |forest|
    ensures At(forest, [i] + rest) == AtNode(forest[i], rest)
  {
    assert ([i] + rest)[1..] == rest;
  }

  /** A node at `p` that is a folder has its `i`-th child at `p + [i]`. */
  lemma {:induction false} AtChild(forest: seq<Node>, p: Path, i: nat)
    requires At(forest, p).Some? && At(forest, p).value.Folder?
    requires i < |At(forest, p).value.children|
    ensures At(forest, p + [i]) == Some(At(forest, p).value.children[i])
    decreases |p|
  {
    var n := forest[p[0]];
    assert p + [i] == [p[0]] + (p[1..] + [i]);
    AtCons(forest, p[0], p[1..] + [i]);
    if |p| == 1 {
      assert p[1..] + [i] == [i] == [i] + [];
      AtCons(n.children, i, []);
    } else {
      AtChild(n.children, p[1..], i);
    }
  }

  /** The children array reached by a non-empty path is the folder at that path. */
  lemma {:induction false} ChildrenAtFolder(forest: seq<Node>, p: Path)
    requires p != []
    ensures ChildrenAt(forest, p).Some? <==> At(forest, p).Some? && At(forest, p).value.Folder?
    ensures ChildrenAt(forest, p).Some? ==> ChildrenAt(forest, p).value == At(forest, p).value.children
    decreases |p|
  {
    if p[0] < |forest| && |p| > 1 && forest[p[0]].Folder? {
      ChildrenAtFolder(forest[p[0]].children, p[1..]);
    }
  }

  // ---------------------------------------------------------------------------
  // Pre-order entries

  /** Entries of a shorter prefix of the root array are among those of a longer one. */
  lemma {:induction false} EntriesMonotone(nodes: seq<Node>, prefix: Path, k: nat, m: nat, e: Entry)
    requires k <= m <= |nodes|
    requires e in Entries(nodes, prefix, k)
    ensures e in Entries(nodes, prefix, m)
    decreases m
  {
    if k < m {
      EntriesMonotone(nodes, prefix, k, m - 1, e);
    }
  }

  /** Two root arrays that agree on their first `k` nodes list the same entries for them. */
  lemma {:induction false} EntriesAgree(a: seq<Node>, b: seq<Node>, prefix: Path, k: nat)
    requires k <= |a| && k <= |b| && a[..k] == b[..k]
    ensures Entries(a, prefix, k) == Entries(b, prefix, k)
    decreases k
  {
    if k > 0 {
      assert a[k - 1] == a[..k][k - 1] == b[..k][k - 1] == b[k - 1];
      assert a[..k - 1] == a[..k][..k - 1];
      assert b[..k - 1] == b[..k][..k - 1];
      EntriesAgree(a, b, prefix, k - 1);
    }
  }

  /**
   * Soundness of the traversal: every entry extends the prefix, and following
   * the rest of its path from `nodes` reaches a node carrying the entry's id.
   */
  lemma {:induction false} EntriesReach(nodes: seq<Node>, prefix: Path, k: nat, e: Entry)
    requires k <= |nodes|
    requires e in Entries(nodes, prefix, k)
    ensures |prefix| < |e.path| && e.path[..|prefix|] == prefix && e.path[|prefix|] < k
    ensures At(nodes, e.path[|prefix|..]).Some? && At(nodes, e.path[|prefix|..]).value.id == e.id
    decreases nodes, k
  {
    if e in Entries(nodes, prefix, k - 1) {
      EntriesReach(nodes, prefix, k - 1, e);
    } else {
      var q := prefix + [k - 1];
      NodeEntriesReach(nodes[k - 1], q, e);
      var rest := e.path[|q|..];
      assert e.path[..|prefix|] == e.path[..|q|][..|prefix|] == prefix;
      assert e.path[|prefix|] == e.path[..|q|][|prefix|] == k - 1;
      assert e.path[|prefix|..] == [k - 1] + rest;
      AtCons(nodes, k - 1, rest);
    }
  }

  lemma {:induction false} NodeEntriesReach(n: Node, path: Path, e: Entry)
    requires e in NodeEntries(n, path)
    ensures |path| <= |e.path| && e.path[..|path|] == path
    ensures AtNode(n, e.path[|path|..]).Some? && AtNode(n, e.path[|path|..]).value.id == e.id
    decreases n
  {
    if e != Entry(n.id, path) {
      EntriesReach(n.children, path, |n.children|, e);
    }
  }

  /** Completeness of the traversal: every reachable node is listed at its path. */
  lemma {:induction false} ReachedIsListed(nodes: seq<Node>, prefix: Path, r: Path)
    requires At(nodes, r).Some?
    ensures Entry(At(nodes, r).value.id, prefix + r) in Entries(nodes, prefix, |nodes|)
    decreases nodes
  {
    var i := r[0];
    var rest := r[1..];
    assert r == [i] + rest;
    NodeReachedIsListed(nodes[i], prefix + [i], rest);
    assert prefix + [i] + rest == prefix + r;
    EntriesMonotone(nodes, prefix, i + 1, |nodes|, Entry(At(nodes, r).value.id, prefix + r));
  }

  lemma {:induction false} NodeReachedIsListed(n: Node, path: Path, rest: Path)
    requires AtNode(n, rest).Some?
    ensures Entry(AtNode(n, rest).value.id, path + rest) in NodeEntries(n, path)
    decreases n
  {
    if rest == [] {
      assert path + rest == path;
    } else {
      ReachedIsListed(n.children, path, rest);
    }
  }

  // ---------------------------------------------------------------------------
  // The index

  /**
   * Index fidelity: following `Index(h)[id]` from the root array lands on a
   * node whose id is `id`, whether or not ids are unique.
   */
  lemma IndexFidelity(h: seq<Node>, id: Id)
    requires id in Index(h)
    ensures At(h, Index(h)[id]).Some? && At(h, Index(h)[id]).value.id == id
  {
    LastWinsValue(PreOrder(h), id);
    EntriesReach(h, [], |h|, Entry(id, Index(h)[id]));
    assert Index(h)[id][0..] == Index(h)[id];
  }

  /** The keys of the index are exactly the ids of the reachable nodes. */
  lemma IndexKeys(h: seq<Node>, id: Id)
    ensures id in Index(h) <==> exists p :: At(h, p).Some? && At(h, p).value.id == id
  {
    if id in Index(h) {
      IndexFidelity(h, id);
    }
    if p :| At(h, p).Some? && At(h, p).value.id == id {
      ReachedIsListed(h, [], p);
      assert [] + p == p;
      var es := PreOrder(h);
      var k :| 0 <= k < |es| && es[k] == Entry(id, p);
      LastWinsKeys(es, id);
    }
  }

  /** A fresh id has no index entry. */
  lemma FreshNotIndexed(h: seq<Node>, id: Id)
    requires Fresh(h, id)
    ensures id !in Index(h)
  {
    IndexKeys(h, id);
  }

  /** With unique ids, every reachable node is indexed at exactly its own path. */
  lemma IndexOfReachable(h: seq<Node>, p: Path)
    requires UniqueIds(h)
    requires At(h, p).Some?
    ensures At(h, p).value.id in Index(h) && Index(h)[At(h, p).value.id] == p
  {
    var id := At(h, p).value.id;
    IndexKeys(h, id);
    IndexFidelity(h, id);
  }

  /** With unique ids, the root at position `i` is indexed at `[i]`. */
  lemma RootIndexed(h: seq<Node>, i: nat)
    requires UniqueIds(h)
    requires i < |h|
    ensures h[i].id in Index(h) && Index(h)[h[i].id] == [i]
  {
    AtCons(h, i, []);
    assert [i] + [] == [i];
    IndexOfReachable(h, [i]);
  }

  /** With unique ids, child `i` of the folder at `p` is indexed at `p + [i]`. */
  lemma ChildIndexed(h: seq<Node>, p: Path, i: nat)
    requires UniqueIds(h)
    requires At(h, p).Some? && At(h, p).value.Folder?
    requires i < |At(h, p).value.children|
    ensures var c := At(h, p).value.children[i];
      c.id in Index(h) && Index(h)[c.id] == p + [i]
  {
    AtChild(h, p, i);
    IndexOfReachable(h, p + [i]);
  }

  /**
   * With duplicated ids, the node visited last in pre-order owns the entry:
   * if the `k`-th visit is the last one of its id, the index holds its path.
   */
  lemma LaterVisitWins(h: seq<Node>, k: nat)
    requires k < |PreOrder(h)|
    requires forall j :: k < j < |PreOrder(h)| ==> PreOrder(h)[j].id != PreOrder(h)[k].id
    ensures PreOrder(h)[k].id in Index(h) && Index(h)[PreOrder(h)[k].id] == PreOrder(h)[k].path
  {
    LastWinsLatest(PreOrder(h), k);
  }
}
