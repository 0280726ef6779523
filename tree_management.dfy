/**
 * Rebuilding the path index of the library hierarchy and inserting a new
 * folder or playlist under a parent folder.
 */
module TreeManagement {
  import opened Wrappers
  import opened Tree

  /**
   * The dictionary that rebuildIndex fills in place while its inner `walk`
   * visits the hierarchy.
   */
  class PathIndex {
    var index: map<Id, Path>

    constructor ()
      ensures index == map[]
    {
      index := map[];
    }

    /**
     * Visits `nodes` (the children of the node at `path`) in order, recording
     * each node's path and then descending into it when it has children.
     */
    method Walk(nodes: seq<Node>, path: Path)
      modifies this
      ensures index == old(index) + LastWins(Entries(nodes, path, |nodes|))
      decreases nodes
    {
      for i := 0 to |nodes|
        invariant index == old(index) + LastWins(Entries(nodes, path, i))
      {
        ghost var before := index;
        var node := nodes[i];
        var nodePath := path + [i];
        index := index[node.id := nodePath];
        if node.Folder? {
          Walk(node.children, nodePath);
        } else {
          assert index == index + LastWins([]);
        }
        WalkStep(old(index), nodes, path, i);
      }
    }
  }

  /** One turn of the loop of `walk`: record the node, then its subtree. */
  lemma WalkStep(start: map<Id, Path>, nodes: seq<Node>, path: Path, i: nat)
    requires i < |nodes|
    ensures var node := nodes[i];
      var below := if node.Folder? then Entries(node.children, path + [i], |node.children|) else [];
      (start + LastWins(Entries(nodes, path, i)))[node.id := path + [i]] + LastWins(below)
      == start + LastWins(Entries(nodes, path, i + 1))
  {
    var node := nodes[i];
    var nodePath := path + [i];
    var own := [Entry(node.id, nodePath)];
    var below := if node.Folder? then Entries(node.children, nodePath, |node.children|) else [];
    assert LastWins(own) == map[node.id := nodePath] by {
      assert own[..0] == [];
    }
    LastWinsAppend(own, below);
    LastWinsAppend(Entries(nodes, path, i), NodeEntries(node, nodePath));
    UpdateThenUnion(start, LastWins(Entries(nodes, path, i)), node.id, nodePath, LastWins(below));
  }

  lemma UpdateThenUnion<K, V>(a: map<K, V>, b: map<K, V>, k: K, v: V, c: map<K, V>)
    ensures (a + b)[k := v] + c == a + (b + (map[k := v] + c))
  {
  }

  lemma UnionThenUpdate<K, V>(a: map<K, V>, b: map<K, V>, c: map<K, V>, k: K, v: V)
    ensures a + (b + c[k := v]) == (a + (b + c))[k := v]
  {
  }

  lemma UpdateBeforeUnion<K, V>(a: map<K, V>, c: map<K, V>, k: K, v: V)
    requires k !in c
    ensures a[k := v] + c == (a + c)[k := v]
  {
  }

  /** Maps every node id of `hierarchy` to its path (rebuildIndex). */
  method RebuildIndex(hierarchy: seq<Node>) returns (index: map<Id, Path>)
    ensures index == Index(hierarchy)
  {
    var walker := new PathIndex();
    walker.Walk(hierarchy, []);
    index := walker.index;
    assert map[] + Index(hierarchy) == Index(hierarchy);
  }

  // ---------------------------------------------------------------------------
  // Insertion

  /** The record addTreeItem creates: a folder only when `kind` is "folder". */
  function NewItem(kind: string, id: Id, name: string, parentFolderId: Id): (n: Node)
    ensures n.id == id && n.name == name && n.parentId == Some(parentFolderId)
    ensures n.Folder? <==> kind == "folder"
    ensures n.Folder? ==> n.children == []
    ensures n.Playlist? ==> n.trackIds == []
  {
    if kind == "folder" then Folder(id, name, Some(parentFolderId), [])
    else Playlist(id, name, Some(parentFolderId), [])
  }

  /** A node with no descendants. */
  predicate Childless(n: Node) {
    n.Playlist? || n.children == []
  }

  /** `b` is `a` possibly with a different list of children. */
  predicate SameLabel(a: Node, b: Node) {
    && a.id == b.id && a.name == b.name && a.parentId == b.parentId
    && (a.Folder? <==> b.Folder?)
    && (a.Playlist? ==> a == b)
  }

  /** The hierarchy after pushing `item` onto the children array reached by `path`. */
  function AppendAt(forest: seq<Node>, path: Path, item: Node): (r: seq<Node>)
    requires ChildrenAt(forest, path).Some?
    ensures path == [] ==> |r| == |forest| + 1 && r[..|forest|] == forest && r[|forest|] == item
    ensures path != [] ==> |r| == |forest| && forall j :: 0 <= j < |forest| && j != path[0] ==> r[j] == forest[j]
    ensures ChildrenAt(r, path) == Some(ChildrenAt(forest, path).value + [item])
    decreases |path|
  {
    if path == [] then forest + [item]
    else
      var n := forest[path[0]];
      var r := forest[path[0] := n.(children := AppendAt(n.children, path[1..], item))];
      assert r[path[0]].children == AppendAt(n.children, path[1..], item);
      r
  }

  /**
   * The walk of addTreeItem from a pseudo-root whose children are the
   * hierarchy: each step enters `children[i]`; None where JavaScript would
   * raise a TypeError (a missing child, or a node without a children array).
   */
  method ResolveParent(hierarchy: seq<Node>, parentPath: Path) returns (children: Option<seq<Node>>)
    ensures children == ChildrenAt(hierarchy, parentPath)
  {
    var current := hierarchy;
    for k := 0 to |parentPath|
      invariant ChildrenAt(hierarchy, parentPath) == ChildrenAt(current, parentPath[k..])
    {
      var i := parentPath[k];
      assert parentPath[k..][1..] == parentPath[k + 1..];
      if i < |current| && current[i].Folder? {
        current := current[i].children;
      } else {
        return None;
      }
    }
    assert parentPath[|parentPath|..] == [];
    return Some(current);
  }

  /** What addTreeItem produces. */
  datatype AddResult =
    | ParentNotFound   // the parent id has no index entry: `null`
    | Thrown           // the walk or the push raises a TypeError
    | Added(newId: Id, newHierarchy: seq<Node>, newIndex: map<Id, Path>)

  /**
   * addTreeItem: resolves `parentFolderId` through the supplied `index`,
   * appends a new folder or playlist as the last child of the node at that
   * path in a copy of `hierarchy`, and rebuilds the index of the copy.
   * `newId` stands for the generated id; when it is fresh, the new index
   * differs from the old one in that id alone.
   */
  method AddTreeItem(hierarchy: seq<Node>, index: map<Id, Path>, parentFolderId: Id,
                     kind: string, name: string, newId: Id) returns (result: AddResult)
    ensures result.ParentNotFound? <==> parentFolderId !in index
    ensures result.Thrown? <==>
      parentFolderId in index && ChildrenAt(hierarchy, index[parentFolderId]).None?
    ensures result.Added? ==>
      var path := index[parentFolderId];
      var siblings := ChildrenAt(hierarchy, path).value;
      var item := NewItem(kind, newId, name, parentFolderId);
      && result.newId == newId
      && result.newHierarchy == AppendAt(hierarchy, path, item)
      && ChildrenAt(result.newHierarchy, path) == Some(siblings + [item])
      && At(result.newHierarchy, path + [|siblings|]) == Some(item)
      && result.newIndex == Index(result.newHierarchy)
      && (Fresh(hierarchy, newId) ==> result.newIndex == Index(hierarchy)[newId := path + [|siblings|]])
      && (forall p :: At(hierarchy, p).Some? ==>
            At(result.newHierarchy, p).Some? && SameLabel(At(hierarchy, p).value, At(result.newHierarchy, p).value))
      && (forall p :: At(result.newHierarchy, p).Some? ==>
            At(hierarchy, p).Some? || p == path + [|siblings|])
      && (UniqueIds(hierarchy) && Fresh(hierarchy, newId) ==> UniqueIds(result.newHierarchy))
  {
    if parentFolderId !in index {
      return ParentNotFound;
    }
    var parentPath := index[parentFolderId];
    var newItem := NewItem(kind, newId, name, parentFolderId);
    var parent := ResolveParent(hierarchy, parentPath);
    if parent.None? {
      return Thrown;
    }
    var newHierarchy := AppendAt(hierarchy, parentPath, newItem);
    var newIndex := RebuildIndex(newHierarchy);
    AppendedItemAt(hierarchy, parentPath, newItem);
    if Fresh(hierarchy, newId) {
      AppendIndex(hierarchy, parentPath, newItem);
    }
    forall p | At(hierarchy, p).Some?
      ensures At(newHierarchy, p).Some? && SameLabel(At(hierarchy, p).value, At(newHierarchy, p).value)
    {
      AppendKeepsNodes(hierarchy, parentPath, newItem, p);
    }
    forall p | At(newHierarchy, p).Some?
      ensures At(hierarchy, p).Some? || p == parentPath + [|parent.value|]
    {
      AppendAddsOnlyItem(hierarchy, parentPath, newItem, p);
    }
    if UniqueIds(hierarchy) && Fresh(hierarchy, newId) {
      AppendKeepsUnique(hierarchy, parentPath, newItem);
    }
    return Added(newId, newHierarchy, newIndex);
  }

  // ---------------------------------------------------------------------------
  // What the insertion preserves

  /** The pushed item is the last child at `path`. */
  lemma AppendedItemAt(forest: seq<Node>, path: Path, item: Node)
    requires ChildrenAt(forest, path).Some?
    ensures var c := ChildrenAt(forest, path).value;
      At(AppendAt(forest, path, item), path + [|c|]) == Some(item)
  {
    var c := ChildrenAt(forest, path).value;
    var r := AppendAt(forest, path, item);
    if path == [] {
      assert path + [|c|] == [|c|] + [];
      AtCons(r, |c|, []);
    } else {
      ChildrenAtFolder(r, path);
      AtChild(r, path, |c|);
    }
  }

  /** Every node reachable before the push is reached by the same path after it, with the same label. */
  lemma {:induction false} AppendKeepsNodes(forest: seq<Node>, path: Path, item: Node, p: Path)
    requires ChildrenAt(forest, path).Some?
    requires At(forest, p).Some?
    ensures At(AppendAt(forest, path, item), p).Some?
    ensures SameLabel(At(forest, p).value, At(AppendAt(forest, path, item), p).value)
    decreases |p|
  {
    var r := AppendAt(forest, path, item);
    var i := p[0];
    var rest := p[1..];
    assert p == [i] + rest;
    AtCons(forest, i, rest);
    AtCons(r, i, rest);
    if path == [] {
      assert r[i] == forest[i];
    } else if i != path[0] {
      assert r[i] == forest[i];
    } else if rest != [] {
      var n := forest[i];
      assert At(forest, p) == At(n.children, rest);
      AppendKeepsNodes(n.children, path[1..], item, rest);
    }
  }

  /**
   * Every node reachable after pushing a childless item was reachable before,
   * by the same path and with the same label, or is the item at its new path.
   */
  lemma {:induction false} AppendAddsOnlyItem(forest: seq<Node>, path: Path, item: Node, p: Path)
    requires ChildrenAt(forest, path).Some?
    requires Childless(item)
    requires At(AppendAt(forest, path, item), p).Some?
    ensures var r := AppendAt(forest, path, item);
      || (At(forest, p).Some? && SameLabel(At(forest, p).value, At(r, p).value))
      || (p == path + [|ChildrenAt(forest, path).value|] && At(r, p) == Some(item))
    decreases |p|
  {
    var r := AppendAt(forest, path, item);
    var i := p[0];
    var rest := p[1..];
    assert p == [i] + rest;
    AtCons(r, i, rest);
    if path == [] {
      if i < |forest| {
        assert r[i] == forest[i];
        AtCons(forest, i, rest);
      } else {
        assert r[i] == item;
        assert rest == [];
        assert p == path + [|forest|];
      }
    } else {
      var n := forest[path[0]];
      var c := AppendAt(n.children, path[1..], item);
      assert r[path[0]] == n.(children := c);
      AtCons(forest, i, rest);
      if i == path[0] && rest != [] {
        assert At(r, p) == At(c, rest);
        AppendAddsOnlyItem(n.children, path[1..], item, rest);
        assert ChildrenAt(n.children, path[1..]) == ChildrenAt(forest, path);
        assert path == [i] + path[1..];
      } else if i != path[0] {
        assert r[i] == forest[i];
      }
    }
  }

  /** Pushing a childless item with a fresh id keeps the ids of the hierarchy unique. */
  lemma AppendKeepsUnique(forest: seq<Node>, path: Path, item: Node)
    requires ChildrenAt(forest, path).Some?
    requires Childless(item)
    requires UniqueIds(forest) && Fresh(forest, item.id)
    ensures UniqueIds(AppendAt(forest, path, item))
  {
    var r := AppendAt(forest, path, item);
    forall p, q | At(r, p).Some? && At(r, q).Some? && At(r, p).value.id == At(r, q).value.id
      ensures p == q
    {
      AppendAddsOnlyItem(forest, path, item, p);
      AppendAddsOnlyItem(forest, path, item, q);
    }
  }

  /**
   * Pushing a childless item with a fresh id changes the index in exactly one
   * place: the item's id now maps to `path` extended by the old child count.
   */
  lemma AppendIndex(h: seq<Node>, path: Path, item: Node)
    requires ChildrenAt(h, path).Some?
    requires Childless(item)
    requires Fresh(h, item.id)
    ensures Index(AppendAt(h, path, item)) == Index(h)[item.id := path + [|ChildrenAt(h, path).value|]]
  {
    forall e | e in Entries(h, [], |h|) ensures e.id != item.id {
      EntriesReach(h, [], |h|, e);
    }
    AppendEntries(h, [], path, item);
    assert [] + path == path;
  }

  lemma {:induction false} AppendEntries(nodes: seq<Node>, prefix: Path, path: Path, item: Node)
    requires ChildrenAt(nodes, path).Some?
    requires Childless(item)
    requires forall e :: e in Entries(nodes, prefix, |nodes|) ==> e.id != item.id
    ensures var r := AppendAt(nodes, path, item);
      LastWins(Entries(r, prefix, |r|))
      == LastWins(Entries(nodes, prefix, |nodes|))[item.id := prefix + path + [|ChildrenAt(nodes, path).value|]]
    decreases |path|, 1
  {
    var r := AppendAt(nodes, path, item);
    if path == [] {
      var q := prefix + [|nodes|];
      assert r[..|nodes|] == nodes[..|nodes|];
      EntriesAgree(r, nodes, prefix, |nodes|);
      assert NodeEntries(item, q) == [Entry(item.id, q)];
      assert Entries(r, prefix, |r|) == Entries(nodes, prefix, |nodes|) + [Entry(item.id, q)];
      assert prefix + path + [|nodes|] == q;
    } else {
      AppendEntriesUpTo(nodes, prefix, path, item, |nodes|);
    }
  }

  lemma {:induction false} AppendEntriesUpTo(nodes: seq<Node>, prefix: Path, path: Path, item: Node, k: nat)
    requires path != [] && ChildrenAt(nodes, path).Some?
    requires Childless(item)
    requires k <= |nodes|
    requires forall e :: e in Entries(nodes, prefix, |nodes|) ==> e.id != item.id
    ensures var r := AppendAt(nodes, path, item);
      var v := prefix + path + [|ChildrenAt(nodes, path).value|];
      LastWins(Entries(r, prefix, k))
      == if k <= path[0] then LastWins(Entries(nodes, prefix, k))
         else LastWins(Entries(nodes, prefix, k))[item.id := v]
    decreases |path|, 0, k + 2
  {
    var r := AppendAt(nodes, path, item);
    var i := path[0];
    var v := prefix + path + [|ChildrenAt(nodes, path).value|];
    if k <= i {
      assert r[..k] == nodes[..k];
      EntriesAgree(r, nodes, prefix, k);
    } else {
      AppendEntriesUpTo(nodes, prefix, path, item, k - 1);
      if k - 1 == i {
        AppendEntriesAtParent(nodes, prefix, path, item);
      } else {
        AppendEntriesAfter(nodes, prefix, path, item, k);
      }
    }
  }

  /** The step of AppendEntriesUpTo that passes the root on the insertion path. */
  lemma AppendEntriesAtParent(nodes: seq<Node>, prefix: Path, path: Path, item: Node)
    requires path != [] && ChildrenAt(nodes, path).Some?
    requires Childless(item)
    requires forall e :: e in Entries(nodes, prefix, |nodes|) ==> e.id != item.id
    requires var r := AppendAt(nodes, path, item);
      LastWins(Entries(r, prefix, path[0])) == LastWins(Entries(nodes, prefix, path[0]))
    ensures var r := AppendAt(nodes, path, item);
      var v := prefix + path + [|ChildrenAt(nodes, path).value|];
      LastWins(Entries(r, prefix, path[0] + 1)) == LastWins(Entries(nodes, prefix, path[0] + 1))[item.id := v]
    decreases |path|, 0, 1
  {
    var r := AppendAt(nodes, path, item);
    var i := path[0];
    var v := prefix + path + [|ChildrenAt(nodes, path).value|];
    var n := nodes[i];
    assert r[i] == n.(children := AppendAt(n.children, path[1..], item));
    AppendEntriesBelow(nodes, prefix, path, item);
    NodeEntriesUpdated(Entries(r, prefix, i), Entries(nodes, prefix, i), n, r[i], prefix + [i], item.id, v);
  }

  /** Inside the root on the insertion path, its children's entries change at the item only. */
  lemma AppendEntriesBelow(nodes: seq<Node>, prefix: Path, path: Path, item: Node)
    requires path != [] && ChildrenAt(nodes, path).Some?
    requires Childless(item)
    requires forall e :: e in Entries(nodes, prefix, |nodes|) ==> e.id != item.id
    ensures var i := path[0];
      var c := nodes[i].children;
      var c' := AppendAt(c, path[1..], item);
      var v := prefix + path + [|ChildrenAt(nodes, path).value|];
      LastWins(Entries(c', prefix + [i], |c'|)) == LastWins(Entries(c, prefix + [i], |c|))[item.id := v]
    decreases |path|, 0, 0
  {
    var i := path[0];
    var q := prefix + [i];
    var n := nodes[i];
    var c := n.children;
    FreshInChildren(nodes, prefix, i, item.id);
    AppendEntries(c, q, path[1..], item);
    assert ChildrenAt(c, path[1..]) == ChildrenAt(nodes, path);
    assert q + path[1..] == prefix + path by {
      assert path == [i] + path[1..];
      assert prefix + [i] + path[1..] == prefix + ([i] + path[1..]);
    }
  }

  /** An id absent from a listing is absent from the listing of any folder's children in it. */
  lemma FreshInChildren(nodes: seq<Node>, prefix: Path, i: nat, id: Id)
    requires i < |nodes| && nodes[i].Folder?
    requires forall e :: e in Entries(nodes, prefix, |nodes|) ==> e.id != id
    ensures var c := nodes[i].children;
      forall e :: e in Entries(c, prefix + [i], |c|) ==> e.id != id
  {
    var c := nodes[i].children;
    forall e | e in Entries(c, prefix + [i], |c|) ensures e.id != id {
      assert e in NodeEntries(nodes[i], prefix + [i]);
      EntriesMonotone(nodes, prefix, i + 1, |nodes|, e);
    }
  }

  /** Replacing a folder's children whose entries change at one id changes the listing at that id only. */
  lemma NodeEntriesUpdated(left': seq<Entry>, left: seq<Entry>, n: Node, n': Node, q: Path, id: Id, v: Path)
    requires LastWins(left') == LastWins(left)
    requires n.Folder? && n'.Folder? && n'.id == n.id
    requires LastWins(Entries(n'.children, q, |n'.children|)) == LastWins(Entries(n.children, q, |n.children|))[id := v]
    ensures LastWins(left' + NodeEntries(n', q)) == LastWins(left + NodeEntries(n, q))[id := v]
  {
    var own := [Entry(n.id, q)];
    var sub := LastWins(Entries(n.children, q, |n.children|));
    LastWinsAppend(left', NodeEntries(n', q));
    LastWinsAppend(left, NodeEntries(n, q));
    LastWinsAppend(own, Entries(n'.children, q, |n'.children|));
    LastWinsAppend(own, Entries(n.children, q, |n.children|));
    UnionThenUpdate(LastWins(left), LastWins(own), sub, id, v);
  }

  /** A step of AppendEntriesUpTo past a root after the insertion path. */
  lemma AppendEntriesAfter(nodes: seq<Node>, prefix: Path, path: Path, item: Node, k: nat)
    requires path != [] && ChildrenAt(nodes, path).Some?
    requires path[0] + 1 < k <= |nodes|
    requires forall e :: e in Entries(nodes, prefix, |nodes|) ==> e.id != item.id
    requires var r := AppendAt(nodes, path, item);
      var v := prefix + path + [|ChildrenAt(nodes, path).value|];
      LastWins(Entries(r, prefix, k - 1)) == LastWins(Entries(nodes, prefix, k - 1))[item.id := v]
    ensures var r := AppendAt(nodes, path, item);
      var v := prefix + path + [|ChildrenAt(nodes, path).value|];
      LastWins(Entries(r, prefix, k)) == LastWins(Entries(nodes, prefix, k))[item.id := v]
  {
    var r := AppendAt(nodes, path, item);
    var v := prefix + path + [|ChildrenAt(nodes, path).value|];
    var q := prefix + [k - 1];
    assert r[k - 1] == nodes[k - 1];
    var below := NodeEntries(nodes[k - 1], q);
    forall j | 0 <= j < |below| ensures below[j].id != item.id {
      assert below[j] in below;
      EntriesMonotone(nodes, prefix, k, |nodes|, below[j]);
    }
    LastWinsKeys(below, item.id);
    LastWinsAppend(Entries(r, prefix, k - 1), below);
    LastWinsAppend(Entries(nodes, prefix, k - 1), below);
    UpdateBeforeUnion(LastWins(Entries(nodes, prefix, k - 1)), LastWins(below), item.id, v);
  }
}
