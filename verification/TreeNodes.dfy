/** The tree as the server builds it: nodes that are inserted into and sorted in place. */
module TreeNodes {
  import opened Bytes
  import opened Names
  import opened FsTree
  import opened Lookup
  import opened Building

  /** A child of a directory: another directory node, or a file. */
  datatype Child<E> =
    | SubDir(dir: DirNode<E>)
    | Leaf(leafName: bytes, entry: E)
  {
    function Name(): bytes {
      if SubDir? then dir.name else leafName
    }
  }

  class DirNode<E> {
    const name: bytes
    const isRoot: bool
    var children: seq<Child<E>>
    var index: Option<nat>

    /** The value this node and all below it stand for, and the objects they are made of. */
    ghost var tree: Node<E>
    ghost var Repr: set<object>

    ghost predicate Valid()
      reads this, Repr
      decreases Repr
      ensures Valid() ==> this in Repr
    {
      && this in Repr
      && (forall i :: 0 <= i < |children| && children[i].SubDir? ==>
            children[i].dir in Repr && children[i].dir.Repr <= Repr && this !in children[i].dir.Repr && children[i].dir.Valid())
      && (forall i, j :: 0 <= i < j < |children| && children[i].SubDir? && children[j].SubDir? ==>
            children[i].dir.Repr !! children[j].dir.Repr)
      && tree.Dir? && tree.name == name && tree.isRoot == isRoot && tree.index == index
      && |tree.children| == |children|
      && (forall i :: 0 <= i < |children| ==> tree.children[i] == TreeOf(children[i]))
    }

    static ghost function TreeOf(c: Child<E>): (t: Node<E>)
      reads if c.SubDir? then {c.dir} else {}
    {
      if c.SubDir? then c.dir.tree else File(c.leafName, c.entry)
    }

    constructor (name: bytes, isRoot: bool)
      ensures Valid() && fresh(Repr)
      ensures this.name == name && this.isRoot == isRoot
      ensures tree == Dir(name, [], isRoot, None)
    {
      this.name, this.isRoot := name, isRoot;
      children, index := [], None;
      tree, Repr := Dir(name, [], isRoot, None), {this};
    }

    /** Makes room for a path's first directory: the position of the child of that name. */
    method EnterDir(head: bytes) returns (i: nat)
      requires Valid()
      modifies this
      ensures Valid() && fresh(Repr - old(Repr))
      ensures i < |children| && children[i].SubDir? && index == old(index)
      ensures i < |old(children)| || fresh(children[i].dir.Repr)
      ensures (tree.children, i) == WithDir(old(tree.children), head)
    {
      i := 0;
      while i < |children| && !(children[i].SubDir? && children[i].dir.name == head)
        invariant i <= |children|
        invariant forall j :: 0 <= j < i ==> !(children[j].SubDir? && children[j].dir.name == head)
      {
        i := i + 1;
      }
      assert forall j :: 0 <= j < |children| ==>
          (children[j].SubDir? && children[j].dir.name == head <==> tree.children[j].Dir? && tree.children[j].name == head) by {
        ChildNames();
      }
      if i == |children| {
        AddDir(head);
      }
    }

    method AddDir(head: bytes)
      requires Valid()
      modifies this
      ensures Valid() && fresh(Repr - old(Repr)) && index == old(index)
      ensures |children| == |old(children)| + 1 && children[|old(children)|].SubDir?
      ensures fresh(children[|old(children)|].dir.Repr)
      ensures tree == old(tree).(children := old(tree.children) + [EmptyDir(head)])
    {
      var dir := new DirNode<E>(head, false);
      ghost var kids := children;
      children := children + [SubDir(dir)];
      tree := tree.(children := tree.children + [dir.tree]);
      Repr := Repr + dir.Repr;
      assert forall j :: 0 <= j < |kids| ==> children[j] == kids[j];
    }

    /** The value's children are called and made like the children. */
    lemma ChildNames()
      requires Valid()
      ensures forall j :: 0 <= j < |children| ==>
                tree.children[j].name == children[j].Name() && (tree.children[j].Dir? <==> children[j].SubDir?)
    {
      forall j | 0 <= j < |children|
        ensures tree.children[j].name == children[j].Name() && (tree.children[j].Dir? <==> children[j].SubDir?)
      {
        assert tree.children[j] == TreeOf(children[j]);
      }
    }

    /** Inserts into the `i`th child, a directory. */
    method InsertBelow(i: nat, newEntry: E, tail: bytes)
      requires Valid() && i < |children| && children[i].SubDir? && tree.children[i].Dir?
      modifies Repr
      decreases |tail|, 1
      ensures Valid() && fresh(Repr - old(Repr))
      ensures tree == old(tree).(children := old(tree.children)[i := FsTree.InsertAt(old(tree.children[i]), newEntry, tail)])
    {
      hide FsTree.InsertAt, FsTree.Find;
      var child := children[i].dir;
      ghost var kids := children;
      label Before:
      assert child.tree == tree.children[i] by { assert TreeOf(children[i]) == tree.children[i]; }
      child.InsertAt(newEntry, tail);
      forall j | 0 <= j < |children| && children[j].SubDir? && j != i
        ensures children[j].dir.Repr == old@Before(children[j].dir.Repr) && children[j].dir.tree == old@Before(children[j].dir.tree)
        ensures children[j].dir.Valid()
        ensures children[j].dir.Repr !! child.Repr
      {
        assert old@Before(children[j].dir.Repr !! child.Repr);
      }
      assert children == kids;
      assert forall j :: 0 <= j < |children| && j != i ==> tree.children[j] == TreeOf(children[j]) by {
        assert forall j :: 0 <= j < |children| ==> old@Before(tree.children[j]) == old@Before(TreeOf(children[j]));
      }
      NoteChild(i);
    }

    /** Notes what became of the `i`th child, all others being as they were. */
    ghost method NoteChild(i: nat)
      requires this in Repr && tree.Dir? && tree.name == name && tree.isRoot == isRoot && tree.index == index
      requires i < |children| == |tree.children| && children[i].SubDir?
      requires forall j :: 0 <= j < |children| && children[j].SubDir? ==> children[j].dir.Valid() && this !in children[j].dir.Repr
      requires forall j :: 0 <= j < |children| && children[j].SubDir? && j != i ==> children[j].dir in Repr && children[j].dir.Repr <= Repr
      requires forall j, k :: 0 <= j < k < |children| && children[j].SubDir? && children[k].SubDir? ==> children[j].dir.Repr !! children[k].dir.Repr
      requires forall j :: 0 <= j < |children| && j != i ==> tree.children[j] == TreeOf(children[j])
      modifies this`tree, this`Repr
      ensures Valid() && Repr == old(Repr) + children[i].dir.Repr
      ensures tree == old(tree).(children := old(tree.children)[i := children[i].dir.tree])
    {
      ghost var child := children[i].dir;
      tree := tree.(children := tree.children[i := child.tree]);
      Repr := Repr + child.Repr;
    }

    method AddFile(newEntry: E, path: bytes)
      requires Valid()
      modifies this
      ensures Valid() && Repr == old(Repr)
      ensures tree == Dir(name, old(tree.children) + [File(path, newEntry)], isRoot,
                          if path == INDEX_HTML then Some(|old(tree.children)|) else old(index))
    {
      if path == INDEX_HTML {
        index := Some(|children|);
      }
      children := children + [Leaf(path, newEntry)];
      tree := Dir(name, tree.children + [File(path, newEntry)], isRoot, index);
      assert forall j :: 0 <= j < |old(children)| ==> children[j] == old(children)[j];
    }

    method InsertAt(newEntry: E, path: bytes)
      requires Valid()
      modifies Repr
      decreases |path|, 0
      ensures Valid() && fresh(Repr - old(Repr))
      ensures tree == FsTree.InsertAt(old(tree), newEntry, path)
    {
      var separator := IndexOf(path, SLASH);
      if separator.Some? {
        var head, tail := path[..separator.value], path[separator.value + 1..];
        var i := EnterDir(head);
        // Behind a trailing slash there is nothing to insert.
        if tail != [] {
          ChildNames();
          InsertBelow(i, newEntry, tail);
        }
      } else {
        AddFile(newEntry, path);
      }
    }

    /** The sorted children are the children, apart from each other, and stand for the sorted values. */
    lemma SortedChildrenFit() returns (trees: seq<Node<E>>)
      requires Valid()
      ensures trees == SortByName(tree.children) && |trees| == |SortedByName(children)|
      ensures var sorted := SortedByName(children);
              && (forall i :: 0 <= i < |sorted| ==> sorted[i] in children && trees[i] == TreeOf(sorted[i]))
              && (forall i, j :: 0 <= i < j < |sorted| && sorted[i].SubDir? && sorted[j].SubDir? ==>
                    sorted[i].dir.Repr !! sorted[j].dir.Repr)
    {
      hide SortByName, SortedByName, FsTree.Place, PlaceChild;
      var views := ViewsOfChildren();
      SortedViews(children, views);
      var sorted := SortedByName(children);
      trees := Trees(sorted, views);
      assert forall i :: 0 <= i < |sorted| ==> sorted[i] in children;
    }

    /** What every child stands for and is made of now. */
    lemma ViewsOfChildren() returns (views: map<Child<E>, View<E>>)
      requires Valid()
      ensures Viewed(children, views) && Apart(children, views)
      ensures Trees(children, views) == tree.children
      ensures forall c :: c in children ==> views[c].tree == TreeOf(c) && (c.SubDir? ==> views[c].repr == c.dir.Repr)
    {
      views := map c | c in children :: View(TreeOf(c), if c.SubDir? then c.dir.Repr else {});
      ChildNames();
      forall i | 0 <= i < |children|
        ensures children[i] in views && views[children[i]].tree == tree.children[i]
      {
      }
      forall i, j | 0 <= i < j < |children|
        ensures views[children[i]].repr !! views[children[j]].repr
      {
      }
    }

    /** Orders the children by name, equal names as they stood. */
    method SortChildren()
      requires Valid()
      modifies this
      ensures Valid() && Repr == old(Repr) && index == old(index)
      ensures tree == old(tree).(children := SortByName(old(tree.children)))
    {
      hide SortedByName, SortByName;
      ghost var trees := SortedChildrenFit();
      children := SortedByName(children);
      tree := tree.(children := trees);
    }

    /** Sorts the `i`th child and all below it. */
    method SortBelow(i: nat)
      requires Valid() && i < |children|
      modifies Repr
      decreases Repr, 0
      ensures Valid() && Repr == old(Repr) && children == old(children) && index == old(index)
      ensures tree == old(tree).(children := old(tree.children)[i := SortTree(old(tree.children[i]))])
    {
      hide SortTree;
      if children[i].SubDir? {
        var child := children[i].dir;
        ghost var kids := children;
        label Before:
        assert child.tree == tree.children[i] by { assert TreeOf(children[i]) == tree.children[i]; }
        child.RecursiveSort();
        forall j | 0 <= j < |children| && children[j].SubDir? && j != i
          ensures children[j].dir.Repr == old@Before(children[j].dir.Repr) && children[j].dir.tree == old@Before(children[j].dir.tree)
          ensures children[j].dir.Valid()
          ensures children[j].dir.Repr !! child.Repr
        {
          assert old@Before(children[j].dir.Repr !! child.Repr);
        }
        assert children == kids;
        assert forall j :: 0 <= j < |children| && j != i ==> tree.children[j] == TreeOf(children[j]) by {
          assert forall j :: 0 <= j < |children| ==> old@Before(tree.children[j]) == old@Before(TreeOf(children[j]));
        }
        NoteChild(i);
      } else {
        SortedLeaf(TreeOf(children[i]));
        assert TreeOf(children[i]) == tree.children[i];
        assert tree.children == tree.children[i := tree.children[i]];
      }
    }

    method RecursiveSort()
      requires Valid()
      modifies Repr
      decreases Repr, 1
      ensures Valid() && Repr == old(Repr)
      ensures tree == SortTree(old(tree))
    {
      hide SortTree, SortEach, SortByName, FirstNamed;
      SortChildren();
      ghost var sorted := tree.children;
      var i := 0;
      while i < |children|
        invariant Valid() && Repr == old(Repr) && index == old(index)
        invariant i <= |children| == |sorted|
        invariant tree == old(tree).(children := SortEach(sorted[..i]) + sorted[i..])
      {
        SortBelow(i);
        SortOneMore(sorted, i);
        i := i + 1;
      }
      assert sorted[..i] == sorted && SortEach(sorted) + sorted[i..] == SortEach(sorted);
      if index.Some? {
        RefreshIndex();
      }
      SortTreeUnfolds(old(tree));
    }

    method RefreshIndex()
      requires Valid()
      modifies this
      ensures Valid() && Repr == old(Repr)
      ensures tree == old(tree).(index := FirstNamed(old(tree.children), INDEX_HTML))
    {
      var at := PositionOf(INDEX_HTML);
      hide FirstNamed;
      index := at;
      tree := Dir(tree.name, tree.children, tree.isRoot, at);
      assert children == old(children) && tree.children == old(tree.children);
    }

    /** The position of the first child called `name`. */
    method PositionOf(name: bytes) returns (at: Option<nat>)
      requires Valid()
      ensures at == FirstNamed(tree.children, name)
    {
      ChildNames();
      var i := 0;
      while i < |children|
        invariant i <= |children|
        invariant forall j :: 0 <= j < i ==> children[j].Name() != name
      {
        if children[i].Name() == name {
          return Some(i);
        }
        i := i + 1;
      }
      return None;
    }
  }

  /** A node's sort, in the order its steps are taken: the children, then each of them, then the index. */
  lemma SortTreeUnfolds<E>(node: Node<E>)
    requires node.Dir?
    ensures var sorted := SortEach(SortByName(node.children));
            SortTree(node) == Dir(node.name, sorted, node.isRoot, if node.index.Some? then FirstNamed(sorted, INDEX_HTML) else None)
  {
    SortEachCommutes(node.children);
  }

  lemma SortedLeaf<E>(leaf: Node<E>)
    requires leaf.File?
    ensures SortTree(leaf) == leaf
  {
  }

  lemma SortOneMore<E>(sorted: seq<Node<E>>, i: nat)
    requires i < |sorted|
    ensures var before := SortEach(sorted[..i]) + sorted[i..];
            before[i] == sorted[i] && before[i := SortTree(sorted[i])] == SortEach(sorted[..i + 1]) + sorted[i + 1..]
  {
    hide SortTree, SortEach;
    var before, after := SortEach(sorted[..i]) + sorted[i..], SortEach(sorted[..i + 1]) + sorted[i + 1..];
    var x := SortTree(sorted[i]);
    assert |before| == |after| == |sorted| && before[i] == sorted[i];
    forall j | 0 <= j < |sorted|
      ensures before[i := x][j] == after[j]
    {
      if j < i {
        assert before[j] == SortTree(sorted[..i][j]) && after[j] == SortTree(sorted[..i + 1][j]);
      } else if j == i {
        assert after[j] == SortTree(sorted[..i + 1][j]);
      }
    }
  }

  // ---------- Sorting children that stand for values ----------

  function PlaceChild<E>(x: Child<E>, sorted: seq<Child<E>>): seq<Child<E>> {
    if sorted == [] || !Less(sorted[0].Name(), x.Name()) then [x] + sorted
    else [sorted[0]] + PlaceChild(x, sorted[1..])
  }

  function SortedByName<E>(children: seq<Child<E>>): seq<Child<E>> {
    if children == [] then [] else PlaceChild(children[0], SortedByName(children[1..]))
  }

  /** What a child stood for and was made of at some moment. */
  datatype View<E> = View(tree: Node<E>, repr: set<object>)

  ghost predicate Viewed<E>(children: seq<Child<E>>, views: map<Child<E>, View<E>>) {
    forall i :: 0 <= i < |children| ==> children[i] in views && views[children[i]].tree.name == children[i].Name()
  }

  ghost predicate Apart<E>(children: seq<Child<E>>, views: map<Child<E>, View<E>>)
    requires Viewed(children, views)
  {
    forall i, j :: 0 <= i < j < |children| ==> views[children[i]].repr !! views[children[j]].repr
  }

  ghost function Trees<E>(children: seq<Child<E>>, views: map<Child<E>, View<E>>): (trees: seq<Node<E>>)
    requires Viewed(children, views)
    ensures |trees| == |children| && forall i :: 0 <= i < |children| ==> trees[i] == views[children[i]].tree
  {
    if children == [] then [] else [views[children[0]].tree] + Trees(children[1..], views)
  }

  lemma {:induction false} SortedViews<E>(children: seq<Child<E>>, views: map<Child<E>, View<E>>)
    requires Viewed(children, views) && Apart(children, views)
    ensures var sorted := SortedByName(children);
            && (forall c :: c in sorted <==> c in children)
            && Viewed(sorted, views) && Apart(sorted, views)
            && Trees(sorted, views) == SortByName(Trees(children, views))
  {
    if children != [] {
      var x, rest := children[0], children[1..];
      assert forall i :: 0 <= i < |rest| ==> rest[i] == children[i + 1];
      SortedViews(rest, views);
      forall i | 0 <= i < |SortedByName(rest)|
        ensures views[x].repr !! views[SortedByName(rest)[i]].repr
      {
        assert SortedByName(rest)[i] in rest;
      }
      PlacedViews(x, SortedByName(rest), views);
    }
  }

  lemma {:induction false} PlacedViews<E>(x: Child<E>, sorted: seq<Child<E>>, views: map<Child<E>, View<E>>)
    requires x in views && views[x].tree.name == x.Name()
    requires Viewed(sorted, views) && Apart(sorted, views)
    requires forall i :: 0 <= i < |sorted| ==> views[x].repr !! views[sorted[i]].repr
    ensures var placed := PlaceChild(x, sorted);
            && (forall c :: c in placed <==> c == x || c in sorted)
            && Viewed(placed, views) && Apart(placed, views)
            && Trees(placed, views) == Place(views[x].tree, Trees(sorted, views))
  {
    if sorted == [] || !Less(sorted[0].Name(), x.Name()) {
      assert ([x] + sorted)[1..] == sorted;
    } else {
      var y, rest := sorted[0], sorted[1..];
      assert forall i :: 0 <= i < |rest| ==> rest[i] == sorted[i + 1];
      PlacedViews(x, rest, views);
      var placed := PlaceChild(x, rest);
      forall i | 0 <= i < |placed|
        ensures views[y].repr !! views[placed[i]].repr
      {
        if placed[i] != x {
          assert placed[i] in rest;
        }
      }
      assert ([y] + placed)[1..] == placed;
    }
  }

  /** Builds the tree of an archive's entries and sorts it. */
  method ReadZipTree<E>(items: seq<Item<E>>) returns (root: DirNode<E>)
    ensures root.Valid() && root.tree == SortTree(Build(items))
  {
    root := new DirNode<E>([], true);
    for i := 0 to |items|
      invariant root.Valid() && fresh(root.Repr)
      invariant root.tree == Build(items[..i])
    {
      root.InsertAt(items[i].entry, items[i].path);
      assert items[..i + 1][..i] == items[..i];
    }
    assert items[..|items|] == items;
    root.RecursiveSort();
  }
}
