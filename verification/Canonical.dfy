/** The sorted tree depends on what an archive holds, not on the order of its entries. */
module Canonical {
  import opened Bytes
  import opened Names
  import opened FsTree
  import opened Lookup
  import opened Building

  /** Every name stands at most once among siblings, all the way down. */
  ghost predicate Unique<E>(node: Node<E>) {
    node.Dir? ==>
      && (forall name :: NamedOnce(node.children, name))
      && forall c :: c in node.children ==> Unique(c)
  }

  ghost predicate NamedOnce<E>(children: seq<Node<E>>, name: bytes) {
    |Named(children, name)| <= 1
  }

  lemma {:induction false} NamedAppends<E>(a: seq<Node<E>>, b: seq<Node<E>>, name: bytes)
    ensures Named(a + b, name) == Named(a, name) + Named(b, name)
  {
    hide Named;
    NamedNothing<E>(name);
    if a == [] {
      assert a + b == b && [] + Named(b, name) == Named(b, name);
    } else {
      var x, rest := a[0], a[1..];
      assert a + b == [x] + (rest + b);
      assert a == [x] + rest;
      NamedAppends(rest, b, name);
      NamedCons(x, rest + b, name);
      NamedCons(x, rest, name);
      Grouped([x], Named(rest, name), Named(b, name));
    }
  }

  lemma Grouped<T>(a: seq<T>, b: seq<T>, c: seq<T>)
    ensures a + (b + c) == a + b + c
  {
  }

  lemma NamedNothing<E>(name: bytes)
    ensures Named<E>([], name) == []
  {
  }

  lemma NamedOne<E>(x: Node<E>, name: bytes)
    ensures Named([x], name) == if x.name == name then [x] else []
  {
    assert [x] == [x] + [];
    NamedCons(x, [], name);
  }

  /** Replacing a child by one of the same name keeps the count of every name. */
  lemma NamedReplaced<E>(children: seq<Node<E>>, i: nat, child: Node<E>, name: bytes)
    requires i < |children| && child.name == children[i].name
    ensures |Named(children[i := child], name)| == |Named(children, name)|
  {
    var front, back := children[..i], children[i + 1..];
    assert children == front + ([children[i]] + back);
    assert children[i := child] == front + ([child] + back);
    NamedAppends(front, [children[i]] + back, name);
    NamedAppends(front, [child] + back, name);
    NamedCons(children[i], back, name);
    NamedCons(child, back, name);
  }

  lemma {:induction false} InsertStaysUnique<E>(node: Node<E>, x: Item<E>)
    requires node.Dir? && Unique(node) && Fits(node, x)
    ensures Unique(InsertAt(node, x.entry, x.path))
    decreases |x.path|
  {
    match IndexOf(x.path, SLASH)
    case None =>
      ItemByHead(x);
      FileAddedUnique(node, x);
    case Some(sep) =>
      var dir := BranchReady(node, x, sep);
      hide IndexOf, Unique, Fits, InsertAt;
      if x.path[sep + 1..] != [] {
        InsertStaysUnique(dir, Item(x.path[sep + 1..], x.entry));
      }
      BranchUnique(node, x, sep, if x.path[sep + 1..] == [] then dir else InsertAt(dir, x.entry, x.path[sep + 1..]));
  }

  /** The directory that takes what is left of an item is fit for it. */
  lemma BranchReady<E>(node: Node<E>, x: Item<E>, sep: nat) returns (dir: Node<E>)
    requires node.Dir? && Unique(node) && Fits(node, x) && IndexOf(x.path, SLASH) == Some(sep)
    ensures var (children, i) := WithDir(node.children, x.path[..sep]); dir == children[i] && dir.Dir? && dir.name == x.path[..sep]
    ensures Unique(dir) && Unique(node.(children := WithDir(node.children, x.path[..sep]).0))
    ensures x.path[sep + 1..] != [] ==> Fits(dir, Item(x.path[sep + 1..], x.entry))
  {
    ItemByHead(x);
    hide Fits, Unique, WithDir, IndexOf, InsertedAs;
    var head := x.path[..sep];
    var (children, i) := WithDir(node.children, head);
    dir := children[i];
    BelowHead(node, x, head, Item(x.path[sep + 1..], x.entry));
    DirAddedUnique(node, head);
    UniqueBelow(node.(children := children), i);
  }

  /** With that directory changed to a fit one, names are still unique. */
  lemma BranchUnique<E>(node: Node<E>, x: Item<E>, sep: nat, child: Node<E>)
    requires node.Dir? && IndexOf(x.path, SLASH) == Some(sep) && Unique(node.(children := WithDir(node.children, x.path[..sep]).0))
    requires var (children, i) := WithDir(node.children, x.path[..sep]);
             child == (if x.path[sep + 1..] == [] then children[i] else InsertAt(children[i], x.entry, x.path[sep + 1..])) && Unique(child)
    ensures Unique(InsertAt(node, x.entry, x.path))
  {
    InsertHere(node, x.entry, x.path);
    hide Unique, WithDir, IndexOf, InsertAt;
    var (children, i) := WithDir(node.children, x.path[..sep]);
    ReplacedStaysUnique(node, children, i, child);
  }

  lemma UniqueBelow<E>(node: Node<E>, i: nat)
    requires node.Dir? && Unique(node) && i < |node.children|
    ensures Unique(node.children[i])
  {
    assert node.children[i] in node.children;
  }

  lemma ReplacedStaysUnique<E>(node: Node<E>, children: seq<Node<E>>, i: nat, child: Node<E>)
    requires node.Dir? && Unique(node.(children := children)) && i < |children| && child.name == children[i].name && Unique(child)
    ensures Unique(node.(children := children[i := child]))
  {
    ReplacedUnique(children, i, child, children[i := child]);
  }

  lemma FileAddedUnique<E>(node: Node<E>, x: Item<E>)
    requires node.Dir? && Unique(node) && Fits(node, x)
    requires IndexOf(x.path, SLASH).None? && x.IsFile() && x.Segs() == [x.path]
    ensures Unique(InsertAt(node, x.entry, x.path))
  {
    hide SplitAt, SegmentsOf, DropEmpty, FirstDir;
    assert [x.path] + [] == [x.path];
    KindBelow(node, x.path, []);
    NewNameUnique(node.children, File(x.path, x.entry));
  }

  /** Making room for a directory keeps names apart where no file has its name. */
  lemma DirAddedUnique<E>(node: Node<E>, head: bytes)
    requires node.Dir? && Unique(node) && !KindAt(node, [head]).AFile?
    ensures Unique(node.(children := WithDir(node.children, head).0))
  {
    assert [head] + [] == [head];
    KindBelow(node, head, []);
    if Child(node.children, head).None? {
      NewNameUnique(node.children, EmptyDir<E>(head));
      assert WithDir(node.children, head).0 == node.children + [EmptyDir<E>(head)];
    } else {
      assert Child(node.children, head).value in node.children;
      assert WithDir(node.children, head).0 == node.children;
    }
  }

  lemma NewNameUnique<E>(children: seq<Node<E>>, x: Node<E>)
    requires forall name :: NamedOnce(children, name)
    requires Child(children, x.name).None?
    ensures forall name :: NamedOnce(children + [x], name)
  {
    forall name
      ensures NamedOnce(children + [x], name)
    {
      assert NamedOnce(children, name);
      NamedAppends(children, [x], name);
      NamedOne(x, name);
      ChildIsFirstOfNamed(children, x.name);
    }
  }

  lemma ReplacedUnique<E>(children: seq<Node<E>>, i: nat, child: Node<E>, kids: seq<Node<E>>)
    requires i < |children| && child.name == children[i].name && Unique(child)
    requires kids == children[i := child]
    requires forall name :: NamedOnce(children, name)
    requires forall c :: c in children ==> Unique(c)
    ensures forall name :: NamedOnce(kids, name)
    ensures forall c :: c in kids ==> Unique(c)
  {
    forall name
      ensures NamedOnce(kids, name)
    {
      assert NamedOnce(children, name);
      NamedReplaced(children, i, child, name);
    }
    assert forall c :: c in kids ==> c in children || c == child;
  }

  lemma {:induction false} BuildStaysUnique<E(!new)>(items: seq<Item<E>>)
    requires ConflictFree(items)
    ensures Unique(Build(items))
  {
    if items == [] {
      assert forall name :: Named<E>([], name) == [];
    } else {
      LastFits(items, []);
      BuildStaysUnique(items[..|items| - 1]);
      InsertStaysUnique(Build(items[..|items| - 1]), items[|items| - 1]);
    }
  }

  // ---------- Sorted trees ----------

  ghost predicate StrictlySorted<E>(children: seq<Node<E>>) {
    forall i, j :: 0 <= i < j < |children| ==> Less(children[i].name, children[j].name)
  }

  /** Where the index page stands, told from the children alone. */
  function IndexIn<E>(children: seq<Node<E>>): Option<nat> {
    match FirstNamed(children, INDEX_HTML)
    case Some(i) => if children[i].File? then Some(i) else None
    case None => None
  }

  ghost predicate CanonicalTree<E>(node: Node<E>) {
    node.Dir? ==> node.index == IndexIn(node.children) && CanonicalForest(node.children)
  }

  ghost predicate CanonicalForest<E>(children: seq<Node<E>>) {
    && StrictlySorted(children)
    && forall c :: c in children ==> CanonicalTree(c) && (c.Dir? ==> !c.isRoot)
  }

  lemma NamedTwice<E>(children: seq<Node<E>>, i: nat, j: nat)
    requires i < j < |children| && children[i].name == children[j].name
    ensures |Named(children, children[i].name)| >= 2
  {
    var name := children[i].name;
    assert children == children[..j] + children[j..];
    NamedAppends(children[..j], children[j..], name);
    NamedSome(children[..j], i);
    NamedSome(children[j..], 0);
  }

  lemma {:induction false} SortedIsCanonical<E>(node: Node<E>)
    requires Kept(node) && Unique(node)
    ensures CanonicalTree(SortTree(node))
    decreases node
  {
    hide Less, Named, Sorted, SortByName, FirstNamed;
    if node.Dir? {
      var each := SortEach(node.children);
      var sorted := SortByName(each);
      SortsStably(each);
      forall name
        ensures NamedOnce(sorted, name)
      {
        assert NamedOnce(node.children, name);
        NamedOfSortEach(node.children, name);
      }
      UniqueSortedIsStrict(sorted);
      forall c | c in sorted
        ensures CanonicalTree(c) && (c.Dir? ==> !c.isRoot)
      {
        assert c in multiset(each);
        var i :| 0 <= i < |each| && each[i] == c;
        SortedIsCanonical(node.children[i]);
      }
      SortedHasIndexFile(node.children);
      StrictIndex(sorted);
    }
  }

  /** Among distinct names, the first child called `index.html` is the file if there is one. */
  lemma StrictIndex<E>(sorted: seq<Node<E>>)
    requires StrictlySorted(sorted)
    ensures IndexIn(sorted) == if HasIndexFile(sorted) then FirstNamed(sorted, INDEX_HTML) else None
  {
    LessIsIrreflexive(INDEX_HTML);
    if HasIndexFile(sorted) {
      var i :| 0 <= i < |sorted| && sorted[i].File? && sorted[i].name == INDEX_HTML;
      forall k | 0 <= k < |sorted| && k != i
        ensures sorted[k].name != INDEX_HTML
      {
        assert Less(sorted[Min(k, i)].name, sorted[Max(k, i)].name);
      }
    }
  }

  lemma UniqueSortedIsStrict<E>(sorted: seq<Node<E>>)
    requires Sorted(sorted) && forall name :: NamedOnce(sorted, name)
    ensures StrictlySorted(sorted)
  {
    forall i, j | 0 <= i < j < |sorted|
      ensures Less(sorted[i].name, sorted[j].name)
    {
      LessIsTotal(sorted[i].name, sorted[j].name);
      assert NamedOnce(sorted, sorted[i].name);
      if sorted[i].name == sorted[j].name {
        NamedTwice(sorted, i, j);
      }
    }
  }

  /** What a list of children holds below it. */
  function ForestKind<E>(children: seq<Node<E>>, head: bytes, q: Segments): Kind<E> {
    match Child(children, head)
    case None => Nothing
    case Some(child) => KindAt(child, q)
  }

  lemma ForestBelow<E>(x: Node<E>, rest: seq<Node<E>>, head: bytes, q: Segments)
    requires StrictlySorted([x] + rest)
    ensures ForestKind([x] + rest, head, q) == if head == x.name then KindAt(x, q) else ForestKind(rest, head, q)
    ensures StrictlySorted(rest)
    ensures ForestKind(rest, x.name, q) == Nothing
  {
    var all := [x] + rest;
    assert forall i :: 0 <= i < |rest| ==> all[i + 1] == rest[i];
    LessIsIrreflexive(x.name);
    ChildIsFirstOfNamed(all, head);
    ChildIsFirstOfNamed(rest, head);
    NamedCons(x, rest, head);
    forall i | 0 <= i < |rest|
      ensures rest[i].name != x.name
    {
      assert Less(all[0].name, all[i + 1].name);
    }
  }

  lemma SomethingInside<E>(children: seq<Node<E>>)
    ensures children != [] ==> exists head :: ForestKind(children, head, []) != Nothing
  {
    if children != [] {
      NamedSome(children, 0);
      ChildIsFirstOfNamed(children, children[0].name);
      assert ForestKind(children, children[0].name, []) != Nothing;
    }
  }

  /** The first of the sorted names is no less than any name that something is found under. */
  lemma FirstIsLeast<E>(children: seq<Node<E>>, head: bytes)
    requires children != [] && StrictlySorted(children)
    requires ForestKind(children, head, []) != Nothing
    ensures !Less(head, children[0].name)
  {
    var i := FirstNamed(children, head).value;
    if i > 0 {
      LessIsAsymmetric(children[0].name, head);
    } else {
      LessIsIrreflexive(head);
    }
  }

  /** Sorted forests that hold the same are the same. */
  lemma {:induction false} ForestIsDetermined<E(!new)>(a: seq<Node<E>>, b: seq<Node<E>>)
    requires CanonicalForest(a) && CanonicalForest(b)
    requires forall head, q :: ForestKind(a, head, q) == ForestKind(b, head, q)
    ensures a == b
    decreases a, 0
  {
    if a == [] {
      assert forall head, q :: ForestKind(b, head, q) == ForestKind(a, head, q) == Nothing;
      SomethingInside(b);
    } else {
      var x, xs := a[0], a[1..];
      assert a == [x] + xs;
      ForestBelow(x, xs, x.name, []);
      assert ForestKind(b, x.name, []) != Nothing;
      assert b != [];
      var y, ys := b[0], b[1..];
      assert b == [y] + ys;
      ForestBelow(y, ys, y.name, []);
      FirstIsLeast(b, x.name);
      FirstIsLeast(a, y.name);
      LessIsTotal(x.name, y.name);
      assert x.name == y.name;
      forall q
        ensures KindAt(x, q) == KindAt(y, q)
      {
        ForestBelow(x, xs, x.name, q);
        ForestBelow(y, ys, y.name, q);
      }
      TreeIsDetermined(x, y);
      forall head, q
        ensures ForestKind(xs, head, q) == ForestKind(ys, head, q)
      {
        ForestBelow(x, xs, head, q);
        ForestBelow(y, ys, head, q);
        assert ForestKind(a, head, q) == ForestKind(b, head, q);
      }
      ForestIsDetermined(xs, ys);
    }
  }

  /** Sorted trees of one name that hold the same are the same, cached indices included. */
  lemma {:induction false} TreeIsDetermined<E(!new)>(x: Node<E>, y: Node<E>)
    requires CanonicalTree(x) && CanonicalTree(y) && x.name == y.name
    requires x.Dir? && y.Dir? ==> x.isRoot == y.isRoot
    requires forall q :: KindAt(x, q) == KindAt(y, q)
    ensures x == y
    decreases x, 1
  {
    assert KindAt(x, []) == KindAt(y, []);
    if x.Dir? {
      forall head, q
        ensures ForestKind(x.children, head, q) == ForestKind(y.children, head, q)
      {
        KindBelow(x, head, q);
        KindBelow(y, head, q);
        assert KindAt(x, [head] + q) == KindAt(y, [head] + q);
      }
      ForestIsDetermined(x.children, y.children);
    }
  }

  lemma SortedKind<E>(node: Node<E>, q: Segments)
    ensures KindAt(SortTree(node), q) == KindAt(node, q)
  {
    SortedWalk(node, q);
  }

  /** Inserting the entries in any order and then sorting yields one and the same tree. */
  lemma OrderDoesNotMatter<E(!new)>(a: seq<Item<E>>, b: seq<Item<E>>)
    requires multiset(a) == multiset(b) && ConflictFree(a)
    ensures SortTree(Build(a)) == SortTree(Build(b))
  {
    hide KindAt, SortTree, Build, ConflictFree;
    ReorderedDescribesSame(a, b, []);
    RootIsUnnamed(a);
    RootIsUnnamed(b);
    BuildKeeps(a);
    BuildKeeps(b);
    BuildStaysUnique(a);
    BuildStaysUnique(b);
    SortedIsCanonical(Build(a));
    SortedIsCanonical(Build(b));
    forall q
      ensures KindAt(SortTree(Build(a)), q) == KindAt(SortTree(Build(b)), q)
    {
      SortedKind(Build(a), q);
      SortedKind(Build(b), q);
      ReorderedDescribesSame(a, b, q);
    }
    TreeIsDetermined(SortTree(Build(a)), SortTree(Build(b)));
  }

  lemma {:induction false} RootIsUnnamed<E>(items: seq<Item<E>>)
    ensures Build(items).name == []
  {
    if items != [] {
      RootIsUnnamed(items[..|items| - 1]);
    }
  }
}
