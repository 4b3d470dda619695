/** Index pages before the tree is sorted, told from the archive's list. */
module IndexPages {
  import opened Bytes
  import opened FsTree
  import opened Lookup
  import opened Building
  import opened Pages

  /** What goes behind the directory `head` of an item, by what is left of its path. */
  function Piece<E>(x: Item<E>, head: bytes): seq<Item<E>> {
    match IndexOf(x.path, SLASH)
    case None => []
    case Some(sep) => if x.path[..sep] == head && x.path[sep + 1..] != [] then [Item(x.path[sep + 1..], x.entry)] else []
  }

  /** The items that go behind the directory `head`. */
  function Inside<E>(items: seq<Item<E>>, head: bytes): seq<Item<E>> {
    if items == [] then [] else Inside(items[..|items| - 1], head) + Piece(items[|items| - 1], head)
  }

  /** The items behind the directory at `q`, by what is left of their paths. */
  function Under<E>(items: seq<Item<E>>, q: Segments): seq<Item<E>>
    decreases |q|
  {
    if q == [] then items else Under(Inside(items, q[0]), q[1..])
  }

  /** The last of the items that is a file called `index.html` in this very directory. */
  function LastPage<E>(items: seq<Item<E>>): Option<E> {
    if items == [] then None
    else if items[|items| - 1].path == INDEX_HTML then Some(items[|items| - 1].entry)
    else LastPage(items[..|items| - 1])
  }

  /** The first of the items whose path begins with this name, as a file or as a directory. */
  function FirstCalled<E>(items: seq<Item<E>>, name: bytes): Option<Item<E>> {
    if items == [] then None
    else match FirstCalled(items[..|items| - 1], name)
      case Some(x) => Some(x)
      case None => if items[|items| - 1].Segs()[0] == name then Some(items[|items| - 1]) else None
  }

  /** What the first of the items called so makes of the name. */
  function KindCalled<E>(items: seq<Item<E>>, name: bytes): Kind<E> {
    match FirstCalled(items, name)
    case None => Nothing
    case Some(x) => if x.path == name then AFile(x.entry) else ADir
  }

  function InsertAll<E>(node: Node<E>, items: seq<Item<E>>): (r: Node<E>)
    requires node.Dir?
    ensures r.Dir? && r.name == node.name && r.isRoot == node.isRoot
  {
    if items == [] then node
    else InsertAt(InsertAll(node, items[..|items| - 1]), items[|items| - 1].entry, items[|items| - 1].path)
  }

  lemma {:induction false} BuildInsertsAll<E>(items: seq<Item<E>>)
    ensures Build(items) == InsertAll(Root(), items)
  {
    if items != [] {
      BuildInsertsAll(items[..|items| - 1]);
    }
  }

  ghost predicate IsFresh<E>(node: Node<E>) {
    node.Dir? && node.children == [] && node.index == None
  }

  /** The first directory of a name. */
  function DirNamed<E>(children: seq<Node<E>>, name: bytes): Option<Node<E>> {
    match FirstDir(children, name)
    case None => None
    case Some(i) => Some(children[i])
  }

  /** Subdirectories, once `head`'s was added or replaced by `child`. */
  lemma DirNamedAfter<E>(children: seq<Node<E>>, head: bytes, child: Node<E>, n: bytes)
    requires child.Dir? && child.name == head
    ensures var (with, i) := WithDir(children, head);
            && DirNamed(with[i := child], n) == (if n == head then Some(child) else DirNamed(children, n))
            && with[i] == (if DirNamed(children, head).Some? then DirNamed(children, head).value else EmptyDir(head))
  {
    hide FirstDir;
    var (with, i) := WithDir(children, head);
    var kids := with[i := child];
    assert forall j :: 0 <= j < |children| && j != i ==> kids[j] == children[j];
    if n == head {
      assert kids[i].Dir? && kids[i].name == n;
    } else {
      SameDirNamed(children, kids, n);
    }
  }

  lemma SameDirNamed<E>(a: seq<Node<E>>, b: seq<Node<E>>, n: bytes)
    requires |a| <= |b|
    requires forall i :: 0 <= i < |a| ==> (a[i].Dir? && a[i].name == n <==> b[i].Dir? && b[i].name == n)
    requires forall i :: 0 <= i < |a| && a[i].name == n ==> a[i] == b[i]
    requires forall i :: |a| <= i < |b| ==> !(b[i].Dir? && b[i].name == n)
    ensures DirNamed(a, n) == DirNamed(b, n)
  {
    hide FirstDir;
    var i, j := FirstDir(a, n), FirstDir(b, n);
    if i.Some? {
      assert b[i.value].Dir? && b[i.value].name == n;
    }
    if j.Some? {
      assert a[j.value].Dir? && a[j.value].name == n;
    }
  }

  /** The subdirectory called `head`, if there is one, is made of `inside`. */
  ghost predicate IsMadeOf<E>(children: seq<Node<E>>, head: bytes, inside: seq<Item<E>>) {
    match DirNamed(children, head)
    case None => inside == []
    case Some(d) => d == InsertAll(EmptyDir(head), inside)
  }

  lemma SubDirStep<E>(before: Node<E>, inside: seq<Item<E>>, x: Item<E>, head: bytes)
    requires before.Dir? && IsMadeOf(before.children, head, inside)
    ensures IsMadeOf(InsertAt(before, x.entry, x.path).children, head, inside + Piece(x, head))
  {
    hide WithDir, IndexOf, InsertAt, DirNamed, InsertAll;
    InsertHere(before, x.entry, x.path);
    assert inside + [] == inside;
    match IndexOf(x.path, SLASH)
    case None =>
      SameDirNamed(before.children, before.children + [File(x.path, x.entry)], head);
    case Some(sep) =>
      var name, tail := x.path[..sep], x.path[sep + 1..];
      var (children, i) := WithDir(before.children, name);
      var child := if tail == [] then children[i] else InsertAt(children[i], x.entry, tail);
      DirNamedAfter(before.children, name, child, head);
      InsertAllNone(EmptyDir<E>(head));
      if name == head && tail != [] {
        InsertAllOneMore(EmptyDir(head), inside, Item(tail, x.entry));
      }
  }

  /** A directory's subdirectory is made of the items that go behind it, whatever else stands beside it. */
  lemma {:induction false} SubDirHolds<E>(node: Node<E>, items: seq<Item<E>>, head: bytes)
    requires IsFresh(node)
    ensures IsMadeOf(InsertAll(node, items).children, head, Inside(items, head))
  {
    hide IsMadeOf, InsertAt, Piece;
    if items == [] {
      NoDirNamedYet<E>(head);
    } else {
      SubDirHolds(node, items[..|items| - 1], head);
      SubDirStep(InsertAll(node, items[..|items| - 1]), Inside(items[..|items| - 1], head), items[|items| - 1], head);
    }
  }

  lemma InsertAllNone<E>(node: Node<E>)
    requires node.Dir?
    ensures InsertAll(node, []) == node
  {
  }

  lemma NoDirNamedYet<E>(name: bytes)
    ensures IsMadeOf<E>([], name, [])
  {
  }

  lemma InsertAllOneMore<E>(node: Node<E>, items: seq<Item<E>>, x: Item<E>)
    requires node.Dir?
    ensures InsertAll(node, items + [x]) == InsertAt(InsertAll(node, items), x.entry, x.path)
  {
    assert (items + [x])[..|items|] == items;
  }

  /** A directory found below is made of the items behind its path, conflicts and shadowed names or not. */
  lemma {:induction false} FoundDirHolds<E>(node: Node<E>, items: seq<Item<E>>, q: Segments)
    requires IsFresh(node) && q != []
    requires var found := Walk(InsertAll(node, items), q); found.Some? && found.value.Dir?
    ensures Walk(InsertAll(node, items), q).value == InsertAll(EmptyDir(q[|q| - 1]), Under(items, q))
    decreases |q|
  {
    hide FirstNamed, FirstDir, InsertAll, Inside;
    var head := q[0];
    var children := InsertAll(node, items).children;
    WalkStep(InsertAll(node, items), head, q[1..]);
    assert q == [head] + q[1..];
    var child := Child(children, head).value;
    FileEndsWalk(child, q[1..]);
    SubDirHolds(node, items, head);
    FirstChildIsDir(children, head);
    if |q| == 1 {
      WalkStep(child, head, []);
    } else {
      FoundDirHolds(EmptyDir(head), Inside(items, head), q[1..]);
    }
  }

  lemma FileEndsWalk<E>(node: Node<E>, q: Segments)
    ensures node.File? ==> Walk(node, q) == if q == [] then Some(node) else None
  {
  }

  lemma FirstChildIsDir<E>(children: seq<Node<E>>, name: bytes)
    ensures Child(children, name).Some? && Child(children, name).value.Dir? ==> DirNamed(children, name) == Child(children, name)
  {
    hide FirstNamed, FirstDir;
  }

  /** The cached index points at the last page of the items, and is None without one. */
  lemma {:induction false} IndexIsLastPage<E>(node: Node<E>, items: seq<Item<E>>)
    requires IsFresh(node)
    ensures var r := InsertAll(node, items);
            match LastPage(items)
            case None => r.index == None
            case Some(entry) => r.index.Some? && r.index.value < |r.children| && r.children[r.index.value] == File(INDEX_HTML, entry)
  {
    hide WithDir, IndexOf, InsertAt;
    if items != [] {
      var front, x := items[..|items| - 1], items[|items| - 1];
      IndexIsLastPage(node, front);
      InsertHere(InsertAll(node, front), x.entry, x.path);
      IndexHtmlHasNoSlash();
      WithDirKeeps(InsertAll(node, front).children, if IndexOf(x.path, SLASH).Some? then x.path[..IndexOf(x.path, SLASH).value] else []);
    }
  }

  lemma IndexHtmlHasNoSlash()
    ensures IndexOf(INDEX_HTML, SLASH) == None && InsertedAs(INDEX_HTML) == [INDEX_HTML]
  {
    assert SLASH !in INDEX_HTML;
  }

  lemma WithDirKeeps<E>(children: seq<Node<E>>, name: bytes)
    ensures children <= WithDir(children, name).0
  {
  }

  /** What the first child of a name is, by the first of the items called so. */
  lemma {:induction false} ChildIsFirstCalled<E>(node: Node<E>, items: seq<Item<E>>, name: bytes)
    requires IsFresh(node) && SLASH !in name
    ensures KindOf(Child(InsertAll(node, items).children, name)) == KindCalled(items, name)
  {
    hide WithDir, IndexOf, InsertAt, FirstNamed, InsertedAs;
    if items != [] {
      var front, x := items[..|items| - 1], items[|items| - 1];
      var before := InsertAll(node, front);
      ChildIsFirstCalled(node, front, name);
      InsertHere(before, x.entry, x.path);
      ByFirstSlash(x.path);
      match IndexOf(x.path, SLASH)
      case None =>
        ChildAppended(before.children, File(x.path, x.entry), name);
      case Some(sep) =>
        var (children, i) := WithDir(before.children, x.path[..sep]);
        var child := InsertAt(before, x.entry, x.path).children[i];
        ChildAfter(before.children, x.path[..sep], child, name);
        assert x.path != name by { assert x.path[sep] == SLASH; }
    }
  }

  lemma ChildAppended<E>(children: seq<Node<E>>, x: Node<E>, name: bytes)
    ensures Child(children + [x], name) ==
            if Child(children, name).Some? then Child(children, name) else if x.name == name then Some(x) else None
  {
    hide FirstNamed;
    var kids := children + [x];
    assert kids[|children|] == x && forall j :: 0 <= j < |children| ==> kids[j] == children[j];
  }

  // ---------- Before sorting ----------

  /**
   For every list, and every directory a path asks for in its unsorted tree: the answer is
   the last page listed in that directory, and a lookup of `index.html` finds the first
   child listed under that name. So the two agree exactly if no page is listed, or if what
   is listed first under its name is a page with the same entry.
   */
  lemma UnsortedIndexAgreesWhen<E(!new)>(items: seq<Item<E>>, path: bytes)
    requires AsksForDir(Build(items), path)
    ensures var tree, mine := Build(items), Under(items, SegmentsOf(path));
            var dir := Find(tree, path).value;
            && (forall e :: Resolve(tree, path) == Some(Entry(e)) <==> LastPage(mine) == Some(e))
            && KindAt(dir, [INDEX_HTML]) == KindCalled(mine, INDEX_HTML)
            && ((forall e :: Resolve(tree, path) == Some(Entry(e)) <==> KindAt(dir, [INDEX_HTML]) == AFile(e)) <==>
                LastPage(mine).None? || KindCalled(mine, INDEX_HTML) == AFile(LastPage(mine).value))
  {
    hide SegmentsOf, InsertAll, Under, FirstCalled, LastPage, KindCalled, Find;
    var tree, segments := Build(items), SegmentsOf(path);
    var mine := Under(items, segments);
    FindIsWalk(tree, path);
    BuildInsertsAll(items);
    var dir := Find(tree, path).value;
    var empty := DirOf(items, segments);
    IndexIsLastPage(empty, mine);
    IndexHtmlHasNoSlash();
    ChildIsFirstCalled(empty, mine, INDEX_HTML);
    assert [INDEX_HTML] + [] == [INDEX_HTML];
    KindBelow(dir, INDEX_HTML, []);
    KindOfChild(dir, INDEX_HTML);
    NoPageNoFile(mine);
  }

  /** The fresh directory that the items behind `q` went into. */
  lemma DirOf<E>(items: seq<Item<E>>, q: Segments) returns (empty: Node<E>)
    requires Walk(InsertAll(Root(), items), q).Some? && Walk(InsertAll(Root(), items), q).value.Dir?
    ensures IsFresh(empty) && Walk(InsertAll(Root(), items), q).value == InsertAll(empty, Under(items, q))
  {
    if q == [] {
      empty := Root();
    } else {
      empty := EmptyDir(q[|q| - 1]);
      FoundDirHolds(Root(), items, q);
    }
  }

  lemma KindOfChild<E>(dir: Node<E>, name: bytes)
    requires dir.Dir?
    ensures KindAt(dir, [name]) == KindOf(Child(dir.children, name))
  {
    WalkStep(dir, name, []);
    assert [name] + [] == [name];
    if Child(dir.children, name).Some? {
      WalkStep(Child(dir.children, name).value, name, []);
    }
  }

  /** What is found as a file under the page's name is a page listed there. */
  lemma {:induction false} NoPageNoFile<E>(items: seq<Item<E>>)
    ensures KindCalled(items, INDEX_HTML).AFile? ==> LastPage(items).Some?
  {
    if items != [] {
      NoPageNoFile(items[..|items| - 1]);
    }
  }
}
