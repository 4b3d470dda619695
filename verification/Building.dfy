/**
 Trees built from an archive's entries: what they hold, what sorting leaves alone, and
 that the order of the entries does not matter.
 */
module Building {
  import opened Bytes
  import opened FsTree
  import opened Lookup

  function Build<E>(items: seq<Item<E>>): (tree: Node<E>)
    ensures tree.Dir? && tree.isRoot
  {
    if items == [] then Root()
    else InsertAt(Build(items[..|items| - 1]), items[|items| - 1].entry, items[|items| - 1].path)
  }

  /** No two files share a path, and no file's path and a slash begin another entry's. */
  ghost predicate ConflictFree<E(!new)>(items: seq<Item<E>>) {
    && (forall x, y :: x in items && y in items && x != y && x.IsFile() ==> !Continues(x.path, y.path))
    && (forall x :: x in items && x.IsFile() ==> multiset(items)[x] == 1)
  }

  ghost predicate SaysNoFile<E(!new)>(items: seq<Item<E>>, q: Segments) {
    forall x :: x in items && x.IsFile() ==> x.Segs() != q
  }

  ghost predicate SaysDir<E(!new)>(items: seq<Item<E>>, q: Segments) {
    q == [] || exists x :: x in items && x.MakesDir(q)
  }

  /** The tree holds the files of the list and the directories above them, and nothing else. */
  lemma {:induction false} BuildHolds<E(!new)>(items: seq<Item<E>>, q: Segments)
    requires ConflictFree(items)
    ensures KindAt(Build(items), q).AFile? <==> !SaysNoFile(items, q)
    ensures forall x :: x in items && x.IsFile() && x.Segs() == q ==> KindAt(Build(items), q) == AFile(x.entry)
    ensures KindAt(Build(items), q).ADir? <==> SaysDir(items, q)
    decreases |items|
  {
    if items == [] {
      EmptyDirKinds<E>([], q);
    } else {
      var front, x := items[..|items| - 1], items[|items| - 1];
      LastFits(items, q);
      InsertUpdates(Build(front), x, q);
      BuildHolds(front, q);
      LastSays(items, q);
    }
  }

  /** What a list says, by its last entry. */
  lemma LastSays<E(!new)>(items: seq<Item<E>>, q: Segments)
    requires items != []
    ensures var front, x := items[..|items| - 1], items[|items| - 1];
            && (SaysDir(items, q) <==> SaysDir(front, q) || x.MakesDir(q))
            && (SaysNoFile(items, q) <==> SaysNoFile(front, q) && !(x.IsFile() && x.Segs() == q))
            && (forall y :: y in items <==> y in front || y == x)
  {
    hide Item.MakesDir, Item.IsFile, Item.Segs;
    var front, x := items[..|items| - 1], items[|items| - 1];
    assert items == front + [x];
    assert forall y :: y in items <==> y in front || y == x;
  }

  /** The last entry fits the tree of those before it. */
  lemma LastFits<E(!new)>(items: seq<Item<E>>, q: Segments)
    requires items != [] && ConflictFree(items)
    ensures var front, x := items[..|items| - 1], items[|items| - 1];
            && ConflictFree(front)
            && Fits(Build(front), x)
            && (x.IsFile() ==> !SaysDir(front, x.Segs()) && SaysNoFile(front, x.Segs()))
            && (x.MakesDir(q) ==> SaysNoFile(front, q))
    decreases |items|, 0
  {
    var front, x := items[..|items| - 1], items[|items| - 1];
    LastClear(items);
    ItemByHead(x);
    forall r
      ensures x.MakesDir(r) ==> !KindAt(Build(front), r).AFile?
      ensures x.IsFile() && r == x.Segs() ==> KindAt(Build(front), r) == Nothing
    {
      BuildHolds(front, r);
    }
  }

  /** No file stands where the last entry needs a directory, and nothing where it puts its file. */
  lemma LastClear<E(!new)>(items: seq<Item<E>>)
    requires items != [] && ConflictFree(items)
    ensures var front, x := items[..|items| - 1], items[|items| - 1];
            && ConflictFree(front)
            && (forall r :: x.MakesDir(r) ==> SaysNoFile(front, r))
            && (x.IsFile() ==> !SaysDir(front, x.Segs()) && SaysNoFile(front, x.Segs()))
  {
    var front, x := items[..|items| - 1], items[|items| - 1];
    ItemByHead(x);
    assert x.Segs() != [];
    forall y | y in front && y.IsFile()
      ensures Continues(y.path, x.path) <==> y.Segs() <= x.Segs()
    {
      ContinuesByNames(y.path, x.path);
    }
    forall y | y in front && x.IsFile()
      ensures Continues(x.path, y.path) <==> x.Segs() <= y.Segs()
    {
      ContinuesByNames(x.path, y.path);
    }
    hide Item.IsFile, Item.Segs, Continues;
    assert items == front + [x];
    assert multiset(items) == multiset(front) + multiset{x};
    assert forall y :: y in front ==> y in items && multiset(front)[y] >= 1;
    assert x.IsFile() ==> x !in front;
    assert forall y :: y in front && y.IsFile() ==> y != x && !(y.Segs() <= x.Segs());
  }

  /** Entries in another order describe the same files and directories. */
  lemma ReorderedDescribesSame<E(!new)>(a: seq<Item<E>>, b: seq<Item<E>>, q: Segments)
    requires multiset(a) == multiset(b) && ConflictFree(a)
    ensures ConflictFree(b)
    ensures KindAt(Build(a), q) == KindAt(Build(b), q)
  {
    forall x
      ensures x in a <==> x in b
    {
      assert x in a <==> x in multiset(a);
      assert x in b <==> x in multiset(b);
    }
    BuildHolds(a, q);
    BuildHolds(b, q);
    assert SaysDir(a, q) <==> SaysDir(b, q);
    if !SaysNoFile(a, q) {
      var x :| x in a && x.IsFile() && x.Segs() == q;
      assert KindAt(Build(b), q) == AFile(x.entry);
    }
  }

  /** Looking a path up in the tree finds a file exactly when the list has it, with its own entry. */
  lemma FindsExactlyTheFiles<E(!new)>(items: seq<Item<E>>, path: bytes, entry: E)
    requires ConflictFree(items)
    ensures (exists x :: x in items && x.IsFile() && x.Segs() == SegmentsOf(path) && x.entry == entry) <==>
            KindOf(Find(Build(items), path)) == AFile(entry)
    ensures KindOf(Find(Build(items), path)) == KindOf(Find(SortTree(Build(items)), path))
  {
    FindIsWalk(Build(items), path);
    BuildHolds(items, SegmentsOf(path));
    FindIsWalk(SortTree(Build(items)), path);
    SortedWalk(Build(items), SegmentsOf(path));
    if !SaysNoFile(items, SegmentsOf(path)) {
      var x :| x in items && x.IsFile() && x.Segs() == SegmentsOf(path);
      assert KindAt(Build(items), SegmentsOf(path)) == AFile(x.entry);
    }
  }

  lemma {:induction false} NoneEmpty(parts: seq<bytes>)
    ensures [] !in DropEmpty(parts)
    ensures [] !in parts ==> DropEmpty(parts) == parts
  {
    if parts != [] {
      NoneEmpty(parts[1..]);
    }
  }

  /** A listed file is found under its own path, unless a name in that path is empty: then no path leads to it. */
  lemma ListedFileIsFound<E(!new)>(items: seq<Item<E>>, x: Item<E>)
    requires ConflictFree(items) && x in items && x.IsFile()
    ensures [] !in x.Segs() ==>
              && KindOf(Find(Build(items), x.path)) == AFile(x.entry)
              && KindOf(Find(SortTree(Build(items)), x.path)) == AFile(x.entry)
    ensures [] in x.Segs() ==> forall path :: SegmentsOf(path) != x.Segs()
  {
    SegmentsAreNames(x.path);
    NoneEmpty(x.Segs());
    FindsExactlyTheFiles(items, x.path, x.entry);
    forall path | [] in x.Segs()
      ensures SegmentsOf(path) != x.Segs()
    {
      NoneEmpty(SplitAt(path, SLASH));
    }
  }

  // ---------- Sorting ----------

  function SortFound<E>(found: Option<Node<E>>): Option<Node<E>> {
    match found
    case None => None
    case Some(node) => Some(SortTree(node))
  }

  lemma {:induction false} ChildIsFirstOfNamed<E>(children: seq<Node<E>>, name: bytes)
    ensures Child(children, name) == if Named(children, name) == [] then None else Some(Named(children, name)[0])
  {
    if children != [] {
      NamedCons(children[0], children[1..], name);
      assert children == [children[0]] + children[1..];
      if children[0].name != name {
        ChildIsFirstOfNamed(children[1..], name);
      }
    }
  }

  lemma {:induction false} NamedOfSortEach<E>(children: seq<Node<E>>, name: bytes)
    ensures Named(SortEach(children), name) == SortEach(Named(children, name))
  {
    if children != [] {
      NamedOfSortEach(children[1..], name);
      NamedCons(children[0], children[1..], name);
      assert children == [children[0]] + children[1..];
      NamedCons(SortTree(children[0]), SortEach(children[1..]), name);
      assert SortEach(children) == [SortTree(children[0])] + SortEach(children[1..]);
      if children[0].name == name {
        var rest := Named(children[1..], name);
        assert ([children[0]] + rest)[1..] == rest;
      }
    }
  }

  lemma ChildOfSorted<E>(children: seq<Node<E>>, name: bytes)
    ensures Child(SortByName(SortEach(children)), name) == SortFound(Child(children, name))
  {
    ChildIsFirstOfNamed(SortByName(SortEach(children)), name);
    SortsStably(SortEach(children));
    NamedOfSortEach(children, name);
    ChildIsFirstOfNamed(children, name);
  }

  /** Sorting does not change what a walk finds, shadowed duplicates included. */
  lemma {:induction false} SortedWalk<E>(node: Node<E>, segments: Segments)
    ensures Walk(SortTree(node), segments) == SortFound(Walk(node, segments))
    decreases |segments|
  {
    if segments != [] && node.Dir? {
      ChildOfSorted(node.children, segments[0]);
      match Child(node.children, segments[0])
      case None =>
      case Some(child) => SortedWalk(child, segments[1..]);
    }
  }

  /** For every tree and path: what the sorted tree finds is what the tree found, sorted. */
  lemma SortedFind<E>(node: Node<E>, path: bytes)
    ensures Find(SortTree(node), path) == SortFound(Find(node, path))
  {
    FindIsWalk(node, path);
    FindIsWalk(SortTree(node), path);
    SortedWalk(node, SegmentsOf(path));
  }

  // ---------- What every reachable tree keeps ----------

  ghost predicate HasIndexFile<E>(children: seq<Node<E>>) {
    exists i :: 0 <= i < |children| && children[i].File? && children[i].name == INDEX_HTML
  }

  ghost predicate IndexKept<E>(children: seq<Node<E>>, index: Option<nat>) {
    && (index.Some? ==> index.value < |children| && children[index.value].name == INDEX_HTML)
    && (index.Some? <==> HasIndexFile(children))
  }

  ghost predicate DistinctDirs<E>(children: seq<Node<E>>) {
    forall i, j :: 0 <= i < j < |children| && children[i].Dir? && children[j].Dir? ==> children[i].name != children[j].name
  }

  /** The cached index is right, sibling directories have distinct names, only a root is marked root. */
  ghost predicate Kept<E>(node: Node<E>) {
    node.Dir? ==>
      && IndexKept(node.children, node.index)
      && DistinctDirs(node.children)
      && forall c :: c in node.children ==> Kept(c) && (c.Dir? ==> !c.isRoot)
  }

  lemma {:induction false} InsertKeeps<E>(node: Node<E>, entry: E, path: bytes)
    requires node.Dir? && Kept(node)
    ensures Kept(InsertAt(node, entry, path))
    decreases |path|
  {
    match IndexOf(path, SLASH)
    case None =>
      InsertFileKeeps(node, entry, path);
    case Some(sep) =>
      var head, tail := path[..sep], path[sep + 1..];
      var (children, i) := WithDir(node.children, head);
      assert Kept(children[i]) && !children[i].isRoot;
      if tail != [] {
        InsertKeeps(children[i], entry, tail);
      }
      var child := if tail == [] then children[i] else InsertAt(children[i], entry, tail);
      assert children[i := children[i]] == children;
      assert InsertAt(node, entry, path) == node.(children := children[i := child]);
      DirReplacedKeeps(node, head, child);
  }

  lemma InsertFileKeeps<E>(node: Node<E>, entry: E, path: bytes)
    requires node.Dir? && Kept(node) && IndexOf(path, SLASH).None?
    ensures Kept(InsertAt(node, entry, path))
  {
    var n, file := |node.children|, File(path, entry);
    var kids := node.children + [file];
    assert forall i :: 0 <= i < n ==> kids[i] == node.children[i];
    assert kids[n] == file && Kept(file);
    if HasIndexFile(node.children) {
      var i :| 0 <= i < n && node.children[i].File? && node.children[i].name == INDEX_HTML;
      assert kids[i].File? && kids[i].name == INDEX_HTML;
    }
    assert HasIndexFile(kids) <==> HasIndexFile(node.children) || path == INDEX_HTML;
    assert DistinctDirs(kids);
    assert forall c :: c in kids ==> c in node.children || c == file;
  }

  lemma DirReplacedKeeps<E>(node: Node<E>, head: bytes, child: Node<E>)
    requires node.Dir? && Kept(node)
    requires child.Dir? && child.name == head && Kept(child) && !child.isRoot
    ensures var (children, i) := WithDir(node.children, head);
            Kept(node.(children := children[i := child]))
  {
    var (children, i) := WithDir(node.children, head);
    var kids := children[i := child];
    assert forall j :: 0 <= j < |node.children| && j != i ==> kids[j] == node.children[j];
    IndexFileStays(node.children, kids, i);
    forall c | c in kids
      ensures Kept(c) && (c.Dir? ==> !c.isRoot)
    {
      var j :| 0 <= j < |kids| && kids[j] == c;
      assert j != i ==> c in node.children;
    }
  }

  /** Replacing or adding a directory leaves the index page where it was. */
  lemma IndexFileStays<E>(before: seq<Node<E>>, after: seq<Node<E>>, i: nat)
    requires i < |after| && |before| <= |after| <= |before| + 1 && after[i].Dir?
    requires i < |before| ==> before[i].Dir? && before[i].name == after[i].name && |before| == |after|
    requires i >= |before| ==> i == |before|
    requires forall j :: 0 <= j < |before| && j != i ==> after[j] == before[j]
    ensures forall index :: IndexKept(before, index) ==> IndexKept(after, index)
  {
    if HasIndexFile(before) {
      var j :| 0 <= j < |before| && before[j].File? && before[j].name == INDEX_HTML;
      assert after[j] == before[j];
    }
    if HasIndexFile(after) {
      var j :| 0 <= j < |after| && after[j].File? && after[j].name == INDEX_HTML;
      assert after[j] == before[j];
    }
  }

  lemma {:induction false} BuildKeeps<E>(items: seq<Item<E>>)
    ensures Kept(Build(items))
  {
    if items != [] {
      BuildKeeps(items[..|items| - 1]);
      InsertKeeps(Build(items[..|items| - 1]), items[|items| - 1].entry, items[|items| - 1].path);
    }
  }

  /** Sorting keeps it all, and points the index at the first child of that name. */
  lemma {:induction false} SortKeeps<E>(node: Node<E>)
    requires Kept(node)
    ensures Kept(SortTree(node))
    decreases node
  {
    if node.Dir? {
      var each := SortEach(node.children);
      var sorted := SortByName(each);
      SortsStably(each);
      forall c | c in sorted
        ensures Kept(c) && (c.Dir? ==> !c.isRoot)
      {
        assert c in multiset(each);
        var i :| 0 <= i < |each| && each[i] == c;
        SortKeeps(node.children[i]);
      }
      SortedHasIndexFile(node.children);
      SortedDirsDistinct(each);
      var first := FirstNamed(sorted, INDEX_HTML);
      if first.None? {
        assert !HasIndexFile(sorted);
      }
    }
  }

  lemma SortedHasIndexFile<E>(children: seq<Node<E>>)
    ensures HasIndexFile(SortByName(SortEach(children))) <==> HasIndexFile(children)
  {
    var each := SortEach(children);
    var sorted := SortByName(each);
    SortsStably(each);
    if HasIndexFile(children) {
      var i :| 0 <= i < |children| && children[i].File? && children[i].name == INDEX_HTML;
      assert each[i] in multiset(sorted);
    }
    if HasIndexFile(sorted) {
      var i :| 0 <= i < |sorted| && sorted[i].File? && sorted[i].name == INDEX_HTML;
      assert sorted[i] in multiset(each);
      var j :| 0 <= j < |each| && each[j] == sorted[i];
      assert children[j].File? && children[j].name == INDEX_HTML;
    }
  }

  function DirsNamed<E>(nodes: seq<Node<E>>): nat {
    if nodes == [] then 0 else (if nodes[0].Dir? then 1 else 0) + DirsNamed(nodes[1..])
  }

  lemma {:induction false} NoDirNamed<E>(children: seq<Node<E>>, name: bytes)
    ensures DirsNamed(Named(children, name)) == 0 <==> forall i :: 0 <= i < |children| && children[i].name == name ==> children[i].File?
  {
    if children != [] {
      NoDirNamed(children[1..], name);
      NamedCons(children[0], children[1..], name);
      assert children == [children[0]] + children[1..];
      assert ([children[0]] + Named(children[1..], name))[1..] == Named(children[1..], name);
      assert forall i :: 1 <= i < |children| ==> children[i] == children[1..][i - 1];
    }
  }

  ghost predicate OneDirAtMost<E>(children: seq<Node<E>>, name: bytes) {
    DirsNamed(Named(children, name)) <= 1
  }

  /** Distinct directory names, told by what stands under each name. */
  lemma {:induction false} DistinctDirsCounted<E>(children: seq<Node<E>>)
    ensures DistinctDirs(children) <==> forall name :: OneDirAtMost(children, name)
  {
    if children != [] {
      var x, rest := children[0], children[1..];
      DistinctDirsCounted(rest);
      DistinctDirsCons(x, rest);
      assert children == [x] + rest;
      forall name
        ensures DirsNamed(Named(children, name)) ==
                (if x.Dir? && x.name == name then 1 else 0) + DirsNamed(Named(rest, name))
      {
        NamedCons(x, rest, name);
        assert ([x] + Named(rest, name))[1..] == Named(rest, name);
      }
      NoDirNamed(rest, x.name);
      if x.Dir? && DirsNamed(Named(rest, x.name)) > 0 {
        assert !OneDirAtMost(children, x.name);
      }
      if DistinctDirs(children) {
        forall name
          ensures OneDirAtMost(children, name)
        {
          assert OneDirAtMost(rest, name);
        }
      } else if DistinctDirs(rest) {
        assert !OneDirAtMost(children, x.name);
      } else {
        var name :| !OneDirAtMost(rest, name);
        assert !OneDirAtMost(children, name);
      }
    }
  }

  lemma DistinctDirsCons<E>(x: Node<E>, rest: seq<Node<E>>)
    ensures DistinctDirs([x] + rest) <==>
            DistinctDirs(rest) && (x.Dir? ==> forall i :: 0 <= i < |rest| && rest[i].name == x.name ==> rest[i].File?)
  {
    var all := [x] + rest;
    assert forall i :: 0 <= i < |rest| ==> all[i + 1] == rest[i];
    if DistinctDirs(all) {
      forall i, j | 0 <= i < j < |rest| && rest[i].Dir? && rest[j].Dir?
        ensures rest[i].name != rest[j].name
      {
        assert all[i + 1].name != all[j + 1].name;
      }
      forall i | 0 <= i < |rest| && rest[i].name == x.name && x.Dir?
        ensures rest[i].File?
      {
        assert all[0].Dir? && all[i + 1].name == all[0].name;
      }
    }
  }

  lemma SortedDirsDistinct<E>(each: seq<Node<E>>)
    ensures DistinctDirs(SortByName(each)) <==> DistinctDirs(each)
  {
    SortsStably(each);
    DistinctDirsCounted(each);
    DistinctDirsCounted(SortByName(each));
    assert forall name :: OneDirAtMost(each, name) <==> OneDirAtMost(SortByName(each), name);
  }
}
