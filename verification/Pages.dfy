/** What `resolve` answers for directories: index pages and redirects. */
module Pages {
  import opened Bytes
  import opened FsTree
  import opened Lookup
  import opened Building

  /** A path that asks for the directory it finds, not for a redirect to it. */
  predicate AsksForDir<E>(tree: Node<E>, path: bytes) {
    && Find(tree, path).Some?
    && Find(tree, path).value.Dir?
    && (EndsInSlash(path) || Find(tree, path).value.isRoot)
  }

  lemma {:induction false} WalkStaysKept<E>(node: Node<E>, segments: Segments)
    requires Kept(node)
    ensures Walk(node, segments).Some? ==> Kept(Walk(node, segments).value)
    ensures Walk(node, segments).Some? && segments != [] && Walk(node, segments).value.Dir? ==> !Walk(node, segments).value.isRoot
    ensures Walk(node, segments).Some? && segments != [] ==> Walk(node, segments).value.name == segments[|segments| - 1]
    decreases |segments|
  {
    if segments != [] && node.Dir? {
      match Child(node.children, segments[0])
      case None =>
      case Some(child) => WalkStaysKept(child, segments[1..]);
    }
  }

  /**
   In a tree built from entries and sorted, a directory asked for as such is answered by an
   entry exactly when looking up `index.html` in it finds that very file.
   */
  lemma IndexPageAgrees<E>(items: seq<Item<E>>, path: bytes, entry: E)
    requires AsksForDir(SortTree(Build(items)), path)
    ensures var tree := SortTree(Build(items));
            Resolve(tree, path) == Some(Entry(entry)) <==>
            KindAt(Find(tree, path).value, [INDEX_HTML]) == AFile(entry)
  {
    var tree := SortTree(Build(items));
    BuildKeeps(items);
    FindIsWalk(tree, path);
    FindIsWalk(Build(items), path);
    SortedWalk(Build(items), SegmentsOf(path));
    WalkStaysKept(Build(items), SegmentsOf(path));
    SortedIndexAgrees(Walk(Build(items), SegmentsOf(path)).value, entry);
  }

  /** In a sorted directory, the cached index is that of the child a lookup finds. */
  lemma SortedIndexAgrees<E>(dir: Node<E>, entry: E)
    requires dir.Dir? && Kept(dir)
    ensures var sorted := SortTree(dir);
            && (KindAt(sorted, [INDEX_HTML]) == AFile(entry) <==>
                sorted.index.Some? && sorted.children[sorted.index.value].File? && sorted.children[sorted.index.value].entry == entry)
            && Kept(sorted)
  {
    var sorted := SortTree(dir);
    SortKeeps(dir);
    assert [INDEX_HTML] + [] == [INDEX_HTML];
    KindBelow(sorted, INDEX_HTML, []);
    SortedHasIndexFile(dir.children);
    if KindAt(sorted, [INDEX_HTML]) == AFile(entry) {
      var i := FirstNamed(sorted.children, INDEX_HTML).value;
      assert sorted.children[i].File? && sorted.children[i].name == INDEX_HTML;
      assert HasIndexFile(sorted.children);
    }
  }

  lemma InsertIndexPage<E>(node: Node<E>, entry: E)
    requires node.Dir?
    ensures InsertAt(node, entry, INDEX_HTML) ==
            node.(children := node.children + [File(INDEX_HTML, entry)], index := Some(|node.children|))
  {
    assert SLASH !in INDEX_HTML;
  }

  /** Before sorting this fails: of two index pages the cache keeps the last, a lookup finds the first. */
  lemma UnsortedIndexMayDisagree<E>(a: E, b: E)
    ensures var tree := Build([Item(INDEX_HTML, a), Item(INDEX_HTML, b)]);
            && Resolve(tree, [SLASH]) == Some(Entry(b))
            && KindAt(tree, [INDEX_HTML]) == AFile(a)
  {
    hide InsertAt;
    var first, second := Item(INDEX_HTML, a), Item(INDEX_HTML, b);
    assert Build([first][..0]) == Root<E>();
    InsertIndexPage(Root<E>(), a);
    assert [first, second][..1] == [first];
    InsertIndexPage(Build([first]), b);
    var tree := Build([first, second]);
    assert tree.children == [File(INDEX_HTML, a), File(INDEX_HTML, b)] && tree.index == Some(1);
    assert [INDEX_HTML] + [] == [INDEX_HTML];
    KindBelow(tree, INDEX_HTML, []);
    assert FirstNamed(tree.children, INDEX_HTML) == Some(0);
  }

  // ---------- Redirects ----------

  /** The last part of a path is what stands behind its last slash. */
  lemma {:induction false} LastPart(path: bytes)
    ensures var parts := SplitAt(path, SLASH);
            var last := parts[|parts| - 1];
            && SLASH !in last
            && |last| <= |path| && path[|path| - |last|..] == last
            && (|last| < |path| ==> path[|path| - |last| - 1] == SLASH)
    decreases |path|
  {
    hide SplitAt, IndexOf;
    match IndexOf(path, SLASH)
    case None =>
      SplitAtWhole(path, SLASH);
    case Some(sep) =>
      var head, tail := path[..sep], path[sep + 1..];
      assert path == head + [SLASH] + tail;
      SplitAtJoins(head, SLASH, tail);
      LastPart(tail);
      var parts, tails := SplitAt(path, SLASH), SplitAt(tail, SLASH);
      var last := tails[|tails| - 1];
      assert parts == SplitAt(head, SLASH) + tails;
      assert parts[|parts| - 1] == last;
      assert path[|path| - |last|..] == tail[|tail| - |last|..];
      assert |last| < |tail| ==> path[|path| - |last| - 1] == tail[|tail| - |last| - 1];
  }

  lemma {:induction false} DropEmptyLast(parts: seq<bytes>)
    requires parts != [] && parts[|parts| - 1] != []
    ensures DropEmpty(parts) != [] && DropEmpty(parts)[|DropEmpty(parts)| - 1] == parts[|parts| - 1]
  {
    if |parts| > 1 {
      DropEmptyLast(parts[1..]);
    }
  }

  /** A trailing slash changes nothing about where a path leads. */
  lemma SlashAddsNoSegment(path: bytes)
    ensures SegmentsOf(path + [SLASH]) == SegmentsOf(path)
  {
    assert path + [SLASH] == path + [SLASH] + [];
    SplitAtJoins(path, SLASH, []);
    DropEmptyDistributes(SplitAt(path, SLASH), SplitAt([], SLASH));
    assert DropEmpty([[]]) == DropEmpty([]) == [];
  }

  /**
   A redirect names the path's last segment, and the path with that segment replaced by
   itself and a slash finds the same directory, which is not redirected again.
   */
  lemma RedirectSettles<E>(root: Node<E>, path: bytes)
    requires root.Dir? && root.isRoot && Kept(root)
    requires Resolve(root, path).Some? && Resolve(root, path).value.Redirect?
    ensures var name := Resolve(root, path).value.name;
            && name != [] && SLASH !in name
            && |name| <= |path|
            && path[|path| - |name|..] == name
            && (|name| < |path| ==> path[|path| - |name| - 1] == SLASH)
            && var to := path[..|path| - |name|] + name + [SLASH];
               && Find(root, to) == Find(root, path)
               && Resolve(root, to).Some? && !Resolve(root, to).value.Redirect?
  {
    hide Resolve, Find, Walk, SplitAt, Kept, SegmentsOf;
    ResolvesToRedirect(root, path);
    FindIsWalk(root, path);
    WalkStaysKept(root, SegmentsOf(path));
    LastSegment(path);
    var name := Resolve(root, path).value.name;
    var to := path[..|path| - |name|] + name + [SLASH];
    assert to == path + [SLASH];
    SlashAddsNoSegment(path);
    FindIsWalk(root, to);
    ResolvesDirPath(root, to);
  }

  /** When `resolve` redirects, and when it does not. */
  lemma ResolvesToRedirect<E>(root: Node<E>, path: bytes)
    requires Resolve(root, path).Some? && Resolve(root, path).value.Redirect?
    ensures Find(root, path).Some? && Find(root, path).value.Dir? && !Find(root, path).value.isRoot && !EndsInSlash(path)
    ensures Find(root, path).value.name == Resolve(root, path).value.name
    ensures root.Dir? && root.isRoot ==> SegmentsOf(path) != []
  {
    FindIsWalk(root, path);
  }

  lemma ResolvesDirPath<E>(root: Node<E>, path: bytes)
    requires Find(root, path).Some? && Find(root, path).value.Dir? && EndsInSlash(path)
    ensures Resolve(root, path).Some? && !Resolve(root, path).value.Redirect?
  {
  }

  /** Without a trailing slash, the last segment is what the path ends in. */
  lemma LastSegment(path: bytes)
    requires !EndsInSlash(path) && SegmentsOf(path) != []
    ensures var name := SegmentsOf(path)[|SegmentsOf(path)| - 1];
            && name != [] && SLASH !in name
            && |name| <= |path| && path[|path| - |name|..] == name
            && (|name| < |path| ==> path[|path| - |name| - 1] == SLASH)
  {
    var parts := SplitAt(path, SLASH);
    LastPart(path);
    assert path != [];
    DropEmptyLast(parts);
  }
}
