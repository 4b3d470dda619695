/** What a path is answered with, told from the archive's list of entries alone. */
module Answers {
  import opened Bytes
  import opened FsTree
  import opened Lookup
  import opened Building
  import opened Canonical
  import opened Pages
  import Names

  /** The tree requests are answered from. */
  function Published<E>(items: seq<Item<E>>): Node<E> {
    SortTree(Build(items))
  }

  lemma {:induction false} WalkJoins<E>(node: Node<E>, a: Segments, b: Segments)
    ensures Walk(node, a + b) == match Walk(node, a)
                                 case None => None
                                 case Some(found) => Walk(found, b)
    decreases |a|
  {
    if a == [] {
      assert a + b == b;
    } else if node.Dir? {
      assert (a + b)[1..] == a[1..] + b;
      match Child(node.children, a[0])
      case None =>
      case Some(child) => WalkJoins(child, a[1..], b);
    }
  }

  lemma {:induction false} WalkStaysCanonical<E>(node: Node<E>, segments: Segments)
    requires CanonicalTree(node)
    ensures Walk(node, segments).Some? ==> CanonicalTree(Walk(node, segments).value)
    decreases |segments|
  {
    if segments != [] && node.Dir? {
      match Child(node.children, segments[0])
      case None =>
      case Some(child) => WalkStaysCanonical(child, segments[1..]);
    }
  }

  /** What stands at `q` in the tree, by the list. */
  lemma PublishedHolds<E(!new)>(items: seq<Item<E>>, q: Segments)
    requires ConflictFree(items)
    ensures KindAt(Published(items), q).ADir? <==> SaysDir(items, q)
    ensures KindAt(Published(items), q) == Nothing <==> SaysNoFile(items, q) && !SaysDir(items, q)
    ensures forall e :: KindAt(Published(items), q) == AFile(e) <==> exists x :: x in items && x.IsFile() && x.Segs() == q && x.entry == e
  {
    BuildHolds(items, q);
    SortedKind(Build(items), q);
    if !SaysNoFile(items, q) {
      var x :| x in items && x.IsFile() && x.Segs() == q;
      assert KindAt(Published(items), q) == AFile(x.entry);
    }
  }

  /** The node a path finds. */
  lemma FoundIs<E(!new)>(items: seq<Item<E>>, path: bytes)
    requires ConflictFree(items)
    ensures var found, segments := Find(Published(items), path), SegmentsOf(path);
            && KindOf(found) == KindAt(Published(items), segments)
            && (found.Some? ==> CanonicalTree(found.value))
            && (found.Some? && found.value.Dir? ==> (found.value.isRoot <==> segments == []))
            && (found.Some? && segments != [] ==> found.value.name == segments[|segments| - 1])
            && (found.Some? ==> forall n :: KindAt(found.value, [n]) == KindAt(Published(items), segments + [n]))
  {
    hide SegmentsOf, Walk, Find, ConflictFree, Kept, Unique, CanonicalTree;
    var tree, segments := Published(items), SegmentsOf(path);
    FindIsWalk(tree, path);
    BuildKeeps(items);
    SortKeeps(Build(items));
    WalkStaysKept(tree, segments);
    BuildStaysUnique(items);
    SortedIsCanonical(Build(items));
    WalkStaysCanonical(tree, segments);
    WalkNothing(tree);
    forall n | Find(tree, path).Some?
      ensures KindAt(Find(tree, path).value, [n]) == KindAt(tree, segments + [n])
    {
      WalkJoins(tree, segments, [n]);
    }
  }

  lemma WalkNothing<E>(node: Node<E>)
    ensures Walk(node, []) == Some(node)
  {
  }

  /** The path asks for a directory itself, so that its index page may answer. */
  predicate AsksInside(path: bytes) {
    EndsInSlash(path) || SegmentsOf(path) == []
  }

  /** The list has this file at the path, or as the index page of the directory the path asks for. */
  ghost predicate HasFileFor<E(!new)>(items: seq<Item<E>>, path: bytes, entry: E) {
    exists x :: x in items && x.IsFile() && x.entry == entry
             && (x.Segs() == SegmentsOf(path) || (AsksInside(path) && x.Segs() == SegmentsOf(path) + [INDEX_HTML]))
  }

  /** Which paths are answered by an entry, which by a redirect and to where, and which by nothing. */
  lemma AnsweredByList<E(!new)>(items: seq<Item<E>>, path: bytes)
    requires ConflictFree(items)
    ensures var answer, segments := Resolve(Published(items), path), SegmentsOf(path);
            && (forall e :: answer == Some(Entry(e)) <==> HasFileFor(items, path, e))
            && (forall name :: answer == Some(Redirect(name)) <==>
                  SaysDir(items, segments) && !AsksInside(path) && name == segments[|segments| - 1])
            && (answer == None <==> SaysNoFile(items, segments) && !SaysDir(items, segments))
  {
    hide SegmentsOf, Find, ConflictFree, CanonicalTree, SaysNoFile, SaysDir, Item.IsFile, Published;
    var tree, segments := Published(items), SegmentsOf(path);
    FoundIs(items, path);
    PublishedHolds(items, segments);
    PublishedHolds(items, segments + [INDEX_HTML]);
    Something(items, segments);
    if Find(tree, path).Some? && Find(tree, path).value.Dir? {
      IndexIsFile(Find(tree, path).value);
    }
    forall e
      ensures Resolve(tree, path) == Some(Entry(e)) <==> HasFileFor(items, path, e)
    {
      assert HasFileFor(items, path, e) <==>
             || KindAt(tree, segments) == AFile(e)
             || (AsksInside(path) && KindAt(tree, segments + [INDEX_HTML]) == AFile(e));
    }
  }

  /** The index page of a canonical directory is the file a lookup of `index.html` finds. */
  lemma IndexIsFile<E(!new)>(dir: Node<E>)
    requires dir.Dir? && CanonicalTree(dir)
    ensures dir.index.Some? ==> dir.index.value < |dir.children| && dir.children[dir.index.value].File?
    ensures forall e :: KindAt(dir, [INDEX_HTML]) == AFile(e) <==> dir.index.Some? && dir.children[dir.index.value].entry == e
  {
    assert [INDEX_HTML] + [] == [INDEX_HTML];
    KindBelow(dir, INDEX_HTML, []);
  }

  ghost predicate Shows<E>(children: seq<Node<E>>, name: bytes) {
    exists c :: c in children && c.name == name
  }

  /** Some entry stands at `q` or below it. */
  ghost predicate GoesThrough<E(!new)>(items: seq<Item<E>>, q: Segments) {
    exists x :: x in items && q <= x.Segs()
  }

  /** A listing shows exactly the next segments of the entries below its path, each once and in order. */
  lemma ListedByList<E(!new)>(items: seq<Item<E>>, path: bytes, isRoot: bool, children: seq<Node<E>>)
    requires ConflictFree(items) && Resolve(Published(items), path) == Some(Listing(isRoot, children))
    ensures var segments := SegmentsOf(path);
            && (isRoot <==> segments == [])
            && StrictlySorted(children)
            && (forall n :: Shows(children, n) <==> GoesThrough(items, segments + [n]))
            && (forall c :: c in children ==> (c.Dir? <==> SaysDir(items, segments + [c.name])))
  {
    hide SegmentsOf, Find, ConflictFree, Published, Walk;
    var tree, segments := Published(items), SegmentsOf(path);
    FoundIs(items, path);
    var dir := Find(tree, path).value;
    forall n
      ensures Shows(children, n) <==> GoesThrough(items, segments + [n])
      ensures forall c :: c in children && c.name == n ==> (c.Dir? <==> SaysDir(items, segments + [n]))
    {
      PublishedHolds(items, segments + [n]);
      ChildIsKind(dir, n);
      Something(items, segments + [n]);
    }
  }

  lemma Something<E(!new)>(items: seq<Item<E>>, q: Segments)
    ensures q != [] ==> (!(SaysNoFile(items, q) && !SaysDir(items, q)) <==> GoesThrough(items, q))
    ensures forall x, n :: x in items && x.Segs() == q + [n] ==> SaysDir(items, q)
  {
    forall x, n | x in items && x.Segs() == q + [n]
      ensures SaysDir(items, q)
    {
      assert x.MakesDir(q);
    }
    if x :| x in items && q <= x.Segs() {
      assert x.MakesDir(q) || (x.IsFile() && x.Segs() == q);
    }
  }

  /** What a strictly sorted directory holds under a name is its child of that name. */
  lemma ChildIsKind<E>(dir: Node<E>, n: bytes)
    requires dir.Dir? && CanonicalTree(dir)
    ensures KindAt(dir, [n]) != Nothing <==> Shows(dir.children, n)
    ensures forall c :: c in dir.children && c.name == n ==> (c.Dir? <==> KindAt(dir, [n]).ADir?)
  {
    assert [n] + [] == [n];
    KindBelow(dir, n, []);
    forall i, j | 0 <= i < j < |dir.children|
      ensures dir.children[i].name != dir.children[j].name
    {
      Names.LessIsIrreflexive(dir.children[i].name);
    }
    forall c | c in dir.children && c.name == n
      ensures Child(dir.children, n) == Some(c)
    {
      var i :| 0 <= i < |dir.children| && dir.children[i] == c;
      var j := FirstNamed(dir.children, n).value;
    }
  }

  // ---------- No entry from nowhere ----------

  /** Every entry in the tree passes `ok`. */
  ghost predicate AllPass<E>(node: Node<E>, ok: E -> bool) {
    match node
    case File(_, entry) => ok(entry)
    case Dir(_, children, _, _) => forall c :: c in children ==> AllPass(c, ok)
  }

  lemma {:induction false} InsertPasses<E>(node: Node<E>, entry: E, path: bytes, ok: E -> bool)
    requires node.Dir? && AllPass(node, ok) && ok(entry)
    ensures AllPass(InsertAt(node, entry, path), ok)
    decreases |path|
  {
    match IndexOf(path, SLASH)
    case None =>
      assert AllPass(File(path, entry), ok);
    case Some(sep) =>
      var (children, i) := WithDir(node.children, path[..sep]);
      assert forall c :: c in children ==> AllPass(c, ok);
      if path[sep + 1..] != [] {
        InsertPasses(children[i], entry, path[sep + 1..], ok);
      }
  }

  lemma {:induction false} SortPasses<E>(node: Node<E>, ok: E -> bool)
    requires AllPass(node, ok)
    ensures AllPass(SortTree(node), ok)
    decreases node
  {
    if node.Dir? {
      var each := SortEach(node.children);
      SortsStably(each);
      forall c | c in SortByName(each)
        ensures AllPass(c, ok)
      {
        assert c in multiset(each);
        var i :| 0 <= i < |each| && each[i] == c;
        SortPasses(node.children[i], ok);
      }
    }
  }

  lemma {:induction false} FindPasses<E>(node: Node<E>, path: bytes, ok: E -> bool)
    requires AllPass(node, ok)
    ensures Find(node, path).Some? ==> AllPass(Find(node, path).value, ok)
    decreases |path|
  {
    if path != [] && path != [SLASH] {
      var (head, tail) := match IndexOf(path, SLASH)
        case Some(sep) => (path[..sep], path[sep + 1..])
        case None => (path, []);
      if head == [] {
        FindPasses(node, tail, ok);
      } else if node.Dir? && FirstNamed(node.children, head).Some? {
        FindPasses(node.children[FirstNamed(node.children, head).value], tail, ok);
      }
    }
  }

  lemma {:induction false} BuildPasses<E>(items: seq<Item<E>>, ok: E -> bool)
    requires forall i :: 0 <= i < |items| ==> ok(items[i].entry)
    ensures AllPass(Build(items), ok)
  {
    if items != [] {
      BuildPasses(items[..|items| - 1], ok);
      InsertPasses(Build(items[..|items| - 1]), items[|items| - 1].entry, items[|items| - 1].path, ok);
    }
  }

  /** Whatever the archive, conflicts or not, a path is only answered with an entry of its list. */
  lemma AnswersPass<E>(items: seq<Item<E>>, path: bytes, ok: E -> bool)
    requires forall i :: 0 <= i < |items| ==> ok(items[i].entry)
    ensures var answer := Resolve(Published(items), path); answer.Some? && answer.value.Entry? ==> ok(answer.value.entry)
  {
    BuildPasses(items, ok);
    SortPasses(Build(items), ok);
    FindPasses(Published(items), path, ok);
    match Find(Published(items), path)
    case None =>
    case Some(File(_, _)) =>
    case Some(Dir(_, children, _, index)) =>
      assert index.Some? && index.value < |children| ==> AllPass(children[index.value], ok);
  }
}
