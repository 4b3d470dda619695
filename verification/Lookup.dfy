/**
 What `find` answers: a walk over the nonempty segments of the path, a map of the inserted
 paths, and the same after sorting.
 */
module Lookup {
  import opened Bytes
  import opened FsTree

  type Segments = seq<bytes>

  function DropEmpty(parts: seq<bytes>): Segments {
    if parts == [] then []
    else (if parts[0] == [] then [] else [parts[0]]) + DropEmpty(parts[1..])
  }

  function SegmentsOf(path: bytes): Segments {
    DropEmpty(SplitAt(path, SLASH))
  }

  /** The first child called `name`. */
  function Child<E>(children: seq<Node<E>>, name: bytes): (child: Option<Node<E>>)
    ensures child.None? <==> forall i :: 0 <= i < |children| ==> children[i].name != name
    ensures child.Some? ==> child.value in children && child.value.name == name
  {
    match FirstNamed(children, name)
    case None => None
    case Some(i) => Some(children[i])
  }

  /** From `node` down, one child for each name. */
  function Walk<E>(node: Node<E>, segments: Segments): Option<Node<E>>
    decreases |segments|
  {
    if segments == [] then Some(node)
    else if node.File? then None
    else match Child(node.children, segments[0])
      case None => None
      case Some(child) => Walk(child, segments[1..])
  }

  lemma {:induction false} DropEmptyDistributes(a: seq<bytes>, b: seq<bytes>)
    ensures DropEmpty(a + b) == DropEmpty(a) + DropEmpty(b)
  {
    if a == [] {
      assert a + b == b;
    } else {
      var first := if a[0] == [] then [] else [a[0]];
      DropEmptyDistributes(a[1..], b);
      assert (a + b)[1..] == a[1..] + b;
      assert first + DropEmpty(a[1..] + b) == (first + DropEmpty(a[1..])) + DropEmpty(b);
    }
  }

  /** The segments of a path, by its first slash. */
  lemma SegmentsByHead(path: bytes)
    ensures match IndexOf(path, SLASH)
            case Some(sep) =>
              SegmentsOf(path) == (if sep == 0 then [] else [path[..sep]]) + SegmentsOf(path[sep + 1..])
            case None => SegmentsOf(path) == if path == [] then [] else [path]
  {
    match IndexOf(path, SLASH)
    case Some(sep) =>
      var head, tail := path[..sep], path[sep + 1..];
      assert path == head + [SLASH] + tail;
      SplitAtJoins(head, SLASH, tail);
      SplitAtWhole(head, SLASH);
      DropEmptyDistributes([head], SplitAt(tail, SLASH));
      assert DropEmpty([head]) == if head == [] then [] else [head];
    case None =>
      SplitAtWhole(path, SLASH);
      assert DropEmpty([path]) == if path == [] then [] else [path];
  }

  lemma WalkStep<E>(node: Node<E>, head: bytes, q: Segments)
    ensures Walk(node, []) == Some(node)
    ensures Walk(node, [head] + q) == if node.File? || Child(node.children, head).None? then None
                                      else Walk(Child(node.children, head).value, q)
  {
    assert ([head] + q)[1..] == q;
  }

  /** One step of `find`. */
  lemma FindStep<E>(node: Node<E>, path: bytes)
    ensures match IndexOf(path, SLASH)
            case None =>
              Find(node, path) == if path == [] then Some(node) else if node.File? then None else Child(node.children, path)
            case Some(sep) =>
              var tail := path[sep + 1..];
              Find(node, path) == if sep == 0 then Find(node, tail)
                                  else if node.File? || Child(node.children, path[..sep]).None? then None
                                  else Find(Child(node.children, path[..sep]).value, tail)
  {
    hide IndexOf, FirstNamed;
    if path == [SLASH] {
      assert IndexOf(path, SLASH) == Some(0) && path[1..] == [];
    }
  }

  /** `find` is the walk over the nonempty segments. */
  lemma {:induction false} FindIsWalk<E>(node: Node<E>, path: bytes)
    ensures Find(node, path) == Walk(node, SegmentsOf(path))
    decreases |path|
  {
    hide SegmentsOf, IndexOf, Walk, Find, Child;
    SegmentsByHead(path);
    FindStep(node, path);
    match IndexOf(path, SLASH)
    case Some(sep) =>
      var head, tail := path[..sep], path[sep + 1..];
      WalkStep(node, head, SegmentsOf(tail));
      if sep == 0 {
        assert [] + SegmentsOf(tail) == SegmentsOf(tail);
        FindIsWalk(node, tail);
      } else if node.Dir? && Child(node.children, head).Some? {
        FindIsWalk(Child(node.children, head).value, tail);
      }
    case None =>
      WalkStep(node, path, []);
      assert [path] + [] == [path];
      if node.Dir? && Child(node.children, path).Some? {
        WalkStep(Child(node.children, path).value, path, []);
      }
  }

  // ---------- The tree as a map of paths ----------

  datatype Kind<+E> = Nothing | ADir | AFile(entry: E)

  function KindOf<E>(found: Option<Node<E>>): Kind<E> {
    match found
    case None => Nothing
    case Some(Dir(_, _, _, _)) => ADir
    case Some(File(_, entry)) => AFile(entry)
  }

  function KindAt<E>(node: Node<E>, segments: Segments): Kind<E> {
    KindOf(Walk(node, segments))
  }

  /** The names a path is inserted under: what stands between its slashes, empty or not, but nothing behind a trailing one. */
  function InsertedAs(path: bytes): (names: Segments)
    ensures names != []
    decreases |path|, 0
  {
    match IndexOf(path, SLASH)
    case None => [path]
    case Some(sep) => [path[..sep]] + NamesBehind(path[sep + 1..])
  }

  /** The names behind a directory's own. */
  function NamesBehind(tail: bytes): Segments
    decreases |tail|, 1
  {
    if tail == [] then [] else InsertedAs(tail)
  }

  /** An archive entry: the path it is inserted under and what it is. */
  datatype Item<+E> = Item(path: bytes, entry: E)
  {
    function Segs(): Segments {
      InsertedAs(path)
    }

    predicate IsFile() {
      !EndsInSlash(path)
    }

    /** Whether inserting this makes `q` a directory. */
    predicate MakesDir(q: Segments) {
      q <= Segs() && (q != Segs() || !IsFile())
    }
  }

  /** `y` is the path `x` itself, or continues behind it and a slash. */
  predicate Continues(x: bytes, y: bytes) {
    x == y || x + [SLASH] <= y
  }

  /** Nothing without a slash continues anything else. */
  lemma ContinuesPlain(x: bytes, y: bytes)
    requires SLASH !in y
    ensures Continues(x, y) <==> x == y
  {
    var whole := x + [SLASH];
    assert whole[|x|] == SLASH;
    assert whole <= y ==> SLASH in y;
  }

  lemma ContinuesHead(x: bytes, k: bytes, u: bytes)
    requires SLASH !in x && SLASH !in k
    ensures Continues(x, k + [SLASH] + u) <==> x == k
  {
    var y := k + [SLASH] + u;
    IndexIs(y, SLASH, |k|) by {
      assert y[..|k|] == k;
    }
    if x + [SLASH] <= y {
      assert y[..|x|] == x && y[|x|] == SLASH;
      IndexIs(y, SLASH, |x|);
    }
    if x == k {
      assert y[..|x| + 1] == x + [SLASH];
    }
    assert SLASH in y;
  }

  lemma ContinuesBelow(h: bytes, t: bytes, k: bytes, u: bytes)
    requires SLASH !in h && SLASH !in k
    ensures Continues(h + [SLASH] + t, k + [SLASH] + u) <==> h == k && Continues(t, u)
  {
    var x, y := h + [SLASH] + t, k + [SLASH] + u;
    if Continues(x, y) {
      assert Continues(h, y) by {
        assert h + [SLASH] <= x <= y;
      }
    }
    ContinuesHead(h, k, u);
    if h == k {
      assert x + [SLASH] == h + [SLASH] + (t + [SLASH]);
      SamePrefix(h + [SLASH], t, u);
      SamePrefix(h + [SLASH], t + [SLASH], u);
    }
  }

  lemma SamePrefix(front: bytes, a: bytes, b: bytes)
    ensures front + a <= front + b <==> a <= b
    ensures front + a == front + b <==> a == b
  {
    assert (front + a)[|front|..] == a && (front + b)[|front|..] == b;
    if front + a <= front + b {
      assert (front + b)[..|front + a|][|front|..] == b[..|a|];
    }
  }

  /** A path cut at its first slash. */
  lemma ByFirstSlash(path: bytes)
    ensures match IndexOf(path, SLASH)
            case None => SLASH !in path && InsertedAs(path) == [path]
            case Some(sep) =>
              && path == path[..sep] + [SLASH] + path[sep + 1..] && SLASH !in path[..sep]
              && InsertedAs(path) == [path[..sep]] + NamesBehind(path[sep + 1..])
  {
  }

  /** For a file's path, that is for its names to begin the other path's names. */
  lemma {:induction false} ContinuesByNames(x: bytes, y: bytes)
    requires !EndsInSlash(x)
    ensures Continues(x, y) <==> InsertedAs(x) <= InsertedAs(y)
    decreases |x|
  {
    ByFirstSlash(x);
    ByFirstSlash(y);
    hide IndexOf, InsertedAs, Continues;
    match IndexOf(y, SLASH)
    case None =>
      ContinuesPlain(x, y);
      assert InsertedAs(x) <= [y] ==> InsertedAs(x)[0] == y && |InsertedAs(x)| == 1;
      if x != y {
        OneNameIsWhole(x);
      }
    case Some(j) =>
      var k, u := y[..j], y[j + 1..];
      match IndexOf(x, SLASH) {
        case None =>
          ContinuesHead(x, k, u);
          PrefixBelow(x, [], k, NamesBehind(u));
          assert [x] + [] == [x];
        case Some(i) =>
          var h, t := x[..i], x[i + 1..];
          ContinuesBelow(h, t, k, u);
          PrefixBelow(h, NamesBehind(t), k, NamesBehind(u));
          if u == [] {
            NothingContinued(t);
          } else {
            ContinuesByNames(t, u);
          }
      }
  }

  lemma OneNameIsWhole(x: bytes)
    requires !EndsInSlash(x)
    ensures |InsertedAs(x)| == 1 ==> InsertedAs(x) == [x]
  {
  }

  lemma NothingContinued(t: bytes)
    requires t != []
    ensures !Continues(t, []) && !(NamesBehind(t) <= NamesBehind([]))
  {
  }

  /** A lookup knows a path by its names that are not empty. */
  lemma {:induction false} SegmentsAreNames(path: bytes)
    ensures SegmentsOf(path) == DropEmpty(InsertedAs(path))
    decreases |path|
  {
    hide SegmentsOf, IndexOf;
    SegmentsByHead(path);
    match IndexOf(path, SLASH)
    case None =>
      assert DropEmpty([path]) == if path == [] then [] else [path];
    case Some(sep) =>
      var head, tail := path[..sep], path[sep + 1..];
      assert DropEmpty([head]) == if head == [] then [] else [head];
      DropEmptyDistributes([head], NamesBehind(tail));
      if tail == [] {
        SegmentsByHead([]);
        assert IndexOf([], SLASH) == None;
      } else {
        SegmentsAreNames(tail);
      }
  }

  /** An item by its first name; `tail` is the item left for the directory of that name. */
  lemma ItemByHead<E>(x: Item<E>)
    ensures match IndexOf(x.path, SLASH)
            case Some(sep) =>
              var tail := Item(x.path[sep + 1..], x.entry);
              && x.Segs() == [x.path[..sep]] + NamesBehind(tail.path)
              && (tail.path == [] ==> !x.IsFile())
              && (tail.path != [] ==> tail.IsFile() == x.IsFile())
            case None => x.IsFile() && x.Segs() == [x.path]
  {
  }

  /** `x` can go into `node` without running into a file, or onto anything if it is one. */
  ghost predicate Fits<E>(node: Node<E>, x: Item<E>) {
    && (forall q :: x.MakesDir(q) ==> !KindAt(node, q).AFile?)
    && (x.IsFile() ==> KindAt(node, x.Segs()) == Nothing)
  }

  /** What inserting `x` changes: its own path and the directories above it, nothing else. */
  function Updated<E>(x: Item<E>, q: Segments, before: Kind<E>): Kind<E> {
    if x.IsFile() && q == x.Segs() then AFile(x.entry)
    else if x.MakesDir(q) then ADir
    else before
  }

  lemma EmptyDirKinds<E>(name: bytes, q: Segments)
    ensures KindAt(EmptyDir<E>(name), q) == if q == [] then ADir else Nothing
  {
  }

  /** The children as later steps see them, once `head`'s directory was added or replaced by `child`. */
  lemma ChildAfter<E>(children: seq<Node<E>>, head: bytes, child: Node<E>, n: bytes)
    requires child.name == head
    ensures var (with, i) := WithDir(children, head);
            var before := Child(children, head);
            Child(with[i := child], n) ==
            if n != head || (before.Some? && before.value.File?) then Child(children, n) else Some(child)
    ensures Child(children, head).Some? && Child(children, head).value.Dir? ==>
              WithDir(children, head).0[WithDir(children, head).1] == Child(children, head).value
    ensures Child(children, head).None? ==> WithDir(children, head).0[WithDir(children, head).1] == EmptyDir(head)
  {
    var (with, i) := WithDir(children, head);
    var kids := with[i := child];
    var before := FirstNamed(children, head);
    if n != head || (before.Some? && children[before.value].File?) {
      SameFirst(children, kids, n);
      var j := FirstNamed(children, n);
      assert j.Some? ==> j.value != i;
    } else {
      assert kids[i].name == head;
      assert forall j :: 0 <= j < i ==> kids[j] == with[j];
    }
  }

  /** Two lists whose children called `n` stand in the same places. */
  lemma SameFirst<E>(a: seq<Node<E>>, b: seq<Node<E>>, n: bytes)
    requires |a| <= |b|
    requires forall i :: 0 <= i < |a| ==> (a[i].name == n <==> b[i].name == n)
    requires FirstNamed(a, n).None? ==> forall i :: |a| <= i < |b| ==> b[i].name != n
    ensures FirstNamed(a, n) == FirstNamed(b, n)
  {
    hide FirstNamed;
    var i, j := FirstNamed(a, n), FirstNamed(b, n);
    if i.Some? {
      assert b[i.value].name == n;
      assert j.Some? && j.value <= i.value;
      assert a[j.value].name == n;
    } else {
      assert forall k :: 0 <= k < |b| ==> b[k].name != n;
    }
  }

  /** One step down. */
  lemma KindBelow<E>(node: Node<E>, head: bytes, q: Segments)
    requires node.Dir?
    ensures KindAt(node, [head] + q) == match Child(node.children, head)
                                        case None => Nothing
                                        case Some(child) => KindAt(child, q)
  {
    assert ([head] + q)[1..] == q;
  }

  lemma DirIsDir<E>(node: Node<E>)
    requires node.Dir?
    ensures KindAt(node, []) == ADir
  {
  }

  /** What one insert does to a directory's own children. */
  lemma InsertHere<E>(node: Node<E>, entry: E, path: bytes)
    requires node.Dir?
    ensures match IndexOf(path, SLASH)
            case None =>
              InsertAt(node, entry, path) ==
              node.(children := node.children + [File(path, entry)], index := if path == INDEX_HTML then Some(|node.children|) else node.index)
            case Some(sep) =>
              var (children, i) := WithDir(node.children, path[..sep]);
              var child := if path[sep + 1..] == [] then children[i] else InsertAt(children[i], entry, path[sep + 1..]);
              child.Dir? && child.name == path[..sep] && InsertAt(node, entry, path) == node.(children := children[i := child])
  {
    hide IndexOf, FirstDir;
    match IndexOf(path, SLASH)
    case None =>
    case Some(sep) =>
      var (children, i) := WithDir(node.children, path[..sep]);
      assert children[i := children[i]] == children;
  }

  /** An insert that fits updates the map of paths at exactly the paths it names. */
  lemma {:induction false} InsertUpdates<E>(node: Node<E>, x: Item<E>, q: Segments)
    requires node.Dir? && Fits(node, x)
    ensures KindAt(InsertAt(node, x.entry, x.path), q) == Updated(x, q, KindAt(node, q))
    decreases |x.path|
  {
    hide SegmentsOf, SplitAt, IndexOf, Walk, FirstNamed, FirstDir;
    ItemByHead(x);
    if q == [] {
      DirIsDir(node);
      DirIsDir(InsertAt(node, x.entry, x.path));
      assert x.Segs() != [];
    } else {
      var n, r := q[0], q[1..];
      assert q == [n] + r;
      match IndexOf(x.path, SLASH)
      case None =>
        InsertFileUpdates(node, x, n, r);
      case Some(sep) =>
        var head, tail := x.path[..sep], Item(x.path[sep + 1..], x.entry);
        var (children, i) := WithDir(node.children, head);
        var child := if tail.path == [] then children[i] else InsertAt(children[i], x.entry, tail.path);
        BelowHead(node, x, head, tail);
        if n == head && tail.path != [] {
          InsertUpdates(children[i], tail, r);
        }
        InsertHere(node, x.entry, x.path);
        hide InsertAt, WithDir, Updated, KindAt, Fits;
        InsertSeen(node, head, child, n, r);
        InsertBelow(node, x, head, tail, child, n, r);
    }
  }

  /** What is seen below a node whose directory `head` became `child`. */
  lemma InsertSeen<E>(node: Node<E>, head: bytes, child: Node<E>, n: bytes, q: Segments)
    requires node.Dir? && child.name == head
    requires !KindAt(node, [head]).AFile?
    ensures var (children, i) := WithDir(node.children, head);
            KindAt(node.(children := children[i := child]), [n] + q) ==
            if n == head then KindAt(child, q) else KindAt(node, [n] + q)
  {
    var (children, i) := WithDir(node.children, head);
    ChildAfter(node.children, head, child, n);
    assert [head] + [] == [head];
    KindBelow(node, head, []);
    KindBelow(node, n, q);
    KindBelow(node.(children := children[i := child]), n, q);
  }

  /** The update below the first directory of the path, given the update inside that directory. */
  lemma InsertBelow<E>(node: Node<E>, x: Item<E>, head: bytes, tail: Item<E>, child: Node<E>, n: bytes, q: Segments)
    requires node.Dir? && child.name == head
    requires x.Segs() == [head] + NamesBehind(tail.path) && x.entry == tail.entry
    requires tail.path == [] ==> !x.IsFile()
    requires tail.path != [] ==> tail.IsFile() == x.IsFile()
    requires !KindAt(node, [head]).AFile?
    requires var (children, i) := WithDir(node.children, head);
             n == head ==> if tail.path == [] then child == children[i]
                           else KindAt(child, q) == Updated(tail, q, KindAt(children[i], q))
    ensures (if n == head then KindAt(child, q) else KindAt(node, [n] + q)) == Updated(x, [n] + q, KindAt(node, [n] + q))
  {
    var (children, i) := WithDir(node.children, head);
    KindBelow(node, n, q);
    assert [head] + [] == [head];
    KindBelow(node, head, []);
    ChildAfter(node.children, head, child, n);
    PrefixBelow(n, q, head, NamesBehind(tail.path));
    EmptyDirKinds<E>(head, q);
  }

  lemma PrefixBelow(n: bytes, q: Segments, head: bytes, tail: Segments)
    ensures [n] + q <= [head] + tail <==> n == head && q <= tail
    ensures [n] + q == [head] + tail <==> n == head && q == tail
  {
    assert ([n] + q)[1..] == q && ([head] + tail)[1..] == tail;
    assert ([n] + q)[0] == n && ([head] + tail)[0] == head;
    if n == head && q <= tail {
      assert tail[..|q|] == q;
      assert ([head] + tail)[..1 + |q|] == [n] + q;
    }
    if [n] + q <= [head] + tail {
      assert ([head] + tail)[..1 + |q|] == [n] + q;
      assert tail[..|q|] == ([head] + tail)[..1 + |q|][1..];
    }
  }

  /** What is left of an item that fits still fits below its first directory. */
  lemma BelowHead<E>(node: Node<E>, x: Item<E>, head: bytes, tail: Item<E>)
    requires node.Dir? && Fits(node, x)
    requires x.Segs() == [head] + NamesBehind(tail.path) && (tail.path != [] ==> tail.IsFile() == x.IsFile())
    requires tail.path == [] ==> !x.IsFile()
    ensures !KindAt(node, [head]).AFile?
    ensures tail.path != [] ==> Fits(WithDir(node.children, head).0[WithDir(node.children, head).1], tail)
  {
    hide FirstNamed, FirstDir, IndexOf;
    var (children, i) := WithDir(node.children, head);
    ChildAfter(node.children, head, children[i], head);
    PrefixBelow(head, [], head, NamesBehind(tail.path));
    assert [head] + [] == [head];
    assert x.MakesDir([head]);
    KindBelow(node, head, []);
    if tail.path != [] {
      forall q
        ensures tail.MakesDir(q) ==> !KindAt(children[i], q).AFile?
        ensures tail.IsFile() && q == tail.Segs() ==> KindAt(children[i], q) == Nothing
      {
        KindBelow(node, head, q);
        EmptyDirKinds<E>(head, q);
        PrefixBelow(head, q, head, NamesBehind(tail.path));
        assert tail.MakesDir(q) ==> x.MakesDir([head] + q);
      }
    }
  }

  lemma InsertFileUpdates<E>(node: Node<E>, x: Item<E>, n: bytes, q: Segments)
    requires node.Dir? && Fits(node, x) && IndexOf(x.path, SLASH).None?
    ensures KindAt(InsertAt(node, x.entry, x.path), [n] + q) == Updated(x, [n] + q, KindAt(node, [n] + q))
  {
    ItemByHead(x);
    var name, file := x.path, File(x.path, x.entry);
    var kids := node.children + [file];
    assert [name] + [] == [name];
    KindBelow(node, name, []);
    assert Child(node.children, name) == None;
    KindBelow(node, n, q);
    KindBelow(InsertAt(node, x.entry, x.path), n, q);
    PrefixBelow(n, q, name, []);
    if n != name {
      SameFirst(node.children, kids, n);
    } else {
      assert kids[|node.children|] == file;
      assert forall j :: 0 <= j < |node.children| ==> kids[j] == node.children[j];
      assert Child(kids, name) == Some(file);
    }
  }

  /** Whatever was found before any insert at all is still found after it. */
  lemma {:induction false} InsertKeepsFound<E>(node: Node<E>, entry: E, path: bytes, q: Segments)
    requires node.Dir? && KindAt(node, q) != Nothing
    ensures KindAt(InsertAt(node, entry, path), q) == KindAt(node, q)
    decreases |path|
  {
    match IndexOf(path, SLASH)
    case None =>
      if q != [] {
        SameFirst(node.children, node.children + [File(path, entry)], q[0]);
      }
    case Some(sep) =>
      var head, tail := path[..sep], path[sep + 1..];
      var (children, i) := WithDir(node.children, head);
      var child := if tail == [] then children[i] else InsertAt(children[i], entry, tail);
      assert children[i := children[i]] == children;
      if q != [] {
        ChildAfter(node.children, head, child, q[0]);
        if q[0] == head && tail != [] && Child(node.children, head).value.Dir? {
          InsertKeepsFound(children[i], entry, tail, q[1..]);
        }
      }
  }
}
