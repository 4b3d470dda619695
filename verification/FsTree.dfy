/** The tree of an archive's paths as a value: inserting, finding, resolving and sorting. */
module FsTree {
  import opened Bytes
  import opened Names

  datatype Node<+E> =
    | Dir(name: bytes, children: seq<Node<E>>, isRoot: bool, index: Option<nat>)
    | File(name: bytes, entry: E)

  /** The kinds of answers to a path. */
  datatype Target<+E> =
    | Entry(entry: E)
    | Listing(isRoot: bool, children: seq<Node<E>>)
    | Redirect(name: bytes)

  const INDEX_HTML: bytes := [105, 110, 100, 101, 120, 46, 104, 116, 109, 108]

  lemma IndexPageName()
    ensures INDEX_HTML == Ascii("index.html")
  {
  }

  function Root<E>(): Node<E> {
    Dir([], [], true, None)
  }

  function EmptyDir<E>(name: bytes): Node<E> {
    Dir(name, [], false, None)
  }

  /** The position of the first child called `name`. */
  function FirstNamed<E>(children: seq<Node<E>>, name: bytes): (at: Option<nat>)
    ensures at.None? ==> forall i :: 0 <= i < |children| ==> children[i].name != name
    ensures at.Some? ==> at.value < |children| && children[at.value].name == name
    ensures at.Some? ==> forall i :: 0 <= i < at.value ==> children[i].name != name
  {
    if children == [] then None
    else if children[0].name == name then Some(0)
    else match FirstNamed(children[1..], name)
      case None => None
      case Some(i) => Some(i + 1)
  }

  /** The position of the first directory called `name`. */
  function FirstDir<E>(children: seq<Node<E>>, name: bytes): (at: Option<nat>)
    ensures at.None? ==> forall i :: 0 <= i < |children| ==> !(children[i].Dir? && children[i].name == name)
    ensures at.Some? ==> at.value < |children| && children[at.value].Dir? && children[at.value].name == name
    ensures at.Some? ==> forall i :: 0 <= i < at.value ==> !(children[i].Dir? && children[i].name == name)
  {
    if children == [] then None
    else if children[0].Dir? && children[0].name == name then Some(0)
    else match FirstDir(children[1..], name)
      case None => None
      case Some(i) => Some(i + 1)
  }

  /** The children with a directory `name` among them, and its position. */
  function WithDir<E>(children: seq<Node<E>>, name: bytes): (r: (seq<Node<E>>, nat))
    ensures r.1 < |r.0| && r.0[r.1].Dir? && r.0[r.1].name == name
  {
    match FirstDir(children, name)
    case Some(i) => (children, i)
    case None => (children + [EmptyDir(name)], |children|)
  }

  function InsertAt<E>(node: Node<E>, entry: E, path: bytes): (r: Node<E>)
    requires node.Dir?
    ensures r.Dir? && r.name == node.name && r.isRoot == node.isRoot
    decreases |path|
  {
    match IndexOf(path, SLASH)
    case Some(sep) =>
      var (children, i) := WithDir(node.children, path[..sep]);
      var tail := path[sep + 1..];
      // Behind a trailing slash there is nothing to insert.
      if tail == [] then node.(children := children)
      else node.(children := children[i := InsertAt(children[i], entry, tail)])
    case None =>
      node.(children := node.children + [File(path, entry)],
            index := if path == INDEX_HTML then Some(|node.children|) else node.index)
  }

  function Find<E>(node: Node<E>, path: bytes): Option<Node<E>>
    decreases |path|
  {
    if path == [] || path == [SLASH] then Some(node)
    else
      var (head, tail) := match IndexOf(path, SLASH)
        case Some(sep) => (path[..sep], path[sep + 1..])
        case None => (path, []);
      if head == [] then Find(node, tail)
      else if node.File? then None
      else match FirstNamed(node.children, head)
        case None => None
        case Some(i) => Find(node.children[i], tail)
  }

  predicate EndsInSlash(path: bytes) {
    path != [] && path[|path| - 1] == SLASH
  }

  function Resolve<E>(root: Node<E>, path: bytes): Option<Target<E>> {
    match Find(root, path)
    case None => None
    case Some(File(_, entry)) => Some(Entry(entry))
    case Some(Dir(name, children, isRoot, index)) =>
      if !isRoot && !EndsInSlash(path) then Some(Redirect(name))
      else if index.Some? && index.value < |children| && children[index.value].File? then Some(Entry(children[index.value].entry))
      else Some(Listing(isRoot, children))
  }

  // ---------- Sorting ----------

  /** `x` put in front of the first child that is not less. */
  function Place<E>(x: Node<E>, sorted: seq<Node<E>>): seq<Node<E>> {
    if sorted == [] || !Less(sorted[0].name, x.name) then [x] + sorted
    else [sorted[0]] + Place(x, sorted[1..])
  }

  /** `children` in the order of their names; equal names keep their order. */
  function SortByName<E>(children: seq<Node<E>>): seq<Node<E>> {
    if children == [] then [] else Place(children[0], SortByName(children[1..]))
  }

  function SortTree<E>(node: Node<E>): (r: Node<E>)
    ensures r.name == node.name && r.Dir? == node.Dir?
    ensures node.Dir? ==> r.isRoot == node.isRoot
    decreases node, 1
  {
    match node
    case File(_, _) => node
    case Dir(name, children, isRoot, index) =>
      var sorted := SortByName(SortEach(children));
      Dir(name, sorted, isRoot, if index.Some? then FirstNamed(sorted, INDEX_HTML) else None)
  }

  function SortEach<E>(nodes: seq<Node<E>>): (r: seq<Node<E>>)
    ensures |r| == |nodes|
    ensures forall i :: 0 <= i < |nodes| ==> r[i] == SortTree(nodes[i])
    decreases nodes, 0
  {
    if nodes == [] then [] else [SortTree(nodes[0])] + SortEach(nodes[1..])
  }

  /** The children called `name`, in order. */
  function Named<E>(children: seq<Node<E>>, name: bytes): seq<Node<E>> {
    if children == [] then []
    else (if children[0].name == name then [children[0]] else []) + Named(children[1..], name)
  }

  ghost predicate Sorted<E>(children: seq<Node<E>>) {
    forall i, j :: 0 <= i < j < |children| ==> !Less(children[j].name, children[i].name)
  }

  lemma {:induction false} PlaceSorts<E>(x: Node<E>, sorted: seq<Node<E>>)
    requires Sorted(sorted)
    ensures Sorted(Place(x, sorted))
    ensures multiset(Place(x, sorted)) == multiset([x] + sorted)
  {
    var r := Place(x, sorted);
    if sorted == [] {
    } else if !Less(sorted[0].name, x.name) {
      forall j | 0 <= j < |sorted|
        ensures !Less(sorted[j].name, x.name)
      {
        if Less(sorted[j].name, x.name) {
          NotLessThenLess(sorted[0].name, sorted[j].name, x.name);
        }
      }
    } else {
      var rest := Place(x, sorted[1..]);
      PlaceSorts(x, sorted[1..]);
      assert sorted == [sorted[0]] + sorted[1..];
      LessIsAsymmetric(sorted[0].name, x.name);
      forall j | 0 <= j < |rest|
        ensures !Less(rest[j].name, sorted[0].name)
      {
        assert rest[j] in multiset([x] + sorted[1..]);
        if rest[j] != x {
          assert rest[j] in sorted[1..];
        }
      }
    }
  }

  lemma NamedCons<E>(x: Node<E>, rest: seq<Node<E>>, name: bytes)
    ensures Named([x] + rest, name) == if x.name == name then [x] + Named(rest, name) else Named(rest, name)
  {
    assert ([x] + rest)[1..] == rest;
  }

  lemma {:induction false} PlaceIsStable<E>(x: Node<E>, sorted: seq<Node<E>>, name: bytes)
    ensures Named(Place(x, sorted), name) == (if x.name == name then [x] else []) + Named(sorted, name)
  {
    hide Less;
    if sorted == [] || !Less(sorted[0].name, x.name) {
      NamedCons(x, sorted, name);
    } else {
      var rest := Place(x, sorted[1..]);
      PlaceIsStable(x, sorted[1..], name);
      LessIsAsymmetric(sorted[0].name, x.name);
      NamedCons(sorted[0], rest, name);
    }
  }

  /** The sort orders by name, keeps every child, and keeps the order of equal names. */
  lemma {:induction false} SortsStably<E>(children: seq<Node<E>>)
    ensures Sorted(SortByName(children))
    ensures multiset(SortByName(children)) == multiset(children)
    ensures forall name :: Named(SortByName(children), name) == Named(children, name)
  {
    if children != [] {
      SortsStably(children[1..]);
      PlaceSorts(children[0], SortByName(children[1..]));
      assert children == [children[0]] + children[1..];
      forall name
        ensures Named(SortByName(children), name) == Named(children, name)
      {
        PlaceIsStable(children[0], SortByName(children[1..]), name);
      }
    }
  }

  lemma {:induction false} NamedSome<E>(children: seq<Node<E>>, i: nat)
    requires i < |children|
    ensures Named(children, children[i].name) != []
  {
    if i > 0 {
      NamedSome(children[1..], i - 1);
    }
  }

  lemma {:induction false} NamedOccurs<E>(children: seq<Node<E>>, name: bytes)
    ensures forall c :: c in Named(children, name) ==> c in children && c.name == name
    ensures Named(children, name) != [] ==> exists i :: 0 <= i < |children| && children[i].name == name
  {
    if children != [] {
      NamedOccurs(children[1..], name);
      if i :| 0 <= i < |children[1..]| && children[1..][i].name == name {
        assert children[i + 1].name == name;
      }
    }
  }

  /** There is only one stable sort, so any sort that is stable does what this one does. */
  lemma {:induction false} StableSortIsUnique<E>(a: seq<Node<E>>, b: seq<Node<E>>)
    requires Sorted(a) && Sorted(b)
    requires forall name :: Named(a, name) == Named(b, name)
    ensures a == b
  {
    if a == [] {
      assert forall name :: Named(a, name) == [];
      if b != [] {
        NamedSome(b, 0);
      }
    } else {
      NamedSome(a, 0);
      NamedOccurs(b, a[0].name);
      assert b != [];
      NamedSome(b, 0);
      NamedOccurs(a, b[0].name);
      LessIsTotal(a[0].name, b[0].name);
      assert a[0].name == b[0].name;
      assert a == [a[0]] + a[1..] && b == [b[0]] + b[1..];
      assert Named(a, a[0].name)[0] == a[0] && Named(b, b[0].name)[0] == b[0];
      forall name
        ensures Named(a[1..], name) == Named(b[1..], name)
      {
        assert Named(a, name) == Named(b, name);
        NamedCons(a[0], a[1..], name);
        NamedCons(b[0], b[1..], name);
        if name == a[0].name {
          assert Named(a, name)[1..] == Named(a[1..], name);
          assert Named(b, name)[1..] == Named(b[1..], name);
        }
      }
      StableSortIsUnique(a[1..], b[1..]);
    }
  }

  /** Sorting the children and then each of them is sorting each and then the children. */
  lemma {:induction false} SortEachCommutes<E>(children: seq<Node<E>>)
    ensures SortEach(SortByName(children)) == SortByName(SortEach(children))
  {
    if children != [] {
      SortEachCommutes(children[1..]);
      PlaceCommutes(children[0], SortByName(children[1..]));
    }
  }

  lemma {:induction false} PlaceCommutes<E>(x: Node<E>, sorted: seq<Node<E>>)
    ensures SortEach(Place(x, sorted)) == Place(SortTree(x), SortEach(sorted))
  {
    if sorted == [] || !Less(sorted[0].name, x.name) {
      assert ([x] + sorted)[1..] == sorted;
    } else {
      PlaceCommutes(x, sorted[1..]);
      assert ([sorted[0]] + Place(x, sorted[1..]))[1..] == Place(x, sorted[1..]);
    }
  }
}
