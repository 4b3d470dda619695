/** Where the links of listings and the locations of redirects lead a client (section 5.2 of RFC 3986). */
module Links {
  import opened Bytes
  import opened FsTree
  import opened Lookup
  import opened Building
  import opened Answers
  import opened Pages
  import opened Listing
  import Percent
  import Messages
  import Heads

  const DOT: byte := 46

  // ---------- A client's side ----------

  /** What of `s` stands in front of its last slash, and that slash. */
  function DirPart(s: bytes): (dir: bytes)
    ensures dir <= s && (dir == [] || EndsInSlash(dir))
    ensures SLASH !in s[|dir|..]
  {
    if s == [] || EndsInSlash(s) then s
    else
      assert s == s[..|s| - 1] + [s[|s| - 1]];
      DirPart(s[..|s| - 1])
  }

  /** The output buffer without its last segment and the slash in front of it. */
  function WithoutLast(output: bytes): bytes {
    var dir := DirPart(output);
    if dir == [] then [] else dir[..|dir| - 1]
  }

  /** How much of `input` its first segment takes, with the slash in front of it. */
  function FirstSegment(input: bytes): (n: nat)
    requires input != []
    ensures 0 < n <= |input|
  {
    match IndexOf(input[1..], SLASH)
    case None => |input|
    case Some(i) => i + 1
  }

  /** `s` has one or two dots at `at`, and behind them a slash or nothing. */
  predicate DotsAt(s: bytes, at: nat, dots: nat)
    requires 1 <= dots <= 2
  {
    && at + dots <= |s|
    && s[at] == DOT
    && s[at + dots - 1] == DOT
    && (at + dots < |s| ==> s[at + dots] == SLASH)
  }

  /** `s` without the first `n` bytes, but still with a slash in front. */
  function Behind(s: bytes, n: nat): bytes
    requires n <= |s|
  {
    if n < |s| then s[n..] else [SLASH]
  }

  /** Section 5.2.4: dot segments are interpreted and removed. */
  function RemoveDotSegments(output: bytes, input: bytes): bytes
    decreases |input|
  {
    if input == [] then output
    else if DotsAt(input, 0, 2) then RemoveDotSegments(output, if |input| > 2 then input[3..] else [])
    else if DotsAt(input, 0, 1) then RemoveDotSegments(output, if |input| > 1 then input[2..] else [])
    else if input[0] == SLASH && DotsAt(input, 1, 1) then RemoveDotSegments(output, Behind(input, 2))
    else if input[0] == SLASH && DotsAt(input, 1, 2) then RemoveDotSegments(WithoutLast(output), Behind(input, 3))
    else
      var n := FirstSegment(input);
      RemoveDotSegments(output + input[..n], input[n..])
  }

  /**
   A reference that is nothing but a relative path: no scheme, authority, query or fragment
   (section 4.2), since it holds no colon in front of its first slash.
   */
  predicate IsRelativePath(reference: bytes) {
    && reference != [] && reference[0] != SLASH && 63 !in reference && 35 !in reference
    && 58 !in SplitAt(reference, SLASH)[0]
  }

  /** Where such a reference leads from a page: sections 5.2.2 and 5.2.3. */
  function Follow(page: bytes, reference: bytes): bytes {
    RemoveDotSegments([], DirPart(page) + reference)
  }

  // ---------- Following a link ----------

  predicate IsDots(segment: bytes) {
    segment == [DOT] || segment == [DOT, DOT]
  }

  /** An absolute path that a client has no dot segments left to remove from. */
  predicate IsNormal(path: bytes) {
    && path != [] && path[0] == SLASH
    && forall i :: 0 <= i < |SplitAt(path, SLASH)| ==> !IsDots(SplitAt(path, SLASH)[i])
  }

  /** A segment that is not dots is moved to the output as it stands. */
  lemma SegmentMoves(output: bytes, segment: bytes, rest: bytes)
    requires SLASH !in segment && !IsDots(segment) && (rest == [] || rest[0] == SLASH)
    ensures RemoveDotSegments(output, [SLASH] + segment + rest) == RemoveDotSegments(output + ([SLASH] + segment), rest)
  {
    var input := [SLASH] + segment + rest;
    assert input[1..] == segment + rest;
    var n := 1 + |segment|;
    if rest == [] {
      assert segment + rest == segment;
    } else {
      assert (segment + rest)[..|segment|] == segment;
      IndexIs(segment + rest, SLASH, |segment|);
    }
    assert FirstSegment(input) == n;
    assert input[..n] == [SLASH] + segment && input[n..] == rest;
    SegmentIsNoDots(segment, rest);
  }

  lemma SegmentIsNoDots(segment: bytes, rest: bytes)
    requires SLASH !in segment && !IsDots(segment) && (rest == [] || rest[0] == SLASH)
    ensures var input := [SLASH] + segment + rest;
            !DotsAt(input, 0, 1) && !DotsAt(input, 0, 2) && !DotsAt(input, 1, 1) && !DotsAt(input, 1, 2)
  {
    var input := [SLASH] + segment + rest;
    assert forall i :: 0 <= i < |segment| ==> input[i + 1] == segment[i] && segment[i] != SLASH;
    assert input[0] == SLASH && (rest != [] ==> input[|segment| + 1] == SLASH);
    assert |segment| == 1 ==> segment == [segment[0]];
    assert |segment| == 2 ==> segment == [segment[0], segment[1]];
    assert |segment| > 0 ==> input[1] == segment[0];
    assert |segment| > 1 ==> input[2] == segment[1];
  }

  /** A longer normal path is a segment that is not dots, and a normal path behind it. */
  lemma NormalByHead(dir: bytes) returns (segment: bytes, tail: bytes)
    requires IsNormal(dir) && EndsInSlash(dir) && |dir| > 1
    ensures dir == [SLASH] + segment + tail && SLASH !in segment && !IsDots(segment)
    ensures IsNormal(tail) && EndsInSlash(tail) && |tail| < |dir|
  {
    hide SplitAt, IndexOf, IsDots, IsNormal;
    NormalStartsWithSlash(dir);
    var more := dir[1..];
    assert more[|more| - 1] == SLASH;
    var sep := IndexOf(more, SLASH).value;
    segment, tail := more[..sep], more[sep..];
    assert segment + tail == more;
    assert [SLASH] + more == dir;
    Joined([SLASH], segment, tail);
    assert tail[0] == more[sep] && tail[|tail| - 1] == more[|more| - 1];
    NormalTail(segment, tail);
  }

  lemma NormalTail(segment: bytes, tail: bytes)
    requires IsNormal([SLASH] + (segment + tail)) && SLASH !in segment && tail != [] && tail[0] == SLASH
    ensures !IsDots(segment) && IsNormal(tail)
  {
    hide SplitAt, IsDots;
    var rest := tail[1..];
    assert tail == [SLASH] + rest;
    Joined(segment, [SLASH], rest);
    SlashSplits(segment + tail);
    SlashSplits(rest);
    SplitAtJoins(segment, SLASH, rest);
    SplitAtWhole(segment, SLASH);
    var parts := SplitAt([SLASH] + (segment + tail), SLASH);
    assert parts == [[]] + ([segment] + SplitAt(rest, SLASH));
    assert parts[1] == segment;
    NoDots();
    assert forall i :: 0 < i < |SplitAt(tail, SLASH)| ==> SplitAt(tail, SLASH)[i] == parts[i + 1];
  }

  lemma SlashSplits(rest: bytes)
    ensures SplitAt([SLASH] + rest, SLASH) == [[]] + SplitAt(rest, SLASH)
  {
    assert ([SLASH] + rest)[1..] == rest;
  }

  lemma NoDots()
    ensures !IsDots([])
  {
  }

  /** The segments of a normal path stay, whatever follows its last slash. */
  lemma {:induction false} NormalMoves(output: bytes, dir: bytes, rest: bytes)
    requires IsNormal(dir) && EndsInSlash(dir)
    ensures RemoveDotSegments(output, dir + rest) == RemoveDotSegments(output + dir[..|dir| - 1], [SLASH] + rest)
    decreases |dir|
  {
    hide RemoveDotSegments, SplitAt, IsDots;
    if |dir| == 1 {
      assert dir == [SLASH] && output + [] == output;
    } else {
      var segment, tail := NormalByHead(dir);
      assert dir + rest == [SLASH] + segment + (tail + rest);
      SegmentMoves(output, segment, tail + rest);
      NormalMoves(output + ([SLASH] + segment), tail, rest);
      assert output + ([SLASH] + segment) + tail[..|tail| - 1] == output + dir[..|dir| - 1];
    }
  }

  /** A name that can be one path segment and is not taken for a way up. */
  predicate IsLinkable(name: bytes) {
    name != [] && SLASH !in name && !IsDots(name)
  }

  lemma EncodedIsSegment(name: bytes)
    requires IsLinkable(name)
    ensures SLASH !in Percent.Encode(name) && !IsDots(Percent.Encode(name))
  {
    Percent.EncodedIsSafe(name);
    Percent.DecodeEncode(name, []);
    assert Percent.Encode(name) + [] == Percent.Encode(name);
    assert Percent.Decode([DOT][1..]) == [] && Percent.Decode([DOT, DOT][1..]) == [DOT] + Percent.Decode([]);
  }

  lemma Joined(a: bytes, b: bytes, c: bytes)
    ensures a + (b + c) == a + b + c
  {
  }

  /** A dot segment, a segment that is not dots, and perhaps a slash, behind what was moved before. */
  lemma DotLinkMoves(output: bytes, code: bytes, end: bytes)
    requires SLASH !in code && !IsDots(code) && (end == [] || end == [SLASH])
    ensures RemoveDotSegments(output, [SLASH, DOT, SLASH] + (code + end)) == output + [SLASH] + code + end
  {
    hide RemoveDotSegments, IsDots;
    OneDot(output, code + end);
    Joined([SLASH], code, end);
    SegmentMoves(output, code, end);
    LastSlash(output + ([SLASH] + code), end != []);
    Joined(output, [SLASH], code);
  }

  lemma HrefIsDot(name: bytes, isDir: bool)
    ensures [SLASH] + Href(name, isDir) == [SLASH, DOT, SLASH] + (Percent.Encode(name) + if isDir then [SLASH] else [])
  {
    hide Percent.Encode;
  }

  /** A reference is resolved behind the segments of the page's directory. */
  lemma FollowFromDir(page: bytes, reference: bytes)
    requires IsNormal(page)
    ensures var dir := DirPart(page);
            dir != [] && Follow(page, reference) == RemoveDotSegments(dir[..|dir| - 1], [SLASH] + reference)
  {
    DirIsNormal(page);
    hide RemoveDotSegments, DirPart, SplitAt, IsDots;
    var dir := DirPart(page);
    NormalMoves([], dir, reference);
    assert [] + dir[..|dir| - 1] == dir[..|dir| - 1];
  }

  /** A link from a page leads to the child's name in place of what stands behind the page's last slash. */
  lemma LinkLeads(page: bytes, name: bytes, isDir: bool)
    requires IsNormal(page) && IsLinkable(name)
    ensures Follow(page, Href(name, isDir)) == DirPart(page) + Percent.Encode(name) + (if isDir then [SLASH] else [])
  {
    var dir := DirPart(page);
    DirIsNormal(page);
    EncodedIsSegment(name);
    hide RemoveDotSegments, IsNormal, Percent.Encode, DirPart, IsDots, Href, Follow;
    HrefIsDot(name, isDir);
    FollowFromDir(page, Href(name, isDir));
    var front := dir[..|dir| - 1];
    assert dir == front + [SLASH];
    DotLinkMoves(front, Percent.Encode(name), if isDir then [SLASH] else []);
  }

  lemma OneDot(output: bytes, rest: bytes)
    ensures RemoveDotSegments(output, [SLASH, DOT, SLASH] + rest) == RemoveDotSegments(output, [SLASH] + rest)
  {
    hide FirstSegment, WithoutLast;
    var input, more := [SLASH, DOT, SLASH] + rest, [SLASH] + rest;
    assert Behind(input, 2) == more;
    assert DotsAt(input, 1, 1) && !DotsAt(input, 0, 1) && !DotsAt(input, 0, 2);
    hide DotsAt, Behind;
    assert RemoveDotSegments(output, input) == RemoveDotSegments(output, more);
  }

  lemma LastSlash(output: bytes, isDir: bool)
    ensures var end := if isDir then [SLASH] else []; RemoveDotSegments(output, end) == output + end
  {
    assert [SLASH] + [] + [] == [SLASH] && [SLASH] + [] == [SLASH];
    SegmentMoves(output, [], []);
    assert output + [] == output;
  }

  lemma DirIsNormal(page: bytes)
    requires IsNormal(page)
    ensures IsNormal(DirPart(page))
  {
    var dir := DirPart(page);
    var front, last := dir[..|dir| - 1], page[|dir|..];
    assert dir != [] by { assert page[0] in page; }
    assert page == front + [SLASH] + last && dir == front + [SLASH] + [];
    SplitAtJoins(front, SLASH, last);
    SplitAtJoins(front, SLASH, []);
    SplitAtWhole(last, SLASH);
    assert forall i :: 0 <= i < |SplitAt(front, SLASH)| ==> SplitAt(dir, SLASH)[i] == SplitAt(page, SLASH)[i];
  }

  /** The segments of a decoded path, by the raw path's last slash. */
  lemma SegmentsBehind(dir: bytes, rest: bytes)
    requires EndsInSlash(dir)
    ensures SegmentsOf(Percent.Decode(dir + rest)) == SegmentsOf(Percent.Decode(dir)) + SegmentsOf(Percent.Decode(rest))
  {
    Percent.DecodeAcrossSlash(dir, rest);
    Percent.DecodeKeepsFinalSlash(dir);
    var a, b := Percent.Decode(dir), Percent.Decode(rest);
    var front := a[..|a| - 1];
    assert a + b == front + [SLASH] + b && a == front + [SLASH] + [];
    SplitAtJoins(front, SLASH, b);
    DropEmptyDistributes(SplitAt(front, SLASH), SplitAt(b, SLASH));
    SlashAddsNoSegment(front);
    assert front + [SLASH] == a;
  }

  lemma NameIsSegment(name: bytes, isDir: bool)
    requires IsLinkable(name)
    ensures SegmentsOf(Percent.Decode(Percent.Encode(name) + if isDir then [SLASH] else [])) == [name]
  {
    var end := if isDir then [SLASH] else [];
    Percent.DecodeEncode(name, end);
    assert Percent.Decode([SLASH][1..]) == [];
    assert Percent.Decode(end) == end;
    SplitAtWhole(name, SLASH);
    assert SegmentsOf(name) == [name] by { assert DropEmpty([name]) == [name]; }
    SlashAddsNoSegment(name);
    assert name + [] == name;
  }

  lemma NothingHasNoSegments()
    ensures SegmentsOf(Percent.Decode([])) == []
  {
    assert SplitAt([], SLASH) == [[]];
    assert DropEmpty([[]]) == DropEmpty([]) == [];
  }

  // ---------- Links lead home ----------

  /** Nothing but slashes stands, decoded, behind the page's last slash. */
  predicate IsDirPage(page: bytes) {
    SegmentsOf(Percent.Decode(page[|DirPart(page)|..])) == []
  }

  /** What a link of dots moves to: the page's directory, or the one above it. */
  lemma DotsLead(page: bytes, dots: bytes, isDir: bool)
    requires IsNormal(page) && IsDots(dots)
    ensures var dir := DirPart(page);
            Follow(page, Href(dots, isDir)) == if dots == [DOT] then dir else WithoutLast(dir[..|dir| - 1]) + [SLASH]
  {
    var dir := DirPart(page);
    DirIsNormal(page);
    DotsAreEncoded(dots);
    HrefIsDot(dots, isDir);
    var front, end := dir[..|dir| - 1], if isDir then [SLASH] else [];
    hide RemoveDotSegments, IsNormal, Percent.Encode, DirPart, Href, WithoutLast, Follow;
    FollowFromDir(page, Href(dots, isDir));
    assert dir == front + [SLASH];
    OneDot(front, dots + end);
    DotsMove(front, dots, isDir);
  }

  lemma DotsAreEncoded(dots: bytes)
    requires IsDots(dots)
    ensures Percent.Encode(dots) == dots
  {
    assert Percent.Encode([DOT]) == [DOT] + Percent.Encode([DOT][1..]);
    assert [DOT, DOT][1..] == [DOT];
    assert Percent.Encode([DOT, DOT]) == [DOT] + Percent.Encode([DOT]);
  }

  lemma DotsMove(output: bytes, dots: bytes, isDir: bool)
    requires IsDots(dots)
    ensures RemoveDotSegments(output, [SLASH] + (dots + if isDir then [SLASH] else [])) ==
            (if dots == [DOT] then output else WithoutLast(output)) + [SLASH]
  {
    hide FirstSegment, WithoutLast, IndexOf;
    var end := if isDir then [SLASH] else [];
    var input := [SLASH] + (dots + end);
    var out := if dots == [DOT] then output else WithoutLast(output);
    assert Behind(input, 1 + |dots|) == [SLASH];
    assert DotsAt(input, 1, |dots|) && (|dots| == 2 ==> !DotsAt(input, 1, 1)) && !DotsAt(input, 0, 1) && !DotsAt(input, 0, 2);
    hide DotsAt, Behind;
    assert RemoveDotSegments(output, input) == RemoveDotSegments(out, [SLASH]);
    LastSlash(out, true);
  }

  lemma {:induction false} DropEmptySound(parts: seq<bytes>)
    ensures forall p :: p in DropEmpty(parts) ==> p in parts && p != []
  {
    if parts != [] {
      DropEmptySound(parts[1..]);
    }
  }

  /** Segments are neither empty nor hold a slash. */
  lemma SegmentsAreNamesOfOne(path: bytes, name: bytes)
    requires name in SegmentsOf(path)
    ensures name != [] && SLASH !in name
  {
    DropEmptySound(SplitAt(path, SLASH));
  }

  /** A link of dots leads nowhere below the page's directory. */
  lemma DotsLeadUp(page: bytes, dots: bytes, isDir: bool)
    requires IsNormal(page) && IsDots(dots)
    ensures |SegmentsOf(Percent.Decode(Follow(page, Href(dots, isDir))))| <= |SegmentsOf(Percent.Decode(DirPart(page)))|
  {
    hide SegmentsOf, Percent.Decode, RemoveDotSegments, Follow;
    DotsLead(page, dots, isDir);
    DirIsNormal(page);
    var dir := DirPart(page);
    if dots != [DOT] {
      SegmentsAbove(dir);
    }
  }

  lemma SegmentsAbove(dir: bytes)
    requires EndsInSlash(dir)
    ensures |SegmentsOf(Percent.Decode(WithoutLast(dir[..|dir| - 1]) + [SLASH]))| <= |SegmentsOf(Percent.Decode(dir))|
  {
    hide SegmentsOf, Percent.Decode;
    var front := dir[..|dir| - 1];
    var above := DirPart(front);
    if above == [] {
      SlashHasNoSegments();
      assert [] + [SLASH] == [SLASH];
    } else {
      assert above[..|above| - 1] + [SLASH] == above;
      assert above + (front[|above|..] + [SLASH]) == dir;
      SegmentsBehind(above, front[|above|..] + [SLASH]);
    }
  }

  lemma SlashHasNoSegments()
    ensures SegmentsOf(Percent.Decode([SLASH])) == []
  {
    assert Percent.Decode([SLASH]) == [SLASH] + Percent.Decode([]);
    SlashAddsNoSegment([]);
    NothingHasNoSegments();
    assert [] + [SLASH] == [SLASH];
  }

  /**
   For every page and every name, the link leads to that name's path below the page's own
   path exactly if nothing but escaped slashes stands behind the page's last slash and the
   name can be one segment that is not dots.
   */
  lemma LinkLeadsBelow(page: bytes, name: bytes, isDir: bool)
    requires IsNormal(page)
    ensures SegmentsOf(Percent.Decode(Follow(page, Href(name, isDir)))) == SegmentsOf(Percent.Decode(page)) + [name] <==>
            IsDirPage(page) && IsLinkable(name)
    ensures EndsInSlash(page) ==> IsDirPage(page)
  {
    hide SegmentsOf, RemoveDotSegments, Percent.Encode, Percent.Decode, Follow, Href;
    var dir := DirPart(page);
    var last := page[|dir|..];
    var to, home := SegmentsOf(Percent.Decode(Follow(page, Href(name, isDir)))), SegmentsOf(Percent.Decode(page));
    var above, behind := SegmentsOf(Percent.Decode(dir)), SegmentsOf(Percent.Decode(last));
    assert dir != [] by { assert page[0] in page; }
    assert dir + last == page;
    SegmentsBehind(dir, last);
    NothingHasNoSegments();
    if IsLinkable(name) {
      LinkableLeads(page, name, isDir);
      LongerBy(above, behind, name);
    } else if IsDots(name) {
      DotsLeadUp(page, name, isDir);
      assert |home + [name]| > |above|;
    } else if to == home + [name] {
      assert (home + [name])[|home|] == name;
      SegmentsAreNamesOfOne(Percent.Decode(Follow(page, Href(name, isDir))), name);
    }
  }

  lemma LongerBy(above: Segments, behind: Segments, name: bytes)
    ensures above + [name] == above + behind + [name] <==> behind == []
  {
    assert |above + behind + [name]| == |above + [name]| + |behind|;
    assert above + [] + [name] == above + [name];
  }

  /** A link to a linkable name leads to it below the page's directory. */
  lemma LinkableLeads(page: bytes, name: bytes, isDir: bool)
    requires IsNormal(page) && IsLinkable(name)
    ensures SegmentsOf(Percent.Decode(Follow(page, Href(name, isDir)))) == SegmentsOf(Percent.Decode(DirPart(page))) + [name]
  {
    hide SegmentsOf, RemoveDotSegments, Percent.Encode, Percent.Decode, Follow, Href;
    var dir, code, end := DirPart(page), Percent.Encode(name), if isDir then [SLASH] else [];
    assert dir != [] by { assert page[0] in page; }
    LinkLeads(page, name, isDir);
    Joined(dir, code, end);
    SegmentsBehind(dir, code + end);
    NameIsSegment(name, isDir);
  }

  /**
   The link to a listed child finds the first child of its name, which is that child unless
   another shadows it, and a link to a directory is not answered by a redirect.
   */
  lemma LinksLeadHome<E>(tree: Node<E>, page: bytes, isRoot: bool, children: seq<Node<E>>, i: nat)
    requires IsNormal(page) && IsDirPage(page)
    requires Resolve(tree, Percent.Decode(page)) == Some(Listing(isRoot, children))
    requires i < |children| && IsLinkable(children[i].name)
    ensures var child := children[i];
            var path := Percent.Decode(Follow(page, Href(child.name, child.Dir?)));
            && Find(tree, path) == Child(children, child.name)
            && (FirstNamed(children, child.name) == Some(i) ==> Find(tree, path) == Some(child))
            && Resolve(tree, path).Some?
            && (child.Dir? || FirstNamed(children, child.name) == Some(i) ==> !Resolve(tree, path).value.Redirect?)
  {
    hide SegmentsOf, RemoveDotSegments, Percent.Encode, Percent.Decode, FirstNamed, Find, Walk, Follow, Href, DirPart;
    var child := children[i];
    var home, path := Percent.Decode(page), Percent.Decode(Follow(page, Href(child.name, child.Dir?)));
    LinkLeadsBelow(page, child.name, child.Dir?);
    FindIsWalk(tree, home);
    FindIsWalk(tree, path);
    WalkJoins(tree, SegmentsOf(home), [child.name]);
    WalkToChild(Find(tree, home).value, child.name);
    if child.Dir? {
      LinkLeads(page, child.name, true);
      DecodedEndsInSlash(DirPart(page) + Percent.Encode(child.name) + [SLASH]);
    }
  }

  lemma WalkToChild<E>(dir: Node<E>, name: bytes)
    requires dir.Dir?
    ensures Walk(dir, [name]) == Child(dir.children, name)
  {
    if Child(dir.children, name).Some? {
      assert Walk(Child(dir.children, name).value, [name][1..]) == Child(dir.children, name);
    }
  }

  lemma DecodedEndsInSlash(raw: bytes)
    requires EndsInSlash(raw)
    ensures EndsInSlash(Percent.Decode(raw))
  {
    Percent.DecodeKeepsFinalSlash(raw);
  }

  /** The page `/a%2F` and what stands behind its slash. */
  const SLASHED_PAGE: bytes := [SLASH, 97, 37, 50, 70]
  const SLASHED_LAST: bytes := [97, 37, 50, 70]
  const A: bytes := [97]
  const B: bytes := [98]

  /** Not so behind an escaped slash: the listing at `/a%2F` links to `/b`, not to `/a/b`. */
  lemma EscapedSlashLeadsAway()
    ensures IsNormal(SLASHED_PAGE) && Percent.Decode(SLASHED_PAGE) == [SLASH] + A + [SLASH] && !IsDirPage(SLASHED_PAGE)
    ensures Follow(SLASHED_PAGE, Href(B, false)) == [SLASH] + B
  {
    SlashedPage();
    hide Percent.Decode, Percent.Encode, DirPart, IsNormal, Follow, SplitAt, Href;
    LinkLeads(SLASHED_PAGE, B, false);
    SlashAddsNoSegment(A);
    SplitAtWhole(A, SLASH);
  }

  lemma SlashedPage()
    ensures IsNormal(SLASHED_PAGE) && DirPart(SLASHED_PAGE) == [SLASH] && SLASHED_PAGE[1..] == SLASHED_LAST && Percent.Encode(B) == B
    ensures Percent.Decode(SLASHED_PAGE) == [SLASH] + A + [SLASH] && Percent.Decode(SLASHED_LAST) == A + [SLASH]
  {
    assert SLASHED_PAGE == [SLASH] + SLASHED_LAST;
    TopPage(SLASHED_LAST);
    EscapedSlash(SLASHED_PAGE, SLASHED_LAST);
  }

  /** A page at the top, its raw segment behind the only slash. */
  lemma TopPage(last: bytes)
    requires SLASH !in last && !IsDots(last)
    ensures IsNormal([SLASH] + last) && DirPart([SLASH] + last) == [SLASH]
  {
    hide IsDots;
    var page := [SLASH] + last;
    NoDots();
    SlashSplits(last);
    SplitAtWhole(last, SLASH);
    assert SplitAt(page, SLASH) == [[], last];
    var dir := DirPart(page);
    assert page[0] == SLASH && forall i :: 1 <= i < |page| ==> page[i] == last[i - 1] && page[i] != SLASH;
    assert page[0] in page && page[0..] == page;
    assert dir != [] ==> dir[|dir| - 1] == page[|dir| - 1];
    assert page[..1] == [SLASH];
  }

  lemma EscapedSlash(page: bytes, last: bytes)
    requires page == [SLASH, 97, 37, 50, 70] && last == [97, 37, 50, 70]
    ensures Percent.Decode(page) == [SLASH, 97, SLASH] && Percent.Decode(last) == [97, SLASH]
  {
    assert page[1..] == last && last[1..] == [37, 50, 70];
    assert Percent.Next(last[1..]) == (SLASH, 3);
    assert Percent.Decode(last[1..]) == [SLASH] + Percent.Decode([]);
  }

  // ---------- Redirects lead home ----------

  /** Links and locations are relative paths, whatever the name: one with a colon in it is not taken for a scheme. */
  lemma HrefIsRelativePath(name: bytes, isDir: bool)
    ensures IsRelativePath(Href(name, isDir))
  {
    hide Percent.Encode, SplitAt;
    Percent.EncodedIsSafe(name);
    var rest := Percent.Encode(name) + if isDir then [SLASH] else [];
    assert Href(name, isDir) == [DOT] + [SLASH] + rest;
    SplitAtJoins([DOT], SLASH, rest);
    SplitAtWhole([DOT], SLASH);
  }

  /** Where the response that redirects into a directory leads, as a client reads it. */
  function Location(name: bytes): (location: bytes)
    ensures Heads.Read(Messages.RedirectLines(name), "location") == Some(location)
  {
    Heads.RedirectReads(name);
    Heads.Read(Messages.RedirectLines(name), "location").value
  }

  lemma LocationIsLink(name: bytes)
    ensures Location(name) == Href(name, true)
  {
    Heads.RedirectReads(name);
  }

  /** The page's last slash has one decoded segment behind it, so that no escaped slash hides more. */
  predicate IsOneSegmentPage(page: bytes) {
    |SegmentsOf(Percent.Decode(page[|DirPart(page)|..]))| == 1
  }

  /**
   A redirect is a 301, and its location leads to the same directory exactly if one segment
   stands behind the raw path's last slash and that segment is not dots; it then finds that
   very directory and is not redirected again.
   */
  lemma RedirectLeadsHome<E>(tree: Node<E>, page: bytes)
    requires tree.Dir? && tree.isRoot && Kept(tree) && IsNormal(page)
    requires var answer := Resolve(tree, Percent.Decode(page)); answer.Some? && answer.value.Redirect?
    ensures var name := Resolve(tree, Percent.Decode(page)).value.name;
            var lines := Messages.RedirectLines(name);
            && Messages.StatusCode(lines[0]) == Some(301) && Heads.Read(lines, "location").Some?
            && IsRelativePath(Heads.Read(lines, "location").value)
            && var to := Percent.Decode(Follow(page, Heads.Read(lines, "location").value));
            && (SegmentsOf(to) == SegmentsOf(Percent.Decode(page)) <==> IsOneSegmentPage(page) && !IsDots(name))
            && (SegmentsOf(to) == SegmentsOf(Percent.Decode(page)) ==>
                  Find(tree, to) == Find(tree, Percent.Decode(page)) && Resolve(tree, to).Some? && !Resolve(tree, to).value.Redirect?)
  {
    hide SegmentsOf, RemoveDotSegments, Percent.Encode, Percent.Decode, Resolve, Find, Walk, Kept, IsNormal, Follow, Href;
    hide Location, Heads.Read, Messages.RedirectLines, Messages.StatusCode, IsRelativePath;
    HrefIsRelativePath(Resolve(tree, Percent.Decode(page)).value.name, true);
    var from := Percent.Decode(page);
    var dir, last, name := DirPart(page), page[|DirPart(page)|..], Resolve(tree, from).value.name;
    var to := Percent.Decode(Follow(page, Location(name)));
    Heads.RedirectReads(name);
    LocationIsLink(name);
    ResolvesToRedirect(tree, from);
    FindIsWalk(tree, from);
    WalkStaysKept(tree, SegmentsOf(from));
    SegmentsAreNamesOfOne(from, name);
    assert dir != [] by { NormalStartsWithSlash(page); assert page[0] in page; }
    assert dir + last == page;
    SegmentsBehind(dir, last);
    var above, behind := SegmentsOf(Percent.Decode(dir)), SegmentsOf(Percent.Decode(last));
    if IsDots(name) {
      DotsLeadUp(page, name, true);
      SomethingBehind(page);
    } else {
      LinkableLeads(page, name, true);
      SameEnd(above, behind, name);
      if SegmentsOf(to) == SegmentsOf(from) {
        FindIsWalk(tree, to);
        LinkLeads(page, name, true);
        DecodedEndsInSlash(dir + Percent.Encode(name) + [SLASH]);
        ResolvesDirPath(tree, to);
      }
    }
  }

  /** A path that does not end in a slash, decoded, has a segment behind its last raw slash. */
  lemma SomethingBehind(page: bytes)
    requires IsNormal(page) && !EndsInSlash(Percent.Decode(page))
    ensures SegmentsOf(Percent.Decode(page[|DirPart(page)|..])) != []
  {
    hide SegmentsOf, Percent.Decode, SplitAt;
    var dir := DirPart(page);
    var last := page[|dir|..];
    assert dir != [] by { NormalStartsWithSlash(page); assert page[0] in page; }
    assert dir + last == page;
    Percent.DecodeAcrossSlash(dir, last);
    Percent.DecodeKeepsFinalSlash(dir);
    NotSlashHasSegment(Percent.Decode(last));
  }

  lemma NotSlashHasSegment(path: bytes)
    requires path != [] && !EndsInSlash(path)
    ensures SegmentsOf(path) != []
  {
    LastPart(path);
    DropEmptyLast(SplitAt(path, SLASH));
  }

  /** A directory of the only file's path is redirected to when it is asked for without a slash. */
  lemma OnlyDirIsRedirectedTo<E(!new)>(file: bytes, dir: bytes, entry: E)
    requires dir + [SLASH] <= file && !EndsInSlash(file) && dir != [] && !EndsInSlash(dir) && [] !in InsertedAs(dir)
    ensures SegmentsOf([SLASH] + dir) == InsertedAs(dir)
    ensures Resolve(Published([Item(file, entry)]), [SLASH] + dir) == Some(Redirect(InsertedAs(dir)[|InsertedAs(dir)| - 1]))
  {
    hide SegmentsOf, InsertedAs, IndexOf, Resolve, Published, SaysDir, ConflictFree, Continues;
    LeadingSlash(dir);
    SegmentsAreNames(dir);
    NoneEmpty(InsertedAs(dir));
    OnlyFileMakesDir(file, dir, entry);
    AnsweredByList([Item(file, entry)], [SLASH] + dir);
    assert ([SLASH] + dir)[|dir|] == dir[|dir| - 1];
  }

  lemma LeadingSlash(path: bytes)
    ensures SegmentsOf([SLASH] + path) == SegmentsOf(path)
  {
    hide SegmentsOf;
    var longer := [SLASH] + path;
    SegmentsByHead(longer);
    IndexIs(longer, SLASH, 0);
    assert longer[1..] == path && [] + SegmentsOf(path) == SegmentsOf(path);
  }

  lemma OnlyFileMakesDir<E(!new)>(file: bytes, dir: bytes, entry: E)
    requires dir + [SLASH] <= file && !EndsInSlash(file) && !EndsInSlash(dir)
    ensures ConflictFree([Item(file, entry)]) && SaysDir([Item(file, entry)], InsertedAs(dir))
  {
    hide InsertedAs;
    var x := Item(file, entry);
    ContinuesByNames(dir, file);
    ContinuesByNames(file, dir);
    assert x in [x] && x.MakesDir(InsertedAs(dir));
  }

  /** Not so for a directory called `..`: with `../x` in the archive, `/%2e%2e` is redirected to `/`. */
  lemma DotsRedirectAway<E(!new)>(entry: E)
    ensures var tree, page := Published([Item([DOT, DOT, SLASH, 120], entry)]), [SLASH, 37, 50, 101, 37, 50, 101];
            && IsNormal(page) && IsOneSegmentPage(page)
            && Resolve(tree, Percent.Decode(page)) == Some(Redirect([DOT, DOT]))
            && Follow(page, Location([DOT, DOT])) == [SLASH]
            && SegmentsOf(Percent.Decode(Follow(page, Location([DOT, DOT])))) != SegmentsOf(Percent.Decode(page))
  {
    var dots, page: bytes := [DOT, DOT], [SLASH, 37, 50, 101, 37, 50, 101];
    DotsPage(page);
    hide SegmentsOf, Percent.Decode, Percent.Encode, IsNormal, Follow, Resolve, Published, InsertedAs, DirPart;
    hide Location, Heads.Read, Messages.RedirectLines;
    LocationIsLink(dots);
    OnlyDirIsRedirectedTo([DOT, DOT, SLASH, 120], dots, entry);
    DotsLead(page, dots, true);
    TopIsAboveTop();
    SlashHasNoSegments();
  }

  lemma DotsPage(page: bytes)
    requires page == [SLASH, 37, 50, 101, 37, 50, 101]
    ensures IsNormal(page) && DirPart(page) == [SLASH] && IsOneSegmentPage(page) && Percent.Decode(page) == [SLASH] + [DOT, DOT]
    ensures InsertedAs([DOT, DOT]) == [[DOT, DOT]] && SegmentsOf([DOT, DOT]) == [[DOT, DOT]]
  {
    hide Percent.Decode, SegmentsOf, InsertedAs, DirPart, IsNormal, SplitAt;
    var last: bytes := [37, 50, 101, 37, 50, 101];
    assert page == [SLASH] + last && page[1..] == last;
    EscapedDots(page, last);
    assert !IsDots(last);
    TopPage(last);
    OneName([DOT, DOT]);
  }

  lemma OneName(name: bytes)
    requires name != [] && SLASH !in name
    ensures InsertedAs(name) == [name] && SegmentsOf(name) == [name]
  {
    SplitAtWhole(name, SLASH);
    assert DropEmpty([name]) == [name] + DropEmpty([]);
    ByFirstSlash(name);
  }

  lemma TopIsAboveTop()
    ensures WithoutLast([SLASH][..0]) + [SLASH] == [SLASH]
  {
  }

  lemma EscapedDots(page: bytes, last: bytes)
    requires page == [SLASH, 37, 50, 101, 37, 50, 101] && last == [37, 50, 101, 37, 50, 101]
    ensures Percent.Decode(page) == [SLASH] + [DOT, DOT] && Percent.Decode(last) == [DOT, DOT]
  {
    var half: bytes := [37, 50, 101];
    assert page[1..] == last && last[3..] == half && half[3..] == [];
    assert Percent.Next(half) == (DOT, 3) && Percent.Next(last) == (DOT, 3);
    assert Percent.Decode(half) == [DOT] + Percent.Decode([]);
    assert Percent.Decode(last) == [DOT] + Percent.Decode(half);
  }

  /** The file `a/b/x`, its directory, the page `/a%2Fb`, and what stands behind that page's slash. */
  const DEEP_FILE: bytes := [97, SLASH, 98, SLASH, 120]
  const DEEP_DIR: bytes := [97, SLASH, 98]
  const DEEP_PAGE: bytes := [SLASH, 97, 37, 50, 70, 98]
  const DEEP_LAST: bytes := [97, 37, 50, 70, 98]

  /** Nor behind an escaped slash: with `a/b/x` in the archive, `/a%2Fb` is redirected to `/b/`. */
  lemma EscapedSlashRedirectsAway<E(!new)>(entry: E)
    ensures IsNormal(DEEP_PAGE) && !IsOneSegmentPage(DEEP_PAGE)
    ensures Resolve(Published([Item(DEEP_FILE, entry)]), Percent.Decode(DEEP_PAGE)) == Some(Redirect(B))
    ensures Follow(DEEP_PAGE, Location(B)) == [SLASH] + B + [SLASH]
    ensures SegmentsOf(Percent.Decode(Follow(DEEP_PAGE, Location(B)))) != SegmentsOf(Percent.Decode(DEEP_PAGE))
  {
    DeepPage();
    hide SegmentsOf, Percent.Decode, Percent.Encode, IsNormal, Follow, Resolve, Published, InsertedAs, DirPart, Href;
    hide Location, Heads.Read, Messages.RedirectLines;
    LocationIsLink(B);
    OnlyDirIsRedirectedTo(DEEP_FILE, DEEP_DIR, entry);
    LinkLeads(DEEP_PAGE, B, true);
    TopLinkHasOneSegment(DEEP_PAGE, B);
  }

  lemma DeepPage()
    ensures IsNormal(DEEP_PAGE) && DirPart(DEEP_PAGE) == [SLASH] && DEEP_PAGE[1..] == DEEP_LAST && Percent.Encode(B) == B
    ensures Percent.Decode(DEEP_PAGE) == [SLASH] + DEEP_DIR && Percent.Decode(DEEP_LAST) == DEEP_DIR
    ensures InsertedAs(DEEP_DIR) == [A, B] && SegmentsOf(DEEP_DIR) == [A, B]
  {
    assert DEEP_PAGE == [SLASH] + DEEP_LAST;
    TopPage(DEEP_LAST);
    EscapedMiddle(DEEP_PAGE, DEEP_LAST);
    TwoNames(DEEP_DIR);
  }

  lemma TopLinkHasOneSegment(page: bytes, name: bytes)
    requires IsNormal(page) && DirPart(page) == [SLASH] && IsLinkable(name)
    ensures |SegmentsOf(Percent.Decode(Follow(page, Location(name))))| == 1
  {
    hide SegmentsOf, Percent.Decode, Follow, Href, DirPart, Location, Heads.Read, Messages.RedirectLines;
    LocationIsLink(name);
    LinkableLeads(page, name, true);
    SlashHasNoSegments();
  }

  lemma TwoNames(dir: bytes)
    requires dir == [97, SLASH, 98]
    ensures InsertedAs(dir) == [[97], [98]] && SegmentsOf(dir) == [[97], [98]]
  {
    IndexIs(dir, SLASH, 1);
    ByFirstSlash(dir);
    assert dir[..1] == [97] && dir[2..] == [98];
    ByFirstSlash([98]);
    SegmentsAreNames(dir);
    NoneEmpty([[97], [98]]);
  }

  lemma EscapedMiddle(page: bytes, last: bytes)
    requires page == [SLASH, 97, 37, 50, 70, 98] && last == [97, 37, 50, 70, 98]
    ensures Percent.Decode(page) == [SLASH] + [97, SLASH, 98] && Percent.Decode(last) == [97, SLASH, 98]
  {
    var mid, end: bytes := [37, 50, 70, 98], [98];
    assert page[1..] == last && last[1..] == mid && mid[3..] == end;
    assert Percent.Next(mid) == (SLASH, 3) && Percent.Next(last) == (97, 1) && Percent.Next(end) == (98, 1);
    assert Percent.Decode(end) == [98] + Percent.Decode(end[1..]);
    assert Percent.Decode(mid) == [SLASH] + Percent.Decode(end);
    assert Percent.Decode(last) == [97] + Percent.Decode(mid);
  }

  lemma NormalStartsWithSlash(path: bytes)
    requires IsNormal(path)
    ensures path != [] && path[0] == SLASH
  {
  }

  lemma SameEnd(above: Segments, behind: Segments, name: bytes)
    requires above + behind != [] && (above + behind)[|above + behind| - 1] == name
    ensures above + [name] == above + behind <==> |behind| == 1
  {
    assert |above + behind| == |above| + |behind|;
    if |behind| == 1 {
      assert behind == [name];
    }
  }
}
