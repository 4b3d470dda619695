/** Listings as a client sees them: the links it reads off a received page, and where each of them leads. */
module Browsing {
  import opened Bytes
  import opened Names
  import opened FsTree
  import opened Lookup
  import opened Pages
  import opened Answers
  import opened Listing
  import opened Links
  import Percent
  import Messages
  import Requests
  import Server

  const QUOTE: byte := 34
  const LESS: byte := 60
  const GREATER: byte := 62

  /** `<a href=` and a quotation mark. */
  const OPENING: bytes := [60, 97, 32, 104, 114, 101, 102, 61, 34]

  // ---------- Reading links off a page ----------

  datatype Anchor = Anchor(href: bytes, caption: bytes)

  /** The anchors of a page: a reference up to the closing quotation mark, and a caption up to the next tag. */
  function Anchors(page: bytes): seq<Anchor>
    decreases |page|
  {
    if page == [] then []
    else if !(OPENING <= page) then Anchors(page[1..])
    else
      var value := page[|OPENING|..];
      match IndexOf(value, QUOTE)
      case None => []
      case Some(end) =>
        var content := value[end + 1..];
        match IndexOf(content, LESS)
        case None => []
        case Some(close) =>
          if content[0] != GREATER then Anchors(content)
          else [Anchor(value[..end], content[1..close])] + Anchors(content[close..])
  }

  /** Every tag that starts in `text` is seen there not to be an anchor. */
  predicate OpensNone(text: bytes) {
    forall i :: 0 <= i < |text| && text[i] == LESS ==> i + 1 < |text| && text[i + 1] != 97
  }

  lemma {:induction false} SkipsText(text: bytes, rest: bytes)
    requires OpensNone(text)
    ensures Anchors(text + rest) == Anchors(rest)
  {
    if text == [] {
      assert text + rest == rest;
    } else {
      var page := text + rest;
      assert page[1..] == text[1..] + rest;
      assert !(OPENING <= page) by {
        assert page[0] == text[0] && (|text| > 1 ==> page[1] == text[1]);
        assert OPENING[0] == LESS && OPENING[1] == 97;
      }
      SkipsText(text[1..], rest);
    }
  }

  /** An anchor is read at the front of a page by the ends of its reference and of its caption. */
  lemma FirstAnchor(value: bytes, end: nat, close: nat)
    requires IndexOf(value, QUOTE) == Some(end)
    requires var content := value[end + 1..]; IndexOf(content, LESS) == Some(close) && content[0] == GREATER
    ensures var content := value[end + 1..];
            Anchors(OPENING + value) == [Anchor(value[..end], content[1..close])] + Anchors(content[close..])
  {
    hide IndexOf;
    assert (OPENING + value)[|OPENING|..] == value;
  }

  lemma AnchorReads(href: bytes, caption: bytes, rest: bytes)
    requires QUOTE !in href && LESS !in caption && rest != [] && rest[0] == LESS
    ensures Anchors(OPENING + (href + [QUOTE, GREATER] + (caption + rest))) == [Anchor(href, caption)] + Anchors(rest)
  {
    hide Anchors, IndexOf;
    var content := [GREATER] + (caption + rest);
    var value := href + [QUOTE, GREATER] + (caption + rest);
    assert value[..|href|] == href && value[|href| + 1..] == content;
    IndexIs(value, QUOTE, |href|);
    assert content[..1 + |caption|] == [GREATER] + caption && content[1 + |caption|] == rest[0];
    IndexIs(content, LESS, 1 + |caption|);
    assert content[1..1 + |caption|] == caption && content[1 + |caption|..] == rest;
    FirstAnchor(value, |href|, 1 + |caption|);
  }

  const CLOSING: bytes := [60, 47, 97, 62, 10]

  /** A list item that is a link. */
  lemma ItemReads(start: bytes, href: bytes, caption: bytes, rest: bytes)
    requires OpensNone(start) && QUOTE !in href && LESS !in caption
    ensures Anchors(start + OPENING + href + [QUOTE, GREATER] + caption + CLOSING + rest) == [Anchor(href, caption)] + Anchors(rest)
  {
    var tail := CLOSING + rest;
    var link := OPENING + (href + [QUOTE, GREATER] + (caption + tail));
    hide Anchors;
    assert start + OPENING + href + [QUOTE, GREATER] + caption + CLOSING + rest == start + link;
    SkipsText(start, link);
    AnchorReads(href, caption, tail);
    SkipsText(CLOSING, rest);
  }

  // ---------- The links of a listing ----------

  /** The page's start holds no anchor, and escaping leaves no tag in a name. */
  ghost predicate IsHtml(markup: Markup) {
    OpensNone(markup.preamble) && forall name :: LESS !in markup.escapeHtml(name)
  }

  /** The directories, or the files, in the children's order. */
  function OfKind(children: seq<FsNode>, dirs: bool): seq<FsNode> {
    if children == [] then []
    else (if children[0].Dir? == dirs then [children[0]] else []) + OfKind(children[1..], dirs)
  }

  /** The children as a listing shows them: the directories, then the files. */
  function Shown(children: seq<FsNode>): seq<FsNode> {
    OfKind(children, true) + OfKind(children, false)
  }

  function LinkTo(markup: Markup, child: FsNode): Anchor {
    Anchor(Href(child.name, child.Dir?), markup.escapeHtml(child.name))
  }

  function LinksTo(markup: Markup, children: seq<FsNode>): (links: seq<Anchor>)
    ensures |links| == |children|
    ensures forall i :: 0 <= i < |children| ==> links[i] == LinkTo(markup, children[i])
  {
    if children == [] then [] else [LinkTo(markup, children[0])] + LinksTo(markup, children[1..])
  }

  const UP: Anchor := Anchor([DOT, DOT], [DOT, DOT])

  function UpLinks(isRoot: bool): seq<Anchor> {
    if isRoot then [] else [UP]
  }

  lemma HrefHasNoQuote(name: bytes, isDir: bool)
    ensures QUOTE !in Href(name, isDir)
  {
    Percent.EncodedIsSafe(name);
  }

  /** The fixed parts of rows, by the reader's marks. */
  lemma RowParts()
    ensures Ascii("><a href=\"") == [GREATER] + OPENING && Ascii("\">") == [QUOTE, GREATER] && Ascii("</a>\n") == CLOSING
    ensures Ascii("<li") == [60, 108, 105] && Ascii(" class=dir") == [32, 99, 108, 97, 115, 115, 61, 100, 105, 114]
  {
  }

  lemma RowReads(markup: Markup, child: FsNode, rest: bytes)
    requires IsHtml(markup)
    ensures Anchors(Row(markup, child.name, child.Dir?) + rest) == [LinkTo(markup, child)] + Anchors(rest)
  {
    hide Anchors, Href, Ascii;
    HrefHasNoQuote(child.name, child.Dir?);
    RowParts();
    var start := Ascii("<li") + (if child.Dir? then Ascii(" class=dir") else []) + [GREATER];
    assert OpensNone(start);
    var href, caption := Href(child.name, child.Dir?), markup.escapeHtml(child.name);
    assert Row(markup, child.name, child.Dir?) == start + OPENING + href + [QUOTE, GREATER] + caption + CLOSING;
    ItemReads(start, href, caption, rest);
  }

  const TOP_START: bytes := [60, 108, 105, 32, 99, 108, 97, 115, 115, 61, 116, 111, 112, 62]

  lemma AsciiJoins(a: string, b: string)
    ensures Ascii(a + b) == Ascii(a) + Ascii(b)
  {
  }

  lemma TopSpelled()
    ensures Top(false) == TOP_START + OPENING + [DOT, DOT] + [QUOTE, GREATER] + [DOT, DOT] + CLOSING
  {
    hide Ascii;
    var first, second, third := "<li class=top>", "<a href=\"", "..\">..</a>\n";
    TopParts();
    AsciiJoins(first, second);
    AsciiJoins(first + second, third);
    assert first + second + third == "<li class=top><a href=\"..\">..</a>\n";
  }

  lemma TopParts()
    ensures Ascii("<li class=top>") == TOP_START
    ensures Ascii("<a href=\"") == OPENING
    ensures Ascii("..\">..</a>\n") == [DOT, DOT] + [QUOTE, GREATER] + [DOT, DOT] + CLOSING
  {
  }

  lemma TopReads(isRoot: bool, rest: bytes)
    ensures Anchors(Top(isRoot) + rest) == UpLinks(isRoot) + Anchors(rest)
  {
    hide Anchors;
    if isRoot {
      assert [] + rest == rest;
    } else {
      hide Top;
      TopSpelled();
      ItemReads(TOP_START, [DOT, DOT], [DOT, DOT], rest);
    }
  }

  lemma {:induction false} RowsRead(markup: Markup, children: seq<FsNode>, dirs: bool, rest: bytes)
    requires IsHtml(markup)
    ensures Anchors(Concat(Rows(markup, children, dirs)) + rest) == LinksTo(markup, OfKind(children, dirs)) + Anchors(rest)
  {
    hide Anchors, Row, LinkTo, IsHtml;
    if children == [] {
      assert [] + rest == rest;
    } else {
      var child, others := children[0], children[1..];
      var tail := Concat(Rows(markup, others, dirs)) + rest;
      RowsRead(markup, others, dirs, rest);
      hide Concat, Rows, LinksTo;
      OneMoreRow(markup, children, dirs, rest);
      if child.Dir? == dirs {
        RowReads(markup, child, tail);
        LinksJoin(markup, [child], OfKind(others, dirs));
      } else {
        assert [] + OfKind(others, dirs) == OfKind(others, dirs);
      }
    }
  }

  lemma OneMoreRow(markup: Markup, children: seq<FsNode>, dirs: bool, rest: bytes)
    requires children != []
    ensures var child, tail := children[0], Concat(Rows(markup, children[1..], dirs)) + rest;
            Concat(Rows(markup, children, dirs)) + rest == if child.Dir? == dirs then Row(markup, child.name, dirs) + tail else tail
    ensures LinksTo(markup, [children[0]]) == [LinkTo(markup, children[0])]
  {
    hide Row, LinkTo;
    var others := Rows(markup, children[1..], dirs);
    if children[0].Dir? == dirs {
      var row := Row(markup, children[0].name, dirs);
      assert ([row] + others)[1..] == others;
      assert row + Concat(others) + rest == row + (Concat(others) + rest);
    } else {
      assert [] + others == others;
    }
  }

  lemma LinksJoin(markup: Markup, a: seq<FsNode>, b: seq<FsNode>)
    ensures LinksTo(markup, a + b) == LinksTo(markup, a) + LinksTo(markup, b)
  {
  }

  /** What a client reads off a listing: below the root a link up, then one link for each child shown. */
  lemma ListingIsRead(markup: Markup, isRoot: bool, children: seq<FsNode>)
    requires IsHtml(markup)
    ensures Anchors(Concat(Texts(markup, isRoot, children))) == UpLinks(isRoot) + LinksTo(markup, Shown(children))
  {
    hide Anchors, Rows, Top, Concat, OfKind;
    var dirs, files := Rows(markup, children, true), Rows(markup, children, false);
    var start := markup.preamble + Top(isRoot);
    var rows := Concat(dirs) + (Concat(files) + []);
    assert Concat(Texts(markup, isRoot, children)) == markup.preamble + (Top(isRoot) + rows) by {
      ConcatDistributes([start], dirs + files);
      ConcatDistributes(dirs, files);
      ConcatSingle(start);
      assert Concat(files) + [] == Concat(files);
    }
    SkipsText(markup.preamble, Top(isRoot) + rows);
    TopReads(isRoot, rows);
    RowsRead(markup, children, true, Concat(files) + []);
    RowsRead(markup, children, false, []);
    LinksJoin(markup, OfKind(children, true), OfKind(children, false));
    assert Anchors([]) == [] by { NoAnchors(); }
  }

  lemma NoAnchors()
    ensures Anchors([]) == []
  {
  }

  lemma {:induction false} KindIsPart(children: seq<FsNode>, dirs: bool)
    ensures forall x :: x in OfKind(children, dirs) ==> x in children && x.Dir? == dirs
    ensures Sorted(children) ==> Sorted(OfKind(children, dirs))
  {
    hide Less;
    if children != [] {
      KindIsPart(children[1..], dirs);
      assert children == [children[0]] + children[1..];
      var more := OfKind(children[1..], dirs);
      assert forall j :: 0 <= j < |more| ==> more[j] in children[1..];
      hide OfKind;
      if Sorted(children) {
        assert forall x :: x in children[1..] ==> !Less(x.name, children[0].name);
      }
    }
  }

  lemma {:induction false} KindsPartition(children: seq<FsNode>)
    ensures multiset(Shown(children)) == multiset(children)
  {
    if children != [] {
      KindsPartition(children[1..]);
      assert children == [children[0]] + children[1..];
    }
  }

  /** Directories come before files, and sorted children stay sorted within each kind; none is left out and none is added. */
  lemma ShownInOrder(children: seq<FsNode>)
    ensures multiset(Shown(children)) == multiset(children)
    ensures forall i, j :: 0 <= i < j < |Shown(children)| && Shown(children)[j].Dir? ==> Shown(children)[i].Dir?
    ensures Sorted(children) ==>
              forall i, j :: 0 <= i < j < |Shown(children)| && Shown(children)[i].Dir? == Shown(children)[j].Dir? ==>
                !Less(Shown(children)[j].name, Shown(children)[i].name)
  {
    hide OfKind, Less;
    KindsPartition(children);
    KindIsPart(children, true);
    KindIsPart(children, false);
    var shown, dirs, files := Shown(children), OfKind(children, true), OfKind(children, false);
    assert forall i :: 0 <= i < |dirs| ==> shown[i] == dirs[i] && shown[i] in dirs;
    assert forall i :: |dirs| <= i < |shown| ==> shown[i] == files[i - |dirs|] && shown[i] in files;
  }

  // ---------- Following the links of a listing ----------

  /** Where a link read off a page leads, decoded as a request's path is. */
  function Leads(page: bytes, anchor: Anchor): bytes {
    Percent.Decode(Follow(page, anchor.href))
  }

  /** `path` finds the first child of this child's name; a directory is not redirected to, and a file that is the first is answered. */
  ghost predicate LeadsTo(tree: FsNode, path: bytes, children: seq<FsNode>, child: FsNode) {
    && Find(tree, path) == Child(children, child.name)
    && (child.Dir? ==> Resolve(tree, path).Some? && !Resolve(tree, path).value.Redirect?)
    && (child.File? && Child(children, child.name) == Some(child) ==> Resolve(tree, path) == Some(Target.Entry(child.entry)))
  }

  /** A client that receives a page was shown the listing of the directory it asked for. */
  ghost predicate Receives(site: Server.Site, page: bytes, request: Requests.Request, isRoot: bool, children: seq<FsNode>, response: Messages.Response) {
    && IsHtml(site.markup) && IsNormal(page) && IsDirPage(page)
    && request.Get? && site.DueFor(request, Percent.Decode(page)) == Server.Page(isRoot, children)
    && site.IsRight(Server.Page(isRoot, children), response)
  }

  lemma ReceivedIsListing(site: Server.Site, page: bytes, request: Requests.Request, isRoot: bool, children: seq<FsNode>, response: Messages.Response)
    requires Receives(site, page, request, isRoot, children, response)
    ensures IsNormal(page) && IsDirPage(page) && Resolve(site.tree, Percent.Decode(page)) == Some(Target.Listing(isRoot, children))
    ensures Anchors(response.body) == UpLinks(isRoot) + LinksTo(site.markup, Shown(children))
  {
    hide Resolve, Anchors, Shown, LinksTo, Texts, IsNormal, IsDirPage, IsHtml, Messages.IndexLines;
    ListingIsRead(site.markup, isRoot, children);
  }

  lemma LinkLeadsToChild(tree: FsNode, page: bytes, isRoot: bool, children: seq<FsNode>, child: FsNode)
    requires IsNormal(page) && IsDirPage(page)
    requires Resolve(tree, Percent.Decode(page)) == Some(Target.Listing(isRoot, children))
    requires child in children && IsLinkable(child.name)
    ensures LeadsTo(tree, Percent.Decode(Follow(page, Href(child.name, child.Dir?))), children, child)
  {
    hide IsNormal, IsDirPage, Percent.Decode, Follow, Href, IsLinkable, Find;
    var first := FirstNamed(children, child.name).value;
    var i :| 0 <= i < |children| && children[i] == child && (children[first] == child ==> i == first);
    LinksLeadHome(tree, page, isRoot, children, i);
  }

  /**
   The links that a client reads off a received listing are those of the directory's
   children, the directories first, with the link up in front of them below the root; and
   each child's link, followed from the page, finds the first child of that name.
   */
  lemma ListedLinksLead(site: Server.Site, page: bytes, request: Requests.Request, isRoot: bool, children: seq<FsNode>, response: Messages.Response)
    requires Receives(site, page, request, isRoot, children, response)
    ensures var links, shown, up := Anchors(response.body), Shown(children), if isRoot then 0 else 1;
            && |links| == up + |shown|
            && (forall link :: link in links ==> IsRelativePath(link.href))
            && forall i :: 0 <= i < |shown| ==>
                 && links[up + i].caption == site.markup.escapeHtml(shown[i].name)
                 && (IsLinkable(shown[i].name) ==> LeadsTo(site.tree, Leads(page, links[up + i]), children, shown[i]))
  {
    hide Receives, Anchors, Shown, LinksTo, LeadsTo, Leads, IsLinkable, IsNormal, IsDirPage, Resolve, UpLinks;
    ReceivedIsListing(site, page, request, isRoot, children, response);
    LinksStand(Anchors(response.body), site.markup, isRoot, Shown(children));
    ShownLinksLead(site.markup, site.tree, page, isRoot, children);
    AreRelativePaths(Anchors(response.body), site.markup, isRoot, Shown(children));
  }

  lemma AreRelativePaths(links: seq<Anchor>, markup: Markup, isRoot: bool, shown: seq<FsNode>)
    requires links == UpLinks(isRoot) + LinksTo(markup, shown)
    ensures forall link :: link in links ==> IsRelativePath(link.href)
  {
    hide LinksTo, Href;
    SplitAtWhole(UP.href, SLASH);
    forall i | 0 <= i < |shown|
      ensures IsRelativePath(LinksTo(markup, shown)[i].href)
    {
      HrefIsRelativePath(shown[i].name, shown[i].Dir?);
    }
    hide IsRelativePath;
  }

  lemma ShownLinksLead(markup: Markup, tree: FsNode, page: bytes, isRoot: bool, children: seq<FsNode>)
    requires IsNormal(page) && IsDirPage(page)
    requires Resolve(tree, Percent.Decode(page)) == Some(Target.Listing(isRoot, children))
    ensures forall child :: child in Shown(children) && IsLinkable(child.name) ==>
              LeadsTo(tree, Leads(page, LinkTo(markup, child)), children, child)
  {
    hide IsNormal, IsDirPage, Resolve, LeadsTo, IsLinkable, Href, Follow, Percent.Decode;
    ShownInOrder(children);
    hide Shown;
    forall child | child in Shown(children) && IsLinkable(child.name)
      ensures LeadsTo(tree, Leads(page, LinkTo(markup, child)), children, child)
    {
      assert child in multiset(Shown(children));
      LinkLeadsToChild(tree, page, isRoot, children, child);
    }
  }

  lemma LinksStand(links: seq<Anchor>, markup: Markup, isRoot: bool, shown: seq<FsNode>)
    requires links == UpLinks(isRoot) + LinksTo(markup, shown)
    ensures var up := if isRoot then 0 else 1;
            && |links| == up + |shown|
            && forall i :: 0 <= i < |shown| ==> links[up + i] == LinkTo(markup, shown[i])
  {
    hide LinkTo, LinksTo;
    var up, rows := UpLinks(isRoot), LinksTo(markup, shown);
    assert forall i :: 0 <= i < |shown| ==> (up + rows)[|up| + i] == rows[i];
    assert |up| == if isRoot then 0 else 1;
    hide UpLinks;
  }

  // ---------- The link up ----------

  /** What stands between the page's last two slashes. */
  function LastDir(page: bytes): bytes {
    var dir := DirPart(page);
    if dir == [] then [] else dir[|DirPart(dir[..|dir| - 1])|..|dir| - 1]
  }

  lemma UpLeads(page: bytes)
    requires IsNormal(page) && DirPart(page) != [SLASH]
    ensures var dir := DirPart(page); dir != [] && Follow(page, UP.href) == DirPart(dir[..|dir| - 1])
    ensures EndsInSlash(Follow(page, UP.href)) && DirPart(page) == Follow(page, UP.href) + LastDir(page) + [SLASH]
  {
    hide IsNormal, SplitAt, DirPart, Follow, WithoutLast;
    UpMoves(page);
    NormalStartsWithSlash(page);
    var dir := DirPart(page);
    assert dir[0] == page[0];
    var front := dir[..|dir| - 1];
    EndsWithSlash(dir);
    assert front != [] && front[0] == SLASH;
    AboveFront(front);
    Cuts(dir, DirPart(front));
  }

  lemma AboveFront(front: bytes)
    requires front != [] && front[0] == SLASH
    ensures EndsInSlash(DirPart(front)) && WithoutLast(front) + [SLASH] == DirPart(front)
  {
    assert DirPart(front) != [] by { assert front[0] in front && front[0..] == front; }
    EndsWithSlash(DirPart(front));
    hide DirPart;
  }

  lemma UpMoves(page: bytes)
    requires IsNormal(page)
    ensures var dir := DirPart(page); dir != [] && Follow(page, UP.href) == WithoutLast(dir[..|dir| - 1]) + [SLASH]
  {
    hide RemoveDotSegments, IsNormal, DirPart, WithoutLast, Follow;
    var dir := DirPart(page);
    FollowFromDir(page, UP.href);
    assert UP.href + [] == UP.href;
    DotsMove(dir[..|dir| - 1], UP.href, false);
  }

  lemma EndsWithSlash(s: bytes)
    requires EndsInSlash(s)
    ensures s[..|s| - 1] + [SLASH] == s
  {
  }

  lemma Cuts(dir: bytes, above: bytes)
    requires EndsInSlash(dir) && above <= dir[..|dir| - 1]
    ensures above + dir[|above|..|dir| - 1] + [SLASH] == dir
  {
    EndsWithSlash(dir);
    assert above + dir[|above|..|dir| - 1] == dir[..|dir| - 1];
  }

  /** The link up leads to the directory above exactly if one decoded segment stands between the page's last two slashes. */
  lemma UpLeadsAbove(page: bytes)
    requires IsNormal(page) && IsDirPage(page) && SegmentsOf(Percent.Decode(page)) != []
    ensures var home, to := SegmentsOf(Percent.Decode(page)), Percent.Decode(Follow(page, UP.href));
            SegmentsOf(to) == home[..|home| - 1] <==> |SegmentsOf(Percent.Decode(LastDir(page)))| == 1
    ensures DirPart(page) != [SLASH]
  {
    hide SegmentsOf, Percent.Decode, Follow;
    var dir := DirPart(page);
    assert dir != [] by { NormalStartsWithSlash(page); assert page[0] in page; }
    assert dir + page[|dir|..] == page;
    SegmentsBehind(dir, page[|dir|..]);
    SlashHasNoSegments();
    UpLeads(page);
    var above, last := Follow(page, UP.href), LastDir(page);
    hide LastDir, DirPart, IsNormal;
    Joined(above, last, [SLASH]);
    SegmentsBehind(above, last + [SLASH]);
    SegmentsWithSlash(last);
    var a, b := SegmentsOf(Percent.Decode(above)), SegmentsOf(Percent.Decode(last));
    assert SegmentsOf(Percent.Decode(page)) == a + b;
    assert |a + b| == |a| + |b|;
    assert |b| == 1 ==> (a + b)[..|a + b| - 1] == a;
  }

  /** A slash behind a raw path adds no segment. */
  lemma SegmentsWithSlash(raw: bytes)
    ensures SegmentsOf(Percent.Decode(raw + [SLASH])) == SegmentsOf(Percent.Decode(raw))
  {
    Percent.DecodeBeforeSlash(raw);
    SlashAddsNoSegment(Percent.Decode(raw));
  }

  /** What is found where the link up leads: the directory that the page's own directory is a child of. */
  lemma AboveHolds(tree: FsNode, path: bytes, to: bytes)
    requires Find(tree, path).Some? && Find(tree, path).value.Dir? && SegmentsOf(path) != [] && EndsInSlash(to)
    requires SegmentsOf(to) == SegmentsOf(path)[..|SegmentsOf(path)| - 1]
    ensures var found, home := Find(tree, to), SegmentsOf(path);
            && found.Some? && found.value.Dir? && Child(found.value.children, home[|home| - 1]) == Find(tree, path)
            && Resolve(tree, to).Some? && !Resolve(tree, to).value.Redirect?
  {
    hide SegmentsOf, Find, Resolve, Walk;
    FindIsWalk(tree, path);
    FindIsWalk(tree, to);
    var home := SegmentsOf(path);
    var last := home[|home| - 1];
    assert home == home[..|home| - 1] + [last];
    WalkJoins(tree, home[..|home| - 1], [last]);
    var above := Walk(tree, home[..|home| - 1]).value;
    assert above.Dir? by { WalkNeedsDir(above, last); }
    WalkToChild(above, last);
    ResolvesDirPath(tree, to);
  }

  lemma WalkNeedsDir(node: FsNode, name: bytes)
    requires Walk(node, [name]).Some?
    ensures node.Dir?
  {
  }

  /**
   Below the root, the first link read off a listing is the link up; followed from the page
   it finds the directory that the listed one is a child of, exactly if one decoded segment
   stands between the page's last two slashes.
   */
  lemma UpLinkLeads(site: Server.Site, page: bytes, request: Requests.Request, isRoot: bool, children: seq<FsNode>, response: Messages.Response)
    requires Receives(site, page, request, isRoot, children, response) && !isRoot && site.tree.Dir? && site.tree.isRoot
    ensures var links, path, home := Anchors(response.body), Percent.Decode(page), SegmentsOf(Percent.Decode(page));
            && links != [] && links[0].caption == [DOT, DOT] && home != []
            && var to := Leads(page, links[0]);
            && (SegmentsOf(to) == home[..|home| - 1] <==> |SegmentsOf(Percent.Decode(LastDir(page)))| == 1)
            && (SegmentsOf(to) == home[..|home| - 1] ==>
                  && Find(site.tree, to).Some? && Find(site.tree, to).value.Dir?
                  && Child(Find(site.tree, to).value.children, home[|home| - 1]) == Find(site.tree, path)
                  && Resolve(site.tree, to).Some? && !Resolve(site.tree, to).value.Redirect?)
  {
    hide Receives, Anchors, IsNormal, IsDirPage, Resolve, Find, SegmentsOf, LinksTo, Percent.Decode, Follow, LastDir;
    ReceivedIsListing(site, page, request, isRoot, children, response);
    assert Anchors(response.body)[0] == UP;
    ListedIsDir(site.tree, Percent.Decode(page), isRoot, children);
    UpLeadsAbove(page);
    UpLeads(page);
    var to := Percent.Decode(Follow(page, UP.href));
    DecodedEndsInSlash(Follow(page, UP.href));
    if SegmentsOf(to) == SegmentsOf(Percent.Decode(page))[..|SegmentsOf(Percent.Decode(page))| - 1] {
      AboveHolds(site.tree, Percent.Decode(page), to);
    }
  }

  lemma ListedIsDir(tree: FsNode, path: bytes, isRoot: bool, children: seq<FsNode>)
    requires Resolve(tree, path) == Some(Target.Listing(isRoot, children))
    ensures Find(tree, path).Some? && Find(tree, path).value.Dir?
    ensures tree.Dir? && tree.isRoot && !isRoot ==> SegmentsOf(path) != []
  {
    hide SegmentsOf, Find;
    FindIsWalk(tree, path);
    WalkNothing(tree);
  }

  /** Not so behind two slashes: from the listing at `/a//`, the link up leads to `/a/`, which is the same directory. */
  lemma TwoSlashesStay()
    ensures var page, to: bytes := [SLASH, 97, SLASH, SLASH], [SLASH, 97, SLASH];
            && IsNormal(page) && IsDirPage(page) && Follow(page, UP.href) == to
            && SegmentsOf(Percent.Decode(page)) == SegmentsOf(Percent.Decode(to)) == [[97]]
  {
    var a: bytes := [97];
    var page, to: bytes := [SLASH] + a + [SLASH, SLASH], [SLASH] + a + [SLASH];
    assert page == [SLASH, 97, SLASH, SLASH] && to == [SLASH, 97, SLASH];
    PlainPath(page, to);
    hide IsNormal, Percent.Decode, Follow, SegmentsOf, SplitAt;
    assert page == to + [SLASH] && to == ([SLASH] + a) + [SLASH];
    UpLeads(page);
    NothingHasNoSegments();
    SlashAddsNoSegment(to);
    SlashAddsNoSegment([SLASH] + a);
    LeadingSlash(a);
    OneName(a);
  }

  lemma PlainPath(page: bytes, to: bytes)
    requires page == [SLASH, 97, SLASH, SLASH] && to == [SLASH, 97, SLASH]
    ensures IsNormal(page) && Percent.Decode(page) == page && Percent.Decode(to) == to
  {
    hide Percent.Decode, SplitAt;
    Percent.DecodeUnescaped(page);
    Percent.DecodeUnescaped(to);
    PlainParts(page, [97]);
    NoDots();
  }

  lemma PlainParts(page: bytes, name: bytes)
    requires page == [SLASH] + (name + [SLASH] + [SLASH]) && SLASH !in name
    ensures SplitAt(page, SLASH) == [[], name, [], []]
  {
    hide SplitAt;
    SlashSplits(name + [SLASH] + [SLASH]);
    SplitAtJoins(name, SLASH, [SLASH]);
    SplitAtWhole(name, SLASH);
    assert [SLASH] + [] == [SLASH];
    SlashSplits([]);
    SplitAtWhole([], SLASH);
  }
}
