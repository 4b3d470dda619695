/** What a directory listing says, and how its chunks are packed. */
module Listing {
  import opened Bytes
  import opened Chunking
  import opened FsTree
  import Percent
  import Coding
  import Messages

  /** What listings take from elsewhere: the page's start and HTML escaping. */
  datatype Markup = Markup(preamble: bytes, escapeHtml: bytes -> bytes)

  type FsNode = Node<Coding.Entry>

  function IndexHeader(): bytes {
    Messages.Head(Messages.IndexLines())
  }

  function Top(isRoot: bool): bytes {
    if isRoot then [] else Ascii("<li class=top><a href=\"..\">..</a>\n")
  }

  function Href(name: bytes, isDir: bool): bytes {
    [46, 47] + Percent.Encode(name) + (if isDir then [SLASH] else [])
  }

  function Row(markup: Markup, name: bytes, isDir: bool): bytes {
    Ascii("<li") + (if isDir then Ascii(" class=dir") else []) + Ascii("><a href=\"") + Href(name, isDir)
    + Ascii("\">") + markup.escapeHtml(name) + Ascii("</a>\n")
  }

  /** The rows of the directories, or of the files, in the children's order. */
  function Rows(markup: Markup, children: seq<FsNode>, dirs: bool): seq<bytes> {
    if children == [] then []
    else (if children[0].Dir? == dirs then [Row(markup, children[0].name, dirs)] else []) + Rows(markup, children[1..], dirs)
  }

  /** The texts a listing is made of: the page's start, then the directories, then the files. */
  function Texts(markup: Markup, isRoot: bool, children: seq<FsNode>): seq<bytes> {
    [markup.preamble + Top(isRoot)] + (Rows(markup, children, true) + Rows(markup, children, false))
  }

  /** The end of the room for payload: a CRLF and a terminator must still fit behind it. */
  function ChunkLimit(bufLen: nat): nat
    requires bufLen >= 7
  {
    bufLen - 2 - |TERMINATOR|
  }

  predicate BufSuits(bufLen: nat) {
    |IndexHeader()| + SIZE_LEN + 2 + |TERMINATOR| <= bufLen < MAX_USIZE
  }

  /** The room for payload in the first chunk, which rides behind the header, and in later ones. */
  function FirstRoom(bufLen: nat): nat
    requires BufSuits(bufLen)
  {
    ChunkLimit(bufLen) - |IndexHeader()| - SIZE_LEN
  }

  function LaterRoom(bufLen: nat): nat
    requires BufSuits(bufLen)
  {
    ChunkLimit(bufLen) - SIZE_LEN
  }

  function ListingPacked(markup: Markup, isRoot: bool, children: seq<FsNode>, bufLen: nat): Packing
    requires BufSuits(bufLen)
  {
    Pack(Texts(markup, isRoot, children), [], FirstRoom(bufLen), LaterRoom(bufLen))
  }

  lemma {:induction false} RowsAreNonempty(markup: Markup, children: seq<FsNode>, dirs: bool)
    ensures forall i :: 0 <= i < |Rows(markup, children, dirs)| ==> Rows(markup, children, dirs)[i] != []
  {
    if children != [] {
      RowsAreNonempty(markup, children[1..], dirs);
      assert |Row(markup, children[0].name, dirs)| >= |Ascii("<li")|;
    }
  }

  /** A row for each child, in the children's order. */
  function ChildRows(markup: Markup, children: seq<FsNode>): seq<bytes> {
    if children == [] then [] else [Row(markup, children[0].name, children[0].Dir?)] + ChildRows(markup, children[1..])
  }

  lemma {:induction false} RowsPartition(markup: Markup, children: seq<FsNode>)
    ensures multiset(Rows(markup, children, true)) + multiset(Rows(markup, children, false)) == multiset(ChildRows(markup, children))
  {
    hide Row;
    if children != [] {
      RowsPartition(markup, children[1..]);
    }
  }

  /** Behind the page's start, every child has one row and there are no others. */
  lemma EachChildHasOneRow(markup: Markup, isRoot: bool, children: seq<FsNode>)
    ensures multiset(Texts(markup, isRoot, children)[1..]) == multiset(ChildRows(markup, children))
  {
    hide Row, Rows, ChildRows;
    RowsPartition(markup, children);
    assert Texts(markup, isRoot, children)[1..] == Rows(markup, children, true) + Rows(markup, children, false);
  }

  /** The page's start fits behind the header, and every row fits a chunk. */
  ghost predicate Fits(markup: Markup, isRoot: bool, children: seq<FsNode>, bufLen: nat)
    requires BufSuits(bufLen)
  {
    AllFit(Texts(markup, isRoot, children), FirstRoom(bufLen), LaterRoom(bufLen))
  }

  /**
   A listing that is sent decodes to exactly its texts, and no chunk before the terminator
   is empty; it is refused exactly when the page's start overflows the first chunk or a row
   overflows any chunk, and no division of its texts into such chunks uses fewer.
   */
  lemma ListingChunks(markup: Markup, isRoot: bool, children: seq<FsNode>, bufLen: nat)
    requires BufSuits(bufLen) && markup.preamble != []
    ensures var p, texts := ListingPacked(markup, isRoot, children, bufLen), Texts(markup, isRoot, children);
            && Payloads(p.chunks)
            && (p.complete ==> forall rest :: Dechunk(Frames(p.chunks) + TERMINATOR + rest) == Some(Decoded(Concat(texts), rest)))
            && Dechunk(Frames(p.chunks)) == None
            && (p.complete <==> Fits(markup, isRoot, children, bufLen))
            && Concat(p.chunks) <= Concat(texts)
            && (p.complete ==> forall groups :: Divides(groups, texts, FirstRoom(bufLen), LaterRoom(bufLen)) ==> |p.chunks| <= |groups|)
  {
    hide Texts, Frames, Dechunk, Pack, BufSuits, Fits, Divides;
    ListingPacks(markup, isRoot, children, bufLen);
    var p := ListingPacked(markup, isRoot, children, bufLen);
    forall rest | p.complete
      ensures Dechunk(Frames(p.chunks) + TERMINATOR + rest) == Some(Decoded(Concat(Texts(markup, isRoot, children)), rest))
    {
      ChunkedRoundTrip(p.chunks, rest);
    }
    UnterminatedIsRejected(p.chunks);
  }

  /** How a listing's texts are packed. */
  lemma ListingPacks(markup: Markup, isRoot: bool, children: seq<FsNode>, bufLen: nat)
    requires BufSuits(bufLen) && markup.preamble != []
    ensures var p, texts := ListingPacked(markup, isRoot, children, bufLen), Texts(markup, isRoot, children);
            && Payloads(p.chunks)
            && (p.complete <==> Fits(markup, isRoot, children, bufLen))
            && Concat(p.chunks) <= Concat(texts) && (p.complete ==> Concat(p.chunks) == Concat(texts))
            && (p.complete ==> forall groups :: Divides(groups, texts, FirstRoom(bufLen), LaterRoom(bufLen)) ==> |p.chunks| <= |groups|)
  {
    var p, texts := ListingPacked(markup, isRoot, children, bufLen), Texts(markup, isRoot, children);
    TextsAreNonempty(markup, isRoot, children);
    RoomsAreSmall(bufLen);
    hide Texts, Pack, BufSuits, FirstRoom, LaterRoom, Divides, AllFit, Concat;
    PackingHoldsTexts(texts, [], FirstRoom(bufLen), LaterRoom(bufLen));
    CompleteWhenAllFit(texts, FirstRoom(bufLen), LaterRoom(bufLen));
    PackingHoldsStart(texts, [], FirstRoom(bufLen), LaterRoom(bufLen));
    assert [] + Concat(texts) == Concat(texts);
    forall groups | p.complete && Divides(groups, texts, FirstRoom(bufLen), LaterRoom(bufLen))
      ensures |p.chunks| <= |groups|
    {
      PackingIsMinimal(groups, texts, FirstRoom(bufLen), LaterRoom(bufLen));
    }
  }

  lemma TextsAreNonempty(markup: Markup, isRoot: bool, children: seq<FsNode>)
    requires markup.preamble != []
    ensures forall i :: 0 <= i < |Texts(markup, isRoot, children)| ==> Texts(markup, isRoot, children)[i] != []
  {
    RowsAreNonempty(markup, children, true);
    RowsAreNonempty(markup, children, false);
    hide Rows;
  }

  lemma RoomsAreSmall(bufLen: nat)
    requires BufSuits(bufLen)
    ensures FirstRoom(bufLen) <= LaterRoom(bufLen) < MAX_USIZE
  {
  }
}
