# zipring, modelled and proved

zipring serves the entries of a ZIP archive over HTTP/1.1 from hand-written buffer code. This
project models that code, from the bytes of a connection to the bytes of its answers, and proves
what a client and the archive's owner may rely on:

* **A connection, whole.** `Serving.Serve` answers exactly the requests that a pure splitter finds
  in the connection's byte stream, in order, up to the first that does not keep the connection,
  however reads cut that stream, and nothing but a fault, or a request that cannot be answered, cuts
  that short; each answer is right for the archive; and a client that reads the bytes sent by the
  framing rules of RFC 9112 receives exactly those answers, never part of one. (The bytes of a damaged
  entry may all be out before its checksum tells: such an entry a client may receive whole and
  wrong, as the last thing on its connection.)
* **Requests.** `RequestReader` (one buffer, in-place compaction, resumed search, pipelined
  leftovers) refines the splitter, and the search looks at every window once and in order. Which
  requests keep the connection, and with which status the others are refused, is told from the
  received lines.
* **Listings.** The chunked writer, with its reused array and its failed formats that leave junk,
  is undone by a chunked decoder, refuses exactly the listings with a text that fits nowhere, and
  uses no more chunks than any other division of the same texts.
* **Bodies.** The three resumable producers hand out one flat byte string in whatever portions the
  caller has room for, and as many bytes as the head announces. For archives written with a local
  header, name and extra field of any length, that string is the entry's data, framed or decoded, and
  the coding, type and tag a client reads off the head are true of it.
* **The tree.** Building it in place, sorting and looking up agree with a walk over path segments
  and with the archive's list of entries; the order of the entries does not matter; the links a
  client reads off a received listing, and the location it reads off a redirect, lead home, with the
  exact condition for it.
* **Small codecs and pools** close the loops between these.

How the modules fit together:

| module | models |
|---|---|
| Bytes, Numerals, Names | byte strings, hex, decimal and little-endian numerals, the order of names |
| Io | a socket read of any size, end or failure; a sink that may fail part of the way; the archive |
| Framing, Requests, Negotiation, Percent | request framing, request contents, Accept-Encoding, percent-coding |
| FsTree, TreeNodes | the tree as a value, and the in-place nodes that stand for it |
| Lookup, Building, Canonical, Pages, IndexPages, Answers | what the tree answers, told from segments and from the archive's list |
| Chunking, Listing, Responding | chunked coding and packing, listing texts, the response buffer |
| Coding, Inflating, Bodies, InflatedBodies, DecodedBodies, EntryBodies, Pools | entry bodies, the decoders they rely on, the pools |
| LocalHeaders | archives as they are written, for what the bodies find in them |
| Messages, Replies, Delimiting, Heads | response heads, a client that reads responses, what it takes for a response, the fields it reads |
| Server, Serving, Sites, Encodings | answering one request, one connection, an archive's site, content codings on the wire |
| Links, Browsing | where links and locations lead, and the links a client reads off a listing |

Code that works step by step is imperative here too: the classes `RequestReader`,
`EncodingVerdicts`, `ResponseStream`, `NativeBody`, `InflatedBody`, `DecodedBody`, `DirNode` and the
two pools have the fields, loops and arrays of the source, and their methods are proved against
functions whose properties the lemmas state.

Where the model stands for code that is not part of it: the HTTP parser, the CRC, the MIME guess
and the HTML escaping are arbitrary functions; UTF-8 validity is an arbitrary predicate on paths; a
formatted text that does not fit leaves any prefix of itself behind. The inflate decoder and the
archive library's entry decoder are classes with contracts: they take and show as much as they like,
but nothing from behind the first whole stream; they make progress, and fail only on bytes from which
no whole stream can come. Sockets, sinks and the
archive count their failures in ghost fields, so that a failure is told from one before.

The code and its documentation differ in two places, and the model follows the code. `fill` is
documented to yield 0 only once a body is complete; with less room than the trailer a native body
yields 0 earlier, so its contract names that case, and every caller leaves enough room. A listing whose
page start does not fit behind the header is refused at once, although a chunk without the header
could hold it.

Of the properties looked for, four fail, and each is proved to hold exactly under a condition that can
be told beforehand. Before sorting, the cached index page and a lookup of `index.html` agree exactly if
the directory lists no page, or lists first under that name a page with the same entry as the last one
(`IndexPages.UnsortedIndexAgreesWhen`; `Pages.UnsortedIndexMayDisagree` is an input that fails). A
listing's link leads home exactly if nothing but escaped slashes stands behind the raw path's last
slash and the name is not `.`, `..` or empty (`Links.LinkLeadsBelow`; `Links.EscapedSlashLeadsAway`
fails). A redirect does exactly if one segment stands there and is not `.` or `..`
(`Links.RedirectLeadsHome`; `Links.EscapedSlashRedirectsAway` and `Links.DotsRedirectAway` fail). A
listing's `..` leads to the directory above exactly if one decoded segment stands between the raw path's
last two slashes (`Browsing.UpLeadsAbove`; `Browsing.TwoSlashesStay` fails).

## Model

| member | source | states |
|---|---|---|
| Serving.Serve | src/main.rs:273-312 | Requests answered are, in order, those the pure splitter cuts from everything the peer sends, up to and including the first that does not keep the connection; each has one whole and right reply. Only a read, write or flush that failed meanwhile, or a failed read of the archive, or a request that cannot be answered (its head, listing or entry does not fit, is missing or damaged) cuts this short, and then a prefix of a reply with the right head, and of an undamaged entry with its own content, is all that follows. A client receives exactly these answers, and the last only if none of it is missing. Without such a cause every request is answered and received. The buffer and every inflater are back in their pools. |
| Serving.ServeRequests | src/main.rs:284-306 | The same of the loop alone, with the reader's bytes and the peer's unread bytes as the stream still to serve, and the cause of whatever cut it short. |
| Serving.AnswerNext | src/main.rs:285-305 | One turn consumes one frame of the splitter and sends its whole right reply, or the start of one with the right head; it reports a failed read, an unsent reply or a failed flush only with their cause, and no request only when none is left. |
| Serving.Answer | src/main.rs:290-301 | The request in a frame gets its right answer, flushed; short of that, a failure or an answer that cannot be given is the cause, and the start of a reply with the right head was sent. |
| Serving.Await | src/main.rs:285-289 | The next frame of buffered and unread bytes, read into a request, with the pools left alone. |
| Serving.FaultlessServesAll | src/main.rs:284-306 | Whatever was served without a fault, asked for nothing that cannot be answered, was served to its end. |
| Serving.Begin | src/main.rs:282-283 | A reader that holds nothing and a buffer of full length that no one else has. |
| Serving.End | src/main.rs:307-307 | The buffer is back in its pool, and nothing else changed. |
| Serving.NextToAnswer | src/main.rs:284-306 | The next frame of what is left is the next to be answered; if it does not keep the connection it is the last, otherwise the frames behind it follow. |
| Serving.AnsweredUntilOneLeaves | src/main.rs:302-305 | Of the frames to answer, each but the last is a whole GET that says no `Connection: close`, and they stop short of the split only behind one that is not. |
| Serving.ClientReceives | src/main.rs:284-306 | From whole replies and part of another, a client reads the responses and the other one only if it is all there. |
| Serving.OneMoreAnswer | src/main.rs:294-305 | What one more answer, whole or cut short, makes of a connection on its way. |
| Serving.EndsBetween | src/main.rs:287-289 | Ending between requests leaves only whole replies, and with no request left all were answered. |
| Delimiting.PartIsNotReceived | src/response/stream.rs:290-353 | No proper prefix of a reply is taken for a response. |
| Delimiting.ReceiveExtends | src/response/stream.rs:290-353 | A response that was received stays the same, whatever follows it. |
| Delimiting.DechunkExtends | src/response/stream.rs:139-161 | So does a chunked body that is complete. |
| Delimiting.PartlyReceived | src/response/stream.rs:290-353 | Whole replies and a prefix of one more are received as the whole ones, and the last only if it is whole. |
| Replies.RepliesAreReceived | src/main.rs:284-306 | Pipelined replies are received one by one, each at its own end. |
| Replies.ReceiveStatus | src/response/stream.rs:341-353 | A status response is delimited by its head, and read back line by line. |
| Replies.ReceiveRedirect | src/response/stream.rs:313-325 | So is a redirect, whatever its name. |
| Replies.ReceiveNotModified | src/response/stream.rs:327-339 | A 304 ends with its head (section 6.3 of RFC 9112). |
| Replies.ReceiveListing | src/response/stream.rs:186-239 | A listing's chunks behind its head are received as their concatenation, and no further. |
| Replies.ReceiveEntry | src/response/stream.rs:46-82 | An entry's head followed by as many bytes as it announces is received as these lines and these bytes. |
| Heads.StatusLinesRead | src/response/status.rs:12-23 | The code and reason of each refusal, as they stand on the wire. |
| Heads.RedirectReads | src/response/stream.rs:313-325 | A client reads 301, and as location the encoded name below the page with a slash behind it. |
| Heads.NotModifiedReads | src/response/stream.rs:327-339 | A client reads 304 and the entry's tag. |
| Heads.TagReturns | src/request/mod.rs:302-307 | A tag that is sent back brings the CRC it was made of. |
| Heads.ListingReads | src/response/stream.rs:191-192 | A client reads 200 and the type of HTML in UTF-8. |
| Heads.EntryReads | src/response/stream.rs:46-82 | A client reads 200, the entry's type and tag, and the name of the coding it is sent in, or none. |
| Server.Respond | src/response/mod.rs:20-64 | What is due to a request, by its path and headers, leaves whole, or its start does: the head that is due and, unless the entry is damaged, its own content. All of a reply leaves only if it is right, except that a damaged entry may prove so once its bytes are out. Nothing is withheld without a write or archive read that failed meanwhile, or an answer that does not fit or whose entry is damaged. |
| Server.ServeTarget | src/response/stream.rs:290-309 | The same of entries, 304s, listings and redirects. |
| Server.ServeEntry | src/response/stream.rs:242-262 | The same of an entry; 500 exactly for a method nothing can decode and no accepted coding covers. |
| Server.SendEntry | src/response/stream.rs:257-262 | The same behind a staged head, and the borrowed inflater is returned however the body ends. |
| Server.SendOpened | src/response/stream.rs:260-288 | The body sent behind the head is the entry's content; cut short, it is the start of a reply with that head, the announced length and, unless the entry is damaged, its content, and the sink, the archive or the entry is to blame. |
| Server.ServeListing | src/response/stream.rs:186-239 | The listing due leaves whole; else its start does, because a write failed or a text fits no chunk, and never all of a reply that is not the listing. |
| Server.OpenBody | src/response/body.rs:43-68 | Which of the three bodies an entry gets, fresh or lent, apart from the buffer. |
| Server.OpenInflated | src/response/body.rs:231-245 | An inflated body starts from a lent inflater that no one else has. |
| Server.DropBody | src/response/body.rs:200-207 | Dropping a body returns its inflater, and nothing else. |
| Server.AnswerStatus | src/response/stream.rs:341-353 | A status answer leaves whole, as a prefix because a write failed, or not at all because it does not fit. |
| Server.AnswerNotModified | src/response/stream.rs:327-339 | The same of a 304, which always fits. |
| Server.AnswerRedirect | src/response/stream.rs:313-325 | The same of a redirect. |
| Server.EntryHeadIsShort | src/response/stream.rs:46-82 | An entry's head leaves a connection buffer the room that every fill needs. |
| Server.FixedHeadsAreShort | src/response/stream.rs:192-203 | The fixed heads fit the buffer, with room for a chunk. |
| Server.CanAnswerExactly | src/response/mod.rs:28-63 | With a connection's buffer every request can be answered, except exactly redirects whose head is too long, listings with a text too long, and damaged entries. |
| Server.ListingCarries | src/response/stream.rs:186-239 | A listing's chunks and terminator are received as the start of its text, and as all of it exactly if every text fits. |
| Server.RefusedIsPart | src/response/stream.rs:165-183 | What a refused listing has sent is a proper prefix of a terminated one. |
| Server.PaddedEntry | src/response/stream.rs:267-288 | What an aborted entry has sent is the start of a reply with its head and announced length, and with its own content unless it is damaged. |
| Server.BeginsContent | src/response/stream.rs:267-288 | What begins a body of an intact entry begins that entry's content. |
| Server.ContentIsRight | src/response/body.rs:323-389 | A complete body handed out its entry's content. |
| Server.IntactCompletes | src/response/body.rs:43-68 | A body opened for an entry that the archive holds as recorded can complete. |
| Sites.ListedEntriesAreRecorded | src/main.rs:197-202 | If the listed entries fit their fields, so does every entry a path is ever answered with, conflicts or not. |
| Sites.DueByList | src/response/mod.rs:28-63 | What is due to a path, from the list alone: a listed file, by its path or as index page, in the coding agreed on, or 304 or 500; a directory without the slash a redirect to its last segment, with it and no index page a page of exactly the next segments below it; anything else 404. |
| Sites.RefusedByCase | src/request/mod.rs:183-224 | The status code a client reads, told from the parser's result: 431, 405, 414, 400, or 404 for a path that is not UTF-8. |
| Sites.NativeIsData | src/response/body.rs:93-131 | Of an entry written behind its local header, what is right to send in its own coding is its data, or a gzip member of its data, and there is such a body. |
| Sites.InflatedIsData | src/response/body.rs:284-320 | Decoded, a deflated entry whose data is one whole stream of what was recorded can be sent, and exactly as what that inflates to. |
| Sites.DecodedIsData | src/response/body.rs:332-389 | The same of any other entry that the archive library takes for whole. |
| Encodings.ElementIsRead | src/request/mod.rs:24-39 | An element is read as naming gzip (also as `x-gzip`), zstd, in any case, or `*`, and as refusing exactly if a weight in it is zero. |
| Encodings.VerdictByNames | src/request/mod.rs:23-40 | The verdict on a coding is that of the last element naming it. |
| Encodings.AcceptedIsLetPass | src/request/mod.rs:42-48 | A coding is accepted exactly if the last element of all Accept-Encoding fields that names it, or without one the last `*`, lets it pass. |
| Encodings.NativeByFields | src/response/coding.rs:27-42 | An entry is sent as stored exactly if it is stored plainly, or in gzip or zstd that those fields let pass. |
| Encodings.RefusedExactlyWhen | src/response/stream.rs:249-255 | 500 exactly for a method that nothing decodes and no field lets pass. |
| Encodings.EncodingIsTrue | src/response/stream.rs:56-70 | The Content-Encoding a client reads is `gzip` exactly if the body is a gzip member of a stored deflate stream and gzip was let pass, `zstd` exactly if the stored zstd bytes are sent and zstd was let pass, and absent otherwise, with the body what the entry decodes to. |
| Encodings.TagAndTypeAreTrue | src/response/stream.rs:46-82 | The type read is the one guessed from the entry's name, and the tag read, sent back as If-None-Match, brings the entry's CRC. |
| Framing.NextFrameCases | src/request/mod.rs:143-180 | The three cases exactly: the shortest prefix ending in CRLFCRLF if it fits, else a full buffer, else the peer closed. |
| Framing.ShortestRequestIs | src/request/mod.rs:288-296 | The search finds the end of the shortest prefix that ends in the terminator, and only that. |
| Framing.FindHeadersEnd | src/request/mod.rs:288-296 | The first terminator, with none before it; none at all otherwise. |
| Framing.HeadersEndInExtension | src/request/mod.rs:288-296 | Bytes that follow do not move the end found. |
| Framing.SplitCoversStream | src/request/mod.rs:143-180 | The frames are the stream cut up, and what is left over holds no whole request. |
| Requests.RequestReader.NextRequest | src/request/mod.rs:143-180 | The parser is given exactly the splitter's next frame of buffered and unread bytes, however reads cut them; frame, buffered and unread bytes stay the stream; the windows looked at are 0, 1, 2 and so on up to the frame's end, each once; only a failed read is reported as one. |
| Requests.RequestReader.AwaitRequest | src/request/mod.rs:148-171 | The loop ends where the splitter cuts, keeps the bytes through compaction, resumes without skipping or repeating a window, and ends; it gives up only when a read failed. |
| Requests.RequestReader.Fill | src/request/mod.rs:227-252 | One read, after compaction if the buffer is full: no byte lost or invented, more held unless the peer closed, the buffer is full or the read failed. |
| Requests.RequestReader.Compact | src/request/mod.rs:233-235 | What is held moves to the front unchanged. |
| Requests.RequestReader.ReadMore | src/request/mod.rs:238-251 | What a read delivers joins what is held, behind it. |
| Requests.RequestReader.Parse | src/request/mod.rs:183-224 | The request its frame stands for, the frame consumed, the decoded path at the front of the response buffer. |
| Requests.SearchResumes | src/request/mod.rs:153-157 | A search resumed three bytes back finds what a search of everything held would. |
| Requests.SearchStep | src/request/mod.rs:149-170 | What one search settles about the next frame of the whole stream, and which windows it adds. |
| Requests.HeldStream | src/request/mod.rs:143-180 | The splitter's answer from the part of the stream that is held. |
| Requests.ExtractHeaders | src/request/mod.rs:298-318 | Last valid tag, verdicts over all Accept-Encoding lines, and whether any line closes. |
| Requests.EncodingVerdicts.Read | src/request/mod.rs:23-40 | Reading a line updates the verdicts element by element, refusals decided by any zero weight. |
| Requests.DecodePath | src/request/mod.rs:322-333 | The decoded path at the front of the buffer, None exactly when it does not fit. |
| Requests.TagRoundTrip | src/request/mod.rs:302-307 | The entity tag an entry is served under reads back as its CRC. |
| Requests.TagFits | src/request/mod.rs:302-307 | Every tag that reads as a CRC reads as one of 32 bits. |
| Requests.LastTagDecides | src/request/mod.rs:298-309 | Of several tags the last that reads as a CRC counts. |
| Requests.StaysExactlyWhen | src/request/mod.rs:79-89 | A request keeps the connection if and only if it is a whole GET for a path that fits, with no field called `connection` of value `close`, either in any case. |
| Requests.RequestsByCase | src/request/mod.rs:183-224 | Exactly which parser results get which status, and that all others are for the decoded path. |
| Negotiation.LinesCombine | src/request/mod.rs:22-40 | Reading lines one by one is reading their comma-join (section 5.3 of RFC 9110). |
| Negotiation.VerdictIsLastMention | src/request/mod.rs:24-39 | A coding's verdict is what its last mention says, and none without a mention. |
| Negotiation.AcceptedExactlyWhen | src/request/mod.rs:42-48 | A coding is accepted exactly when its last mention lets it pass, or it has none and the last `*` lets it, wherever each stands, in however many lines, or none (section 12.5.3 of RFC 9110). |
| Negotiation.ZeroWeightsRefuse | src/request/mod.rs:51-65 | Among grammatical weights, however padded, exactly those of value zero refuse (section 12.4.2 of RFC 9110). |
| Negotiation.PlainElementReads | src/request/mod.rs:24-38 | A padded coding alone is read as that coding, acceptable. |
| Negotiation.BlanksArePadding | src/request/mod.rs:26-26 | Spaces and tabs around a coding (section 5.6.3 of RFC 9110) are padding. |
| Negotiation.WeightedElementReads | src/request/mod.rs:24-38 | A padded coding with a padded weight behind its semicolon is read as that coding, acceptable exactly if the weight is not zero. |
| Percent.DecodeEncode | src/response/stream.rs:98-113 | Decoding undoes encoding, whatever follows the name. |
| Percent.DecodeAcrossSlash | src/request/mod.rs:320-333 | Decoding works segment by segment. |
| Percent.DecodeUnescaped | src/request/mod.rs:320-333 | What holds no escape is its own decoding, stray percent signs included. |
| Percent.EscapeDecodes | src/request/mod.rs:320-333 | An escape, in digits of either case, stands for the byte they spell. |
| Percent.DecodeKeepsFinalSlash | src/request/mod.rs:320-333 | A raw path ending in a slash decodes to one. |
| Percent.EncodedIsSafe | src/response/stream.rs:98-113 | An encoded name has no quote, query, fragment or control byte, and a slash only from the name. |
| Percent.EncodesAllBut | src/response/stream.rs:98-113 | Exactly which bytes a link spells as they are. |
| TreeNodes.ReadZipTree | src/main.rs:197-202 | The tree built in place stands for the list inserted entry by entry and sorted. |
| TreeNodes.DirNode.InsertAt | src/fstree.rs:47-95 | Inserting in place changes the tree's value as the specification does, and touches only nodes of this tree. |
| TreeNodes.DirNode.EnterDir | src/fstree.rs:57-79 | The first directory of that name, added at the end if there is none. |
| TreeNodes.DirNode.AddFile | src/fstree.rs:85-94 | A file at the end, and the index if it is called `index.html`. |
| TreeNodes.DirNode.InsertBelow | src/fstree.rs:80-84 | Inserting into one child leaves its siblings as they were. |
| TreeNodes.DirNode.RecursiveSort | src/fstree.rs:157-170 | Sorting in place yields the sorted value, through all children and the index. |
| TreeNodes.DirNode.SortChildren | src/fstree.rs:164-164 | The children in place become their stable sort. |
| FsTree.SortsStably | src/fstree.rs:164-164 | Sorted by name, the same children, and children of one name in their order. |
| FsTree.StableSortIsUnique | src/fstree.rs:164-164 | Any sorted rearrangement that keeps the order of equal names is this one. |
| Names.FirstDifferenceDecides | src/fstree.rs:164-164 | Of two names the one with the smaller first differing byte comes first, and a name before those it begins. |
| FsTree.SortEachCommutes | src/fstree.rs:164-165 | Sorting the children first and then below them is the same as below them first. |
| Lookup.FindIsWalk | src/fstree.rs:112-132 | `find` is a walk over the path's nonempty segments, for every node and path. |
| Lookup.InsertUpdates | src/fstree.rs:47-95 | An insert that runs into no file changes what is found at exactly the names it goes by, empty names included. |
| Lookup.ContinuesByNames | src/fstree.rs:57-79 | A file's path is another entry's path, or begins it with a slash behind, exactly if its names begin the other's names. |
| Lookup.SegmentsAreNames | src/fstree.rs:112-124 | A lookup knows a path by those of its names that are not empty. |
| Lookup.InsertKeepsFound | src/fstree.rs:47-95 | No insert at all, conflicting or not, takes away what was found. |
| Building.BuildHolds | src/main.rs:197-200 | A tree of distinct file paths, none of which and a slash begin another, holds the listed files, the directories above them, and nothing else, names empty or not. |
| Building.FindsExactlyTheFiles | src/fstree.rs:112-132 | Before and after sorting, a path finds a file exactly when the list has it, with its own entry. |
| Building.ListedFileIsFound | src/fstree.rs:112-132 | A listed file is found under its own path, before and after sorting, unless a name in it is empty: then no path leads to it. |
| Building.ReorderedDescribesSame | src/main.rs:197-200 | Entries in any order describe the same files and directories. |
| Building.SortedWalk | src/fstree.rs:157-170 | A walk in the sorted tree ends at the sorted form of where it ended before. |
| Building.SortedFind | src/fstree.rs:112-170 | For every tree and path, what the sorted tree finds is what the tree found, sorted, shadowed duplicates included. |
| Building.BuildKeeps | src/fstree.rs:61-94 | The cached index is in range and set exactly when a file child is called `index.html`; sibling directories differ in name; only the root is marked root. |
| Building.SortKeeps | src/fstree.rs:157-170 | Sorting keeps all that. |
| Building.InsertKeeps | src/fstree.rs:47-95 | So does every insert. |
| Canonical.OrderDoesNotMatter | src/main.rs:197-202 | If file paths are distinct and none and a slash begins another entry's path, entries in any order yield one and the same sorted tree, cached indices included. |
| Canonical.TreeIsDetermined | src/fstree.rs:157-170 | Two canonical trees that hold the same at every path are equal. |
| Canonical.SortedIsCanonical | src/fstree.rs:157-170 | A sorted tree without repeated names is strictly sorted throughout, with the index where the page stands. |
| Pages.IndexPageAgrees | src/fstree.rs:134-155 | After sorting, a directory asked for as such is answered by an entry exactly when `index.html` in it is that file. |
| Pages.SortedIndexAgrees | src/fstree.rs:166-168 | In a sorted directory the cached index is the child a lookup finds. |
| Pages.UnsortedIndexMayDisagree | src/fstree.rs:86-89 | Before sorting, of two index pages the cache keeps the last and a lookup finds the first. |
| IndexPages.UnsortedIndexAgreesWhen | src/fstree.rs:85-94 | For every list and every directory asked for in its unsorted tree: the answer is the last page listed there, a lookup of `index.html` finds what is listed first under that name, and the two agree if and only if no page is listed there or what is listed first is a page with the same entry. |
| IndexPages.IndexIsLastPage | src/fstree.rs:86-89 | The cached index points at the last page listed in the directory. |
| IndexPages.ChildIsFirstCalled | src/fstree.rs:124-128 | The first child of a name is what the first entry listed under it makes of it. |
| IndexPages.FoundDirHolds | src/fstree.rs:57-84 | A directory that is found is made of the entries listed behind its path, whatever conflicts and shadowed names stand beside it. |
| Pages.RedirectSettles | src/fstree.rs:134-155 | A redirect names the path's last segment, and with it and a slash in its place the same directory is found and not redirected again. |
| Answers.AnsweredByList | src/fstree.rs:134-155 | From the list alone: exactly which paths are answered by which entry, by a redirect to where, and by nothing. |
| Answers.ListedByList | src/fstree.rs:134-155 | A listing shows exactly the next segments of the entries below it, each once, in order, directories as such. |
| Answers.PublishedHolds | src/main.rs:197-202 | What stands at a path in the published tree, from the list alone. |
| Answers.AnswersPass | src/fstree.rs:134-155 | Even with conflicts, what holds of every listed entry holds of every entry answered with. |
| Links.LinksLeadHome | src/response/stream.rs:223-231 | From a listing, the link to a child that can be one segment finds the first child of its name, which is that child unless shadowed, and a directory's link is not redirected. |
| Links.LinkLeadsBelow | src/response/stream.rs:223-231 | For every name, a link leads to it below the page's own path if and only if only escaped slashes, or nothing, stand behind the raw path's last slash and the name is neither empty nor `.` nor `..`. |
| Links.EscapedSlashLeadsAway | src/response/stream.rs:223-231 | The listing at `/a%2F` links to `/b`. |
| Links.LinkLeads | src/response/stream.rs:223-231 | Resolved as in section 5.2 of RFC 3986, a link replaces what stands behind the page's last slash by the encoded name. |
| Links.RedirectLeadsHome | src/response/stream.rs:311-325 | A redirect is a 301, and the location a client reads off it, a relative path, leads to the same directory if and only if one segment stands behind the raw path's last slash and that is neither `.` nor `..`, and is then not redirected again. |
| Links.EscapedSlashRedirectsAway | src/response/stream.rs:311-325 | With `a/b/x` in the archive, the location read off the answer to `/a%2Fb` leads to `/b/`. |
| Links.DotsRedirectAway | src/response/stream.rs:311-325 | With `../x` in the archive, the location read off the answer to `/%2e%2e` leads to `/`. |
| Links.DotsLead | src/response/stream.rs:223-231 | A link of dots leads to the page's directory, or to the one above it. |
| Links.NormalMoves | src/response/stream.rs:311-325 | A directory path without dot segments comes through their removal unchanged, whatever follows its last slash. |
| Links.HrefIsRelativePath | src/response/stream.rs:223-231 | Links and locations are relative paths without scheme, authority, query or fragment (section 4.2 of RFC 3986), whatever the name. |
| Browsing.ListedLinksLead | src/response/stream.rs:204-235 | From a received listing a client reads as many links as there are children, and below the root one up in front; each is captioned with its child's escaped name, directories first, and followed from the page finds the first child of that name; a directory's is not redirected, a file's that is first is answered with that file. |
| Browsing.ListingIsRead | src/response/stream.rs:204-235 | The links read off a listing's text, in order, and no others. |
| Browsing.ShownInOrder | src/response/stream.rs:215-222 | Directories are shown before files, each kind in the order of the sorted children, every child once. |
| Browsing.UpLinkLeads | src/response/stream.rs:204-208 | Below the root the first link read is the one up, and followed from the page finds the directory of which the listed one is a child, if and only if one decoded segment stands between the page's last two slashes. |
| Browsing.UpLeadsAbove | src/response/stream.rs:204-208 | The same condition for every page, from the paths alone. |
| Browsing.TwoSlashesStay | src/response/stream.rs:204-208 | From the listing at `/a//`, `..` leads to `/a/`, the same directory. |
| Chunking.ChunkedRoundTrip | src/response/stream.rs:134-161 | Decoding chunks and terminator (section 7.1 of RFC 9112) yields the payloads and stops right behind them. |
| Chunking.UnterminatedIsRejected | src/response/stream.rs:165-183 | Chunks without the terminator are no body. |
| Chunking.PackingHoldsTexts | src/response/stream.rs:163-183 | A complete packing holds exactly the texts, in nonempty chunks that fit. |
| Chunking.PackingHoldsStart | src/response/stream.rs:163-183 | Refused or not, what was packed begins the texts. |
| Chunking.RefusedExactlyWhen | src/response/stream.rs:174-176 | Packing is refused exactly when the first text overflows the first chunk or another overflows any. |
| Chunking.PackingIsMinimal | src/response/stream.rs:165-183 | No division of the same texts into chunks of these capacities uses fewer. |
| Listing.ListingChunks | src/response/stream.rs:186-239 | All this of the listing's page start, directory rows and file rows. |
| Listing.ListingPacks | src/response/stream.rs:186-239 | What the chunks of a listing hold, when it is refused, and that no division uses fewer. |
| Listing.EachChildHasOneRow | src/response/stream.rs:215-235 | Behind the page start, the rows are those of the children, each exactly once, whether directory or file. |
| Responding.ResponseStream.ServeIndex | src/response/stream.rs:186-239 | All chunks and the terminator behind the header; whole chunks only when refused; or, a write having failed, a prefix of them, and of the terminator only if the listing fits. Nothing else reaches the connection. |
| Responding.ResponseStream.AppendFmtChunked | src/response/stream.rs:165-183 | The text joins the pending chunk, or that chunk leaves because it could not hold it and the text starts the next; refused when an empty chunk cannot hold it. At most one retry. |
| Responding.ResponseStream.AppendFmt | src/response/stream.rs:34-39 | All of the text or nothing counts, and what was there before stays. |
| Responding.ResponseStream.FlushChunk | src/response/stream.rs:139-161 | What stood in front of the chunk, the framed payload and perhaps the terminator leave in one write, or part of that does because it failed. |
| Responding.ResponseStream.FrameChunk | src/response/stream.rs:139-158 | The framing is written around the payload where it stands, within bounds. |
| Responding.ResponseStream.SendBody | src/response/stream.rs:267-288 | The head leaves exactly once, in one write with the body's first portion, alone only if there is none, followed by all of the body; cut short, never more than announced, always the start of the entry's content unless that is damaged, and only because the sink or the archive failed or the entry is damaged. |
| Responding.ResponseStream.WriteEntryHeader | src/response/stream.rs:46-82 | The head's lines at the front of the buffer, None exactly when they do not fit. |
| Responding.ResponseStream.ServeNotModified | src/response/stream.rs:327-339 | The template with the CRC filled in is the 304 with its entity tag. |
| Responding.TemplateFilled | src/response/stream.rs:328-336 | The template's first `x` is where the CRC goes. |
| Responding.ResponseStream.ServeHead | src/response/stream.rs:341-353 | The head leaves whole, or not at all when it does not fit, or in part when the write failed. |
| Responding.ResponseStream.ServeStatus | src/response/stream.rs:341-353 | The same of a status. |
| Responding.ResponseStream.ServeRedirectIntoDir | src/response/stream.rs:313-325 | The same of a redirect. |
| Coding.WireIsGzipMember | src/response/coding.rs:53-78 | A framed deflate stream is a gzip member (section 2.3 of RFC 1952): the stream, its CRC and its size modulo 2^32. |
| Coding.WireHasContentLength | src/response/coding.rs:80-82 | The framed bytes are as many as announced. |
| Coding.NativeCoding.WriteTrailer | src/response/coding.rs:67-78 | The trailer in place, and nothing in front of it touched. |
| Bodies.NativeBody.Fill | src/response/body.rs:93-131 | Each portion continues the flat string prefix, stored bytes, trailer; the front of the buffer stays; 0 only when complete or without room for the rest; it fails only if a read of the archive does, or the archive does not hold the bytes. |
| Bodies.NativeBody.ReadStored | src/response/body.rs:102-121 | As many stored bytes as fit, never the local header read as scratch. |
| Bodies.FindEntryCompressedData | src/rc_zip_compio.rs:69-95 | Where the data starts behind the local header's name and extra field. |
| LocalHeaders.DataStartsBehind | src/rc_zip_compio.rs:69-95 | Behind a local header written with name and extra field, each shorter than 65536 bytes, an entry's data starts right where the extra field ends. |
| LocalHeaders.DataIsFound | src/rc_zip_compio.rs:69-95 | The stored bytes of an entry written so are its data, wherever in the archive it stands. |
| LocalHeaders.DeflatedIsServed | src/response/body.rs:284-320 | Data that is one whole stream can be inflated, and only to one thing. |
| Bodies.NativeIsWhole | src/response/body.rs:93-131 | What was handed out is a prefix of the framed stored bytes, and all of them, as many as announced, once complete. |
| InflatedBodies.InflatedBody.Fill | src/response/body.rs:247-258 | Each portion continues the decoder's output; 0 only when complete; the loop ends; it fails only if a read of the archive does, or the archive does not hold a stream of the recorded size and CRC. |
| InflatedBodies.InflatedBody.ReadInput | src/response/body.rs:261-281 | The next stored bytes reach the input buffer in order, or the fill fails. |
| InflatedBodies.InflatedBody.Decode | src/response/body.rs:284-320 | The window moves only with nothing pending; what is pending is what the decoder added; each call makes progress. |
| InflatedBodies.InflatedBody.WithinInflation | src/response/body.rs:284-320 | What was taken and produced is within the stream that inflates as recorded, if there is one. |
| InflatedBodies.InflatedBody.CompletingMatches | src/response/body.rs:305-318 | The size and CRC checks never stop an entry whose stored bytes hold a first whole stream of that size and CRC. |
| InflatedBodies.InflatedBody.CompletingIsNotHopeless | src/response/body.rs:295-296 | Nor does the decoder, for such an entry, ever get input from which no whole stream can come. |
| InflatedBodies.InflatedBody.TakePending | src/response/body.rs:254-256 | Pending window bytes are the decoded bytes not yet handed out. |
| InflatedBodies.InflatedIsWhole | src/response/body.rs:305-318 | Never more than the recorded size; complete means that size, that CRC, and the first whole stream among the stored bytes decoded. |
| DecodedBodies.DecodedBody.Fill | src/response/body.rs:332-389 | Each portion continues the library's output; 0 only when complete; the loop ends; it fails only if a read of the archive does, or the archive does not hold a whole entry of the recorded size. |
| DecodedBodies.DecodedBody.WorkOn | src/response/body.rs:337-368 | One feed and one step of the library, with what each outcome tells of the entry. |
| DecodedBodies.DecodedBody.WithinDecoding | src/response/body.rs:337-388 | What was used and produced is within the whole entry of the recorded size, if there is one. |
| DecodedBodies.DecodedIsWhole | src/response/body.rs:354-378 | Never more than the recorded size, and a prefix of what the archive from the header on decodes to; complete, it is the first whole entry there decoded, of exactly that size. |
| EntryBodies.EntryBody.Fill | src/response/body.rs:70-79 | The same of whichever body it is, with room enough for each. |
| EntryBodies.SentIsAnnounced | src/response/stream.rs:66-70 | All three bodies hand out at most the announced number of bytes, and exactly it when complete. |
| EntryBodies.SentStarts | src/response/body.rs:72-79 | At every moment, what a body has handed out begins what the archive holds of the entry, if that is as recorded: whatever is cut short was right so far. |
| EntryBodies.CompleteHasContent | src/response/body.rs:72-79 | What a complete body of each kind has handed out, in terms of the archive. |
| Pools.BufPool.Take | src/main.rs:35-39 | A buffer no one has, of the one length; idle and lent stay as many as were ever lent at once. |
| Pools.BufPool.Return | src/main.rs:41-44 | It is idle again, and nothing else changed. |
| Pools.InflaterPool.Lend | src/response/body.rs:146-158 | An inflater no one has, its decoder reset; idle and lent stay as many as were ever lent at once. |
| Pools.InflaterPool.Return | src/response/body.rs:200-207 | It is idle again with its decoder reset, whatever became of its body. |

## Left out

- compio, io_uring, sockets, threads, runtime setup, `UringFlags`, shutdown and logging: a read delivers any number of bytes, ends or fails, and a write appends all, or a prefix and fails.
- Several connections of one thread interleave at their awaits; `Serving.Serve` is proved for one at a time. The pools' own invariants hold for any order of lends and returns.
- httparse: an arbitrary function of a frame's bytes. Its 64-header limit is one of that function's results.
- Parsing the archive's directory (`read_zip_from_file`): the list of entries is given.
- The inflate decoder, the archive library's decoder and the CRC: contracts and an arbitrary function; nothing is claimed about compressed bytes left over behind a finished stream, nor that an entry is sent if its stored bytes run past the end of the archive behind such a stream.
- MIME types are at most 256 bytes free of CR and LF, and a listing's page start is not empty; otherwise both, and HTML escaping, are arbitrary. Where a type is read off a head it is not empty and has no white space at its ends; where links are read off a page, its start holds no anchor and escaped names hold no `<`.
- UTF-8 validity is an arbitrary predicate; names and paths are bytes, which compare as the source's strings do.
- Builds without the `deflate` feature; which further methods can be decoded is a parameter.
- Coding.WireHasContentLength: announced lengths are unbounded; the source's u64 sum could only overflow for entries within 18 bytes of 2^64.
- `find` and `resolve` work on the tree's value, because they change nothing; `DirNode` ties the nodes to it.
- Request queries: a `?` is part of the path, as in the source, so links and redirects are stated for page paths that a client resolves against as they stand.
- Page paths with dot segments, which a client removes before it asks, are excluded from the statements about links and redirects.
- The client's chunked decoder knows no chunk extensions and no trailer fields, which the server never sends.
- The assertion in debug builds that the response buffer is twice as long as the page start.
