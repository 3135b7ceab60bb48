# A model of msga's cores

This project models, in Dafny, the data structures, codecs and protocols that msga's
user interface stands on, and proves what each of them promises. Each module follows
one component; a loop of the original is a loop here, an object with changing fields a
class, and each is proved against a specification whose own properties are then proved
as lemmas.

- `Utf8`, `Folding`: decoding, boundaries and validity of UTF-8 on arbitrary bytes, and the search that folds case on the fly.
- `GlyphTable`, `GlyphPages`, `GlyphCache`: the open-addressed glyph table over shelf-packed pages that are evicted whole.
- `Ascii`, `JsonGrammar`, `JsonSpelling`, `JsonTexts`, `JsonParser`, `JsonDocument`, `JsonWriter`: the texts RFC 8259 allows and what each denotes, the parser that unescapes inside its own buffer into a flat preorder tree, and the writer it undoes.
- `IniEscape`, `IniValue`, `IniFile`, `IniLine`, `IniStore`, `IniKeys`, `IniLegacy`: the settings file that is edited as text and read independently, and the forms earlier versions stored that are only read.
- `RasterSpec`, `RasterEdges`, `Raster`: the scanline rasterizer; what it paints is defined by winding numbers and measured length.
- `WorkerPool`, `WorkerPoolCode`: the pool of worker threads as a step relation, and its locked sections as code that takes those steps.
- `Client`, `ClientCode`, `Redirects`: the life of a network request over all interleavings, the client's code, and the redirect loop with its cookies.
- `LineFill`, `Reorder`, `Bidi`, `Graphemes`: breaking lines, visual order, bidirectional levels and grapheme clusters.
- `Varints`, `FontCoverage`, `FontIndex`: coded font coverage, and the index that is rebuilt incrementally.
- `Calendar`, `IsoTime`: civil dates, and printing and reading times.
- `IconCodec`, `IconCode`: the icon encoder (Python) and decoder (C++).
- `Wrappers`: an optional value.

A vector or string that code appends to or rewrites is a field or variable of sequence
type; buffers of fixed size are arrays. Masks and shifts are written as the remainders
and quotients they are. In the concurrent parts what runs under a mutex is one step, a
notification is a step of its own after it, and a waiting thread may wake at any time.

## Findings

Where a promise does not hold for every input, the model keeps the code and the lemma
states exactly when it holds.

- Settings: a key whose part after the section ends in an odd run of `/` is written as a line the reader cannot split, because the slashes become backslashes and the last one hides the `=`; a section that is a case variant of `general` other than `General` reads as `General`; code points past U+FFFF are narrowed. `IniKeys.FirstSetReadsBack` is the exact condition, and `IniKeys.LostKeys` shows `a/b/` and `general/x` lost.
- JSON: the writer has no depth limit, the parser has 256 levels; `JsonWriter.WriteText` says which side of it a tree falls on, and `JsonWriter.TooDeep` shows arrays nested 257 deep refused.
- Icons: a coordinate difference of exactly -2^31 is coded as 2^32 - 1 and decoded as 0 (`IconCodec.SmallestDelta`); larger ones lose bits. The encoder's pen is unbounded while the decoder's has 32 signed bits, so small differences can also lead to a coordinate it cannot hold (`IconCodec.PenOverflows`: a move to 2^31 - 1, then a line to 2^31). `IconCodec.IconRoundTrip` holds exactly when every coordinate fits the pen and every difference is below 2^31 in size. The sum that overflows is undefined in C++; the model wraps it, and the coordinate is wrong however it comes out.
- Font index: beyond 0xFFFE faces the list is cut, so the last file may be kept with only some of its faces, and a later incremental build that finds that file unchanged copies only those, even when all would fit by then (`FontIndex.CutComesBack`; `FontIndex.CutsHappen` gives such files). `FontIndex.LoadIndex` is exact: starting from what earlier loads wrote, a load has every face that parsing all files gives exactly when these are within the limit and no old entry it used had been cut. `FontIndex.Starts` follows: as long as no start's files exceed the limit, nothing is ever lost.

## Model

| member | source | states |
|---|---|---|
| Utf8.AcceptsExactlyTheStandard | src/prim/utf8.cpp:5-44 | the decoder takes a multi-byte sequence exactly when it is one of the forms of RFC 3629 section 4: no overlong form, no surrogate, nothing past U+10FFFF, nothing cut short |
| Utf8.DecodeStep | src/prim/utf8.cpp:5-44 | the in-place decoding step yields the code point and the next index of the specification, on arbitrary bytes |
| Utf8.DecodeInvertsEncode | src/prim/utf8.cpp:5-69 | decoding the encoding of any sequence of scalar values gives the sequence back |
| Utf8.DecodedForm | src/prim/utf8.cpp:5-69 | what was decoded without error encodes to the very bytes it came from |
| Utf8.OrderIsKept | src/prim/utf8.cpp:46-69 | encodings are ordered as byte strings exactly as their code points are, as section 1 of RFC 3629 says |
| Utf8.ValidIffEncoded | src/prim/utf8.cpp:93-108 | text is valid exactly when it is the encoding of some scalar values |
| Utf8.ValidIffReencodes | src/prim/utf8.cpp:93-108 | text is valid exactly when decoding and encoding it changes nothing |
| Utf8.IsValid | src/prim/utf8.cpp:93-108 | the loop decides validity; a literal U+FFFD is not taken for an error |
| Utf8.Sanitize | src/prim/utf8.cpp:110-124 | the result is always valid, and is the text itself exactly when that is valid |
| Utf8.BoundaryIffUnspanned | src/base/utf8.cpp:24-44 | whether an index is a forward boundary depends on the three bytes before it only: stepping is self-synchronising |
| Utf8.NextBoundary | src/base/utf8.cpp:24-29 | from a boundary, the next one, with none between |
| Utf8.PrevBoundary | src/base/utf8.cpp:31-44 | from any forward boundary, the boundary immediately before it, on arbitrary bytes |
| Utf8.TruncateAt | src/prim/utf8.cpp:76-91 | the largest boundary not above the limit |
| Folding.FoldText | src/base/utf8.cpp:150-162 | folding a text folds its code points, whatever its bytes |
| Folding.FoldsOnce | src/base/utf8.cpp:99-134 | folding a folded code point changes nothing |
| Folding.CapitalsFold | src/base/utf8.cpp:99-134 | Latin, Greek, Cyrillic, Armenian and full-width capitals fold to the small letter that folds to itself; the signs among them stay |
| Folding.FoldedMatchAt | src/base/utf8.cpp:171-185 | the needle is a prefix of the folded code points from there on |
| Folding.ContainsFoldedNeedle | src/base/utf8.cpp:187-204 | folding on the fly finds the needle exactly when its code points occur in the folded haystack, and, for a valid needle, exactly when a byte search finds it in the folded copy |
| Folding.BytePrefixIsTextPrefix | src/base/utf8.cpp:206-210 | an encoding can only be a prefix of another where the code points are |
| Folding.FoldedCopySearch | src/base/utf8.cpp:206-210 | a byte search in encoded text finds a valid needle exactly where its code points occur: no match begins inside a character |
| GlyphTable.MaskingIsModulo | src/text/glyph_cache.cpp:38-57 | the wrapping index arithmetic of the model is the remainder the masks compute |
| GlyphTable.FreeSlotEndsProbe | src/text/glyph_cache.cpp:192-200 | a probe that reaches a free slot has shown that the key is nowhere in the table |
| GlyphTable.InsertKeepsOk | src/text/glyph_cache.cpp:49-57 | a new key at the first free slot after its home keeps every entry findable and adds one entry |
| GlyphTable.TableIsLine | src/text/glyph_cache.cpp:74-102 | seen from a free slot, findability in the wrapping table is findability in a line without wrap-around |
| GlyphTable.GapMoves | src/text/glyph_cache.cpp:89-97 | moving an entry back into the hole, when its home is not past it, keeps the gap invariant and the set of entries; so does passing over it otherwise |
| GlyphTable.GapCloses | src/text/glyph_cache.cpp:89-99 | at the end of the run the hole can be freed: all other entries are findable again |
| GlyphCache.Cache.InsertEntry | src/text/glyph_cache.cpp:49-57 | the table gains the entry, findable, and loses none |
| GlyphCache.Cache.Grow | src/text/glyph_cache.cpp:59-67 | the doubled table holds exactly the old entries |
| GlyphCache.Cache.RemoveAt | src/text/glyph_cache.cpp:89-99 | backward-shift deletion removes the one entry, keeps all others findable, and touches nothing before it |
| GlyphCache.Cache.PurgeDeadPages | src/text/glyph_cache.cpp:69-102 | one sweep, despite wrap-around and shifting within it, removes exactly the entries on dead pages and ends |
| GlyphCache.Cache.EvictOne | src/text/glyph_cache.cpp:104-122 | the victim is a live page used no later than any other but the one to keep |
| GlyphCache.Cache.NewPage | src/text/glyph_cache.cpp:124-151 | afterwards the bytes are within budget or the new page is the only live one; pages are evicted only as the budget asks: none when all fits, else least recently used ones, of which some one put back would exceed it; the entries left are exactly those of pages not evicted |
| GlyphCache.DeadIffEvicted | src/text/glyph_cache.cpp:124-151 | after evictions an entry is on a dead page exactly when its page was evicted, also when the new page took a dead one's index |
| GlyphCache.Cache.Place | src/text/glyph_cache.cpp:155-188 | the place found lies inside a live page of the right kind and apart from every rectangle on it; it is on the open page exactly when the bitmap has room there, and only otherwise is a page opened and anything evicted, as the budget asks |
| GlyphCache.DrawnEntry | src/text/glyph_cache.cpp:209-236 | copying a raster into free room keeps every entry's pixels and adds the new one's |
| GlyphCache.KeptEntriesOk | src/text/glyph_cache.cpp:124-151 | entries that survive evictions still have their page, their place and their pixels |
| GlyphCache.PageBytes | src/text/glyph_cache.cpp:124-145 | a page takes one byte a pixel, or four in colour, over its width and height |
| GlyphCache.Cache.Get | src/text/glyph_cache.cpp:192-243 | a hit changes no entry and no page but its last use; a miss adds the key's entry to those whose pages were not evicted, and evicts only as the budget asks for the page it had to open; without a page only when all indices are live |
| GlyphCache.Cache.CachedIsRasterised | src/text/glyph_cache.cpp:205-236 | in every valid state each pixel of a cached glyph is the mapped pixel of the raster of that entry's key |
| GlyphCache.Cache.Consistent | src/text/glyph_cache.cpp:268-286 | the code's own check decides: keys distinct and findable from their home, pages live, the count right |
| GlyphCache.Cache.ValidIsConsistent | src/text/glyph_cache.cpp:268-286 | every valid cache passes the code's own check |
| GlyphCache.Cache.Run | src/text/glyph_cache.cpp:192-286 | after every run of get, tick and setBudget the check holds and the table is at most half full |
| JsonParser.EncodesKeeps | src/base/json.cpp:204-296 | a parsed tree stays what it is while later steps only push nodes and only write past its slices |
| JsonParser.Parser.ParseString | src/base/json.cpp:204-296 | unescaping in place succeeds exactly when the functional unescaping does, stores the same bytes behind the read cursor, and leaves all before the string and all still to be read unchanged |
| JsonParser.Parser.ParseNumber | src/base/json.cpp:298-359 | a number is taken exactly when the grammar does; an int64 is kept as one |
| JsonParser.Parser.ParseValue | src/base/json.cpp:361-446 | the parser succeeds exactly when the grammar (RFC 8259 sections 2 to 7, at most 256 levels) does; the nodes pushed are the preorder tree of the value and earlier nodes stay |
| JsonParser.Parser.ParseKids | src/base/json.cpp:375-437 | members come out in order, duplicates included, as consecutive subtrees |
| JsonDocument.Document.Parse | src/base/json.cpp:449-465 | a document is accepted exactly when its text is one of RFC 8259 that nests at most 256 deep, and then holds exactly the value that text denotes |
| JsonTexts.ParsesExactlyTheStandard | src/base/json.cpp:204-465 | the parser takes exactly the texts of RFC 8259 nested at most 256 deep - white space, a spelling of a value, white space - as the value spelled |
| JsonTexts.ValueReads | src/base/json.cpp:361-446 | every spelling of a value is read as that value, or refused when it goes too deep |
| JsonTexts.ValueSpelled | src/base/json.cpp:361-446 | whatever is read is such a spelling, of no more levels than there is room for |
| JsonTexts.NumberReads | src/base/json.cpp:298-359 | a number by section 6 of RFC 8259, with or without fraction and exponent, is taken whole; an integer within int64 has its positional value |
| JsonTexts.NumberSpelled | src/base/json.cpp:298-359 | whatever is taken as a number is one by that section |
| JsonSpelling.StringReads | src/base/json.cpp:204-296 | a string in any spelling of section 7 of RFC 8259 - short escapes, unit escapes in either case, the two UTF-16 halves of a code point past U+FFFF - is read as the UTF-8 form of what it spells; a half without its other is U+FFFD |
| JsonSpelling.StringSpelled | src/base/json.cpp:204-296 | every string accepted is such a spelling of what it is read as |
| JsonSpelling.PairReads | src/base/json.cpp:264-281 | the two escapes of a code point past U+FFFF, its halves by quotient and remainder of cp - 0x10000 by 0x400, give that code point |
| JsonSpelling.UnitReads | src/base/json.cpp:187-199 | four bytes are read as a unit exactly when they are its hex digits, highest first, in either case |
| JsonDocument.Document.Find | src/base/json.cpp:65-76 | lookup by name gives the first member of that name |
| JsonDocument.Document.At | src/base/json.cpp:78-86 | lookup by index gives that element |
| JsonDocument.Document.Children | src/base/json.cpp:95-112 | iteration visits exactly the children, in order, with their names |
| JsonWriter.EscapeString | src/base/json.cpp:480-521 | the loop that copies plain stretches writes the escaped form of any byte string |
| JsonWriter.UnescapeEscaped | src/base/json.cpp:204-521 | unescaping undoes escaping for every byte string, invalid UTF-8 included |
| JsonWriter.Writer.Write | src/base/json.cpp:523-654 | the writer's comma, colon and indentation state renders the tree as specified, at any depth and after any prefix |
| JsonWriter.IntegerRoundTrip | src/base/json.cpp:298-593 | every int64 reads back as itself |
| JsonWriter.ValueRoundTrip | src/base/json.cpp:361-654 | parsing a written tree, in any context, gives it back, compact and pretty, exactly when its nesting fits the limit |
| JsonWriter.MembersRoundTrip | src/base/json.cpp:375-654 | the same for what follows a member or element |
| JsonWriter.WriteText | src/base/json.cpp:656-660 | a whole document written then parsed is itself when at most 256 levels deep, and is refused when deeper |
| JsonWriter.TooDeep | src/base/json.cpp:361-446 | arrays nested 257 deep are written and refused |
| JsonDocument.WriteThenParse | src/base/json.cpp:449-660 | the in-place parser run on the writer's output builds the preorder tree of the same value |
| IniEscape.KeyRoundTrip | src/base/old_settings.cpp:145-202 | a key reads back exactly when it is valid UTF-8 within U+FFFF; any key reads back with bad bytes replaced and code points narrowed |
| IniEscape.StringRoundTrip | src/base/old_settings.cpp:103-132 | the tagged form of any byte string denotes that string |
| IniValue.ValueReadsBack | src/base/old_settings.cpp:213-371 | escaping then scanning a value gives the decoded string for all bytes: quotes, escapes, hex digits after hex escapes, edge blanks and commas |
| IniValue.ValueRoundTrip | src/base/old_settings.cpp:103-371 | all four levels of value escaping cancel for every byte string |
| IniEscape.WriteKey | src/base/old_settings.cpp:178-202 | the loop computes the escaped key the round trip is about |
| IniEscape.ReadKey | src/base/old_settings.cpp:145-175 | the loop computes the unescaped key the round trip is about |
| IniEscape.WriteValue | src/base/old_settings.cpp:213-268 | the loop computes the escaped value the round trip is about |
| IniEscape.ReadValue | src/base/old_settings.cpp:276-371 | the reader's loops compute the value the round trip is about |
| IniLine.HeaderReads | src/base/old_settings.cpp:398-413 | a written section header is one line that reads as its section, or as General's |
| IniLine.EscapeNeverSpellsPercentGeneral | src/base/old_settings.cpp:398-413 | no escaped section name can be mistaken for the marked General header |
| IniLine.SlashesAreBackslashes | src/base/old_settings.cpp:178-202 | the backslashes an escaped key ends in are the slashes the key ends in |
| IniLine.PairReads | src/base/old_settings.cpp:417-439 | a written line reads back as its key and value exactly when the key does not end in an odd run of slashes |
| IniFile.SplitLines | src/base/old_settings.cpp:380-395 | the loop splits at LF, CR and CRLF as the round trip assumes |
| IniFile.ReadIni | src/base/old_settings.cpp:443-456 | the reader's loop computes the map the main theorem is about |
| IniFile.SetIniValue | src/base/old_settings.cpp:458-514 | the setter's walk with its copied-so-far and end-of-section cursors computes the text the main theorem is about |
| IniStore.DocReads | src/base/old_settings.cpp:443-456 | a text of well-formed items reads as their contents |
| IniStore.SetIniIsSetDoc | src/base/old_settings.cpp:458-514 | editing the text of a document is the text of the edited document: replaced in place, removed with its line end, inserted at the section's end or appended |
| IniStore.SetDocSets | src/base/old_settings.cpp:458-514 | an edit changes the contents at the one key and keeps every section and key single |
| IniStore.RunsLikeAMap | src/base/old_settings.cpp:443-514 | after any run of sets and removes of good keys from the empty text, reading gives exactly the last-set byte string of each key not since removed |
| IniKeys.FirstSetReadsBack | src/base/old_settings.cpp:443-514 | a key set in an empty store reads back exactly when it is good: both parts valid within U+FFFF, the section no case variant of General but General, the rest not ending in an odd run of slashes |
| IniKeys.LostKeys | src/base/old_settings.cpp:417-439 | the keys a/b/ and general/x do not read back |
| IniLegacy.NumericEscapeReads | src/base/old_settings.cpp:314-329 | a hex or octal escape of any length appends the code point that is the low 16 bits of its number |
| IniLegacy.LetterReads | src/base/old_settings.cpp:277-314 | the letter escapes are the control characters of the C language, and the marks themselves |
| IniLegacy.KeyCodeReads | src/base/old_settings.cpp:145-175 | a coded character of a key, of two or four hex digits in either case, is the code point of that number |
| IniLegacy.ListReads | src/base/old_settings.cpp:276-371 | a list stored with commas, blanks on either side of them, is read as its items, whatever their bytes; a list of one is a text |
| IniLegacy.ByteArrayReads | src/base/old_settings.cpp:91-128 | a stored byte array is read as its bytes |
| IniLegacy.CommentIsIgnored | src/base/old_settings.cpp:417-439 | what follows a semicolon after a written value is no part of it, and a line that begins with one holds nothing |
| IniLegacy.LineEndsAlike | src/base/old_settings.cpp:380-456 | the same lines hold the same settings with LF, CR or CRLF between them, with or without a byte order mark |
| RasterEdges.FillSegs | src/gfx/raster.cpp:93-102 | the segments are the sides of the polygons, closed and directed, level ones left out |
| RasterEdges.ClosedPolygonsBalance | src/gfx/raster.cpp:93-102 | every horizontal line crosses closed polygons as often downwards as upwards |
| RasterSpec.OneLength | src/gfx/blend.cpp:464-491 | the length of the inside in a window does not depend on how it is cut into pieces |
| RasterEdges.EdgeTable | src/gfx/blend.cpp:395-408 | the table winds every line of the rows like the segments, whichever way each runs |
| RasterEdges.NextRow | src/gfx/blend.cpp:434-440 | dropping ended edges and taking in those that begin keeps the winding of every line still to come |
| RasterEdges.Crossings | src/gfx/blend.cpp:450-463 | the in-place sort leaves the line's crossings in order of x, the missed edges after them, and the winding as it was |
| Raster.SweptIsLength | src/gfx/blend.cpp:464-491 | for balanced segments the inside has a length, it is the sum of the stretches between sorted crossings where the winding is filled, and the winding ends at zero |
| Raster.Deposit | src/gfx/blend.cpp:478-486 | a span adds to each pixel a sixteenth of its length over that pixel, by ends in one buffer and differences in the other |
| Raster.Sweep | src/gfx/blend.cpp:464-490 | one sub-scanline adds to each pixel a sixteenth of the inside's length over it; overlapping pieces union |
| Raster.TakeRow | src/gfx/blend.cpp:492-503 | the row's bytes are those nearest to 255 times what was held, a tie going up, and both buffers are all zero again |
| RasterSpec.CoverageWithin | src/gfx/blend.cpp:496-501 | coverage is never below 0 or above 1 |
| RasterSpec.AlphaIsNearest | src/gfx/blend.cpp:495-501 | the byte painted differs from 255 times the coverage by at most one half, and a tie goes up |
| RasterSpec.FilledIs | src/gfx/blend.cpp:466-470 | non-zero fills where the winding is not zero, even-odd where it is odd, whichever way outlines run |
| RasterSpec.CrossingOnSegment | src/gfx/blend.cpp:395-463 | a line crosses a segment from its upper end to above its lower one, at the point of the segment at that height |
| Raster.RectangleCovers | src/gfx/blend.cpp:393-503 | a closed rectangle covers of a pixel its share of the width for each sixteenth of the height whose middle it reaches, by either rule |
| Raster.Rasterize | src/gfx/blend.cpp:369-503 | every pixel of the clip, by either rule, is painted with the byte nearest to 255 times its coverage, a tie going up, where coverage is the mean over 16 sub-scanlines of the length of its column that is inside; rows and columns skipped are exactly such that this is zero |
| Raster.FillPolygons | src/gfx/raster.cpp:93-102 | filling closed polygons needs no further assumption: each pixel gets the byte nearest to 255 times its coverage |
| WorkerPool.TasksConserved | src/base/thread.cpp:97-169 | in every reachable state each accepted task is in exactly one of queued, running, finished, dropped by stop; none is taken twice |
| WorkerPool.WorkersBounded | src/base/thread.cpp:97-155 | running and parked workers fit in the list, and the list in maxWorkers |
| WorkerPool.StepAwake | src/base/thread.cpp:97-155 | while any worker sleeps, each queued task has a waking worker or a notification under way; with no worker at all the queue is empty, unless starting a thread failed |
| WorkerPool.QueueIsServed | src/base/thread.cpp:97-155 | the task at the head of a live pool's queue can always be taken with no further post when there is a worker, and there is one unless starting a thread failed |
| WorkerPool.WaitsOnlyWhenFull | src/base/thread.cpp:97-155 | unless a thread could not be started, more tasks wait than parked and entering workers can take only while maxWorkers run |
| WorkerPool.OneWorkerIsSerial | src/base/thread.cpp:97-155 | with one worker no two tasks overlap, tasks end in the order taken, and tasks never put in front are taken in posting order |
| WorkerPool.PostQueues | src/base/thread.cpp:134-155 | a post to the front is next, any other last; a thread is started exactly when more are queued than parked and the list has room; a stopped pool takes nothing |
| WorkerPool.ParkedBounded | src/base/thread.cpp:97-113 | no more than maxParked workers ever park |
| WorkerPool.EndsOnlyIdle | src/base/thread.cpp:114-126 | a worker of a live pool ends only with nothing queued, after its idle time or when enough are parked, and is off the list |
| WorkerPool.StopEnds | src/base/thread.cpp:97-169 | from every reachable state of a stopped pool, its notification and the tasks under way let every worker end, with no idle time waited for |
| WorkerPool.IdleTimeReaches | src/base/thread.cpp:171-177 | every waiting worker wakes to look at a new idle time, and no other is disturbed |
| WorkerPool.RunKeeps | src/base/thread.cpp:97-177 | all invariants hold after every run of posts, notifications, wake-ups, time-outs, stops |
| WorkerPoolCode.Pool.Post | src/base/thread.cpp:134-153 | the code under the mutex is the step, with the failed start undone |
| WorkerPoolCode.Pool.Enter | src/base/thread.cpp:97-131 | the loop's head is the step: waits, takes the first task, or leaves the list |
| WorkerPoolCode.Pool.Resume | src/base/thread.cpp:104-131 | a wait that returns is the step |
| WorkerPoolCode.Pool.Stop | src/base/thread.cpp:157-169 | stop drops the queue and joins the list |
| Client.CallbacksAreOrderly | src/net/client.cpp:258-468 | over every interleaving: done at most once; after answer, cancel or destruction no callback of that request; every callback belongs to a request sent before |
| Client.WaitedForIsSomewhere | src/net/client.cpp:258-405 | a request waited for is queued, with a worker, or its answer is posted, exactly one of these, and its progress is posted before its answer |
| Client.TasksCoverQueue | src/net/client.cpp:434-468 | unstarted pool tasks never number fewer than queued requests |
| Client.NeverStranded | src/net/client.cpp:258-468 | whatever was sent or cancelled before, a request waited for can still be answered by workers and the posted-call queue alone |
| Client.StepKeeps | src/net/client.cpp:258-468 | every step of UI thread, workers and pool keeps the invariants |
| Client.EventCalls | src/net/client.cpp:366-405 | in every reachable state a posted call runs exactly the callback it is for, when the request is waited for and its caller wants it, and none otherwise; progress leaves the waiting list alone |
| Client.PostedIsCalled | src/net/client.cpp:366-405 | running all that is posted calls, in the order posted, each progress and answer of the requests waited for, so progress before its answer |
| Client.ReportIsPosted | src/net/client.cpp:366-405 | what a worker reports or delivers is posted while the client lives |
| Client.CancelledGoes | src/net/client.cpp:452-468 | once cancel is over a request nobody waits for is not queued, and a worker that has it sees its flag |
| Client.OldestFirst | src/net/client.cpp:258-450 | a worker fetches the request sent first of those queued, and no other leaves the queue |
| Client.DestroyEnds | src/net/client.cpp:420-432 | in every run the destructor can come to its end by what workers have under way alone, with no queued request begun: each request they have is flagged |
| ClientCode.Impl.Send | src/net/client.cpp:434-450 | the code up to the queue is the step |
| ClientCode.Impl.Cancel | src/net/client.cpp:452-460 | the code that flags and forgets is the step |
| ClientCode.Impl.Erase | src/net/client.cpp:461-468 | the code that takes the request out of the queue is the step |
| ClientCode.Impl.Fetch | src/net/client.cpp:258-268 | the locked part of runNext is the step |
| ClientCode.Impl.RunPosted | src/net/client.cpp:374-405 | the posted calls run the callback exactly when the step does: for a request waited for, when it is its answer or its caller wants progress; an answer takes that request off the list and no other |
| Redirects.SiteMatches | src/net/client.cpp:28-42 | a host always lies within its own site |
| Redirects.SiteIsLastTwo | src/net/client.cpp:28-34 | a host's site is its last two labels, or the host when it has no more |
| Redirects.MatchesIs | src/net/client.cpp:36-41 | a cookie matches a host exactly when, for the host alone, they are equal, and otherwise the domain's labels end the host's |
| Redirects.Jar.Take | src/net/client.cpp:82-117 | a Set-Cookie header sets or erases at most the one cookie of its name and of the last Domain attribute whose labels end its sender's (else the sender alone, host-only): what is new in the jar has the header's name and value and such a domain, what goes has its name and such a domain, every other cookie stays |
| Redirects.ScopeIs | src/net/client.cpp:89-107 | the last Domain attribute that is not foreign gives the domain, in small letters and without its dot; with none the cookie is for the sender alone |
| Redirects.ExpiredIs | src/net/client.cpp:108-110 | a cookie is to go exactly when the last Max-Age is 0 or negative |
| Redirects.WithCookieIs | src/net/client.cpp:51-59 | setting a cookie replaces the one of its name and domain and leaves every other; names and domains stay single |
| Redirects.WithoutCookieIs | src/net/client.cpp:60-66 | erasing takes out the cookie of that name and domain and leaves every other |
| Redirects.Jar.Seed | src/net/client.cpp:67-81 | the caller's cookies are kept for the request's site, a later one of a name winning |
| Redirects.JarProvenance | src/net/client.cpp:284-344 | every cookie in the jar is the caller's, for the last two labels of the first host, or was set by an earlier answer, unexpired, in that answer's name and value and for a domain whose labels end its host's |
| Redirects.EraseNamed | src/net/client.cpp:314-321 | exactly the headers of that name go |
| Redirects.Run | src/net/client.cpp:298-364 | at most max(0, maxRedirects) + 1 exchanges, each following the answer before it as browsers do (303, and 301 or 302 after a POST, become a GET without body); credentials reach the first host only, unchanged, and never again after another host; each hop sends exactly the cookies of the jar, as the caller and the earlier answers left it, whose domain's labels end its host's; the loop ends with the last answer or with its own error after the last hop allowed |
| LineFill.LineEnd | src/text/layout.cpp:538-552 | a line ends at a mandatory break, with the text, or at the first overflow: at the last allowed break up to it, else right before the overflowing unit |
| LineFill.FillLines | src/text/layout.cpp:527-574 | the loop ends; without a limit the lines are consecutive, hold a unit each, and one empty line follows a final newline; with a limit the last line takes what the ellipsis rule says |
| LineFill.MandatoryBeginsLine | src/text/layout.cpp:541-544 | every mandatory break begins a line |
| LineFill.LineOf | src/text/layout.cpp:527-574 | every unit is on exactly one line |
| LineFill.LineFits | src/text/layout.cpp:547-550 | up to its last unit that may not hang a line is within the width, unless that is its first unit |
| LineFill.WrapIsGreedy | src/text/layout.cpp:545-550 | every longer line that ends at a place to break would hold the overflowing unit |
| LineFill.WrappedLineFits | src/text/layout.cpp:693-694 | the visible width of a wrapped line is within the width, unless one unit alone exceeds it |
| LineFill.EllipsisCut | src/text/layout.cpp:644-650 | the units kept are the longest stretch that leaves room for the ellipsis, less the spaces before it |
| Reorder.ReorderLine | src/text/layout.cpp:703-723 | reversing stretches level by level permutes the pieces into the order of rule L2: two pieces keep their order exactly when the lowest level between them is even |
| Reorder.PassKeeps | src/text/layout.cpp:711-723 | one pass swaps exactly the pairs with no lower level between them, and moves no piece out of its stretch |
| Reorder.StretchesStayTogether | src/text/layout.cpp:711-723 | each logical stretch of level k or more stays contiguous on the line, for every k |
| Reorder.PlacePieces | src/text/layout.cpp:724-729 | the pieces tile the line without gap or overlap and the total width is unchanged |
| Bidi.ResolveBidi | src/text/unicode.cpp:388-484 | the in-place passes, shortcut included, give the levels of the rules stated by position, in a paragraph that is right-to-left exactly when the first of its characters that is L, R or AL is R or AL |
| Bidi.ShortcutIsFull | src/text/unicode.cpp:400-404 | without right-to-left characters all the passes would give level 0, as the shortcut does |
| Bidi.NoNeutralSurvives | src/text/unicode.cpp:450-464 | after N1 and N2 no neutral is left |
| Bidi.LevelsInRange | src/text/unicode.cpp:465-482 | levels are 0 to 2 in a left-to-right paragraph, 1 or 2 in a right-to-left one; tabs and trailing space have the paragraph's; every other character has a direction, its level is odd exactly when that is right-to-left, and numbers are at 2 |
| Bidi.FirstStrong | src/text/unicode.cpp:389-399 | P2 and P3 of UAX #9: right-to-left exactly when some character is R or AL with none of L, R and AL before it |
| Bidi.MarkRule | src/text/unicode.cpp:406-409 | W1: a mark takes the class of the nearest character before it that is none, or of the start |
| Bidi.ArabicNumberRule | src/text/unicode.cpp:411-417 | W2: a European number is Arabic exactly when the nearest strong character before it is an Arabic letter |
| Bidi.ArabicLetterRule | src/text/unicode.cpp:418-420 | W3: Arabic letters are right-to-left, nothing else changes |
| Bidi.SeparatorRule | src/text/unicode.cpp:421-427 | W4: one separator between two European numbers, or one common separator between two Arabic ones, is a number |
| Bidi.TerminatorRule | src/text/unicode.cpp:428-439 | W5: a stretch of terminators is of numbers exactly when it touches a European number, else neutral |
| Bidi.LatinNumberRule | src/text/unicode.cpp:440-449 | W6 and W7: separators left are neutral; a European number is L exactly when the nearest strong character before it, or the start, is |
| Bidi.NeutralRule | src/text/unicode.cpp:450-464 | N1 and N2: a stretch of neutrals takes the direction both its sides have, else the paragraph's |
| Bidi.SeparatorsInPlace | src/text/unicode.cpp:421-427 | W4 rewriting in place still joins only separators single in the original |
| Bidi.TerminatorsInPlace | src/text/unicode.cpp:428-439 | W5 in place depends on what stands around each stretch of terminators |
| Bidi.NeutralsInPlace | src/text/unicode.cpp:450-464 | N1 and N2 in place depend on the directions around each stretch of neutrals |
| Graphemes.GraphemeScanner.Next | src/text/unicode.cpp:326-356 | the four-field scanner breaks exactly where rules GB3 to GB13 of UAX #29 do, among the rules the code follows |
| Graphemes.BoundaryRules | src/text/unicode.cpp:326-356 | the rules GB3 to GB13 one by one, regional indicators by the parity of their stretch, pictographs by what stands before the joiner |
| Graphemes.RestartAgrees | src/text/layout.cpp:1239-1256 | a scan begun afresh at a cluster boundary finds the same boundaries from there on |
| Graphemes.NextGrapheme | src/text/layout.cpp:1239-1256 | at or past the end the result is the end; inside, the step ends at the next boundary of the text that starts there, and from a boundary at the next boundary of the whole text |
| Graphemes.PrevGrapheme | src/text/layout.cpp:1258-1273 | the last boundary before an offset |
| Graphemes.NextThenPrev | src/text/layout.cpp:1239-1273 | stepping back undoes stepping forward |
| Graphemes.PrevThenNext | src/text/layout.cpp:1239-1273 | stepping forward undoes stepping back |
| FontCoverage.Coverage | src/text/font_index.cpp:285-293 | sorting and merging keep exactly the union of the raw ranges, in ranges that do not touch |
| Varints.PutVarint | src/text/font_index.cpp:296-302 | the loop appends the number's seven-bit digits |
| FontCoverage.VarintReadsBack | src/text/font_index.cpp:296-313 | a written 32-bit number is read back, up to its last byte and no further |
| FontCoverage.Encode | src/text/font_index.cpp:375-384 | the gaps are appended and a block's bit is set exactly when some range reaches it |
| FontCoverage.DecodingFinds | src/text/font_index.cpp:649-664 | walking the coded gaps finds exactly the ranges' code points |
| FontCoverage.CoversExactly | src/text/font_index.cpp:649-664 | a code point is covered exactly when it is in the ranges, whatever the bitmap rejects first |
| FontCoverage.Covers | src/text/font_index.cpp:649-664 | the lookup's loop on the index's bytes is the lookup specified |
| FontIndex.GroupByFile | src/text/font_index.cpp:683-696 | the counting sort lists each file's faces, in order |
| FontIndex.Index.AddParsed | src/text/font_index.cpp:372-387 | a parsed face is stored with its name, fields and exactly its code points; other files' faces stay |
| FontIndex.Index.CopyFile | src/text/font_index.cpp:713-729 | an unchanged file gets the faces its old entry has, whatever they are: whichever parsed faces the old ones stand for, the copies stand for |
| FontIndex.UsedAt | src/text/font_index.cpp:702-712 | a file is taken from the old index exactly when that has an entry of its path, time and size, and from such an entry |
| FontIndex.LoadIndex | src/text/font_index.cpp:666-748 | from any valid old index, each found file gets the faces of the old entry used for it or else those parsing gives, in file order, cut at 0xFFFE; below the limit all faces are there exactly when the entries used were complete; from what earlier loads wrote, exactly when the parsed faces are within the limit and the entries used were complete |
| FontIndex.Starts | src/text/font_index.cpp:666-748 | after any number of starts, each with the cache of the last, the index has every face that parsing all files gives if no start exceeded the limit, and lacks some if the last did |
| FontIndex.CutComesBack | src/text/font_index.cpp:734-735 | a file that was cut and comes back unchanged stays cut, though its faces are within the limit |
| FontIndex.CutsHappen | src/text/font_index.cpp:734-735 | such files exist |
| FontIndex.SameAsRescan | src/text/font_index.cpp:666-748 | two complete indexes agree on a file: as many faces, each with the same name, fields and code points |
| Calendar.DaysRoundTrip | src/base/time.cpp:102-124 | every day number is that of the date it converts to, and that date is valid |
| Calendar.DateRoundTrip | src/base/time.cpp:102-124 | every valid date, negative years included, is that of the day number it converts to |
| Calendar.DaysCount | src/ui/datetime.cpp:18-22 | day numbers go up by one along the calendar from 0 for 1970-01-01, with months as long as daysIn says |
| Calendar.UtcTimeRecomposes | src/base/time.cpp:77-88 | the fields are in range, add up to the instant, also before 1970, and carry the right weekday |
| Calendar.WeekdaysFollow | src/base/time.cpp:77-88 | 1970-01-01 was a Thursday, and weekdays follow each other in order |
| IsoTime.FormatCivil | src/base/time.cpp:291-347 | the cursor loop prints what the pattern specifies: repeated letters, quoted text, doubled quotes |
| IsoTime.ParseIsoMicros | src/base/time.cpp:431-485 | the parser's cursor computes the instant specified, zero for anything malformed |
| IsoTime.IsoRoundTrip | src/base/time.cpp:291-485 | for years 1000 to 9999, printing a UTC time in ISO form and parsing it gives its seconds times 1000000 |
| IsoTime.StampReads | src/base/time.cpp:407-485 | a date and time with a zone, in any form the parser knows, is read as the microseconds it names: the offset taken off, the fraction cut at six digits; as 0 when a field is out of range |
| IsoTime.TwelveHours | src/base/time.cpp:336-337 | h is the hour of a twelve-hour clock, from 1 to 12 |
| IconCodec.NumberRoundTrip | src/gfx/icons.cpp:17-31 | a number reads back exactly when it fits 32 bits |
| IconCodec.UReadsModulo | src/gfx/icons.cpp:17-31 | a number of up to five digits is read modulo 2^32, the rest untouched |
| IconCodec.DeltaRoundTrip | src/gfx/icons.cpp:32-35 | a difference reads back exactly when its size is below 2^31 |
| IconCodec.SmallestDelta | src/gfx/icons.cpp:32-35 | the difference -2^31 is decoded as 0 |
| IconCodec.CoordReadsBack | src/gfx/icons.cpp:88-91 | a coordinate is read back exactly when it fits the decoder's 32-bit pen and its difference from the pen is below 2^31 in size |
| IconCodec.OpsReadBack | src/tools/icons.py:484-516 | operations, runs of any length split at 32, read back with the pen where they leave it, exactly when each coordinate, difference and radius fits |
| IconCodec.PenOverflows | src/gfx/icons.cpp:71-91 | a move to 2^31 - 1 and a line to 2^31 are coded with differences that fit, and do not read back |
| IconCodec.IconRoundTrip | src/tools/icons.py:459-517 | decoding an encoded icon consumes it wholly and gives the same flags, widths, colours and operations in order, exactly when every number fits |
| IconCodec.PartsDraw | src/tools/icons.py:471-487 | an item's parts are filled and stroked as it is, in its colours and width, with all its operations; it is one part exactly when one colour does |
| IconCode.Encode | src/tools/icons.py:459-517 | the encoder's loops over items, parts, runs and points, with the shared pen, produce the specified bytes |
| IconCode.Decode | src/gfx/icons.cpp:72-149 | the decoder's loops read the specified parts |
| IconCode.EncodeThenDecode | src/gfx/icons.cpp:72-149 | decoder after encoder is the identity exactly when every number fits |

## Left out

- Writable: doubles are not modelled (they go through the C library's conversion both ways), so the JSON round trips are about trees without them; the parser keeps a double's lexeme.
- JsonParser.Parser.ParseValue: does not model 32-bit offsets and sizes, error messages or line numbers.
- GlyphCache.Cache.Get: the hash and the rasterizer are functions of the key; a key's phase is taken as stored in its byte, which callers keep to 0 to 3; table and page sizes are unbounded integers.
- IniStore.RunsLikeAMap: asks every key of the run to be good; for one key from the empty store `IniKeys.FirstSetReadsBack` shows that nothing less will do. Editing texts the setter did not produce (duplicate keys, several headers for a section) is not modelled; `IniLegacy` says what the reader makes of the forms it never writes.
- Raster.Rasterize: float is modelled as real, so rounding does not appear; `cx = kInf` is a flag; coordinates of the clip are within the range the code clamps to; blending the alpha row into pixels, shaders and the all-transparent shortcut are not modelled. The C library's sort stands as an insertion sort.
- WorkerPool.QueueIsServed: says that the task can be taken, not that the scheduler does it; threads that fail to start are a recorded choice.
- Client.NeverStranded: says that an answer can come, not when; what a transport does and how long it takes is left open. The pool is its count of unstarted tasks, each of which may start: `WorkerPool.QueueIsServed` shows that one can while the pool has a worker, and a pool that could start no thread has no counterpart here.
- Redirects.Run: URL parsing and resolution, the transport and the cancel flag are parameters; Cookie and Set-Cookie headers come already split into names, values and attributes, a pair without `=` or with no name before it having the empty name, and header lines are not parsed.
- LineFill.FillLines: units, their widths and break opportunities are given; shaping, metrics, vertical placement and alignment are not modelled, nor is float rounding.
- Reorder.ReorderLine: asks for levels below 255, the code's mark for "no odd level"; the levels it is given are at most 2.
- Bidi.ResolveBidi: the class of a code point is a parameter; explicit embeddings and isolates are not in the code.
- Graphemes.NextGrapheme: works on classes of code points, not on bytes; inline boxes are left out, and so are rules GB9b and GB9c, which the code does not have.
- Graphemes.PrevGrapheme: asks for a text that is not empty unless the offset is 0, as callers see to by clamping the offset.
- FontIndex.LoadIndex: what a font file holds is a function of its path, time and size; reading the character map tables, the directory walk, the cache file and its validity check are not modelled, nor the truncation of offsets to 32 bits. The coverage bitmap is a sequence of bits.
- Calendar.DaysRoundTrip: integers are unbounded, so the overflow of years past 32 bits is not modelled; local time and the languages' names are parameters or left out.
- IconCodec.IconRoundTrip: starts at the rounded coordinates; parsing SVG and painting the decoded paths, with the pen's conversion to float, are left out.
- Line and word breaking classes, `breakBetween`, grapheme classes and other table lookups: only easy members.
- Files, sockets, processes, TLS, registries and keychains, widgets and painting: input and output around the cores.
