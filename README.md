# edmcoverlay for Linux: the overlay server's core, modelled in Dafny

edmcoverlay for Linux draws an in-game overlay for Elite Dangerous Market
Connector plugins on an X11 desktop. Plugins connect over TCP. Each
message is framed as `length#body`, and the body is a JSON object or
array of drawing requests: text, rectangles, vector shapes, and commands.

The C++ server does the following with them:
- It decodes the requests into drawables keyed by id.
- It converts every drawable into an SVG task: escaped text spans, emoji
  images and shape elements.
- It merges the new batch into the table of live drawables. A new item
  whose old version under the same id compares equal is marked as
  already rendered, to avoid flicker, and items that compare equal under
  different ids are collapsed to the newer one. Conversion has already
  emptied the text and shape fields and the comparison ignores the SVG
  document, so for converted items "equal" means the same mode, colour
  and position.
- A drawing loop drops expired items and commands, follows the
  `overlay_on` / `overlay_off` / `exit` commands, and redraws the frame
  only when something changed.

Helpers turn colour names and hex codes into X11 colours and split UTF-8
text into runs of Latin-1, other BMP and emoji code points. An emoji
renderer turns a code point into a base64 PNG through FreeType and caches
the result. An older copy of the decoder lives in the repository root.

One Dafny module per source file:

| module | file | form |
|---|---|---|
| `Basics` | shared | 32-bit wrap, string order, decimal text |
| `JsonValue` | nlohmann::json as the decoder reads it | datatypes and functions |
| `OrderedMap` | `std::map<std::string, V>` | sorted association list, with a map view |
| `Drawables` | `cpp/drawables.h` (item, timestamp, equality) | datatypes and functions |
| `Decoder` | `cpp/drawables.h` (parseJsonString) | functions, methods equal to them |
| `VectorPoints` | `cpp/drawables.h` (markers, ForEachVectorPointsPair) | loop method against a reference |
| `Store` | `cpp/tcp_session.hpp` (process_payload, removeRenamedDuplicates) | class `Store`, loop methods |
| `Framing` | `cpp/tcp_session.hpp` (readHeader, readBody) | class `Session` |
| `Sweep` | `cpp/main.cpp` (drawing loop) | class `Overlay` |
| `UnicodeSplitter` | `cpp/common/unicode_splitter.hpp` | class `UnicodeSymbolsIterator`, loop method |
| `SvgBuilder` | `cpp/svgbuilder.cpp` | loop methods against functions |
| `StrUtils` | `cpp/common/strutils.h`, `cpp/strutils.h` | functions, loop methods |
| `X11Colors` | `cpp/x11_colors_mgr.h` | functions, class `ColorMap` |
| `LegacyColors` | `cpp/colors_mgr.h` | functions, class `LegacyColorMap` |
| `Base64` | `cpp/emoji_renderer/emoji_renderer.cpp` (encodeBase64) | loop method, round trip |
| `EmojiKeys` | `cpp/emoji_renderer/emoji_renderer.hpp` | key orders |
| `EmojiRenderer` | `cpp/emoji_renderer/emoji_renderer.cpp` | classes `Bitmap`, `Renderer` |
| `LegacyDrawables` | `drawables.h` (repository root) | functions, loop method |

The two copies of `drawables.h` are different revisions. The root copy
has no commands, no `font_size` or `vector_font_size`, and no SVG mode,
and it stores only items that have a mode. `LegacyDrawables` models that revision on its own. It reuses
`Decoder.Source` for the parse outcome, `Drawables.Timestamp` for the
timestamp, and the call type of `VectorPoints`.

Where the written description of the program and the code disagree, the
model follows the code:
- **Merge keeps the new item.** `incoming.merge(allDraws)` keeps the
  entry of the new batch when an id is present in both, and moves only
  the new ids.
- **Anti-flicker sets the flag.** The loop marks an unchanged new item
  as already rendered; it does not clear a flag.
- **One pass leaves duplicates.** `removeRenamedDuplicates` makes a
  single forward pass. A survivor can still equal an item that was
  compared before it (`Store.SinglePassLeavesDuplicates`).
- **Emoji runs are merged.** `makeSpans` in `unicode_splitter.hpp` puts
  consecutive emoji into one span (`UnicodeSplitter.TwoEmojiShareASpan`).
  Only the SVG builder's own splitter keeps one span per emoji.
- **A negative length header is accepted.** `std::stoul` takes a
  leading `-` and wraps, so `-1#` asks for 2^64-1 bytes
  (`Framing.StoulNegativeWraps`).
- **The exit tick still renders.** The `exit` command ends the scan
  early, but that tick still runs the render step with the app marked
  inactive.
- **An unsupported pixel mode poisons the cache.** `emojies[what]` is
  created before the pixel mode is checked, so an unsupported mode
  leaves an empty entry that later calls return.
- **A multiple of 256 gives height 0.** The desired height is the font
  size cast to `uint8_t`, so such a size gives a PNG of height 0, which
  is not valid (`EmojiRenderer.WrappedSizeInvalid`).
- **Equality is as written.** `IsEqualStoredData` compares the colour
  twice and never compares the id, timestamp, command or SVG payload. The
  model keeps exactly that tuple.
- **Converted texts compare by place.** The merge runs after conversion,
  which empties `text` and `shape`, so two converted text items compare
  equal when they share colour and position, whatever they say
  (`SvgBuilder.ConvertedTextsCompareEqual`). A text rewritten in place
  is therefore marked as already rendered
  (`Store.RewordedTextMarkedRendered`), and two different texts at the
  same spot under different ids collapse as duplicates.
- **Each element has its own creation time.** Every `drawitem_t` reads
  the steady clock when it is constructed, once per element of the batch.
  When the clock has ticked between two elements, the later one is the
  newer item (`Decoder.LaterElementIsNewer`). Of two such duplicates, the
  newer one survives (`Store.NewerDuplicateSurvives`); in the batch
  `[{"id":"a","text":"x"},{"id":"b","text":"x"}]` that is `b`
  (`Store.LaterObjectOfBatchSurvives`).
- **A conversion exception stops the server.** `process_payload` calls
  the SVG builder outside any `try`. The exception leaves `run_for`, and
  the server thread's `catch` ends the thread. From then on no session
  is served and no connection is accepted (`Framing.Session.Step`,
  `Framing.Server`). The drawing loop goes on.

## Model

| member | source | states |
|---|---|---|
| Basics.ToInt32 | cpp/svgbuilder.cpp:509 | a `static_cast<int>` gives a 32-bit value congruent to the input modulo 2^32, and leaves values already in range unchanged |
| Basics.SpaceRun | cpp/tcp_session.hpp:49 | the leading run of whitespace: every character before it is a space class character, the one after is not |
| Basics.StrLessIrreflexive | cpp/tcp_session.hpp:126 | the std::string order used for map keys never puts a key before itself |
| Basics.StrLessTransitive | cpp/tcp_session.hpp:126 | the std::string key order is transitive |
| Basics.StrLessTrichotomy | cpp/tcp_session.hpp:126 | any two keys are equal or ordered one way |
| Basics.StrLessAsymmetric | cpp/tcp_session.hpp:126 | the key order never holds both ways |
| Basics.NatToDecimal | cpp/drawables.h:289 | `std::to_string` of a counter is a non-empty run of decimal digits |
| Basics.DecimalRoundTrip | cpp/drawables.h:289 | reading the decimal text back gives the counter: the text is the number's decimal form |
| Basics.NatToDecimalInjective | cpp/drawables.h:289 | different counters give different texts |
| JsonValue.GetInt | cpp/drawables.h:162-166 | `get<int>()` succeeds exactly on numbers and booleans, yields a 32-bit value, and keeps a number that already fits |
| JsonValue.GetString | cpp/drawables.h:184-188 | `get<std::string>()` succeeds exactly on strings and yields the string itself |
| JsonValue.Items | cpp/drawables.h:396 | `items()` visits the elements of an array, one value per object member, nothing for null, and the value itself otherwise |
| JsonValue.Size | cpp/svgbuilder.cpp:499 | `size()` is the number of values `items()` visits |
| JsonValue.LookupFindsMember | cpp/drawables.h:362-368 | member lookup finds a value exactly when some member carries the key, and the value found is that member's |
| OrderedMap.Get | cpp/tcp_session.hpp:136 | `find` succeeds exactly on the keys present and returns a value stored under that key |
| OrderedMap.GetAt | cpp/tcp_session.hpp:136-139 | in a sorted table, looking up the key at a position yields that position's value |
| OrderedMap.Extensional | cpp/tcp_session.hpp:148 | two sorted tables that agree on every lookup are the same table |
| OrderedMap.Put | cpp/drawables.h:298 | `result[id] = item` keeps the keys ascending, adds the key, stores the value, and leaves every other key's value alone |
| OrderedMap.RemoveAt | cpp/tcp_session.hpp:171 | `erase(iter)` drops exactly that position and keeps the rest, and its order, in place |
| OrderedMap.Restrict | cpp/tcp_session.hpp:126 | the entries whose key is in a set, in order: exactly the key intersection, and each entry comes from the table |
| OrderedMap.MergeInto | cpp/tcp_session.hpp:126 | after `merge`, the target holds both key sets; its own keys keep their values and the other keys take the source's values |
| OrderedMap.MergeLeftover | cpp/tcp_session.hpp:126 | after `merge`, the source keeps only the keys the target already had |
| OrderedMap.View | cpp/tcp_session.hpp:126 | the map a sorted table stands for has exactly the table's keys |
| OrderedMap.ViewGet | cpp/tcp_session.hpp:136 | `find` agrees with the map view |
| OrderedMap.ViewPut | cpp/drawables.h:298 | `operator[]` assignment is a map update of the view |
| OrderedMap.ViewRemoveAt | cpp/tcp_session.hpp:171 | `erase` at a position removes exactly that key from the view |
| OrderedMap.ViewSetAt | cpp/tcp_session.hpp:170 | writing a value at a position keeps the order and updates only that key in the view |
| OrderedMap.ViewMergeInto | cpp/tcp_session.hpp:126 | the merged target's view is the source's view overridden by the target's |
| OrderedMap.ViewMergeLeftover | cpp/tcp_session.hpp:126 | the leftover source's view is its view restricted to the keys the target had |
| OrderedMap.ViewSnoc | cpp/tcp_session.hpp:130 | the last entry of a sorted table holds a key no earlier entry holds, and adding it is a map update |
| OrderedMap.ViewPrefix | cpp/tcp_session.hpp:130-135 | a walk cut short has visited a prefix: its keys agree with the table, and every smaller key of the table is among them |
| OrderedMap.PrefixClosed | cpp/tcp_session.hpp:130-135 | every key below a visited key was visited too |
| Drawables.ExpiryRule | cpp/drawables.h:29-40 | an item expires exactly when its ttl is non-negative and the clock has passed creation plus ttl seconds; a negative ttl never expires, and at the deadline itself the item is still valid |
| Drawables.ExpiryIsPermanent | cpp/drawables.h:37-40 | once expired, an item stays expired at every later time |
| Drawables.NewItem | cpp/drawables.h:66-116 | a fresh item has mode idk, no id, no command, a permanent ttl, and is not rendered |
| Drawables.SetAlreadyRendered | cpp/drawables.h:139-142 | sets the rendered flag and changes nothing else |
| Drawables.EqualityIgnoresBookkeeping | cpp/drawables.h:118-125 | equality ignores the id, the timestamp, the command, the rendered flag, the vector font size and the SVG payload |
| Drawables.EqualityComparesContent | cpp/drawables.h:118-125 | equal items share mode, colour, position, text and shape (apart from the vector font size) |
| Drawables.EqualityIsEquivalence | cpp/drawables.h:118-125 | equality is reflexive, symmetric and transitive |
| Drawables.ParsePointReads | cpp/drawables.h:355-376 | a vector node reads exactly when x and y are integers and any color, marker or text member is a string; the point carries those values, with "" for a missing colour |
| Decoder.ApplyKey | cpp/drawables.h:160-254 | an unknown key has no processor; a known key throws exactly when its value has the wrong type; no processor touches the creation time, the rendered flag or the SVG payload |
| Decoder.TextKeysSetText | cpp/drawables.h:160-254 | `text`, `size` and `font_size` switch the item to text mode |
| Decoder.ShapeKeysSetShape | cpp/drawables.h:160-254 | `w`, `h`, `vector_font_size`, `shape`, `fill` and `vector` switch the item to shape mode |
| Decoder.NeutralKeysKeepMode | cpp/drawables.h:160-254 | position, colour, ttl, id and command keys keep the mode |
| Decoder.IdKeysSetId | cpp/drawables.h:160-254 | `id`, `msgid` and `shapeid` set the id to the string value and change nothing else |
| Decoder.CommandAndTtlKeys | cpp/drawables.h:160-254 | `command` sets only the command, and `ttl` changes only the ttl |
| Decoder.OtherKeysKeepIdAndCommand | cpp/drawables.h:160-254 | no key but the id keys changes the id, and no key but `command` changes the command |
| Decoder.FinishedModeReflectsKeys | cpp/drawables.h:259-281 | after the key loop, an object with a text key is in text mode, one with a shape key in shape mode, and one with neither keeps the starting mode |
| Decoder.ConflictIgnoresRest | cpp/drawables.h:266-276 | once a key switches the mode a second way, the remaining keys are not read |
| Decoder.CommandOnlyFromKey | cpp/drawables.h:250-253 | an object without a `command` key leaves the command empty |
| Decoder.MixedObjectNotKept | cpp/drawables.h:266-283 | an object with both a text key and a shape key, and no command, is not stored |
| Decoder.Finish | cpp/drawables.h:283-298 | an object is kept exactly when it has a mode or a command; a named object is kept as is; an anonymous one gets `AUTOID:` plus the counter, its permanent ttl becomes 60 seconds, and the counter advances by one |
| Decoder.AutoIdsDistinct | cpp/drawables.h:285-289 | two anonymous objects finished at different counter values get different ids |
| Decoder.DecodeObject | cpp/drawables.h:257-300 | a stored item has a non-empty id, carries the creation time it was constructed at and is not rendered; the counter moves only for a stored item |
| Decoder.ParseSingleObject | cpp/drawables.h:257-300 | the loop over an object's members gives exactly the outcome and counter of `DecodeObject` |
| Decoder.DecodeAll | cpp/drawables.h:305-311 | decoding an array, each element created at its own time, keeps the result table sorted by id and never moves the counter back |
| Decoder.LastWins | cpp/drawables.h:298 | when an object stores an item under an id and no later object may store under it, the result holds that item, created at that object's time |
| Decoder.KeptIdSurvives | cpp/drawables.h:298 | an id no object of the batch may store under keeps its earlier item |
| Decoder.DecodeSource | cpp/drawables.h:302-315 | empty text gives an empty table, malformed JSON gives a parse failure, and any parsed table is sorted |
| Decoder.ParseJsonString | cpp/drawables.h:302-315 | the method, reading the clock once per element, computes exactly `DecodeSource` |
| Decoder.LaterElementIsNewer | cpp/drawables.h:25 | of two items a batch keeps, the one stored by the later element is never older under a steady clock, and strictly newer once the clock has ticked between the two elements |
| Decoder.NamedTextObject | cpp/drawables.h:257-300 | an object with only an id and a text is stored under that id as a text item created at the given time, and the counter does not move |
| VectorPoints.ParsedPrefix | cpp/drawables.h:396-418 | the points read before the first node that fails to read; that node, if any, is the one just after them |
| VectorPoints.ParsedPrefixAt | cpp/drawables.h:396-418 | every point of the prefix is the reading of the node at its position |
| VectorPoints.ForEachVectorPointsPair | cpp/drawables.h:385-444 | a non-vector shape makes no calls; a vector shape makes exactly the calls of the cursor walk over the readable prefix of its nodes |
| VectorPoints.RunMatchesReference | cpp/drawables.h:385-444 | without a point at the sentinel x, the walk equals the reference: one line per consecutive pair, plus one marker per point that sets one |
| VectorPoints.ReferenceLines | cpp/drawables.h:424-441 | the reference draws a line between each pair of consecutive points |
| VectorPoints.ReferenceMarkers | cpp/drawables.h:419-422 | the reference draws the markers of exactly the points that set one, in order |
| VectorPoints.VectorCallCounts | cpp/drawables.h:385-444 | n points give n-1 lines, and the markers are those of the points that set one |
| VectorPoints.SentinelPointIsUnseen | cpp/drawables.h:393-429 | a point whose x equals the sentinel `INT_MAX` is not remembered as a line start |
| VectorPoints.Pairs | cpp/drawables.h:424-441 | n points give max(n-1, 0) line segments |
| VectorPoints.Coords | cpp/drawables.h:404-405 | the coordinates of each point, in order |
| Store.FindDup | cpp/tcp_session.hpp:157-159 | `find_if` gives the first later entry equal to the current one, or reports that none is |
| Store.FindDuplicate | cpp/tcp_session.hpp:157-159 | the search loop returns exactly the position `FindDup` names, or the end |
| Store.DedupCollapsesDuplicates | cpp/tcp_session.hpp:153-181 | the pass keeps a subset of the ids with unchanged content; every dropped id has a survivor equal to it in the kept table; a survivor is rendered exactly when it or an entry it replaced was |
| Store.DedupKeepsInv | cpp/tcp_session.hpp:155-180 | each iteration of the pass keeps the deduplication invariant |
| Store.CollapseKeepsInv | cpp/tcp_session.hpp:167-178 | collapsing one duplicate pair keeps the invariant: the loser's flag passes to the winner and the loser stands in for nothing else |
| Store.RemoveRenamedDuplicates | cpp/tcp_session.hpp:153-181 | the in-place loop computes exactly the corrected single pass `Dedup` |
| Store.AsWrittenAgrees | cpp/tcp_session.hpp:153-181 | whenever the loop as written stops normally, it gives the corrected pass's result |
| Store.NewerDuplicateSurvives | cpp/tcp_session.hpp:153-181 | of two equal entries the strictly newer one survives under its own id, otherwise the first-keyed one; the survivor takes both flags |
| Store.LaterObjectOfBatchSurvives | cpp/tcp_session.hpp:153-181 | for the batch `[{"id":"a","text":"x"},{"id":"b","text":"x"}]` read while the clock ticks, the decoded table holds both items, each with its own creation time, and the pass keeps only the later one, `b` |
| Store.AsWrittenRunsPastEnd | cpp/tcp_session.hpp:155 | a two-entry table whose last entry is dropped takes the loop as written past the end, while the corrected pass ends |
| Store.SinglePassLeavesDuplicates | cpp/tcp_session.hpp:155-180 | after one pass, two entries equal to each other can both remain |
| Store.MarkUnchanged | cpp/tcp_session.hpp:128-146 | marking stays a sorted table |
| Store.MarkUnchangedView | cpp/tcp_session.hpp:130-144 | the anti-flicker loop's table is the merged view with every new item that equals its old version marked rendered |
| Store.MarkUnchangedEntries | cpp/tcp_session.hpp:130-144 | the loop, stopped where `canContinue` fails, computes `MarkUnchanged` over the old entries it visited |
| Store.ConvertAll | cpp/tcp_session.hpp:112-118 | conversion succeeds exactly when every drawable converts, and keeps each key with its converted item |
| Store.ConvertBatch | cpp/tcp_session.hpp:112-118 | the loop computes exactly `ConvertAll` |
| Store.ConversionKeepsTable | cpp/tcp_session.hpp:112-118 | a converted batch has the same keys, still sorted, with each value the conversion of the old one |
| Store.NoConversionAfterThrow | cpp/tcp_session.hpp:112-118 | a drawable whose point read throws makes the whole batch fail |
| Store.Marked | cpp/tcp_session.hpp:126-146 | the merged, marked table is sorted |
| Store.VisitedIds | cpp/tcp_session.hpp:130-135 | the anti-flicker loop visits only ids in both tables; all of them without a stop request; none when it stops at once; and always a prefix in key order |
| Store.MergeRule | cpp/tcp_session.hpp:126-146 | the new table holds the old and new ids; ids only in the old table keep their item; the rest take the new item, rendered exactly when it was, or when it was visited and equals the old item |
| Store.AntiFlicker | cpp/tcp_session.hpp:126-146 | without a stop request, a new item is marked rendered exactly when it was already, or an old item under its id has equal content |
| Store.RewordedTextMarkedRendered | cpp/tcp_session.hpp:126-146 | a text replaced in place by another text in the same colour and position is marked as already rendered |
| Store.PayloadOutcomes | cpp/tcp_session.hpp:91-151 | a payload changes the table only when it commits; it commits exactly when it parses to a non-empty batch that fully converts and no stop was requested |
| Store.Store.constructor | cpp/drawables.h:287-288 | the shared table starts empty, with the id counter at zero |
| Store.Store.ProcessPayload | cpp/tcp_session.hpp:91-151 | one payload, each element stamped at its own clock reading, advances the id counter as decoding does and moves the table and outcome to the payload specification |
| Framing.DigitRun | cpp/tcp_session.hpp:49 | the leading run of decimal digits |
| Framing.Stoul | cpp/tcp_session.hpp:49 | a parsed length never exceeds `ULONG_MAX` |
| Framing.StoulReadsDecimal | cpp/tcp_session.hpp:49 | the decimal text of any representable length parses back to it |
| Framing.StoulIgnoresSurroundings | cpp/tcp_session.hpp:49 | leading space, a plus sign and trailing non-digits do not change the length read |
| Framing.StoulNeedsDigit | cpp/tcp_session.hpp:52-57 | a header without digits is rejected, which closes the socket |
| Framing.StoulNegativeWraps | cpp/tcp_session.hpp:49 | `-1` is read as `ULONG_MAX` |
| Framing.FirstIndex | cpp/tcp_session.hpp:39-45 | the position of the first `#`, or the end |
| Framing.NextFrame | cpp/tcp_session.hpp:36-87 | a header is read exactly when a `#` has arrived, splitting the buffer at the first one; a body is read exactly when enough bytes have arrived, and takes exactly that many |
| Framing.Frame | cpp/tcp_session.hpp:35 | a framed message is longer than its body |
| Framing.FramesRoundTrip | cpp/tcp_session.hpp:36-87 | reading a stream of framed messages gives back exactly the bodies and leaves an unfinished header as the rest |
| Framing.FirstFrame | cpp/tcp_session.hpp:36-87 | one framed message in front of a stream adds exactly its body in front of the bodies read |
| Framing.HeaderSplit | cpp/tcp_session.hpp:45 | the header is the text before the first `#` |
| Framing.BodyIsOpaque | cpp/tcp_session.hpp:76-79 | a body is taken by length, whatever it contains, `#` included |
| Framing.ClosedIsFinal | cpp/tcp_session.hpp:56 | a closed session reads nothing more |
| Framing.Server.constructor | cpp/main.cpp:92-110 | the server thread starts running |
| Framing.Session.constructor | cpp/tcp_session.hpp:23-32 | a session starts awaiting a header with an empty buffer |
| Framing.Session.Receive | cpp/tcp_session.hpp:39 | arriving bytes are appended to the buffer unless the session is closed or its server has stopped |
| Framing.Session.Disconnect | cpp/tcp_session.hpp:56 | closing keeps the buffer and ends the session |
| Framing.Session.Step | cpp/tcp_session.hpp:36-87 | one step waits, reads a header, or reads a body and processes it as a payload; the session closes on a bad header; a conversion throw stops the server, after which no session takes a step |
| Sweep.Kept | cpp/main.cpp:185-193 | the entries that survive the scan: exactly those neither expired nor a command |
| Sweep.ScanWithoutExit | cpp/main.cpp:166-194 | without `exit`, the scan keeps exactly the surviving entries and does not stop |
| Sweep.ScanStopsAtExit | cpp/main.cpp:166-194 | at the first `exit`, the scan stops, forces a render, and leaves that entry and all after it in the table |
| Sweep.SkipRenderRule | cpp/main.cpp:165-194 | rendering is skipped exactly when every entry survives and was already rendered |
| Sweep.HideWithoutSwitch | cpp/main.cpp:128-137 | without `overlay_on` or `overlay_off`, the hidden flag keeps its value |
| Sweep.HideFollowsLastSwitch | cpp/main.cpp:128-137 | the last `overlay_on` or `overlay_off` decides the hidden flag |
| Sweep.ScanKeepsOrder | cpp/main.cpp:166-194 | the scan keeps the table sorted |
| Sweep.ScanIsSubset | cpp/main.cpp:166-194 | the scan only removes entries, it never adds or changes one |
| Sweep.ScanEntries | cpp/main.cpp:166-194 | the erase loop computes exactly the scan specification |
| Sweep.ScanWithNothingDue | cpp/main.cpp:166-194 | with nothing to erase, the scan changes nothing |
| Sweep.Draws | cpp/main.cpp:201-205 | one draw call per entry, in table order |
| Sweep.AllRendered | cpp/main.cpp:204 | every entry gets the rendered flag and keeps its key |
| Sweep.AllRenderedKeepsOrder | cpp/main.cpp:204 | marking entries rendered keeps the table sorted |
| Sweep.DrawEntries | cpp/main.cpp:201-205 | the draw loop makes exactly `Draws` and marks exactly `AllRendered` |
| Sweep.RenderedFrame | cpp/main.cpp:196-218 | a render either does nothing or is bracketed by clean and flush; a visible redraw draws every entry in order and marks each rendered; a hidden layer leaves the table alone and clears at most once |
| Sweep.HiddenClearsOnce | cpp/main.cpp:210-217 | a second hidden tick in a row makes no calls |
| Sweep.QuietSecondTick | cpp/main.cpp:165-218 | after a redraw, a tick with nothing due makes no calls and changes nothing |
| Sweep.Overlay.constructor | cpp/main.cpp:115-140 | the loop starts running, shown, inactive, with the activity check already due |
| Sweep.Overlay.CheckActivity | cpp/main.cpp:145-162 | every 1.5 s the check counts, sets app activity from the focused window's path, and reports lost transparency on every fifth check when both probes fail |
| Sweep.Overlay.Scan | cpp/main.cpp:164-194 | the scan moves the table and the hidden flag to the scan specification; `exit` stops the loop and marks the app inactive |
| Sweep.Overlay.DrawAll | cpp/main.cpp:201-205 | draws every entry in order and marks each rendered |
| Sweep.Overlay.RedrawFrame | cpp/main.cpp:200-206 | a clean, every draw, then a flush |
| Sweep.Overlay.Render | cpp/main.cpp:196-218 | the render step follows the render specification for the current visibility |
| Sweep.Overlay.Tick | cpp/main.cpp:141-219 | one loop pass: stop on lost transparency; otherwise scan, then render with the app active, not exited and not hidden |
| UnicodeSplitter.Classify | cpp/common/unicode_splitter.hpp:141-156 | Latin-1 up to 0xFF, the dingbat block 0x2700-0x27BF, the rest of the BMP, astral above 0xFFFF; custom rendering exactly for astral and dingbats |
| UnicodeSplitter.Lead | cpp/common/unicode_splitter.hpp:92-117 | a lead byte announces a sequence of one to four bytes |
| UnicodeSplitter.DecodeAt | cpp/common/unicode_splitter.hpp:85-126 | decoding at a position consumes one to four bytes |
| UnicodeSplitter.DecodeEncoded | cpp/common/unicode_splitter.hpp:85-126 | the UTF-8 form of any code point decodes back to it, consuming exactly its length |
| UnicodeSplitter.DecodeTwoBytes | cpp/common/unicode_splitter.hpp:92-122 | a two-byte sequence decodes to its code point |
| UnicodeSplitter.DecodeThreeBytes | cpp/common/unicode_splitter.hpp:92-122 | a three-byte sequence decodes to its code point |
| UnicodeSplitter.DecodeFourBytes | cpp/common/unicode_splitter.hpp:92-122 | a four-byte sequence decodes to its code point |
| UnicodeSplitter.StrayContinuationByte | cpp/common/unicode_splitter.hpp:113-117 | a lone continuation byte decodes to U+FFFD and consumes one byte |
| UnicodeSplitter.Utf8Encode | cpp/common/unicode_splitter.hpp:85-126 | a code point's UTF-8 form has one to four bytes |
| UnicodeSplitter.SymbolsFrom | cpp/common/unicode_splitter.hpp:85-126 | the symbols from a position start there, stay in the text, and exist exactly when bytes remain |
| UnicodeSplitter.UnicodeSymbolsIterator.constructor | cpp/common/unicode_splitter.hpp:67-70 | the iterator starts at byte 0 with no symbol |
| UnicodeSplitter.UnicodeSymbolsIterator.Next | cpp/common/unicode_splitter.hpp:85-126 | advancing succeeds exactly when bytes remain; it decodes the symbol there and moves past exactly its bytes |
| UnicodeSplitter.UnicodeSymbolsIterator.RewindTo | cpp/common/unicode_splitter.hpp:74-81 | rewinding succeeds exactly when the span's start is inside the text and its symbol has the span's class |
| UnicodeSplitter.MakeSpans | cpp/common/unicode_splitter.hpp:189-224 | the span loop computes exactly the span specification |
| UnicodeSplitter.ScanSpans | cpp/common/unicode_splitter.hpp:189-224 | for any class table, with or without a span per astral symbol, the cursor loop yields exactly the span specification |
| UnicodeSplitter.NextSpan | cpp/common/unicode_splitter.hpp:197-211 | one symbol moves the open and closed spans on exactly as the specification's step does |
| UnicodeSplitter.SpansPartitionText | cpp/common/unicode_splitter.hpp:189-224 | the spans tile the text from 0 to its end without gaps, and there are none only for empty text |
| UnicodeSplitter.SpansAlternate | cpp/common/unicode_splitter.hpp:189-224 | neighbouring spans have different classes |
| UnicodeSplitter.SpansClassesMatch | cpp/common/unicode_splitter.hpp:189-224 | each span's class is the class of its first symbol |
| UnicodeSplitter.SpansRebuildText | cpp/common/unicode_splitter.hpp:189-224 | joining the spans' slices gives back the text |
| UnicodeSplitter.TwoEmojiShareASpan | cpp/common/unicode_splitter.hpp:206-211 | two emoji in a row form one span |
| SvgBuilder.EscapeForSvg | cpp/svgbuilder.cpp:42-72 | the loop computes exactly the escaping function |
| SvgBuilder.EscapeRoundTrip | cpp/svgbuilder.cpp:42-72 | unescaping the escaped text gives the text back |
| SvgBuilder.EscapeHasNoMarkup | cpp/svgbuilder.cpp:42-72 | escaped text contains no `<`, `>`, `"` or `'` |
| SvgBuilder.EscapeIdentity | cpp/svgbuilder.cpp:42-72 | text without markup characters or `&` is unchanged |
| SvgBuilder.ClassifySvg | cpp/svgbuilder.cpp:189-204 | the SVG builder's classes: Latin-1, BMP, or astral, where dingbats count as astral |
| SvgBuilder.ClassTablesAgree | cpp/svgbuilder.cpp:189-204 | the SVG table is the splitter's table with dingbats moved to astral, and astral means "needs custom render" |
| SvgBuilder.MakeSvgSpans | cpp/svgbuilder.cpp:235-271 | the builder's span method computes the SVG span specification |
| SvgBuilder.SvgSpansProperties | cpp/svgbuilder.cpp:235-271 | the SVG spans tile the text, alternate class except between emoji, match their first symbol's class, give one span per emoji, and rebuild the text |
| SvgBuilder.ProcessSingleLine | cpp/svgbuilder.cpp:314-372 | a line's loop gives exactly its pieces |
| SvgBuilder.SpanPiece | cpp/svgbuilder.cpp:319-371 | one span becomes its piece: an emoji image or an escaped text run |
| SvgBuilder.LinesPieces | cpp/svgbuilder.cpp:286-297 | one piece list per line, in order |
| SvgBuilder.ProcessLines | cpp/svgbuilder.cpp:286-297 | the line loop computes `LinesPieces` |
| SvgBuilder.TextToSvg | cpp/svgbuilder.cpp:276-297 | a text task becomes the text block of its lines |
| SvgBuilder.PiecesFollowSpans | cpp/svgbuilder.cpp:314-372 | one piece per span, each the piece of that span |
| SvgBuilder.LinePiecesCoverLine | cpp/svgbuilder.cpp:314-372 | a line gives one piece per span; an emoji span becomes the image of its code point; any other span becomes a text run whose unescaped text is the span's slice, in the Latin-1 font exactly for Latin-1 spans |
| SvgBuilder.MakeSvgShape | cpp/svgbuilder.cpp:403-459 | the shape method computes exactly the shape body |
| SvgBuilder.WriteCalls | cpp/svgbuilder.cpp:406-449 | the vector callbacks write exactly the elements of the calls |
| SvgBuilder.CallsMakeNoRect | cpp/svgbuilder.cpp:406-449 | vector calls never produce a rectangle |
| SvgBuilder.RectOnlyForRectShapes | cpp/svgbuilder.cpp:451-458 | a rectangle appears exactly for a non-vector `rect` shape, and is then the only element, with the drawable's box and colour |
| SvgBuilder.VectorShapeBody | cpp/svgbuilder.cpp:451 | a vector shape's body is the elements of its point walk |
| SvgBuilder.Polyline | cpp/svgbuilder.cpp:416-418 | n points give n-1 line elements |
| SvgBuilder.PairsArePolyline | cpp/svgbuilder.cpp:406-451 | the line calls of consecutive pairs draw the polyline |
| SvgBuilder.PlainVectorIsPolyline | cpp/svgbuilder.cpp:406-451 | a vector shape with no markers and no sentinel point draws the polyline through its points |
| SvgBuilder.PointsOfReadsAll | cpp/svgbuilder.cpp:484-494 | the bounding box pass reads every node, succeeds exactly when every node has integer x and y, and yields them in order |
| SvgBuilder.PointsFit | cpp/svgbuilder.cpp:487-488 | every point read is 32-bit |
| SvgBuilder.BoxIsTight | cpp/svgbuilder.cpp:490-493 | the box contains every point and each side touches a point |
| SvgBuilder.BoundingBox | cpp/svgbuilder.cpp:481-497 | the loop succeeds exactly when every node reads, and then gives the tight box |
| SvgBuilder.VectorCorner | cpp/svgbuilder.cpp:476-510 | succeeds exactly when every node reads, and then gives the frame of the points |
| SvgBuilder.BuildSvgTask | cpp/svgbuilder.cpp:471-553 | the method computes exactly the conversion specification |
| SvgBuilder.ConvertedTextsCompareEqual | cpp/svgbuilder.cpp:537-539 | two text items in the same colour at the same position compare equal once converted, whatever their texts |
| SvgBuilder.ConversionKeepsIdentity | cpp/svgbuilder.cpp:518-546 | idk and SVG items pass through; a converted item is in SVG mode, has its text and shape cleared, and keeps id, timestamp, colour, command and rendered flag |
| SvgBuilder.NonVectorKeepsPosition | cpp/svgbuilder.cpp:511-546 | text and plain shapes convert, keep their position, have no size, and translate by minus the position |
| SvgBuilder.VectorFailures | cpp/svgbuilder.cpp:484-488 | a vector shape fails to convert exactly when some node does not read |
| SvgBuilder.BuiltVector | cpp/svgbuilder.cpp:476-546 | a readable vector shape converts with its frame and its shape body |
| SvgBuilder.ManyPointsFrame | cpp/svgbuilder.cpp:496-509 | with two or more points, the frame is spanned by the extreme points |
| SvgBuilder.VectorBoundingBox | cpp/svgbuilder.cpp:476-546 | a readable vector shape of two or more points converts with the frame of its extreme points |
| SvgBuilder.SinglePointFrame | cpp/svgbuilder.cpp:499-505 | a single point is framed from 5 pixels up and left of it, a quarter window wide and 9 plus the font size high |
| SvgBuilder.SinglePointBox | cpp/svgbuilder.cpp:499-505 | the frame of a single point, as computed from the points alone |
| SvgBuilder.EmptyVectorFrame | cpp/svgbuilder.cpp:474-509 | an empty vector converts at `INT_MAX`, `INT_MAX` with size 1x1 |
| StrUtils.ToLower | cpp/common/strutils.h:127-131 | same length; upper-case ASCII letters become their lower-case letters and every other character is kept |
| StrUtils.ToLowerIdempotent | cpp/common/strutils.h:127-131 | lowering twice is lowering once |
| StrUtils.EndsWith | cpp/common/strutils.h:140-148 | true exactly when the text is something followed by the ending |
| StrUtils.FindFrom | cpp/common/strutils.h:157-160 | `find` gives the first occurrence at or after the start, or -1 when none exists |
| StrUtils.StrContains | cpp/common/strutils.h:157-160 | true exactly when the pattern occurs somewhere; the empty pattern always does |
| StrUtils.StrContainsAny | cpp/common/strutils.h:163-174 | true exactly when one of the patterns occurs; never with no patterns |
| StrUtils.IndexOf | cpp/common/strutils.h:176-188 | the first position of the delimiter, or the end |
| StrUtils.SplitTokens | cpp/common/strutils.h:176-188 | the `getline` loop computes exactly the split |
| StrUtils.SplitTokensClean | cpp/common/strutils.h:176-188 | no token holds the delimiter, and only empty text gives no tokens |
| StrUtils.SplitJoin | cpp/common/strutils.h:176-188 | joining the tokens with the delimiter rebuilds the text, minus one trailing delimiter |
| StrUtils.FirstNotOf | cpp/common/strutils.h:191-196 | `find_first_not_of`: the first character outside the set, or the end |
| StrUtils.EndOfLastNotOf | cpp/common/strutils.h:198-203 | one past `find_last_not_of`: the characters after it are all in the set |
| StrUtils.LTrim | cpp/common/strutils.h:191-196 | removes a prefix made of set characters, leaving text that starts outside the set |
| StrUtils.RTrim | cpp/common/strutils.h:198-203 | removes a suffix made of set characters, leaving text that ends outside the set |
| StrUtils.TrimShape | cpp/common/strutils.h:205-208 | the trimmed text is a slice whose ends are outside the set, and it is empty when every character is in the set |
| StrUtils.TrimSlice | cpp/common/strutils.h:205-208 | the trimmed text is the slice up to one past the last character outside the set |
| StrUtils.TrimIdempotent | cpp/common/strutils.h:191-208 | trimming twice is trimming once, for each side and both |
| StrUtils.Spaces | cpp/common/strutils.h:213 | n spaces |
| StrUtils.ReplaceTabsWithSpaces | cpp/common/strutils.h:210-227 | the loop computes exactly the tab expansion |
| StrUtils.ExpandTabsHasNoTab | cpp/common/strutils.h:210-227 | the result holds no tab |
| StrUtils.ExpandTabsLength | cpp/common/strutils.h:210-227 | each tab grows the text by n-1 characters |
| StrUtils.ExpandTabsIdentity | cpp/common/strutils.h:210-227 | text without tabs is unchanged |
| StrUtils.AfterLastSeparator | cpp/strutils.h:63-71 | one past the last path separator, and no separator after it |
| StrUtils.BaseFileName | cpp/strutils.h:63-71 | the part after the last `/` or `\`, which holds no separator; a path without separators is its own base name |
| StrUtils.LastDot | cpp/strutils.h:172-176 | the position of the last dot, or -1 |
| StrUtils.RemoveExtension | cpp/strutils.h:172-176 | cuts at the last dot: the result plus a dot-led rest is the name, shorter exactly when a dot exists, and the rest holds no other dot |
| StrUtils.DotInDirectory | cpp/strutils.h:172-176 | a dot in a directory name is cut too: `a.d/file` gives `a` |
| X11Colors.ScanHexField | cpp/x11_colors_mgr.h:161-172 | a `%02x` field consumes input when it matches |
| X11Colors.ScanHex | cpp/x11_colors_mgr.h:161-172 | `sscanf` assigns at most the fields asked for |
| X11Colors.ScanPairs | cpp/x11_colors_mgr.h:161-172 | over hex digits, `sscanf` reads each pair as its byte |
| X11Colors.NamedColorRule | cpp/x11_colors_mgr.h:143-181 | a known name gives its table colour: `transparent` is all zero, `solid_white` is opaque white, and the others use the default alpha |
| X11Colors.HexSevenRule | cpp/x11_colors_mgr.h:159-165 | `#rrggbb` gives those components with the default alpha |
| X11Colors.HexNineRule | cpp/x11_colors_mgr.h:166-172 | `#aarrggbb` gives those components, with alpha from the first pair |
| X11Colors.FailedPairZeroes | cpp/x11_colors_mgr.h:161-164 | components after a pair that fails to scan are zero |
| X11Colors.ScanStopsAtBadPair | cpp/x11_colors_mgr.h:161-164 | scanning stops at the first bad pair: `#zz00ff` is black and `#ffzz00` is red |
| X11Colors.SignedPairWraps | cpp/x11_colors_mgr.h:161-164 | `%02x` accepts a sign: `#-10000` reads -1, which wraps to 255 |
| X11Colors.DefaultRule | cpp/x11_colors_mgr.h:152-183 | any other name gives the default colour |
| X11Colors.CaseSensitive | cpp/x11_colors_mgr.h:174-181 | decoding is case sensitive: `RED` is not `red` |
| X11Colors.UpScale | cpp/x11_colors_mgr.h:51-57 | a byte maps to 16 bits by times 257: 0 stays 0 and 255 becomes 0xFFFF |
| X11Colors.UpScaleMonotone | cpp/x11_colors_mgr.h:51-57 | up-scaling keeps the order of components |
| X11Colors.PackPixel | cpp/x11_colors_mgr.h:213 | the pixel keeps its low 24 bits and carries the alpha in bits 24-31 |
| X11Colors.PackPixelSignExtends | cpp/x11_colors_mgr.h:213 | as written, an alpha of 128 or more also sets the upper 32 bits |
| X11Colors.PackPixelExample | cpp/x11_colors_mgr.h:213 | alpha 240 on pixel 0x123456 gives 0xFFFFFFFFF0123456 as written, instead of 0xF0123456 |
| X11Colors.CreateXColor | cpp/x11_colors_mgr.h:198-215 | a colour exists exactly when the allocation succeeds, and its pixel packs the alpha |
| X11Colors.ColorMap.constructor | cpp/x11_colors_mgr.h:110-114 | the cache starts empty |
| X11Colors.ColorMap.Get | cpp/x11_colors_mgr.h:117-134 | a lower-cased name is served from the cache when present; otherwise it is decoded and allocated, and the cache grows only when that succeeds |
| LegacyColors.DecodeLegacyColor | cpp/colors_mgr.h:104-139 | the legacy decoder as written, with the components that start out uninitialised read as zero |
| LegacyColors.UninitialisedComponents | cpp/colors_mgr.h:123-126 | as written, `#zzzzzz` returns whatever the components held before |
| LegacyColors.FailedPairGivesZero | cpp/colors_mgr.h:121-127 | with zero-initialised components, a failed first pair gives black |
| LegacyColors.OnlySevenDigitCodes | cpp/colors_mgr.h:118-128 | only `#rrggbb` is a hex code; any other `#` text gives the default colour |
| LegacyColors.AgreesWithNewer | cpp/colors_mgr.h:104-139 | the legacy decoder equals the newer one except on `#aarrggbb`, which it does not know |
| LegacyColors.CreateFontColor | cpp/colors_mgr.h:166-183 | a font colour exists exactly when the render allocation succeeds, and holds the up-scaled colour |
| LegacyColors.LegacyColorMap.constructor | cpp/colors_mgr.h:61-65 | both caches start empty |
| LegacyColors.LegacyColorMap.Get | cpp/colors_mgr.h:67-84 | served from the cache, or decoded and cached when allocation succeeds |
| LegacyColors.LegacyColorMap.GetFontColor | cpp/colors_mgr.h:86-102 | the same for font colours, in their own cache |
| Base64.AlphabetChar | cpp/emoji_renderer/emoji_renderer.cpp:35 | each sextet maps to a base64 character that decodes back to it |
| Base64.AlphabetTable | cpp/emoji_renderer/emoji_renderer.cpp:35 | the 64-character table is the alphabet |
| Base64.SextetOfInjective | cpp/emoji_renderer/emoji_renderer.cpp:35 | no two alphabet characters share a sextet |
| Base64.EncodeShape | cpp/emoji_renderer/emoji_renderer.cpp:37-64 | the output has four characters per three bytes, rounded up; empty input gives empty output; everything before the padding is in the alphabet, and the padding is `=` |
| Base64.PaddingCount | cpp/emoji_renderer/emoji_renderer.cpp:59-62 | the output is the characters emitted plus as many `=` as bring it to a multiple of four |
| Base64.EncodeRoundTrip | cpp/emoji_renderer/emoji_renderer.cpp:37-64 | decoding the output gives back the bytes |
| Base64.UnpaddedRoundTrip | cpp/emoji_renderer/emoji_renderer.cpp:37-64 | the round trip for inputs whose length is a multiple of three |
| Base64.PaddedRoundTrip | cpp/emoji_renderer/emoji_renderer.cpp:37-64 | the round trip for inputs that need padding |
| Base64.GroupsRoundTrip | cpp/emoji_renderer/emoji_renderer.cpp:45-54 | full three-byte groups decode back |
| Base64.EncodeBase64 | cpp/emoji_renderer/emoji_renderer.cpp:37-64 | the bit-accumulator loop computes exactly the base64 encoding |
| Base64.Accumulate | cpp/emoji_renderer/emoji_renderer.cpp:45-54 | the byte loop emits every complete sextet and carries the leftover bits |
| Base64.EmitComplete | cpp/emoji_renderer/emoji_renderer.cpp:49-53 | the inner loop emits the sextets one byte completes |
| Base64.EmitLast | cpp/emoji_renderer/emoji_renderer.cpp:55-58 | the leftover bits become the last character |
| Base64.PadToQuad | cpp/emoji_renderer/emoji_renderer.cpp:59-62 | padding appends `=` up to a multiple of four |
| EmojiKeys.FontsLessIrreflexive | cpp/emoji_renderer/emoji_renderer.hpp:19-26 | the font list order never puts a list before itself |
| EmojiKeys.FontsLessTransitive | cpp/emoji_renderer/emoji_renderer.hpp:19-26 | the font list order is transitive |
| EmojiKeys.FontsLessTotal | cpp/emoji_renderer/emoji_renderer.hpp:19-26 | two font lists are unordered exactly when they are equal |
| EmojiKeys.FontLessOrder | cpp/emoji_renderer/emoji_renderer.hpp:19-26 | the font requirement order is a strict order whose unordered pairs are equal |
| EmojiKeys.EmojiLessOrder | cpp/emoji_renderer/emoji_renderer.hpp:35-46 | the cache key order is a strict order whose unordered pairs are equal, so two requests share a cache entry only when they are the same |
| EmojiKeys.ColorBeforeFont | cpp/emoji_renderer/emoji_renderer.hpp:35-46 | the colour is compared before the font |
| EmojiRenderer.Bitmap.constructor | cpp/emoji_renderer/emoji_renderer.cpp:66-80 | a bitmap of w by h has 4·w·h zero bytes |
| EmojiRenderer.GrayImage | cpp/emoji_renderer/emoji_renderer.cpp:390-403 | a GRAY glyph fills the bitmap with 4 bytes per pixel |
| EmojiRenderer.GrayPixel | cpp/emoji_renderer/emoji_renderer.cpp:390-403 | each GRAY pixel is the colour's red, green and blue with the gray value as alpha |
| EmojiRenderer.BgraImage | cpp/emoji_renderer/emoji_renderer.cpp:404-418 | a BGRA glyph fills the bitmap with 4 bytes per pixel |
| EmojiRenderer.BgraPixel | cpp/emoji_renderer/emoji_renderer.cpp:404-418 | each BGRA pixel is reordered to red, green, blue, alpha |
| EmojiRenderer.PutPixel | cpp/emoji_renderer/emoji_renderer.cpp:396-400 | writes one pixel's four bytes after the ones already written |
| EmojiRenderer.FillGrayRow | cpp/emoji_renderer/emoji_renderer.cpp:391-402 | one GRAY row appends its converted pixels |
| EmojiRenderer.FillGray | cpp/emoji_renderer/emoji_renderer.cpp:390-403 | the GRAY loops leave exactly the GRAY image in the bitmap |
| EmojiRenderer.FillBgraRow | cpp/emoji_renderer/emoji_renderer.cpp:405-417 | one BGRA row appends its reordered pixels |
| EmojiRenderer.FillBgra | cpp/emoji_renderer/emoji_renderer.cpp:404-418 | the BGRA loops leave exactly the BGRA image in the bitmap |
| EmojiRenderer.Converted | cpp/emoji_renderer/emoji_renderer.cpp:386-421 | a converted glyph has 4 bytes per pixel |
| EmojiRenderer.ClosestFixedSize | cpp/emoji_renderer/emoji_renderer.cpp:334-346 | names one of the fixed sizes |
| EmojiRenderer.ClosestIsFirstNearest | cpp/emoji_renderer/emoji_renderer.cpp:334-346 | the chosen fixed size is nearest to the request, and no earlier size is as near |
| EmojiRenderer.FirstNearestUnique | cpp/emoji_renderer/emoji_renderer.cpp:334-346 | only one size is both nearest and first |
| EmojiRenderer.BestFixedSize | cpp/emoji_renderer/emoji_renderer.cpp:334-346 | the search loop picks exactly the first nearest size |
| EmojiRenderer.ChooseSize | cpp/emoji_renderer/emoji_renderer.cpp:324-356 | the size set-up computes exactly the size request for the face |
| EmojiRenderer.LoadGlyph | cpp/emoji_renderer/emoji_renderer.cpp:324-381 | the glyph is the bitmap rendered at the chosen size, and there is none when no size can be set, the glyph index is 0, rendering fails or the bitmap has no width or height |
| EmojiRenderer.Finished | cpp/emoji_renderer/emoji_renderer.cpp:423-428 | the PNG's height is the font size cast to 8 bits |
| EmojiRenderer.FinishedValid | cpp/emoji_renderer/emoji_renderer.cpp:423-428 | the result is valid exactly when the scaled width is positive, the 8-bit height is not zero, and the PNG text is not empty |
| EmojiRenderer.WrappedSizeInvalid | cpp/emoji_renderer/emoji_renderer.cpp:423-428 | a font size that is a multiple of 256 never gives a valid result |
| EmojiRenderer.RenderStep | cpp/emoji_renderer/emoji_renderer.cpp:316-382 | a font that does not draw passes the render to the next font, and an unsupported mode leaves an empty cache entry |
| EmojiRenderer.DrawGlyph | cpp/emoji_renderer/emoji_renderer.cpp:383-428 | drawing a glyph computes exactly its PNG result |
| EmojiRenderer.MeasurePen | cpp/emoji_renderer/emoji_renderer.cpp:477-512 | the pen loop succeeds exactly when every character loads, and then gives the pen advance with kerning |
| EmojiRenderer.WidthOfFirstMeasuring | cpp/emoji_renderer/emoji_renderer.cpp:438-517 | the width comes from the first font that measures the text, truncated to 32 bits, with that font's name |
| EmojiRenderer.WidthFallback | cpp/emoji_renderer/emoji_renderer.cpp:519-520 | when no font measures, the width is characters times font size in 32-bit arithmetic, with no font name |
| EmojiRenderer.Renderer.constructor | cpp/emoji_renderer/emoji_renderer.cpp:297-300 | both caches start empty |
| EmojiRenderer.Renderer.GetFace | cpp/emoji_renderer/emoji_renderer.cpp:265-279 | a face is loaded by name and cached when it loads |
| EmojiRenderer.Renderer.TryFont | cpp/emoji_renderer/emoji_renderer.cpp:316-322 | one font's attempt, with the face cache growing and the emoji cache updated as the attempt says |
| EmojiRenderer.Renderer.TryFace | cpp/emoji_renderer/emoji_renderer.cpp:323-428 | one face's attempt; only the emoji cache changes |
| EmojiRenderer.Renderer.RenderToPng | cpp/emoji_renderer/emoji_renderer.cpp:302-431 | code point 0 or a missing library gives no result and changes nothing; a cached request returns its entry; otherwise the fonts are tried in order and the cache records the outcome |
| EmojiRenderer.Renderer.RenderFonts | cpp/emoji_renderer/emoji_renderer.cpp:316-430 | the image is the first one a font draws, else the "no result" image, and the cache gains the drawn image, or an empty entry when a font met an unsupported pixel mode |
| EmojiRenderer.CachedStep | cpp/emoji_renderer/emoji_renderer.cpp:383-428 | after each font the cache holds the request's empty entry exactly when some font so far met an unsupported pixel mode, and the image once one is drawn |
| EmojiRenderer.Renderer.ComputeWidth | cpp/emoji_renderer/emoji_renderer.cpp:435-521 | the width is that of the first font that measures the text, or the fallback |
| LegacyDrawables.NewItem | drawables.h:47-80 | a fresh item has mode idk, no id, and a permanent ttl stamped now |
| LegacyDrawables.LegacyExpiry | drawables.h:21-31 | the same expiry rule as the newer header |
| LegacyDrawables.ApplyKey | drawables.h:97-112 | an unknown key has no processor; a known key throws exactly on the wrong value type; text and shape keys set the mode; `id` sets only the id and `ttl` only the ttl |
| LegacyDrawables.NewerKeysUnknown | drawables.h:97-112 | `msgid`, `shapeid`, `command`, `font_size` and `vector_font_size` have no processor |
| LegacyDrawables.UnknownKeySkipped | drawables.h:138-141 | an unknown key is skipped and changes nothing |
| LegacyDrawables.ConflictIgnoresRest | drawables.h:129-136 | after a mode conflict the remaining keys are not read |
| LegacyDrawables.FinishedModeReflectsKeys | drawables.h:119-141 | after the key loop the mode reflects the text and shape keys present |
| LegacyDrawables.MixedObjectNotKept | drawables.h:129-143 | an object with both text and shape keys is never stored |
| LegacyDrawables.Finish | drawables.h:143-158 | an object is kept exactly when it has a mode; anonymous ones get `AUTOID:` plus the counter and a 60 s ttl when permanent |
| LegacyDrawables.AutoIdsDistinct | drawables.h:145-149 | different counters give different automatic ids |
| LegacyDrawables.DecodeObject | drawables.h:119-160 | a stored item has an id, a mode, and the time it was constructed at; the counter moves only for a stored item |
| LegacyDrawables.ParseSingleObject | drawables.h:119-160 | the loop computes exactly `DecodeObject` |
| LegacyDrawables.DecodeAll | drawables.h:166-172 | decoding an array keeps the table sorted |
| LegacyDrawables.LastWins | drawables.h:158 | the last object storing under an id decides its item |
| LegacyDrawables.KeptIdSurvives | drawables.h:158 | an id no object stores under keeps its earlier item |
| LegacyDrawables.DecodeSource | drawables.h:163-179 | empty text gives an empty table, malformed JSON a failure, and tables are sorted |
| LegacyDrawables.ParseJsonString | drawables.h:163-179 | the method, reading the clock once per element, computes exactly `DecodeSource` |
| LegacyDrawables.PointPrefix | drawables.h:191-210 | the readable points before the first unreadable node |
| LegacyDrawables.PointPrefixNext | drawables.h:191-210 | each node either extends the prefix with its point or is where the prefix ends |
| LegacyDrawables.ForEachVectorPointsPair | drawables.h:184-234 | a non-vector shape makes no calls; a vector shape makes exactly the walk's calls over the readable prefix |
| LegacyDrawables.WalkIsPairs | drawables.h:184-234 | without a sentinel point, the walk draws one line per consecutive pair and remembers the last point |

## Left out

- Drawing on X11, Xft text layout, font loading and the window itself are outside the model. Draw and render calls are recorded as a log of calls.
- Floating-point layout in the SVG builder and the emoji renderer is not modelled. The text block's position and size come from the drawable being converted.
- `getFinalFontSize` in `cpp/common/font_size.hpp` is not part of this model. The font size is a parameter.
- JSON text parsing is left out. A payload is given as its parsed value, an empty text, or malformed text. Floating-point JSON numbers are left out.
- Concurrency, the mutex behind `accessContext` and ASIO's asynchronous reads are left out. The stop flag behind `canContinue` is an input that names the loop step where it first fails.
- Clocks and sleeps are inputs. A batch reads the steady clock once per element, as a function from the element's position to milliseconds (`Drawables.Clock`). The drawing loop's current time is a parameter in milliseconds.
- The window's start-up `cleanFrame`, command-line parsing and program start-up in `cpp/main.cpp` are left out.
- The focused window's path and the transparency probes in the drawing loop are inputs of `Sweep.Overlay.CheckActivity`.
- The X server colour allocation, FreeType, fontconfig and libpng are function parameters of a backend. This covers face loading, glyph loading, kerning, scaling, and `encodePngRGBA`.
- The floating-point part of `scaleBitmapToFitHeight` is the backend's scale function.
- The results of `FT_Set_Transform` and `FT_Set_Pixel_Sizes` are ignored, as the source ignores them.
- The glyph buffer is modelled as rows of bytes. The bitmap pitch, and a negative pitch, are not modelled.
- `std::abs` overflow on extreme sizes is not modelled. The distance between sizes is mathematical.
- 32-bit and `size_t` index arithmetic is unbounded. Wrap-around is written out only where values are cast: `int` casts, `uint8_t` heights, `uint32_t` widths, and `stoul`.
- The debug `assert` in `computeWidth` and a null library pointer (only a missing library is modelled) are left out.
- A `const operator[]` on a missing key or a non-object is modelled as a throw.
- `utf8CharactersCount` is not modelled.
- StrUtils.LTrim: trimming works on values rather than in place on the string reference.
- StrUtils.RTrim: trimming works on values rather than in place on the string reference.
- StrUtils.ReplaceTabsWithSpaces: the width is a `nat`; a negative `int` width, which `std::string(N, ' ')` converts to a huge size and rejects with `std::length_error`, is not modelled.
- `cpp/colors_mgr.h:162` packs the alpha with the same sign-extending shift as the newer copy; the model uses the corrected `X11Colors.PackPixel` for both.
- Base64.EncodeBase64: `val << 8` is read as C++20 defines it, so the shift wraps and does not overflow.
- Base64.Decode exists only as the inverse that states the round trip. The program has no decoder.
- Decoder.DecodeAll: states only that the result is sorted and that the counter grows. The contents, and the creation time of each stored item, are stated by `Decoder.LastWins` and `Decoder.KeptIdSurvives`.
- LegacyDrawables.DecodeAll: states only that the result is sorted. The contents are stated by `LegacyDrawables.LastWins` and `LegacyDrawables.KeptIdSurvives`.
- Framing.Stoul: states only the `ULONG_MAX` bound. What it reads is stated by `Framing.StoulReadsDecimal`, `Framing.StoulIgnoresSurroundings`, `Framing.StoulNeedsDigit` and `Framing.StoulNegativeWraps`.
- Store.MarkUnchanged: states only sortedness. Its meaning is `Store.MarkUnchangedView`.
- Store.Marked: states only sortedness. Its meaning is `Store.MergeRule`.
- EmojiRenderer.Converted: states only the size. The pixels are stated by `EmojiRenderer.GrayPixel` and `EmojiRenderer.BgraPixel`.
- EmojiRenderer.Finished: states only the height. Validity is stated by `EmojiRenderer.FinishedValid`.
- X11Colors.ScanHexField: states only that a match consumes input. The values read are stated by `X11Colors.ScanPairs`.
- X11Colors.ScanHex: states only the count bound. The values are stated by `X11Colors.ScanPairs`.

## Findings

| source | as written | input that shows it | evidently intended | confidence | as-written member | corrected member |
|---|---|---|---|---|---|---|
| cpp/tcp_session.hpp:155 | the loop runs while `iter != std::prev(src.end())`; when the last entry is erased as a duplicate, `iter` steps onto `end()` and walks past it | a table `a`, `b` whose two items are equal, with `b` created earlier | stop at the end, as well as at the last entry | not executed | Store.AsWrittenRunsPastEnd | Store.DedupCollapsesDuplicates |
| cpp/x11_colors_mgr.h:213 | `pixel \|= alpha << 24` promotes `alpha` to a signed `int`, which sign-extends into the 64-bit pixel when alpha is 128 or more | alpha 240 on pixel 0x123456 gives 0xFFFFFFFFF0123456 | only bits 24-31 take the alpha | not executed | X11Colors.PackPixelSignExtends | X11Colors.PackPixel |
| cpp/colors_mgr.h:123-126 | the components are read before `sscanf` has assigned them when a pair fails to scan | `#zzzzzz` | components start at zero, as the newer decoder does | not executed | LegacyColors.UninitialisedComponents | LegacyColors.FailedPairGivesZero |
