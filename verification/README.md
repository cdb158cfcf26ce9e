# Xapiand, verified

A Dafny model of nine components of Xapiand, a search server, and proofs of what they promise. Each
component keeps the form of its source: objects updated in place are classes, loops are loops, and
each is proved against a specification about which the promises are then proved.

- **HTTP/1.x push parser** (`Http*.dfy`). `HttpMachine` says what one byte does. `HttpMethods`,
  `HttpFraming` and `HttpMessages` prove what runs of bytes mean: method names, chunked bodies, declared
  lengths, how a message ends and whether another may follow.
  `HttpParser` is the parser that takes whole buffers, with marks and bulk reads. It reports the same
  however the input is cut into calls; the one exception, in error, is proved too.
- **Aging LRU cache** (`Lru*.dfy`). A table and two intrusive circular lists over the same nodes.
  `LruNodes` relinks, `LruLists` relates the lists and `Lru` is the cache. `LruModel` is the cache as a
  value, its entries in both orders, and every operation and every run of `Lru` is proved equal to it.
  `LruRuns` and `LruKeys` prove what these runs mean, with and without expiration.
- **BaseX codec** (`BaseX*.dfy`, `Arith.dfy`). Both encoders, the decoder, the tables, the checks.
- **Debouncer** (`Debouncer*.dfy`). Timed traces of calls and executions, and the object that follows
  them with task objects, statuses and a queue.
- **Calendar and date math** (`Calendar.dfy`, `DateMath.dfy`).
- **Shard placement** (`Shards.dfy`), **jump consistent hash** (`JumpHash.dfy`),
  **length-prefixed strings** (`Length.dfy`, `LengthReader.dfy`), **path normaliser**
  (`NormalizePath.dfy`).

`dafny verify dfyconfig.toml` checks everything.

## What is assumed of the surroundings

- Clock readings are parameters, nondecreasing where the code relies on a steady clock. The random
  forced timeout is any value in its range.
- The scheduler runs an uncleared task at or after its wakeup time; a firing and its status update are
  one step.
- Parser callbacks return 0, in strict mode.
- `gmtime_r` is the inverse of `timegm`, in the calendar extended before year 1.
- Double arithmetic in the jump hash is any monotone rounding exact on the integers that doubles hold,
  and where it is said so, one with the precision of 53 bits.
- A file read is short only at the end of the file.
- `uinteger_t` is a natural number given by its 32-bit half digits.

## Where the code does less than one might expect

Each of these is a lemma or a clause with its exact condition.

- In the parser, chunk data followed in the same call by a broken chunk end is not handed out, while
  in separate calls it is (`HttpParser.Parser.ExecuteAll`, `HttpParser.CutShowsInError`).
- An encoder with both checks writes zero as one character, which is too short for the decoder
  (`BaseXCodec.RoundTrip`). In the place of a check character, a character in no list passes as the
  first extension character (`BaseXTables.UnknownCheck`, `BaseXTables.UnknownAccepted`).
- With expiration on, an overfull cache evicts by age and not by use, so the entry used last can go
  (`LruRuns.TrimmedMostRecent`, `LruRuns.DropsMostRecent`). Without a maximum age, entries that expired
  by a timeout of their own are passed over, so the cache can stay over its limit
  (`LruRuns.TrimmedSize`, `LruRuns.StaysOverLimit`).
- Adding months that end in December of a later year throws (`DateMath.MonthShift`,
  `DateMath.DecemberThrows`). The comment at `src/datetime.cc:1245-1247` gives another range than
  the code. `//w` in the first days of year 1 leads to year 0 (`DateMath.RoundingIdempotent`,
  `DateMath.FirstOfJanuary`).
- An eleven-byte length header is refused when exactly ten of its bytes are buffered
  (`LengthReader.Reader.ReadLength`, `LengthReader.ElevenBytes`).
- When the primary is not a known node, the first node of the list is never chosen
  (`Shards.FirstNodeChosen`).

## Model

| member | source | states |
|---|---|---|
| `HttpMachine.Dispatch` | src/http_parser.c:671-2007 | Whatever one byte does in a modelled state, the parser's assertions about lengths and flags hold afterwards: a body or chunk-data state has bytes left and not the "absent" marker, a finished chunk has none, chunk states belong to chunked messages |
| `HttpMachine.SizeCountedRun` | src/http_parser.c:1883-1886 | In every run the header count is 0 when a chunk-size line begins, so it is 1 at its first byte, as asserted there |
| `HttpMachine.Step` | src/http_parser.c:664-671 | One byte with the header-size count keeps those assertions; a parser in error does nothing |
| `HttpMachine.RunConcat` | src/http_parser.c:664-2008 | A byte-at-a-time run composes over concatenation: state and callbacks |
| `HttpMachine.RunError` | src/http_parser.c:612-615 | An error is final: nothing more happens on any further input |
| `HttpAgree.RunAgree` | src/http_parser.c:1493-1507 | Two parsers that differ only in a smaller header count do the same on every input that does not overflow the larger count |
| `HttpMethods.ReguessAgrees` | src/http_parser.c:974-998 | Switching from one method name to another keeps every letter already read |
| `HttpMethods.MatcherInvariant` | src/http_parser.c:916-1005 | After every input the bytes read since the message began are exactly the matched prefix of the guessed method name |
| `HttpMethods.NameIsAccepted` | src/http_parser.c:916-1005 | Each of the method names, followed by a space, is accepted as that method |
| `HttpMethods.AcceptedIsName` | src/http_parser.c:916-1005 | A word that is accepted is, after leading line breaks, the name of the reported method |
| `HttpMethods.MethodExact` | src/http_parser_enums.h:101-135 | A word, after any line breaks, is accepted as method m if and only if it is the name of m |
| `HttpMethods.WithinLimit` | src/http_parser.c:664-669 | A request word within the header limit never overflows the count, accepted or not |
| `HttpFraming.AfterMessage` | src/http_parser.c:1874-1881 | After the end of a message no further input hands out body bytes or reports a completion, as far as the next request line is modelled |
| `HttpFraming.SizeDigits` | src/http_parser.c:1883-1934 | A chunk size is accepted if and only if its hexadecimal value is at most 2^64 - 17, and then that value is held, without wrap-around |
| `HttpFraming.SizeExact` | src/http_parser.c:1883-1945 | A line is accepted as a chunk size if and only if it starts with hexadecimal digits, of value at most 2^64 - 17, and goes on with nothing or with an extension |
| `HttpFraming.ExtensionRun` | src/http_parser.c:1936-1945 | Chunk extensions are read over |
| `HttpFraming.ChunkedHead` | src/http_parser.c:1785-1807 | The headers of a chunked message end in front of its first chunk, with the headers reported and nothing completed |
| `HttpFraming.LengthBesideChunks` | src/http_parser.c:1735-1741 | A length beside chunked coding is refused |
| `HttpFraming.RunChunkData` | src/http_parser.c:1964-1985 | Chunk data is handed out byte for byte and counted down to exactly zero |
| `HttpFraming.OneChunk` | src/http_parser.c:1883-2001 | One encoded chunk, with any extension, produces its header, its bytes and its completion, and returns to the size state |
| `HttpFraming.Chunks` | src/http_parser.c:1883-2001 | Any list of chunks produces the callbacks of its chunks in order |
| `HttpFraming.LastChunk` | src/http_parser.c:1724-1733 | The zero chunk completes the message on its final line feed and not one byte earlier |
| `HttpFraming.ChunkedRun` | src/http_parser.c:1785-2001 | Section 4.1 of RFC 7230, from the end of the headers on: the body bytes are the payload, the message completes once, on the final line feed, and whatever follows adds nothing to the body and does not complete it again |
| `HttpFraming.LengthDigits` | src/http_parser.c:1432-1445 | A Content-Length value is accepted if and only if its decimal value, spaces skipped, is at most 2^64 - 7; the value held is that value, so it neither wraps nor equals the "absent" marker |
| `HttpFraming.LengthExact` | src/http_parser.c:1393-1445 | A line is accepted as a length if and only if, after blanks, it is empty or a digit followed by digits and spaces, of value at most 2^64 - 7 |
| `HttpFraming.LengthTwice` | src/http_parser.c:1438-1441 | A second length is refused |
| `HttpFraming.HeadersEnd` | src/http_parser.c:1809-1815 | After the headers a length of zero completes the message at once, any other length starts a body of that length |
| `HttpFraming.RunIdentity` | src/http_parser.c:1831-1865 | A body of declared length is handed out byte for byte and completes with its last byte |
| `HttpFraming.ContentLengthRun` | src/http_parser.c:1514-1539 | From the digits to the end of the body and any further bytes: exactly the declared number of bytes is handed out and the message completes once, with the last of them |
| `HttpParser.Parser.constructor` | src/http_parser.c:2105-2116 | A new request parser waits for a request and has reported nothing |
| `HttpParser.Parser.DoByte` | src/http_parser.c:671-2007 | One byte, by assignments to the fields, does what the byte machine does |
| `HttpParser.Parser.DoHeaderValue` | src/http_parser.c:1472-1539 | The inner loop over a header value ends where byte-at-a-time reading ends, up to a smaller header count, and points at the first bad byte |
| `HttpParser.Parser.ReadBody` | src/http_parser.c:1831-1872 | Reading a body in bulk, with a marked slice, is reading it byte by byte; the slice not yet handed out is accounted for |
| `HttpParser.Parser.Parse` | src/http_parser.c:664-2041 | The loop over a buffer ends where byte-at-a-time reading ends and its callbacks, slices split into bytes, are the same; in error the index is that of the offending byte, and the only thing that can be lost is a slice marked in this call before a broken chunk end |
| `HttpParser.Parser.Execute` | src/http_parser.c:596-2041 | The same for a call, with the end-of-input call and the calls after an error in full |
| `HttpParser.Parser.ExecuteAll` | src/http_parser.c:596-2041 | However an input is cut into non-empty calls, the parser ends as if fed byte by byte and has reported the same but for a lost slice. Bytes are lost if and only if the input breaks off the end of a chunk and the byte before the offending one is in the same piece; they are the chunk data reported since that piece began |
| `HttpParser.FeedChunked` | src/http_parser.c:1785-2001 | For every chunked message from the end of its headers on, every further input and every cut into calls, the body callbacks receive the payload and no more, and the message completes once |
| `HttpParser.FeedUnfinished` | src/http_parser.c:1874-2001 | For every proper prefix of the end of the headers and the encoding and every cut of it, no message completes |
| `HttpParser.FeedPartOfLength` | src/http_parser.c:1831-1865 | For every proper prefix of value, headers and body and every cut of it, no message completes |
| `HttpParser.FeedContentLength` | src/http_parser.c:1809-1881 | For every length value, body, further input and cut into calls, the body callbacks receive exactly the body, not a byte of what follows, and the message completes once |
| `HttpParser.FeedToEnd` | src/http_parser.c:1868-1872 | For every cut of a response without a length, every byte is body, and the message completes when the input ends and not before |
| `HttpMessages.NextRequest` | src/http_parser.c:2067-2083 | Section 6.3 of RFC 7230: after a request the next word is taken as a method if and only if the connection persists and the word is the name of that method; otherwise anything but line breaks is an error |
| `HttpMessages.AfterChunked` | src/http_parser.c:1874-1881 | The same after every chunked request |
| `HttpMessages.AfterLength` | src/http_parser.c:1831-1865 | The same after every request with a declared length |
| `HttpMessages.AfterUnframed` | src/http_parser.c:1657-1684 | The same after a request without a body, where the last header line itself may close or keep the connection |
| `HttpMessages.DeadRun` | src/http_parser.c:673-681 | Once the connection is to be closed, line breaks are let through and anything else is an error |
| `HttpMessages.UnframedEnd` | src/http_parser.c:1817-1825 | Section 3.3.3 of RFC 7230: without a length, a request or a response of status 1xx, 204 or 304 ends with its headers, any other response goes on to the end of the connection |
| `HttpMessages.UnframedResponse` | src/http_parser.c:2044-2063 | Such a response hands out every further byte and completes nothing |
| `HttpMessages.RequestForgets` | src/http_parser.c:916-925 | Nothing of an earlier message is left when a request begins: no flag and no length |
| `HttpMessages.BareLineFeed` | src/http_parser.c:1202-1222 | A bare line feed ends the headers as a carriage return and a line feed do |
| `HttpMessages.ProtocolChange` | src/http_parser.c:1745-1749 | The protocol changes after the headers if and only if the method is CONNECT or an upgrade is announced that the connection asks for |
| `HttpMessages.BlankFirstLine` | src/http_parser.c:1686-1700 | A length whose first line is blank goes on in an indented next line |
| `HttpMessages.EmptyValue` | src/http_parser.c:1693-1721 | If the next line is not indented, the header ends there like any other |
| `HttpMessages.FoldRefused` | src/http_parser.c:1657-1662 | A length that has begun cannot go on in an indented line |
| `HttpMessages.BadValueByte` | src/http_parser.c:1493-1521 | A control character in a length is refused as such unless the parser is lenient, any other bad byte as a bad length |
| `HttpMessages.HeaderLimit` | src/http_parser.c:664-669 | After 81920 counted header bytes the next one overflows the count; while two are left none does |
| `HttpMessages.DigitsAre` | src/http_parser.c:285-285 | The decimal digits and their values |
| `HttpMessages.HexDigitsAre` | src/http_parser.c:221-230 | The values of the hexadecimal digits in either case, and no other character |
| `HttpParser.FeedMethod` | src/http_parser.c:916-1005 | For every cut into calls, the first word, after any line breaks, is taken as method m if and only if it is the name of m |
| `HttpParser.TwoCuts` | src/http_parser.c:1964-1993 | Two cuts of one input leave the same parser, header count aside, and the same callbacks if and only if they lose equally many bytes |
| `HttpParser.CutShowsInError` | src/http_parser.c:1987-1993 | An instance: the last byte of a chunk before a broken chunk end is handed out if the end comes in a later call, and lost if it comes in the same call |
| `LruNodes.Node.UnlinkUse` | src/lru.h:155-158 | Taking a node out of the order of use leaves the circular list of the others, in order |
| `LruNodes.Node.LinkUse` | src/lru.h:160-165 | Linking before the end node appends to the circular list |
| `LruNodes.Node.UnlinkAge` | src/lru.h:216-221 | The same for the order of age |
| `LruNodes.Node.LinkAge` | src/lru.h:223-236 | The same for the order of age |
| `Lru.Lru.constructor` | src/lru.h:335-341 | An empty cache; a maximum size of 0 means no limit |
| `Lru.Lru.DoRenew` | src/lru.h:171-174 | Renewing moves a node to the end of the order of use and changes neither the order of age nor any expiration |
| `Lru.Lru.Detach` | src/lru.h:216-221 | Unlinking takes a node out of both lists and keeps both well formed |
| `Lru.Lru.Attach` | src/lru.h:223-236 | Linking appends to both lists and sets the expiration from the clock |
| `Lru.Lru.Clear` | src/lru.h:779-782 | Clearing leaves two lists of the end node alone and an empty table |
| `Lru.Lru.NextAlive` | src/lru.h:238-247 | Iteration by use stops at the next node that has not expired, skipping exactly the expired ones |
| `Lru.Lru.TrimByAge` | src/lru.h:689-715 | The age phase terminates and evicts the oldest entries, exactly as many as the limit and the first live entry determine |
| `Lru.Lru.TrimByRecency` | src/lru.h:717-743 | The recency phase terminates and evicts exactly the least recently used live entries beyond the limit |
| `Lru.Lru.TrimPhases` | src/lru.h:685-744 | Both phases together are the trim on values: with expiration the age phase decides everything and the recency phase evicts nothing; without it the recency phase decides. What is left keeps its place and expiration in both orders |
| `Lru.Lru.Trim` | src/lru.h:746-753 | The cache afterwards is the trimmed value. Without expiration the keys left are the most recently used within the limit; with it no entry expired at the sampled time is left and the age list stays sorted by expiration. The limit is met if and only if there is a maximum age or the entries live at the sampled time are at least as many as exceed it |
| `Lru.Lru.Emplace` | src/lru.h:344-382 | An entry is created if and only if the trim left none with its key or that one has expired. A created one has the given value and a fresh lifetime and is newest in both orders; a live one keeps its value, lifetime and place by age and becomes the most recently used; every other entry left by the trim keeps its place in both orders and its expiration. At most one entry over the limit if the trim met it |
| `Lru.Lru.FindAnd` | src/lru.h:412-435 | For every callback, the whole value of the cache: leave changes nothing, renew only the order of use, relink both orders and the expiration, evict removes exactly this entry |
| `Lru.Lru.Find` | src/lru.h:458-466 | Found if and only if present and not expired; a found entry becomes the most recent with its lifetime unchanged, an expired one is evicted; both orders of all other entries stay |
| `Lru.Lru.EraseKey` | src/lru.h:674-682 | The key is gone; the other entries keep their place in both orders, their values and expirations |
| `Lru.Lru.Remove` | src/lru.h:659-672 | Erasing an entry takes it out of the table and both orders, keeping the rest in place |
| `Lru.Lru.Refresh` | src/lru.h:121-124 | Relinking, with the usual timeout or its own, makes an entry newest in both orders with the new expiration and leaves the others in place |
| `Lru.RunOp` | src/lru.h:344-782 | One operation of a run keeps the lists and the table exact and is the reference operation on the value of the cache |
| `Lru.RunCache` | src/lru.h:344-782 | After any run of emplace, find, renew, relink with any timeout, erase, trim and clear, under any limit and maximum age, the lists and the table are exact and hold the entries of the reference run, in both orders with every expiration. If all entries have the same lifetime, the keys are those of the key run without expiration, and the age list is sorted by expiration with it |
| `Lru.Lru.Held` | src/lru.h:348-354 | The table finds a key if and only if the lists hold it, with the same value and expiration |
| `Lru.Lru.Place` | src/lru.h:346-367 | The part of emplace after the trim, with creation if and only if the key is missing or expired |
| `Lru.Lru.Create` | src/lru.h:349-352 | A new entry is last in both orders with the given value and a lifetime from the clock |
| `Lru.Lru.Touch` | src/lru.h:171-174 | Only the order of use changes, and in it only the place of this entry |
| `LruRuns.TrimmedSize` | src/lru.h:685-744 | A trim meets the limit if and only if entries have a maximum age or enough of them are live |
| `LruRuns.DropsEnough` | src/lru.h:689-715 | Each entry the age phase drops was, at its turn, over the limit or expired, and the first that stays was neither |
| `LruRuns.Lifetime` | src/lru.h:204-206 | A created entry is found up to and including its maximum age and not after; relinking gives it a new time, renewing does not |
| `LruRuns.TrimmedAlive` | src/lru.h:689-715 | A trim by age of a list sorted by expiration leaves no expired entry |
| `LruRuns.TrimmedMostRecent` | src/lru.h:689-715 | With a maximum age a trim keeps the most recently used entries if and only if the oldest entries, which it drops, are the least recently used ones |
| `LruRuns.TrimmedByUse` | src/lru.h:717-743 | Without a maximum age a trim keeps the most recently used entries up to the limit if and only if none of the others has expired |
| `LruRuns.NeverLive` | src/lru.h:717-743 | Entries that never expire are always live enough, so a trim of them meets the limit |
| `LruRuns.StaysOverLimit` | src/lru.h:717-743 | Two entries relinked for a short time: once both have expired, a trim leaves both in a cache of limit one |
| `LruRuns.DropsMostRecent` | src/lru.h:689-715 | Two entries of which the older was looked up last: a trim of a cache of limit one drops that one |
| `LruRuns.PlacedStays` | src/lru.h:346-367 | An emplacement after its trim leaves every other entry in its place in both orders with its expiration; the entry itself is new in both orders, or moved in the order of use alone |
| `LruRuns.RunNever` | src/lru.h:344-782 | Every run without expiration: the keys in order of use are those of the key run |
| `LruRuns.RunSorted` | src/lru.h:223-236 | Every run with one maximum age: the order of age is the order of expiration |
| `LruModel.RunCoherent` | src/lru.h:344-782 | Every run: both orders hold the same entries, each key once |
| `LruModel.RemovedTouched` | src/lru.h:674-682 | Looking a key up before removing it makes no difference |
| `LruKeys.EmplaceOps` | src/lru.h:374-382 | On runs of emplacements alone the two reference runs agree |
| `LruKeys.RecentMeans` | src/lru.h:746-753 | The reference order is by last use: every key of the trace once, ordered by its last position |
| `LruKeys.CacheHoldsMostRecent` | src/lru.h:374-382 | After any run of emplacements a cache of limit m holds the m most recently used distinct keys, and at most one more |
| `LruKeys.RunHoldsMostRecent` | src/lru.h:344-466 | The same after any run of emplacements, lookups, renewals, relinks and trims, over the keys used while held |
| `LruKeys.RunsNested` | src/lru.h:344-782 | After any run of all operations the keys of a smaller cache are those of a larger one with some taken out, in the same order |
| `LruKeys.Inclusion` | src/lru.h:344-782 | A larger cache holds everything a smaller one holds, on every run of all operations |
| `BaseXTables.OrdFinds` | src/base_x.hh:82-109 | Every alphabet and extension character, in either case if case is ignored, has its position as ordinal, whatever the translations |
| `BaseXTables.OrdUnknown` | src/base_x.hh:82-85 | A character in no list has the ordinal of the first extension character |
| `BaseXTables.Translated` | src/base_x.hh:112-129 | A character that a translation list mentions first, and that is not in the alphabet, reads as the last character before it that already had a reading, and is ignored if there is none |
| `BaseXTables.TranslatedTo` | src/base_x.hh:112-129 | In particular as the alphabet character before it, in either case if case is ignored, if only new characters are between them |
| `BaseXTables.IgnoredSkipped` | src/base_x.hh:279-281 | An ignored character among the data, before any padding, makes no difference |
| `BaseXTables.UnknownDigit` | src/base_x.hh:284-289 | Such a character among the data, before any padding, is always refused |
| `BaseXTables.UnknownCheck` | src/base_x.hh:310-339 | Such a character in the place of a check character is read as the first extension character, and refused if there is no extension |
| `BaseXTables.CrockfordAccepted` | src/base_x.hh:478-481 | The lists of the base-32 encoder with a check modulo 37 give every character one place |
| `BaseXTables.CrockfordLists` | src/base_x.hh:474-481 | The lists of the base-32 encoders |
| `BaseXTables.CrockfordOrds` | src/base_x.hh:474-481 | "O" and "o" have the ordinal of "0", "I", "L", "i" and "l" that of "1", and "-" is ignored |
| `BaseXTables.CrockfordReads` | src/base_x.hh:474-481 | Those encoders decode "O" as "0" and "I" and "L" as "1", in either case, and read over "-" |
| `BaseXTables.UnknownAccepted` | src/base_x.hh:478-481 | That encoder reads "10!" as 32, although "!" is in none of its lists |
| `BaseXTables.CrockfordDetects` | src/base_x.hh:478-481 | That encoder notices every replaced digit |
| `BaseX.BaseX.constructor` | src/base_x.hh:67-130 | The loops fill the two tables as specified, for any lists that fit; lists that give every character one place make tables that belong together |
| `BaseXDigits.WindowDigit` | src/base_x.hh:155-162 | A digit of the number is the digit at the same place in the 64-bit window over two half digits |
| `BaseX.BaseX.ShiftDigits` | src/base_x.hh:149-171 | The shift-register path produces digits whose value is the number |
| `BaseX.BaseX.DivideDigits` | src/base_x.hh:175-187 | The division path produces the digits of repeated division |
| `BaseX.BaseX.Shrink` | src/base_x.hh:172-174 | Dropping trailing zero characters drops exactly the leading zero digits |
| `BaseX.BaseX.AddChecksum` | src/base_x.hh:199-205 | The character appended is the checksum digit of what precedes it |
| `BaseX.BaseX.Encode` | src/base_x.hh:134-209 | Both paths give the same string: digits of the number, check digit, checksum digit |
| `BaseX.BaseX.Decode` | src/base_x.hh:266-340 | The reading loop, the padding loop and the two checks compute the specified result, errors included |
| `BaseXCodec.ChecksumSumsUp` | src/base_x.hh:199-205 | A string with its checksum digit sums to a multiple of the size |
| `BaseXCodec.RoundTrip` | src/base_x.hh:134-340 | Decoding undoes encoding for every number and encoder, except, exactly, zero under both checks, which encodes to one character only |
| `BaseXDamage.DecodeFits` | src/base_x.hh:266-340 | What the decoder accepts, read off the string without its loops, and the number it then returns |
| `BaseXDamage.DecodeByOrdinal` | src/base_x.hh:266-340 | Strings whose characters have equal ordinals decode alike |
| `BaseXDamage.SubstitutionDetected` | src/base_x.hh:328-339 | Under a checksum, with or without a check digit, any one character replaced by one of another ordinal makes the string refused |
| `BaseXDamage.ZeroInsertion` | src/base_x.hh:328-339 | A zero digit inserted before the checksum is accepted if and only if the size is 2, the digit count is odd and, under a check digit, the number keeps its parity; never for a size of 3 or more |
| `BaseXDamage.CheckSubstitution` | src/base_x.hh:310-321 | Under a check digit alone, a replaced digit is accepted if and only if the size divides the difference times the weight of its place |
| `BaseXDamage.CheckDigitReplaced` | src/base_x.hh:310-321 | A check digit replaced by one of another ordinal makes the string refused |
| `BaseXDamage.CheckDetectsAll` | src/base_x.hh:310-321 | If the base has an inverse modulo the size, a check digit alone notices every replaced digit |
| `Debouncer.Task.Clear` | src/scheduler.h:85-88 | Clearing reports whether the task was still to be run |
| `Debouncer.Debouncer.constructor` | src/debouncer.h:64-78 | A debouncer with an accepted configuration waits for nothing |
| `Debouncer.Debouncer.Replace` | src/debouncer.h:243-262 | The task held for a key is cleared and a new one queued in its place; nothing else changes, and the uncleared tasks are again those held |
| `Debouncer.Debouncer.Release` | src/debouncer.h:146-150 | Nothing waits for the key any more |
| `Debouncer.Debouncer.Throttle` | src/debouncer.h:155-187 | After an execution the key is released, or held by a throttler for the throttle time |
| `Debouncer.Debouncer.Take` | src/scheduler.h:401-410 | Of the scheduler and a replacement, exactly one gets a task |
| `Debouncer.Debouncer.Fire` | src/debouncer.h:130-141 | A task that was cleared does nothing; any other is the one step the history records, and the state is what the history leaves |
| `Debouncer.Debouncer.Plan` | src/debouncer.h:210-254 | The times computed, and whether the waiting task is kept, are those of the specification |
| `Debouncer.Debouncer.DelayedDebounce` | src/debouncer.h:204-263 | A call is the one step the history records, and the state is what the history leaves; the tasks that may still run are exactly those of the statuses |
| `Debouncer.Debouncer.Apart` | src/debouncer.h:130-263 | In every state the object can reach, executions for one key have been kept apart by the throttle time |
| `DebouncerRuns.Explained` | src/debouncer.h:155-263 | In every run, what waits for a key is explained by the calls since its last execution: the forced deadline of the first, a wakeup time that is the largest of the times asked for and the end of the throttle window, and the arguments of the call that set it. Without such calls a throttler waits if and only if the throttle time exceeds the debounce time and the window has not been ended |
| `DebouncerRuns.ThrottleSafety` | src/debouncer.h:155-187 | In every run, under every accepted configuration, two executions for one key are at least the throttle time apart |
| `DebouncerRuns.DeferralBound` | src/debouncer.h:210-262 | A function waits exactly when a call came since the last execution; it wakes no later than the later of the forced deadline and the end of the throttle window, and not before the first call's timeout |
| `DebouncerRuns.RunsWithOwnCall` | src/debouncer.h:251-259 | The function always runs with the arguments of a call made since it last ran |
| `DebouncerRuns.NeverHastened` | src/debouncer.h:249-254 | Until it runs, no step makes a waiting function wake earlier, and its deadline stays |
| `Calendar.ToOrdinal` | src/datetime.cc:1270-1279 | An ordinal exists exactly for the valid dates, and is positive |
| `Calendar.YearStep` | src/datetime.cc:1206-1209 | The closed formula for the start of a year grows by 365 or 366 days, by the leap-year rule |
| `Calendar.MonthStep` | src/datetime.cc:47-56 | The two month tables agree with each other and with the length of the year |
| `Calendar.MonthLengths` | src/datetime.cc:47-56 | April, June, September and November have 30 days, February 28 or 29, the others 31 |
| `Calendar.Increasing` | src/datetime.cc:1270-1279 | A later date has a larger number, in every year |
| `Calendar.NextDayNumber` | src/datetime.cc:1270-1279 | The next calendar day has the next number, across months, years and leap days |
| `Calendar.WalkedNumber` | src/datetime.cc:1270-1279 | Walking n days, forwards or backwards, changes the number by n |
| `Calendar.DateOfNumber` | src/datetime.cc:1270-1279 | Walking n days from January 1 of year 1 reaches the date with that number, in both directions |
| `Calendar.OrdinalBijection` | src/datetime.cc:1270-1279 | Ordinals are a strictly increasing bijection from the valid dates onto the positive integers, and the next day has the next ordinal |
| `DateMath.FromSecondsProper` | src/datetime.cc:1324-1334 | Every second has a normalised date-time, which counts that many seconds |
| `DateMath.SecondsRoundTrip` | src/datetime.cc:1306-1318 | A normalised date-time comes back from its seconds |
| `DateMath.TimegmInjective` | src/datetime.cc:1306-1318 | Two normalised date-times with the same seconds and fraction are equal |
| `DateMath.EpochNumber` | src/datetime.h:37-39 | The number of January 1, 1970 is the epoch ordinal |
| `DateMath.TimegmCounts` | src/datetime.cc:1306-1318 | A date reached by walking n days from January 1, 1970, forwards or backwards, has n times 86400 seconds and those of its time of day |
| `DateMath.EpochWalk` | src/datetime.cc:1306-1318 | Every date is reached by such a walk, of as many days as its seconds say |
| `DateMath.WeekDays` | src/datetime.cc:1120-1136 | Days of the week follow one another, and the day of second 0 is a Thursday |
| `DateMath.NormalizedMonths` | src/datetime.cc:1248-1260 | Normalising keeps 12 * year + month; it leaves month 0 if and only if the month was a multiple of 12 beyond 12 |
| `DateMath.Tm.NormalizeMonths` | src/datetime.cc:1248-1260 | The loop computes that normalisation in place |
| `DateMath.Tm.ToSeconds` | src/datetime.cc:1306-1318 | The seconds, or the error for a year before 1 or a month 0, with the months normalised in place |
| `DateMath.Tm.ComputeDateMath` | src/datetime.cc:1025-1199 | The whole operation in place is the specified one, including when it throws |
| `DateMath.Shifts` | src/datetime.cc:1030-1090 | `+n` and `-n` weeks, days, hours, minutes or seconds move the instant by exactly n units |
| `DateMath.ShiftUndone` | src/datetime.cc:1030-1090 | The opposite shift gives the date-time back if and only if the shifted instant is not before the first second of year 1; otherwise it throws |
| `DateMath.MonthShift` | src/datetime.cc:1038-1044 | A shift by months moves 12 * year + month by n and clamps the day; it throws exactly for a sum that is a multiple of 12 beyond 12, or before year 1 |
| `DateMath.DecemberThrows` | src/datetime.cc:1038-1044 | January of any year and 23 months throws |
| `DateMath.YearShift` | src/datetime.cc:1036-1037 | A shift by years keeps everything else, except that February 29 becomes March 1 in a year without one; it throws exactly before year 1 |
| `DateMath.RoundingBounds` | src/datetime.cc:1091-1187 | For every unit, an instant lies between `//u` and `/u` if and only if it falls in the same year, month, week, day, hour, minute or second |
| `DateMath.RoundingEncloses` | src/datetime.cc:1091-1187 | The instant lies between its two roundings, which fall in its unit |
| `DateMath.RoundingAgrees` | src/datetime.cc:1091-1187 | All instants of a unit round to the same two instants |
| `DateMath.RoundingIdempotent` | src/datetime.cc:1091-1187 | Rounding again, either way, is rounding once, except, exactly, that `//w` on the six days of year 1 before its first Sunday leads to a date on which the next operation throws |
| `DateMath.DownYear` | src/datetime.cc:1120-1136 | `//u` leaves year 1 if and only if the unit is a week and the date is one of those six days |
| `DateMath.FirstOfJanuary` | src/datetime.cc:1091-1187 | January 1 of year 1 is such a date, and a day subtracted there cannot be added back |
| `Shards.EnoughUnused` | src/index_resolver_lru.cc:130-138 | Among the nodes after the primary there are always enough unused ones, even if the primary is not a node |
| `Shards.NextReplica` | src/index_resolver_lru.cc:130-138 | The search terminates with its index below twice the number of nodes, and adds the next unused node of the ring |
| `Shards.Grow` | src/index_resolver_lru.cc:113-141 | The list grows by the first unused nodes after the primary, in ring order |
| `Shards.SettledMeans` | src/index_resolver_lru.cc:102-148 | A settled list has the wanted length, keeps the old names as a prefix or is cut, and gains nodes that are new and different from each other |
| `Shards.SettledSize` | src/index_resolver_lru.cc:102-148 | A list has the wanted length afterwards, and changes if and only if it had another |
| `Shards.LowerMeans` | src/strings.hh:276-287 | Two names are the same node if and only if they differ at most in the case of letters |
| `Shards.Chosen` | src/index_resolver_lru.cc:130-138 | A node becomes a replica if and only if it is unused and the unused nodes before it in ring order leave room |
| `Shards.FirstNodeChosen` | src/index_resolver_lru.cc:121-138 | The first node of the list becomes a replica if and only if the primary is a known node, the first node is unused and the nodes after the primary leave room |
| `Shards.IndexSettings.SettleReplicas` | src/index_resolver_lru.cc:102-148 | Every list has the smaller of the requested number and the number of nodes afterwards; a shard is marked modified if and only if it was or its list changed, and the settings stay saved if and only if no list changed |
| `Shards.CountDealt` | src/index_resolver_lru.cc:161-170 | The load of a node is a difference of two quotients |
| `Shards.Balanced` | src/index_resolver_lru.cc:161-170 | The loads of two nodes differ by one at most |
| `Shards.CalculateShards` | src/index_resolver_lru.cc:152-174 | One node per shard, dealt backwards around the ring without underflow, loads differing by one at most; nothing without nodes |
| `JumpHash.LeapForward` | src/hashes.hh:371-377 | Every leap goes forward and fits 64 bits, under any monotone rounding |
| `JumpHash.ExactLeap` | src/hashes.hh:372-376 | In exact arithmetic the walk leaves bucket b for one past n if and only if (r + 1) * n <= (b + 1) * 2^31, with r the upper 31 bits of the updated key |
| `JumpHash.NearLeap` | src/hashes.hh:372-376 | In double arithmetic the same if the two sides, of up to 2^62, differ by 2^11 or more |
| `JumpHash.LeavingShare` | src/hashes.hh:372-376 | Of the 2^31 values of the upper bits exactly the first (b + 1) * 2^31 / n leave, and the others stay |
| `JumpHash.StaysOrLeaves` | src/hashes.hh:371-378 | In exact arithmetic a key that has come to bucket b is assigned to it among n buckets if it leaves, and walks on below n otherwise |
| `JumpHash.KeysOneToOne` | src/hashes.hh:373-373 | The update of the key is a bijection of the 64-bit keys |
| `JumpHash.JumpConsistentHash` | src/hashes.hh:364-380 | The loop terminates with the last bucket below the limit that the key's walk visits |
| `JumpHash.MinimalMovement` | src/hashes.hh:364-380 | With more buckets a key stays or moves to a new bucket; with one more, it stays or moves to that one |
| `JumpHash.BucketUnique` | src/hashes.hh:364-380 | Key and number of buckets determine the bucket |
| `JumpHash.SlashesDoNotMatter` | src/hashes.hh:382-393 | Paths that differ only in slashes have the same hash |
| `JumpHash.MixOneToOne` | src/hashes.hh:389-389 | Mixing in a byte is one-to-one in the byte and in the hash before it |
| `JumpHash.OneByteMatters` | src/hashes.hh:386-391 | Paths that differ in one character other than a slash have different hashes |
| `JumpHash.HashOfA` | src/hashes.hh:385-391 | The published value of FNV-1a in 64 bits for "a" |
| `JumpHash.JumpConsistentHashPath` | src/hashes.hh:382-393 | Paths that differ only in slashes share a bucket |
| `Length.SerialiseLength` | src/length.cc:39-61 | The loop writes the specified code |
| `Length.UnserialiseLength` | src/length.cc:63-85 | The loop reads the specified code, with its two errors and the bits it drops |
| `Length.LengthRoundTrip` | src/length.cc:39-85 | Every 64-bit length comes back, whatever bytes follow, and exactly its bytes are consumed |
| `Length.LengthFormat` | src/length.cc:39-61 | The format: one byte below 255, else 255 and minimal groups of seven bits, lowest first, whose value is the length less 255, the last marked by its high bit |
| `Length.DecodeMeans` | src/length.cc:63-85 | Any bytes after 255: the groups up to the first marked one are read, in 64 bits, if it is among the next ten bytes, and otherwise they are refused |
| `Length.StringRoundTrip` | src/length.cc:152-176 | The same for every string |
| `Length.StringAtRoundTrip` | src/length.cc:297-333 | From serialised strings the one asked for comes back, with the position after it, or the empty string past the end |
| `Length.SerialiseStrings` | src/length.cc:297-305 | The loop concatenates the codes |
| `Length.UnserialiseStringAt` | src/length.cc:308-333 | The loop computes the specified string and position, or the error |
| `LengthReader.HeaderInPrefix` | src/length.cc:190-210 | A header takes at most eleven bytes, and a prefix decodes alike if and only if it holds the whole header |
| `LengthReader.HeaderSize` | src/length.cc:39-61 | The header of a string shorter than 2^63 takes at most ten bytes |
| `LengthReader.ElevenBytes` | src/length.cc:39-61 | A header takes eleven bytes if and only if the length is at least 2^63 + 255 |
| `LengthReader.Reader.ReadLength` | src/length.cc:190-210 | The buffered reader agrees with the in-memory decoder on all that is unread, except exactly on an eleven-byte header of which ten bytes are buffered |
| `LengthReader.Reader.ReadString` | src/length.cc:223-258 | The buffered reader returns the string the in-memory decoder finds in what is unread, and leaves the rest; bytes taken from the file are counted |
| `LengthReader.ReadStrings` | src/length.cc:223-258 | Strings shorter than 2^63 come back in order, however they are spread over buffer and file |
| `NormalizePath.SplitMeans` | src/fs.cc:389-440 | The components hold no slash and joined by slashes are the text |
| `NormalizePath.HoldsSlash` | src/fs.cc:400-408 | Backing up over the buffer at a slash is entering a component on the stack: skipped, removing k - 1 others, or kept |
| `NormalizePath.BackUp` | src/fs.cc:401-405 | The inner loop never backs over the first character |
| `NormalizePath.NormalizeInto` | src/fs.cc:389-429 | At most one byte more than the source is written; on an absolute path the text is the fold over its components |
| `NormalizePath.Normalize` | src/fs.cc:432-440 | The same for the string form |
| `NormalizePath.Idempotent` | src/fs.cc:389-440 | Normalising an absolute path again changes nothing, and the last choice about the final slash is the one that shows |
| `NormalizePath.SlashAndDot` | src/fs.cc:389-429 | On an absolute path a further slash and a single dot make no difference |
| `NormalizePath.TwoDots` | src/fs.cc:400-408 | Two dots take back the component before them, and nothing at the root |
| `NormalizePath.MoreDots` | src/fs.cc:400-408 | Every further dot takes back one more |
| `NormalizePath.AlreadyNormal` | src/fs.cc:389-429 | A path of components that stay is normal already |
| `NormalizePath.FinalSlash` | src/fs.cc:420-428 | A normal path is the root, or ends in a slash if and only if that was asked for |

## Left out

- The HTTP parser's URL, header names, other header values, responses, upgrade, pausing, failing callbacks and the vectorised line search: reaching one of these leads to the state `Beyond`, of which nothing is claimed.
- HttpParser.Parser.ExecuteAll: claims nothing where byte-at-a-time reading overflows the header count, because that count depends on where a header value is cut.
- HttpFraming.ChunkedRun: trailer fields are not in the encoded form.
- HttpFraming.AfterMessage: further input is followed as far as the request line of the next message; from its URL on it is in the state `Beyond`.
- HttpFraming.LengthDigits: the header count is bounded as for one byte per call, where each byte of a value counts twice.
- HttpFraming.LengthExact: the same bound on the header count.
- HttpMessages.AfterLength: the same bound on the header count.
- HttpFraming.ContentLengthRun: the header count is bounded as for one byte per call, where each byte of a value counts twice; values this long that come in larger pieces are not covered.
- HttpParser.FeedContentLength: the same bound on the header count; further input is followed as far as the URL of the next request, and does not overflow the count.
- HttpParser.FeedChunked: further input is followed as far as the URL of the next request, and does not overflow the count.
- HttpParser.FeedPartOfLength: the same bound on the header count.
- Trimming with policies other than the default, const lookups, `at`, `get`, and the value returned by `erase`.
- Lru.Lru.EraseKey: does not state the returned count, which depends on the hash table's order.
- Lru.RunCache: sorted expirations are claimed for runs in which every entry has the same lifetime, as a timeout of its own can unsort the list.
- Block padding and padding strings in BaseX, and the conversion of byte strings to numbers; the digit sum is unbounded where the source uses an `int`.
- BaseX.BaseX.Decode: the shifting and the multiplying loop are one loop, since joining a digit by shifting equals multiplying by the base.
- BaseXDamage.DecodeFits: about strings without null characters, as all encodings are; after one the source reads the check characters from elsewhere.
- BaseX.BaseX.Decode: takes strings that hold at least the check characters; on shorter ones the source's counter underflows.
- JumpHash.NearLeap: closer than 2^11 to the boundary, the rounding decides and nothing is claimed.
- Data races in the debouncer between a firing and a concurrent call.
- The text of a date-math expression: operators and units come parsed, and counts are unbounded where the source uses 32 bits.
- Fractional seconds order instants within a second; `timestamp` subtracts them before 1970, which is not modelled. Time-of-day conversion and input formats are left out.
- Index settings other than shards and replicas, `update_primary`, and the case where `total_nodes` differs from the list of nodes.
- LengthReader.Reader.ReadString: claims nothing for lengths of 2^63 or more, which the source turns negative.
- Length.UnserialiseStringAt: the counter is unbounded where the source's wraps around at 2^64.
- Read and write errors of files, and the boolean and character codes.
- NormalizePath.NormalizeInto: on relative paths only the bound on the length is claimed; `keep_slash` is left out.
- NormalizePath.Normalize: on relative paths only the bound on the length is claimed.
- Everything else in the repository: database access, cluster, compressors, logging, queues, and other parsers.
