# A verified model of the chat server's protocol and text libraries

The server links a Redis client (hiredis), a JSON library (rapidjson with StaticJSON on
top) and a byte queue of its own. This project models the parts of those where the
behaviour is intricate, and proves what they are relied on for. One Dafny module stands
for one component; a C struct or C++ class that is updated in place is a Dafny class with
the same fields, and its methods are proved against functions over byte strings, maps or
trees about which the laws are then proved.

| modules | component | main results |
|---|---|---|
| `Decimal` | strict integer text | the reader accepts exactly what the writer prints |
| `RespGrammar`, `RespWire`, `RespMachine`, `RespWindow`, `RespReader` | the RESP2/RESP3 reply reader | every wire form, by its character; the task-stack reader computes a recursive grammar; how a stream is cut does not matter; printing and reading are inverse exactly when no nil, boolean or double is directly in a push and no aggregate has more than 2^31 elements; all that exactly as long as the reader, which searches for line ends in C's `int`, has not stopped before one it does not see |
| `Sds`, `SdsQuote`, `CommandFormat` | dynamic strings and the command printer | header widths always hold the length; predicted command length is exact; both formatters emit the same bytes; quoting and splitting are inverse, and every way to write an argument is split into what it means; pipelined commands read back, however the bytes are cut |
| `Dict` | chained hash table | a run of calls, of any length, answers as a finite map, exactly when no call puts a new key whose bucket number does not fit `int`; an iterator meets each entry once, although entries are deleted under it, exactly when the table is empty or has at most 2^30 buckets |
| `AsyncContext` | callback queue | which commands a run takes and which replies it consumes, as a function of its events; the i-th command taken gets the i-th reply, the rest get NULL once, whatever callbacks do; exactly when a read frees the context |
| `Utf` | UTF-8 and UTF-16 codecs | acceptance is the RFC 3629 grammar; decoding and encoding are inverse, and keep the order of characters; so is transcoding, exactly on valid text, either way |
| `PointerText`, `PointerRfc`, `PointerTree` | JSON Pointer (RFC 6901) | text round trips in both forms; both forms are read and written as the RFC says, or exactly when not; create, get and set laws, and what they leave as it was |
| `StringBuffer`, `JsonValue`, `JsonWriter`, `JsonText`, `JsonGrammar`, `JsonLayout` | compact and pretty writers over a memory buffer | pretty output is compact output plus whitespace; what either writes, whitespace and all, is read back by a reader of RFC 8259 that shares nothing with them; the pretty text is the compact one rewritten by a rule on its characters; exactly when a string's literal has the room it was promised |
| `JsonRebuild` | number flags and two tree builders | both stack machines rebuild the value that was sent |
| `PoolAllocator`, `PoolRuns` | bump allocator | for every size, exactly when the answer is a block of its own; over every run the blocks are separate arrays that keep their contents; they are aligned exactly when the user's buffer is |
| `RingBuffer` | the server's byte queue | the contiguous front is a bounded FIFO over every run, and stays inside its allocation exactly when that is not smaller than the configured size |

Things the proofs show about the code that its documentation does not say:

- A push message with a nil, boolean or double directly inside it stops the reply reader,
  and so does an aggregate of more than 2^31 elements, whose places `int` cannot number
  (`RespGrammar.RoundTrip`, `RespGrammar.NilInPushIsRefused`,
  `RespGrammar.LongArrayIsRefused`).
- The reply reader looks for a line end among so many bytes as their number, converted to
  `int`, says. A bulk string of 2^31 bytes is never handed over
  (`RespWindow.LongBulkIsOverlooked`, with the exact condition in
  `RespWindow.BulkFoundIff`), and above that limit the way a stream is cut matters
  (`RespWindow.CuttingMatters`).
- The hash table numbers buckets with `int`. After 2^31 entries a new key that hashes to
  the upper half is refused although it is absent, or would be linked before the table
  (`Dict.LateKeyIsLost`).
- The iterator of the hash table compares with the size cast to `int`, so it returns no
  entry at all from 2^31 buckets on, one doubling before the table's own limit
  (`Dict.VisitAll`).
- A JSON Pointer token whose number exceeds 32 bits gets an array index when the
  conversion wraps to a larger number at every step (`PointerText.IndexContract` has the
  exact condition, `PointerText.LargeIndexWraps` an example).
- A request to free an asynchronous context that a push callback makes is not looked at
  until an in-band reply with a callback function has been served
  (`AsyncContext.PushesFreeIff`, `AsyncContext.FreeFromPushWaits`).
- What the JSON writers reserve for a string is computed in 32 bits; from 715827883 bytes
  on it does not cover every string of that length (`JsonWriter.ReservationIff`,
  `JsonWriter.ShortReservation`).
- An empty pointer text of given length is refused when the bytes behind it are a `#` and
  no `/` (`PointerText.Pointer.Parse`).
- In a URI fragment an encoded solidus does not separate tokens and an encoded digit behind a
  tilde is refused, although RFC 6901 decodes first (`PointerRfc.DecodesFirstIff`,
  `PointerRfc.EncodedSolidus`).
- A string between apostrophes cannot end in a backslash (`SdsQuote.ApostrophesIff`).
- A URI fragment can be written for a pointer exactly when its names are UTF-8
  (`PointerText.UriRoundTrip`); after Create, Get finds the node exactly when no token `-`
  met an array (`PointerTree.GetAfterCreate`).
- The ring buffer holds eleven times the configured size only while that product fits 32
  bits (`RingBuffer.ElevenfoldIff`). It leaves its allocation on some run exactly when the
  wrapped product is smaller than the configured size (`RingBuffer.StaysInsideIff`,
  `RingBuffer.WrappedSize`).
- The pool allocator answers sizes for which one of its additions wraps with an address
  that is not a block of that size (`PoolAllocator.MallocIff`, `PoolAllocator.ReallocIff`,
  `PoolAllocator.WrappedSizes`). Its blocks are unaligned in some run exactly when the
  user's buffer is unaligned and has room for a block (`PoolRuns.AlignedIff`).

Assumptions, stated as preconditions or parameters: allocation succeeds unless a parameter
says otherwise; `size_t` and `unsigned long` have 64 bits and `int` 32; C assertions are
enabled (where they are compiled out, a nil in a push is stored like any element, and the
asynchronous context goes on where `aborted` stops it); the C locale decides what is
printable and what is a space; whether a text is a double is an arbitrary function; what
an asynchronous callback calls back is an arbitrary list of calls; the pool's base
allocator is any function that returns unused aligned areas.

## Model

| member | source | states |
|---|---|---|
| Decimal.ReadLLInvertsDec | ThirdParty/hiredis/read.c:151-162 | a text is accepted with value v if and only if v is in the signed 64-bit range and the text is what v prints as |
| Decimal.ReadLLAccepts | ThirdParty/hiredis/read.c:154-162 | accepted texts are exactly the canonical decimal texts of 64-bit values |
| Decimal.String2ll | ThirdParty/hiredis/read.c:163-224 | the loop gives that verdict and value for every byte string, and its unsigned accumulator never wraps unnoticed |
| Decimal.CountDigits | ThirdParty/hiredis/hiredis.c:287-297 | the number counted is the length of the decimal text |
| Decimal.Ll2str | ThirdParty/hiredis/sds.c:430-460 | for every 64-bit value, the minimum included, the text is its decimal form, fits 21 bytes with its terminator, and reads back as the value |
| Decimal.Ull2str | ThirdParty/hiredis/sds.c:463-489 | the same text and bound for unsigned values |
| Decimal.DecFits64 | ThirdParty/hiredis/sds.c:430 | 20 digits are enough for any unsigned and 19 for any signed magnitude |
| RespGrammar.RoundTrip | ThirdParty/hiredis/hiredis.c:249-283 | in the protocol's grammar, for every printable reply tree, reading its text gives exactly that tree and leaves exactly what follows, if and only if no nil, boolean or double sits directly in a push and no aggregate has more than 2^31 elements; otherwise the fault of the first of these (what the reader's search window adds is in RespWindow.PrintedFoundIff) |
| RespGrammar.RefusalIff | ThirdParty/hiredis/read.c:241-267 | nothing in a reply stops the reader if and only if no nil, boolean or double sits directly in a push and every aggregate can be numbered by an int |
| RespGrammar.LongArrayIsRefused | ThirdParty/hiredis/read.c:258-264 | an array of 2^31 + 1 integers is within the element limit and yet not read |
| RespGrammar.RoundTripMany | ThirdParty/hiredis/read.c:449-526 | the same for the elements of an aggregate, none skipped or read twice |
| RespGrammar.NilInPushIsRefused | ThirdParty/hiredis/hiredis.c:249-264 | a push holding one nil is printable yet refused |
| RespGrammar.EncodeAppend | ThirdParty/hiredis/read.c:688-739 | a printed reply is a prefix that does not depend on what follows it |
| RespWire.TextForms | ThirdParty/hiredis/read.c:330-335 | lines after + and - are status and error texts |
| RespWire.ScalarForms | ThirdParty/hiredis/read.c:288-328 | lines after _, # and , are nil, a boolean and a double of at most 325 bytes, none of them directly in a push |
| RespWire.IntegerForms | ThirdParty/hiredis/read.c:276-286 | a line after : is a 64-bit integer, or refused |
| RespWire.BulkForms | ThirdParty/hiredis/read.c:351-421 | the length after $ or = gives a nil, a wait, a string, a verbatim string with its type, or a fault |
| RespWire.CountForms | ThirdParty/hiredis/read.c:449-526 | the count after *, %, ~ or > gives a nil, an aggregate of that many elements, twice as many in a map, or a fault |
| RespWire.OtherForms | ThirdParty/hiredis/read.c:532-577 | every other byte is refused, and without a line end nothing is made |
| RespWire.Digits | ThirdParty/hiredis/hiredis.c:287-297 | decimal digits by their characters |
| RespWire.Negative | ThirdParty/hiredis/sds.c:430-460 | a negative number is a minus sign and its digits |
| RespMachine.StepStable | ThirdParty/hiredis/read.c:351-421 | an item that can be read is read the same way, with the same rest, when more bytes are waiting |
| RespMachine.RunSplit | ThirdParty/hiredis/read.c:688-739 | reading x and later y is reading x followed by y |
| RespMachine.ChunkIndependence | ThirdParty/hiredis/read.c:657-739 | for the machine that sees all bytes in hand, every way of cutting a stream, drained after each piece, gives the replies and the final state or error of the whole stream (for the reader's own search see RespWindow.PiecesFoundIff) |
| RespMachine.MachineReadsReply | ThirdParty/hiredis/read.c:241-267 | at any nesting, the explicit stack waits, fails, or hands on the reply exactly as the recursive grammar does |
| RespMachine.MachineReadsMany | ThirdParty/hiredis/read.c:449-526 | the same for the remaining elements of an open aggregate |
| RespMachine.MachineRefinesGrammar | ThirdParty/hiredis/read.c:528-603 | from a fresh stack the machine reports the grammar's next reply, fault or need for more |
| RespMachine.ReadsBackAll | ThirdParty/hiredis/read.c:688-739 | printed replies come back one by one with nothing left over |
| RespWindow.FoundIff | ThirdParty/hiredis/read.c:125-149 | seekNewline finds the first line end if and only if there is none or it lies before the end of the converted length; up to 2^31 bytes it always does |
| RespWindow.PiecesFoundIff | ThirdParty/hiredis/read.c:657-739 | fed in any pieces, the reader gives the replies and the end of the whole stream if and only if it has not stopped before a line end it does not see; otherwise it gives the first replies, and the rest is still in its bytes |
| RespWindow.RunFoundIff | ThirdParty/hiredis/read.c:688-739 | what can be read of the bytes in hand is read if and only if the protocol's own run over them passes no line end outside the converted length |
| RespWindow.NeverBehindIff | ThirdParty/hiredis/read.c:657-739 | after every piece the reader has given all that the bytes so far determine, if and only if no piece moves a line end out of the converted length |
| RespWindow.FittingPiecesFound | ThirdParty/hiredis/read.c:657-739 | it does so whenever no piece makes the unread bytes more than 2^31 |
| RespWindow.PrintedFoundIff | ThirdParty/hiredis/read.c:688-739 | the printed text of any replies, in any pieces, comes back as those replies and leaves the reader as new, if and only if none is refused by the grammar and the reader has not stopped before a line end |
| RespWindow.PrintedFits | ThirdParty/hiredis/read.c:657-739 | text in pieces that have at most 2^31 bytes together with any of the replies never makes more unread |
| RespWindow.BulkFoundIff | ThirdParty/hiredis/read.c:351-421 | a bulk string of any length, in any pieces, is handed over if and only if the end of its length line is inside the converted length of its whole text |
| RespWindow.LongBulkIsOverlooked | ThirdParty/hiredis/read.c:125-149 | a bulk string of 2^31 bytes is well formed and never handed over, however it is cut |
| RespWindow.CuttingMatters | ThirdParty/hiredis/read.c:125-149 | an integer is handed over when it comes alone and not when 2^31 bytes come with it |
| RespReader.Reader.Feed | ThirdParty/hiredis/read.c:657-686 | bytes are appended to what is unread; after an error nothing changes |
| RespReader.Reader.SeekNewline | ThirdParty/hiredis/read.c:125-149 | the loop finds the first CR LF pair within the converted length, or reports that there is none; its int counters never overflow |
| RespReader.Reader.Create | ThirdParty/hiredis/hiredis.c:121-283 | the new object is put in the current slot of its parent, so that the open aggregates still form one chain and no filled slot changes |
| RespReader.Reader.MoveToNextTask | ThirdParty/hiredis/read.c:241-267 | closes exactly the aggregates the finished object completes and leaves the next slot of the innermost open one as the task, or the finished root; fails exactly when the number of that slot would overflow |
| RespReader.Reader.ProcessLineItem | ThirdParty/hiredis/read.c:269-349 | one line item: what the reader will report in all is unchanged, and bytes were consumed, or there is a fault, or the line is incomplete |
| RespReader.Reader.ProcessBulkItem | ThirdParty/hiredis/read.c:351-421 | the same for bulk and verbatim strings, whose header may be read again |
| RespReader.Reader.ProcessAggregateItem | ThirdParty/hiredis/read.c:449-526 | the same for arrays, maps, sets and pushes of any depth |
| RespReader.Reader.Grow | ThirdParty/hiredis/read.c:423-446 | more tasks, none of the open ones disturbed |
| RespReader.Reader.ProcessItem | ThirdParty/hiredis/read.c:528-603 | the same for any item; a type byte that was already taken is not needed again |
| RespReader.Reader.SetError | ThirdParty/hiredis/read.c:53-75 | the first fault is kept and is all that will ever be reported |
| RespReader.Reader.Discard | ThirdParty/hiredis/read.c:720-727 | dropping consumed bytes changes nothing that is still to be read |
| RespReader.Reader.GetReply | ThirdParty/hiredis/read.c:688-739 | hands over the next reply that the machine with the reader's search finds, or reports the fault, or that it waits and in which state |
| RespReader.Reader.Drain | ThirdParty/hiredis/read.c:688-739 | taking every reply gives exactly what that machine finds in the bytes in hand |
| RespReader.Reader.ReadPieces | ThirdParty/hiredis/read.c:657-739 | feeding piece by piece and draining after each gives what that machine finds, which is the replies and the final error or waiting state of the concatenation if and only if the reader has not stopped before a line end it does not see, as always when no piece moves one out of the converted length |
| RespReader.BuiltKept | ThirdParty/hiredis/hiredis.c:169-195 | linking into an unfinished object leaves every finished reply tree as it was |
| Sds.String.MakeRoomFor | ThirdParty/hiredis/sds.c:196-239 | room for the asked bytes, same length and contents, and a header type whose fields hold both length and capacity |
| Sds.String.SetLen | ThirdParty/hiredis/sds.h:134-156 | the field keeps the length when its width allows, else the truncated value |
| Sds.String.IncLen | ThirdParty/hiredis/sds.h:158-181 | the same for an increment |
| Sds.String.SetAlloc | ThirdParty/hiredis/sds.h:201-220 | the same for the capacity; a type 5 header keeps none |
| Sds.String.CatLen | ThirdParty/hiredis/sds.c:378-387 | contents are the old contents followed by the bytes, terminated |
| Sds.String.KeepRange | ThirdParty/hiredis/sds.c:726-754 | contents become the inclusive range, with negative indices counted from the end; a string longer than SSIZE_MAX is kept, and -1 answered |
| Sds.SubRangeIs | ThirdParty/hiredis/sds.c:726-754 | that range, index by index |
| Sds.RangeExample | ThirdParty/hiredis/sds.c:718-724 | two ranges of Hello |
| Sds.String.CatFmt | ThirdParty/hiredis/sds.c:581-675 | contents grow by the formatted text of the directives and arguments, where %s stops at the first NUL and %S does not |
| Sds.StringDirectives | ThirdParty/hiredis/sds.c:605-616 | %s is the argument up to its first NUL, %S the whole string |
| Sds.NumberDirectives | ThirdParty/hiredis/sds.c:617-652 | %i, %I, %u and %U take 32- and 64-bit numbers and print them in decimal |
| Sds.PlainTable | ThirdParty/hiredis/sds.c:653-662 | any other character stands for itself, behind a percent sign too |
| Sds.HeaderTable | ThirdParty/hiredis/sds.c:59-69 | the header type for every size, and what its fields hold |
| CommandFormat.BulkLen | ThirdParty/hiredis/hiredis.c:300-302 | the predicted length is that of the text of every argument of that length |
| CommandFormat.TotalLength | ThirdParty/hiredis/hiredis.c:635-640 | the predicted length of a command is the length of its text |
| CommandFormat.FormatCommandArgv | ThirdParty/hiredis/hiredis.c:624-660 | exactly the predicted number of bytes is written, they are the command text, and the terminator follows |
| CommandFormat.FormatSdsCommandArgv | ThirdParty/hiredis/hiredis.c:567-613 | the same bytes through the string appenders |
| CommandFormat.CommandTextEncodes | ThirdParty/hiredis/hiredis.c:624-660 | the command text is the printed form of an array of bulk strings |
| CommandFormat.PipelineRoundTrip | ThirdParty/hiredis/hiredis.c:624-660 | any list of commands, formatted one after another, reads back by the protocol as one array of strings each, in order, byte for byte, with nothing left |
| CommandFormat.ReadPipeline | ThirdParty/hiredis/read.c:657-739 | the stateful reader, fed any cutting of a pipeline and drained after each piece, gives the first of those arrays; all of them, and is left as new, if and only if it has not stopped before a line end, as always when no piece has more than 2^31 bytes together with a command |
| SdsQuote.CatRepr | ThirdParty/hiredis/sds.c:872-895 | contents grow by the quoted form of the bytes |
| SdsQuote.EscapeTable | ThirdParty/hiredis/sds.c:875-891 | how each byte is quoted, by its character |
| SdsQuote.CLocale | ThirdParty/hiredis/sds.c:886-948 | what is printable and what is a space |
| SdsQuote.SplitArgs | ThirdParty/hiredis/sds.c:940-1056 | the state machine over the line gives the argument list, or fails, exactly as Split says, of which the next rows are the laws |
| SdsQuote.SplitsWords | ThirdParty/hiredis/sds.c:946-1047 | any list of arguments, each bare, in quotation marks or in apostrophes, with any blanks before, between and behind them, is split into exactly what they mean, in front of what the rest of the line gives |
| SdsQuote.LineExample | ThirdParty/hiredis/sds.c:921-939 | a line with all of these |
| SdsQuote.ApostrophesIff | ThirdParty/hiredis/sds.c:992-1006 | a string stands between apostrophes, its own escaped, if and only if it does not end in a backslash |
| SdsQuote.UnbalancedIsRefused | ThirdParty/hiredis/sds.c:986-1003 | a quotation mark or apostrophe that never closes gives no list |
| SdsQuote.CutReprIsRefused | ThirdParty/hiredis/sds.c:986-988 | a quoted string without its last mark gives no list |
| SdsQuote.TouchingIsRefused | ThirdParty/hiredis/sds.c:981-985 | a closing mark that something other than a blank follows gives no list |
| SdsQuote.TouchingApostrophe | ThirdParty/hiredis/sds.c:996-1000 | the same for a closing apostrophe |
| SdsQuote.RefusedAnywhere | ThirdParty/hiredis/sds.c:1049-1055 | so it is wherever that stands behind other arguments |
| SdsQuote.BackslashTable | ThirdParty/hiredis/sds.c:968-980 | what a backslash and any one character mean in quotation marks |
| SdsQuote.HexTable | ThirdParty/hiredis/sds.c:958-967 | what \x and two hexadecimal digits of either case mean there |
| SdsQuote.JoinReprIsCString | ThirdParty/hiredis/sds.c:862-871 | quoted strings joined by spaces are printable and hold no NUL |
| SdsQuote.BodyRoundTrip | ThirdParty/hiredis/sds.c:921-939 | inside quotes every byte string comes back, whatever was collected before and follows after |
| SdsQuote.SplitInvertsRepr | ThirdParty/hiredis/sds.c:921-939 | splitting gives back exactly the list that was quoted and joined, for every list of byte strings |
| Dict.NextPower | ThirdParty/hiredis/dict.c:320-329 | the least power of two from 4 on that is not below the size, and what happens from LONG_MAX on |
| Dict.Dict.Expand | ThirdParty/hiredis/dict.c:92-138 | refused exactly when smaller than the content or, from 2^60 buckets on, larger than memory; otherwise every binding is kept, each key once in its new bucket, and the old count ends at zero |
| Dict.Dict.MoveBucket | ThirdParty/hiredis/dict.c:109-130 | one bucket's entries move to the new table, and each binding is in exactly one of the two tables throughout |
| Dict.Dict.Add | ThirdParty/hiredis/dict.c:141-163 | the map gains the binding when the key was absent, and the answer is a map's, if and only if the key is there or its bucket can be allocated and numbered by an int; otherwise the map stays, and a negative number other than -1 is told apart; a full table has doubled, an empty one has four buckets |
| Dict.Dict.KeyIndex | ThirdParty/hiredis/dict.c:334-351 | -1 for a key that is there or when room cannot be made, else the bucket's unsigned number converted to int; room is made in either case |
| Dict.TableGrowth | ThirdParty/hiredis/dict.c:309-317 | four buckets at first, and twice as many when there is an entry for every bucket |
| Dict.SlotIsRest | ThirdParty/hiredis/dict.c:342 | a key's bucket is the rest of its hash by the size |
| Dict.Dict.Insert | ThirdParty/hiredis/dict.c:334-351 | a new entry is linked in front of its bucket and leaves every other bucket and binding alone |
| Dict.Dict.Replace | ThirdParty/hiredis/dict.c:169-191 | the map is updated at the key, and the result tells a new key from a changed value, if and only if the key is there or its bucket can be allocated and numbered by an int |
| Dict.Dict.Delete | ThirdParty/hiredis/dict.c:194-222 | the map loses the key, success means it was there, and only that entry leaves its chain |
| Dict.Dict.Find | ThirdParty/hiredis/dict.c:255-268 | an entry is found if and only if the map has the key, and holds its value |
| Dict.PerformAll | ThirdParty/hiredis/dict.c:92-268 | over every run of add, replace, delete and find, of any length, the answers are those of a finite map if and only if no call of the run puts a new key whose bucket cannot be allocated or numbered by an int |
| Dict.FewKeysPlaced | ThirdParty/hiredis/dict.c:334-351 | whatever the hash function, that is every run in which the map never holds 2^31 keys before a call |
| Dict.LateKeyIsLost | ThirdParty/hiredis/dict.c:334-351 | a run of 2^31 + 1 new keys whose last one, for any hash from 2^31 on, gets a negative number |
| Dict.Iterator.Next | ThirdParty/hiredis/dict.c:282-300 | returns the first of the remaining entries and leaves the others remaining, or null when none remain; in a table of more than 2^30 buckets none ever do |
| Dict.Iterator.DeleteReturned | ThirdParty/hiredis/dict.c:292-296 | deleting the entry just returned does not change what remains |
| Dict.VisitAll | ThirdParty/hiredis/dict.c:270-300 | a whole iteration returns every binding, if and only if the table is empty or has at most 2^30 buckets; no key twice, and then null, also while returned entries are deleted, and exactly those are gone; a larger table gives null at once |
| Dict.CastOfSize | ThirdParty/hiredis/dict.c:286-287 | the cast to int keeps table sizes up to 2^30 and makes every larger one zero or negative |
| Dict.FlatLists | ThirdParty/hiredis/dict.c:282-300 | the chains one after another list every binding of the map once |
| AsyncContext.CallbackList.Push | ThirdParty/hiredis/async.c:250-270 | appends at the tail of the linked list |
| AsyncContext.CallbackList.Shift | ThirdParty/hiredis/async.c:272-286 | takes the oldest callback; the tail is cleared with the last one |
| AsyncContext.Context.AsyncCommand | ThirdParty/hiredis/async.c:742-826 | a command is taken, behind all others, unless the context is disconnecting or being freed |
| AsyncContext.Context.RunCallback | ThirdParty/hiredis/async.c:288-295 | the callback is called once with its reply; a closing context takes no command from it |
| AsyncContext.Context.Perform | ThirdParty/hiredis/async.c:364-373 | whatever a callback calls, nothing is served, freed or disconnected before it returns; the flags and the queue are exactly those the calls, in order, ask for |
| AsyncContext.Context.FreeNow | ThirdParty/hiredis/async.c:306-362 | every waiting command is served NULL once, in order, no command is taken meanwhile, and the context is freed |
| AsyncContext.Context.AsyncFree | ThirdParty/hiredis/async.c:368-373 | frees at once outside callbacks, only records the request inside |
| AsyncContext.Context.AsyncDisconnect | ThirdParty/hiredis/async.c:409-417 | frees at once exactly when nothing is waiting and no callback runs |
| AsyncContext.Context.DisconnectNow | ThirdParty/hiredis/async.c:376-401 | the assertion of a clean disconnect holds; the context is freed unless told not to |
| AsyncContext.Context.TakeReply | ThirdParty/hiredis/async.c:532-591 | one reply leaves the context freed, in error, failing the assertion or open with exactly the flags and the queue of Taken, the decision over the commands waiting and the flags |
| AsyncContext.Context.ProcessCallbacks | ThirdParty/hiredis/async.c:509-597 | a whole read leaves the context freed if and only if ReadFate over the state before it, the replies and a following protocol error says so, and likewise in error, aborted or open with which flags and queue; replies are consumed in order until then |
| AsyncContext.PushesFreeIff | ThirdParty/hiredis/async.c:525-597 | a read of pushes alone frees the context if and only if it ends disconnecting with nothing waiting and nothing to send; a push callback's request to free makes no difference |
| AsyncContext.PushedKeeps | ThirdParty/hiredis/async.c:364-417 | after pushes with their callbacks the context is freeing, or disconnecting, if and only if it was or one of them asked for it |
| AsyncContext.Context.Serve | ThirdParty/hiredis/async.c:632-678 | over every run, the commands taken, the replies consumed and how the run ends are what Course makes of the events; while it is open and without error all replies sent are consumed and as many commands served; callbacks are called in the order their commands were taken, the i-th with the i-th in-band reply the server sent; a freed context has called all of them once, the rest with NULL; pushes go to the push callback |
| AsyncContext.CommandsTaken | ThirdParty/hiredis/async.c:742-826 | in an open run that nothing has asked to close, the commands taken are those from outside merged with those the callbacks made, all of them, each in their order |
| AsyncContext.CommandIsTaken | ThirdParty/hiredis/async.c:742-826 | a command from outside that comes while the context is open and not closing is taken for good, behind all taken before |
| AsyncContext.CommandIsCalled | ThirdParty/hiredis/async.c:509-597 | one command and one reply: the callback is called with it, once |
| AsyncContext.OutsideRequests | ThirdParty/hiredis/async.c:368-417 | a request from outside to free is met at once, one to disconnect when nothing waits; after a failure nothing is taken or read |
| AsyncContext.DisconnectDrains | ThirdParty/hiredis/async.c:513-523 | while callbacks ask for nothing, in-band replies are taken off the queue in order and a disconnecting context is freed once nothing waits and nothing is left to send |
| AsyncContext.StrayReplies | ThirdParty/hiredis/async.c:543-573 | an in-band reply that nothing waits for: an error closes the connection, anything else fails the assertion |
| AsyncContext.Context.AsyncRead | ThirdParty/hiredis/async.c:632-642 | replies are taken in order of arrival, none after an error, and a socket error closes the context; otherwise the whole read ends as ReadFate says |
| AsyncContext.Concludes | ThirdParty/hiredis/async.c:509-597 | what the kept invariant says of the replies the server sent: first in, first out, once each |
| AsyncContext.Answers | ThirdParty/hiredis/async.c:543-583 | an in-band reply goes to the oldest command not yet served |
| AsyncContext.CalledInOrder | ThirdParty/hiredis/async.c:288-295 | serving calls exactly the callbacks that have a function, once each, in order |
| AsyncContext.FreeFromPushWaits | ThirdParty/hiredis/async.c:539-541 | after the whole read that called it, a push callback's request leaves the context not freed |
| Utf.DecodeIsGrammar | ThirdParty/rapidjson/include/rapidjson/encodings.h:146-176 | one Decode succeeds exactly on a character of section 4 of RFC 3629, and takes exactly it |
| Utf.Decode | ThirdParty/rapidjson/include/rapidjson/encodings.h:146-176 | the stream moves by the bytes taken, and the verdict and code point are theirs |
| Utf.Validate | ThirdParty/rapidjson/include/rapidjson/encodings.h:178-202 | same verdict as Decode, and exactly the bytes consumed are copied |
| Utf.Encode | ThirdParty/rapidjson/include/rapidjson/encodings.h:102-121 | appends the one to four octets of the code point |
| Utf.DecodeThenEncode | ThirdParty/rapidjson/include/rapidjson/encodings.h:102-176 | encoding a decoded code point gives back the bytes |
| Utf.EncodeThenDecode | ThirdParty/rapidjson/include/rapidjson/encodings.h:102-176 | decoding an encoded code point gives it back if and only if it is a scalar value |
| Utf.EncodeKeepsOrder | ThirdParty/rapidjson/include/rapidjson/encodings.h:102-121 | encoded characters are ordered as their numbers are (section 1 of RFC 3629), which with the round trips leaves no other encoding |
| Utf.Examples | ThirdParty/rapidjson/include/rapidjson/encodings.h:102-121 | the characters of section 7 of RFC 3629 and of section 3 of RFC 2781 |
| Utf.DecodeAllIsGrammar | ThirdParty/rapidjson/include/rapidjson/encodings.h:146-220 | repeated Decode accepts a byte string if and only if the grammar generates it |
| Utf.DecodeAllThenEncode | ThirdParty/rapidjson/include/rapidjson/encodings.h:102-176 | re-encoding a decoded string gives the same bytes, and only scalar values occur |
| Utf.EncodeAllThenDecode | ThirdParty/rapidjson/include/rapidjson/encodings.h:102-176 | encoding a list of code points and decoding it is the identity if and only if all are scalar values |
| Utf.Utf16RoundTrip | ThirdParty/rapidjson/include/rapidjson/encodings.h:276-322 | every scalar value survives UTF-16 (section 2 of RFC 2781) |
| Utf.PairsKeepOrder | ThirdParty/rapidjson/include/rapidjson/encodings.h:276-288 | surrogate pairs are ordered as their characters are |
| Utf.ThroughUtf16 | ThirdParty/rapidjson/include/rapidjson/encodings.h:657-667 | UTF-8 can be transcoded to UTF-16 if and only if it is valid, and back gives the same bytes |
| Utf.ThroughUtf8 | ThirdParty/rapidjson/include/rapidjson/encodings.h:657-667 | UTF-16 can be transcoded to UTF-8 if and only if its surrogates are well paired, and back gives the same code units |
| PointerText.IndexContract | ThirdParty/rapidjson/include/rapidjson/pointer.h:958-978 | exactly when a numeric token gets its number as index, or none when it does not fit 32 bits |
| PointerText.LargeIndexWraps | ThirdParty/rapidjson/include/rapidjson/pointer.h:966-974 | ten nines get the index 1410065407 |
| PointerRfc.IndexIs | ThirdParty/rapidjson/include/rapidjson/pointer.h:943-978 | the decimal text of a number below 2^32 - 1 has that index; a name that is no number's text has none |
| PointerText.ParsedTokensAreCanonical | ThirdParty/rapidjson/include/rapidjson/pointer.h:943-978 | every parsed token's index is the one its name determines |
| PointerText.PlainRoundTrip | ThirdParty/rapidjson/include/rapidjson/pointer.h:863-1033 | writing any parsed pointer succeeds, and parsing the text gives equal tokens, for names of arbitrary bytes |
| PointerText.UriRoundTrip | ThirdParty/rapidjson/include/rapidjson/pointer.h:863-1033 | the URI fragment form can be written, and then reads back, if and only if all names are UTF-8 |
| PointerRfc.PlainSource | ThirdParty/rapidjson/include/rapidjson/pointer.h:863-993 | a plain text is split at its solidi and each segment evaluated, first ~1 and then ~0 (section 4 of RFC 6901); or refused at its first bad tilde, or at the start |
| PointerRfc.PlainTextIs | ThirdParty/rapidjson/include/rapidjson/pointer.h:1002-1033 | names are written with first ~ and then / escaped, each behind a solidus |
| PointerRfc.FragmentSource | ThirdParty/rapidjson/include/rapidjson/pointer.h:898-951 | a fragment of unreserved characters and percent-encoded UTF-8 is read as the plain text of its octets; with a character that must be encoded, a bad percent sign or a bad tilde behind that, it is refused there |
| PointerRfc.DecodesFirstIff | ThirdParty/rapidjson/include/rapidjson/pointer.h:898-951 | a fragment whose octets are a pointer is read as that pointer if and only if no solidus is encoded and no 0 or 1 behind a tilde is |
| PointerRfc.EncodedSolidus | ThirdParty/rapidjson/include/rapidjson/pointer.h:913-916 | #/a%2Fb is one token |
| PointerRfc.UriTextIs | ThirdParty/rapidjson/include/rapidjson/pointer.h:1002-1033 | a fragment is written octet by octet: unreserved characters (section 2.3 of RFC 3986) as they are, tilde and solidus escaped, all others in upper-case hexadecimal |
| PointerRfc.UnreservedNames | ThirdParty/rapidjson/include/rapidjson/pointer.h:851-852 | names of unreserved characters stand in a fragment as in the plain text, and are read back |
| PointerRfc.PlainFragment | ThirdParty/rapidjson/include/rapidjson/pointer.h:924-927 | #/foo is the token foo, read and written |
| PointerText.Pointer.Parse | ThirdParty/rapidjson/include/rapidjson/pointer.h:863-993 | tokens, or error and offset, are the grammar's (sections 3 and 6 of RFC 6901), and the name buffer of the source's length is never exceeded, whatever bytes lie behind the source, if and only if it is not an empty source with a # and no / behind it; that one is refused |
| PointerText.Pointer.PercentValidate | ThirdParty/rapidjson/include/rapidjson/pointer.h:902-923 | accepts exactly one percent-encoded UTF-8 character and stores its octets |
| PointerText.Pointer.IndexOf | ThirdParty/rapidjson/include/rapidjson/pointer.h:955-978 | the three checks give the index of the name |
| PointerText.Pointer.Stringify | ThirdParty/rapidjson/include/rapidjson/pointer.h:1002-1033 | writes the text of the tokens, and fails exactly when that text does not exist |
| PointerText.PercentDecodeStream.Take | ThirdParty/rapidjson/include/rapidjson/pointer.h:1052-1074 | one triplet (section 2.1 of RFC 3986) gives its octet; a bad one makes the stream invalid for good, whatever byte is read behind the source's end |
| PointerTree.ExistsIffGet | ThirdParty/rapidjson/include/rapidjson/pointer.h:461-508 | Create reports an existing node exactly when Get would have succeeded, and then changes nothing |
| PointerTree.GetAfterCreate | ThirdParty/rapidjson/include/rapidjson/pointer.h:540-568 | after Create, Get reaches the node Create returned, if and only if no token "-" met an array |
| PointerTree.SetThenGet | ThirdParty/rapidjson/include/rapidjson/pointer.h:671-673 | Set puts the value at that node, and Get finds it under the same condition |
| PointerTree.EnterAdds | ThirdParty/rapidjson/include/rapidjson/pointer.h:461-508 | what one token adds: members and elements stay in front in their order, behind them come only Null places or one member of its name; what changes type is an array that a name meets, and scalars |
| PointerTree.Frame | ThirdParty/rapidjson/include/rapidjson/pointer.h:461-508 | a pointer that found a node before Create or Set finds it at the same place, with an equal value unless the two lie on one path, if it is not lost where a name met an array |
| PointerTree.LostIff | ThirdParty/rapidjson/include/rapidjson/pointer.h:472-475 | of pointers that led somewhere, exactly the lost ones lead nowhere after Create |
| PointerTree.MadeAreSame | ThirdParty/rapidjson/include/rapidjson/pointer.h:943-978 | that law's hypothesis holds of parsed pointers: equal names have equal indices |
| PointerTree.SetBesides | ThirdParty/rapidjson/include/rapidjson/pointer.h:671-673 | setting a member beside another keeps the other |
| PointerTree.ParsedIsProper | ThirdParty/rapidjson/include/rapidjson/pointer.h:943-978 | the laws apply to every parsed pointer |
| PointerTree.Tree.RunCreate | ThirdParty/rapidjson/include/rapidjson/pointer.h:461-508 | the loop that walks and mutates the tree makes what the recursive description makes |
| PointerTree.Tree.RunGet | ThirdParty/rapidjson/include/rapidjson/pointer.h:540-568 | the loop finds the path, or the number of the first token that leads nowhere |
| PointerTree.Tree.RunSet | ThirdParty/rapidjson/include/rapidjson/pointer.h:671-678 | the created node is replaced and nothing else |
| JsonWriter.WriteString | ThirdParty/rapidjson/include/rapidjson/writer.h:377-445 | after the reservation the literal is put byte by byte; it is all inside, and then written, if and only if it fits the room reserved, as always when 2 + 6 * length has 32 bits |
| JsonWriter.ReservationIff | ThirdParty/rapidjson/include/rapidjson/writer.h:391-394 | the literals of all strings of one length fit what is reserved for it if and only if 2 + 6 * length has 32 bits |
| JsonWriter.ShortReservation | ThirdParty/rapidjson/include/rapidjson/writer.h:391-394 | for 715827883 bytes 4 are reserved, and no string of that length fits a new buffer |
| JsonGrammar.EscapeTable | ThirdParty/rapidjson/include/rapidjson/writer.h:379-389 | how each byte of a string is written, by its character |
| JsonGrammar.ControlTable | ThirdParty/rapidjson/include/rapidjson/writer.h:431-441 | the other control bytes, in upper-case hexadecimal |
| StringBuffer.Buffer.Reserve | ThirdParty/rapidjson/include/rapidjson/internal/stack.h:115-199 | the capacity grows by half, or to what is asked for, exactly when the room is smaller |
| StringBuffer.Growth | ThirdParty/rapidjson/include/rapidjson/internal/stack.h:183-199 | that growth in numbers |
| StringBuffer.Buffer.PutAllUnsafe | ThirdParty/rapidjson/include/rapidjson/internal/stack.h:128-134 | puts without a reservation succeed if and only if the room lasts |
| JsonWriter.Writer.Prefix | ThirdParty/rapidjson/include/rapidjson/writer.h:473-491 | the separator the level calls for, and one more value counted |
| JsonWriter.Writer.Handle | ThirdParty/rapidjson/include/rapidjson/writer.h:182-248 | every event acts as the compact transition says, if and only if its output is inside the buffer, as always when the string's reservation does not wrap |
| JsonWriter.Writer.Accept | ThirdParty/rapidjson/include/rapidjson/document.h:1946-1985 | the events of a value leave its compact text behind what was written before, whenever no reservation wraps |
| JsonWriter.PrettyWriter.PrettyPrefix | ThirdParty/rapidjson/include/rapidjson/prettywriter.h:208-250 | separator, line break and indentation for both array formats |
| JsonWriter.PrettyWriter.WriteIndent | ThirdParty/rapidjson/include/rapidjson/prettywriter.h:252-255 | one indent per open level |
| JsonWriter.PrettyWriter.Handle | ThirdParty/rapidjson/include/rapidjson/prettywriter.h:95-179 | every event acts as the pretty transition says, under the same condition |
| JsonWriter.PrettyWriter.Accept | ThirdParty/rapidjson/include/rapidjson/document.h:1946-1985 | the events of a value leave its pretty text behind what was written before, whenever no reservation wraps |
| JsonWriter.PrettyStripsToCompact | ThirdParty/rapidjson/include/rapidjson/prettywriter.h:123-255 | for every run of events, pretty output without the whitespace outside string literals is the compact output, and both writers accept the same runs |
| JsonLayout.PrettyIsReformatted | ThirdParty/rapidjson/include/rapidjson/prettywriter.h:123-255 | for every value and both array formats, the pretty text is the compact text with line breaks, one indent for every open bracket and spaces put in by a rule on its characters |
| JsonWriter.LiteralIsSolid | ThirdParty/rapidjson/include/rapidjson/writer.h:377-445 | a written literal ends outside any string and loses nothing to stripping |
| JsonWriter.EmitPrints | ThirdParty/rapidjson/include/rapidjson/writer.h:473-498 | in either writer, a value's events, at any place a value may stand, write its JSON text there, with the whitespace of the style |
| JsonGrammar.LiteralReads | ThirdParty/rapidjson/include/rapidjson/writer.h:377-445 | every byte string comes back from its literal by the rules of section 7 of RFC 8259 |
| JsonGrammar.PrintReads | ThirdParty/rapidjson/include/rapidjson/prettywriter.h:95-255 | the text of any value, in any style and at any depth, is read back as that value by JsonText, a reader of RFC 8259 with its own character codes, with member order and duplicate names, whatever follows |
| JsonGrammar.WritersAgree | ThirdParty/rapidjson/include/rapidjson/prettywriter.h:123-255 | for every value, the events are legal for a writer of either style, the text of their transitions is read back by that reader as the value, whitespace included, and strips to the compact text (that a writer performs them is in the Accept rows) |
| JsonRebuild.FlagsAreCanonical | ThirdParty/rapidjson/include/rapidjson/document.h:791-827 | the type flags say which integer types hold the value, whichever constructor made it |
| JsonRebuild.SameNumberIff | ThirdParty/rapidjson/include/rapidjson/document.h:791-827 | two constructor calls make the same number if and only if they carry the same integer |
| JsonRebuild.NumberRebuilt | ThirdParty/rapidjson/include/rapidjson/document.h:1976-1982 | a number sent through a handler keeps its pattern and its flags |
| JsonRebuild.DocumentRebuilds | ThirdParty/rapidjson/include/rapidjson/document.h:2516-2556 | a value's events push exactly that value, on any stack |
| JsonRebuild.GenericDocument.Handle | ThirdParty/rapidjson/include/rapidjson/document.h:2516-2556 | each handler method acts as the stack transition says |
| JsonRebuild.GenericDocument.Populate | ThirdParty/rapidjson/include/rapidjson/document.h:2317-2325 | the events of a value leave exactly one root, equal to the value |
| JsonRebuild.PairedFlattened | ThirdParty/rapidjson/include/rapidjson/document.h:2541-2545 | names and values lying next to each other are taken up as the members, in order |
| JsonRebuild.HandlerRebuilds | ThirdParty/staticjson/src/staticjson.cpp:748-883 | a value's events act on JSONHandler's stack as one assignment to the top followed by postprocess |
| JsonRebuild.JSONHandler.RunPostprocess | ThirdParty/staticjson/src/staticjson.cpp:767-792 | a finished value is appended to the array or added under the key below it, or the handler is complete, or the stack is corrupted |
| JsonRebuild.JSONHandler.Handle | ThirdParty/staticjson/src/staticjson.cpp:794-883 | each handler method acts as the transition says, and reports a corrupted stack |
| JsonRebuild.JSONHandler.ReadFrom | ThirdParty/staticjson/src/staticjson.cpp:719-733 | the events of a value leave it complete, equal to the original, with an empty stack |
| PoolAllocator.Bumped | ThirdParty/rapidjson/include/rapidjson/allocators.h:198-200 | the bytes above the top of the newest chunk belong to no live block |
| PoolAllocator.Grown | ThirdParty/rapidjson/include/rapidjson/allocators.h:219-225 | the last block can take the room behind it without meeting another |
| PoolAllocator.Pool.AddChunk | ThirdParty/rapidjson/include/rapidjson/allocators.h:250-262 | a new chunk in front, disjoint from all others, no block disturbed |
| PoolAllocator.MallocIff | ThirdParty/rapidjson/include/rapidjson/allocators.h:189-201 | for every size_t: null exactly for no bytes or when the base allocator fails; else a block of the whole size that is the pool's and meets no live one, if and only if no addition wraps |
| PoolAllocator.MallocPlaces | ThirdParty/rapidjson/include/rapidjson/allocators.h:189-201 | where a block lies: behind the last one while its size, rounded up to 8 bytes, has room, else behind the 24 header bytes of a new chunk of the configured capacity or that size |
| PoolAllocator.WrappedSizes | ThirdParty/rapidjson/include/rapidjson/allocators.h:193-200 | the largest size gets an address and no room; a size near it makes two small blocks share an address |
| PoolAllocator.Pool.Malloc | ThirdParty/rapidjson/include/rapidjson/allocators.h:189-201 | that answer; a null one leaves blocks and chunks as they were, any other without a wrapping addition keeps every live block |
| PoolAllocator.ReallocIff | ThirdParty/rapidjson/include/rapidjson/allocators.h:204-235 | for every new size of a live block: null exactly for no bytes or when a chunk is needed and the base allocator fails; else room for the whole size that meets no other live block, if and only if no addition wraps |
| PoolAllocator.ReallocPlaces | ThirdParty/rapidjson/include/rapidjson/allocators.h:204-235 | where a resized block lies: in place if it does not grow, or if it is the last of the newest chunk with room for the rest, else where Malloc puts one of the new size |
| PoolAllocator.Pool.Realloc | ThirdParty/rapidjson/include/rapidjson/allocators.h:204-235 | contents are kept, other blocks untouched, and the block stays in place exactly when it does not grow or is the last of the newest chunk with room behind it; a null answer leaves everything as it was, the old block included |
| PoolAllocator.CapacityFits | ThirdParty/rapidjson/include/rapidjson/allocators.h:171-176 | chunks that lie apart hold fewer bytes in all than a size_t can count |
| PoolAllocator.Pool.Capacity | ThirdParty/rapidjson/include/rapidjson/allocators.h:171-176 | the sum over the chunks, whose size_t additions never wrap |
| PoolAllocator.Pool.Size | ThirdParty/rapidjson/include/rapidjson/allocators.h:181-186 | the sum over the chunks, never above the capacity and never wrapping |
| PoolAllocator.Pool.Clear | ThirdParty/rapidjson/include/rapidjson/allocators.h:158-166 | only the user's buffer stays, empty |
| PoolRuns.AlignedIff | ThirdParty/rapidjson/include/rapidjson/allocators.h:140-149 | in every run every block held is 8-byte aligned, if and only if the user's buffer is or is too small for a block |
| PoolRuns.AlignedWithoutBuffer | ThirdParty/rapidjson/include/rapidjson/allocators.h:123-126 | without a user's buffer every block is aligned in every run |
| PoolRuns.Run | ThirdParty/rapidjson/include/rapidjson/allocators.h:158-235 | over every run of Malloc, Realloc, Clear and writes in which no addition wraps, the blocks held lie apart inside the chunks and each reads as what was last written into it |
| RingBuffer.ElevenfoldIff | SyncIOGameServer/NetworkLib/RingBuffer.cpp:7-10 | the allocation is eleven times the size if and only if that fits 32 bits, and then the end mark is inside it |
| RingBuffer.RingBuffer.Rearrange | SyncIOGameServer/NetworkLib/RingBuffer.cpp:34-42 | the unread bytes move to the start unchanged |
| RingBuffer.RingBuffer.Push | SyncIOGameServer/NetworkLib/RingBuffer.cpp:57-79 | the content grows by the bytes, refused exactly when it would outgrow the allocation |
| RingBuffer.RingBuffer.Pop | SyncIOGameServer/NetworkLib/RingBuffer.cpp:82-102 | the content loses its first bytes, refused exactly when there are fewer |
| RingBuffer.QueueSteps | SyncIOGameServer/NetworkLib/RingBuffer.cpp:57-102 | in the queue that Push and Pop are proved against, bytes go in behind and come out in front, all of a call or none |
| RingBuffer.RingBuffer.Clear | SyncIOGameServer/NetworkLib/RingBuffer.cpp:45-54 | an empty queue in a fresh allocation |
| RingBuffer.StaysInsideIff | SyncIOGameServer/NetworkLib/RingBuffer.cpp:7-102 | the rear mark stays inside the allocation on every run, if and only if the configured size is not larger than the allocation |
| RingBuffer.WrappedSize | SyncIOGameServer/NetworkLib/RingBuffer.cpp:7-102 | a configured size with an allocation of 7 bytes, and the three calls that leave it |
| RingBuffer.MarksStay | SyncIOGameServer/NetworkLib/RingBuffer.cpp:34-102 | while the allocation is large enough the rear mark is front plus size, inside it, over every run |
| RingBuffer.Run | SyncIOGameServer/NetworkLib/RingBuffer.cpp:28-102 | for every configured size, over every run up to the first call that leaves the allocation, the marks are as computed and the contiguous front is a bounded FIFO |

## Left out

- Decimal.String2ll: the value is returned rather than stored through a pointer.
- RespReader.Reader.Discard: buffers longer than SSIZE_MAX, for which sdsrange fails, are not covered.
- RespReader.Reader.Create: reply objects live in a store and pointers are indices into it; freeing them, out of memory and readers without object functions are not modelled.
- RespReader.Reader.Feed: shrinking a large idle read buffer is not modelled; the element limit is the default 2^32-1.
- RespGrammar.RoundTrip: number text of doubles is an opaque token that an arbitrary function accepts, because strtod is a C library function.
- Sds.String.CatLen: several pointers to one string do not occur; reallocation in place and by copy are one case.
- Dict.Dict.Add: duplication and destruction of keys and values are not modelled, and keys are compared by equality; the write before the table that a negative bucket number leads to ends a run.
- Dict.Dict.Delete: freed entries stay in the store unreachable.
- AsyncContext.Context.Serve: regular commands and spontaneous pushes only; subscriptions, MONITOR, timeouts, connection set-up, event-loop hooks and the disconnect callback are not modelled.
- AsyncContext.Context.AsyncRead: the reader appears as the replies it can still produce and whether a protocol error follows; that these are the stream's is what RespReader proves.
- Utf.Encode: bit operations are written as division and remainder; Utf16 is modelled by functions over unit sequences.
- PointerText.LargeIndexWraps: tokens above 32 bits are covered by the exact condition, not forbidden.
- PointerText.Pointer.Stringify: the up to two bytes that the codec reads behind a name's terminator, which cannot change its verdict, are read as NUL.
- PointerText.Pointer.Parse: sources of 2^32 bytes and more, whose token lengths are cut to 32 bits.
- PointerTree.Tree.RunCreate: a pointer into the tree is a path of child places, and the allocator is not modelled; Erase, Swap and GetWithDefault are not.
- JsonWriter.Writer.Handle: one method stands for the overloaded handler calls; a string is as long as its 32-bit length says; a number reserves the room of its text, not the fixed room of its printer; number text, RawNumber, RawValue, encoding validation and non-Unicode targets, SIMD scanning and flushing are not modelled.
- JsonWriter.PrettyWriter.WriteIndent: the indent count is unbounded.
- JsonRebuild.GenericDocument.Handle: short-string storage and the allocator are not modelled, the copy flag is; moved-from values are dropped.
- PoolAllocator.Pool.Malloc: chunk headers are records, not bytes in memory, and a pointer past its area is a plain number; the base allocator answers null for no bytes, as CrtAllocator does.
- PoolAllocator.Pool.Realloc: the copy is one assignment; the caller states the block's size as it asked for it.
- RespReader.Reader.Grow: the number of tasks is unbounded here; the C code counts them in `int`, so more than 2^31 - 3 open aggregates are not covered.
- RingBuffer.RingBuffer.Clear: the old allocation is not released, and pointers are offsets.
- redisvFormatCommand and the printf-like string appenders: their work is done by the C library.
- Sockets, TLS, event-loop adapters, logging, configuration, packet handling, users and rooms: input and output, or small transitions that would add only easy members.
- The JSON reader and schema validation of rapidjson, and StaticJSON's conversion templates.
