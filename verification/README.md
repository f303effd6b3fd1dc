# TNFS: a model of the store and of the libraries under it

TNFS keeps files in a content-addressed store: a file is cut into blocks, each
block is named by a digest and found by an identifier (CID), and blocks come
from a local directory, a Redis registry and untrusted peers. This project
models the parts of the repository in which something can go wrong quietly and
proves what they are there for.

- **The Redis reply reader and the command writers** (hiredis). `Resp` is a
  recursive-descent parser of the protocol, used as the reference. `Machine` is
  the resumable reader on values, `Reader` the reader with its buffer, task
  stack and reply objects changed in place. `Replies` has the bytes that stand
  for each reply. `Decimal`, `Command`, `Sds`, `Quoting` and `OutputBuffer` are
  the printing side, `Nesting` the depth limit; `Templates` and `Lines` say what
  the templates and the lines that a caller writes mean.
- **The asynchronous engine** (hiredis). `AsyncSpec` is the engine on values,
  with what the n-th user callback does given by an arbitrary function; `Async`
  is the context with its flags, linked callback queue and output buffer;
  `AsyncSteps` says what every kind of event does, and `Connection` joins the
  engine to the bytes that the reader is fed.
- **The hash table** (hiredis). `Dict` has the buckets, the links, the rehash
  that relinks entries, and the iterator.
- **SHA-256**. `Sha256Spec` states FIPS 180-4, `Sha256` is the streaming code,
  and `Sha256Example` computes the constants and the digest of "abc".
- **The store**. `Base32`, `Files` (names and CIDs), `Dag` (node images, blocks,
  verify-or-retry), `Tnfs` (adding and getting a file), `Keeping` (which written
  blocks are still there) and `Adds` (any number of files in one store). `Bits`,
  `Bytes` and `Memory` hold C's operators, integers and copying.

Code that changes state is a class or a loop here too, and is proved against a
function on values; the theorems are lemmas about these functions. C integers
are unbounded integers with every conversion that can lose something written
out (`ToInt32`, `ToUInt64`, `% TWO_32`), except that the words of SHA-256 are
bit-vectors of 32 bits. Bytes are integers from 0 to 255. What a function on
values means is stated apart from it: in bytes written as literals, by an
independent reader of the same text, or by laws that fix its result.

Main results, in the order of the table:

1. However a byte stream is cut into feeds and calls, the reader emits the
   replies that recursive descent finds in the whole stream, and ends in error
   exactly if the stream does. A reply is found if and only if its bytes were
   sent; commands written by the formatters read back as their arguments, and
   the words of a template are its arguments.
2. Over every run, every way in which bytes arrive and every behaviour of user
   callbacks, a regular command is accepted if and only if it is passed while the
   context is not closing, and each accepted command is called back exactly once,
   in order, with its own reply of the byte stream or with NULL.
3. Any run of operations on the hash table behaves as on a finite map; a full
   iteration meets every entry once although entries are deleted on the way.
4. Any way of writing a message to the digest stream gives SHA-256 of it.
5. Getting the CID of an added file gives back its name and bytes or fails,
   whatever others do to the registry and the block files, unless a file that
   was in the store collides with one of its blocks. After any number of files
   were added to an undisturbed store, all of them can be got back if and only
   if the naming string of none is a chunk of one.

Where the code meets a promise only in part, the exact condition is proved, and
a lemma shows an input for which it fails:

- the two argument-vector formatters agree if and only if the command is shorter
  than INT_MAX bytes (`Command.FormattersAgree`; they differ on one argument of
  2^31 bytes, `Command.FormattersDisagree`);
- lines are found in up to INT_MAX + 1 unread bytes (`Reader.SeekLine`), and none
  from there to 2^32 (`Reader.SeekFindsNothing`);
- `sdsrange` drops exactly a prefix, and the output buffer loses nothing, if and
  only if no write meets more than INT_MAX buffered bytes (`Sds.DropsPrefix`,
  `OutputBuffer.Conservation`; `OutputBuffer.LargeBufferEmptied`);
- an iteration over a table visits its entries if the number of slots is an `int`,
  and otherwise nothing (`Dict.Sweep`, `Dict.LargeSize`);
- files that were added stay complete as stated above (`Adds.AllGettable`); adding
  a file whose content is the naming string of an earlier one loses that one
  (`Adds.NamingAsContent`), while a file can only clash with itself if a chunk of
  it contains its own identifier (`Adds.OwnClash`);
- a complete file is given back unless its name is that of a block it still has
  to read (`Tnfs.GetTnfsFile`, `Adds.AddThenGet`; `Adds.NamedAsItsBlock`), or it
  has exactly MAX_FILE_LENGTH bytes, for which a node has one link too few
  (`Tnfs.Intended`).

The code is followed where comments say otherwise: dict.c returns the slot
number as an `int` although sizes are `unsigned long`; `_dictNextPower`
returns LONG_MAX for sizes from LONG_MAX on, which is no power of two;
`base32_decode` also writes the byte after the last one it counts, which
`UNBASE32_LEN` does not allow for;
the buffers for the digest text in file.c and dag.c have no room for the
terminator that `hash_to_string` and `sprintf` write, which the model gives
them; a connection that is still in progress counts as failed on the next
event, because checking the socket has recorded an error (net.c:239-252);
`CID_LENGTH` in file.h is the unparenthesised text `113 + 1`, so the naming
buffer of a parent block has `nb_links * 113 + 1 + 255` bytes.

## Model

| member | source | states |
|---|---|---|
| Machine.RunRefinesParser | src/lib/hiredis/read.c:550-598 | whenever the stack is empty again the reply is the recursive parse of exactly the bytes consumed; the loop stops for lack of bytes, and fails, exactly when recursive descent does |
| Machine.RunFuture | src/lib/hiredis/read.c:574-577 | running the machine never changes what recursive descent finds in the unread bytes followed by any bytes still to come |
| Machine.ProcessFuture | src/lib/hiredis/read.c:441-488 | the same for one item, with the type byte remembered or not |
| Machine.ProcessShrinks | src/lib/hiredis/read.c:574-577 | an item that is processed leaves strictly fewer unread bytes, so the loop ends; a blocked one stays blocked |
| Machine.AdvanceFuture | src/lib/hiredis/read.c:235-258 | finishing an item and popping full arrays is completing the enclosing arrays by recursive descent |
| Machine.OpenFuture | src/lib/hiredis/read.c:365-439 | pushing a task for an array is parsing all its elements |
| Machine.BlockedFuture | src/lib/hiredis/read.c:441-488 | the machine only waits when recursive descent needs more bytes |
| Machine.RunStops | src/lib/hiredis/read.c:550-598 | the loop ends in a well-formed state, blocked if no reply is complete |
| Machine.SessionTracksStream | src/lib/hiredis/read.c:518-598 | at every point of every session, the replies so far and what the state still promises are the transcript of the whole input |
| Machine.ChunkingInvariance | src/lib/hiredis/read.c:518-598 | a drained session has emitted the replies of the whole input and is in error exactly if the input is, however it was cut |
| Machine.SameBytesSameReplies | src/lib/hiredis/read.c:518-598 | two drained sessions given the same bytes in different pieces end alike |
| Machine.EmittedIsPrefix | src/lib/hiredis/read.c:518-598 | without draining, the replies emitted are the first ones of the input |
| Machine.EmptyCallDrains | src/lib/hiredis/read.c:550-598 | a call that emits nothing drains the session |
| Resp.HeadExtends | src/lib/hiredis/read.c:260-439 | what follows a type byte, once complete or malformed, is not changed by bytes that arrive later |
| Replies.ReadReply | src/lib/hiredis/read.c:260-439 | every status, error, integer, bulk string, nil and array is found in the bytes that the protocol writes for it, given as literals, whatever follows; an integer is any of 64 bits, and arrays nest as deep as the reader allows |
| Replies.ReadsWhatWasSent | src/lib/hiredis/read.c:260-439 | a reply is found in front of given bytes if and only if what was sent there stands for that reply; nil has two forms, and the two bytes behind a bulk string are not looked at |
| Replies.ReadReplies | src/lib/hiredis/read.c:518-598 | replies written one after the other are the replies of the stream, which ends without an error |
| Replies.RepliesThroughReader | src/lib/hiredis/read.c:518-598 | the same through the resumable reader, however the bytes are cut |
| Replies.PartOfReplyWaits | src/lib/hiredis/read.c:441-488 | while any byte of a reply is missing the parser waits |
| Replies.MalformedLines | src/lib/hiredis/read.c:260-465 | which error each malformed first byte, integer, bulk length and array length leads to, and exactly when |
| Replies.BadElement | src/lib/hiredis/read.c:365-439 | an array fails with the error of its first malformed element |
| Nesting.DepthLimit | src/lib/hiredis/read.c:365-378 | arrays nested up to eight deep are read; a ninth header is the depth error |
| Reader.Reader.constructor | src/lib/hiredis/read.c:490-507 | a new reader is idle with an empty buffer |
| Reader.Reader.Feed | src/lib/hiredis/read.c:518-548 | feeding appends to the unread bytes, whether or not the empty buffer is dropped, and is refused after an error |
| Reader.Reader.GetReply | src/lib/hiredis/read.c:550-598 | one call does what the machine on values does; the tree it hands out denotes the reply and is no longer reachable from the reader |
| Reader.Reader.Compact | src/lib/hiredis/read.c:584-589 | dropping 1024 and more consumed bytes leaves the abstract state unchanged |
| Reader.Reader.ProcessItems | src/lib/hiredis/read.c:574-577 | the loop over items on the real stack is the run of the machine |
| Reader.Reader.ProcessItem | src/lib/hiredis/read.c:441-488 | one item on the real stack is one step of the machine, also when it stops between the type byte and the rest |
| Reader.Reader.ProcessLineItem | src/lib/hiredis/read.c:260-299 | status, error and integer items are taken, refused or left exactly as the parser's head does |
| Reader.Reader.ProcessBulkItem | src/lib/hiredis/read.c:301-363 | the same for bulk items, in the code's 64-bit index arithmetic |
| Reader.Reader.ProcessMultiBulkItem | src/lib/hiredis/read.c:365-439 | the same for arrays: nil, empty, opened, too deep, bad or out of range |
| Reader.Reader.MoveToNextTask | src/lib/hiredis/read.c:235-258 | popping the task stack keeps every partial array filled exactly below its current index and ends where the machine does |
| Reader.Reader.ReadLine | src/lib/hiredis/read.c:220-233 | takes exactly the first line of the unread bytes, or nothing |
| Reader.Reader.SetError | src/lib/hiredis/read.c:47-69 | an error is sticky: the buffer is gone and the stack empty |
| Reader.SeekNewline | src/lib/hiredis/read.c:119-155 | finds the first CR LF, unless it starts at or past the length truncated to `int`, and then nothing |
| Reader.SeekLine | src/lib/hiredis/read.c:119-155 | in up to INT_MAX + 1 bytes every line is below the truncated length, so the search takes exactly the first line |
| Reader.SeekFindsNothing | src/lib/hiredis/read.c:119-155 | from INT_MAX + 2 to 2^32 unread bytes no line is found, wherever it is |
| Reader.CreateStringObject | src/lib/hiredis/hiredis.c:100-130 | the new object denotes the string and sits in the current slot of the innermost unfinished array |
| Reader.CreateArrayObject | src/lib/hiredis/hiredis.c:132-155 | the same for arrays: complete if empty, otherwise with all slots to be filled |
| Reader.CreateIntegerObject | src/lib/hiredis/hiredis.c:157-172 | the same for integers |
| Reader.CreateNilObject | src/lib/hiredis/hiredis.c:174-189 | the same for nil |
| Reader.DenotesOne | src/lib/hiredis/read.h:50-55 | the type numbers of the six kinds of reply objects, and that an object denotes no more than one reply |
| Reader.RunSession | src/lib/hiredis/read.c:518-598 | over sessions of any length, the objects handed out by a drained session denote exactly the replies of the whole input, and its error is the input's; only what is unread at a feed is bounded |
| Decimal.String2ll | src/lib/hiredis/read.c:157-218 | accepts a string if and only if it is the print of a 64-bit value, and returns that value |
| Decimal.ParsePrint | src/lib/hiredis/read.c:157-218 | every 64-bit value is read back from its print |
| Decimal.PrintInjective | src/lib/hiredis/sds.c:429-458 | different integers print differently |
| Decimal.DigitAt | src/lib/hiredis/sds.c:429-490 | the printed text is the decimal notation: each place from the right holds its digit, and there is no leading zero |
| Decimal.Sdsll2str | src/lib/hiredis/sds.c:429-458 | prints every signed 64-bit value, the least one included, within 21 bytes |
| Decimal.Sdsull2str | src/lib/hiredis/sds.c:461-490 | the same for unsigned values |
| Decimal.CountDigits | src/lib/hiredis/hiredis.c:191-202 | counting four digits at a time gives the printed length |
| Command.ReadCommand | src/lib/hiredis/read.c:301-439 | a formatted command is read as one array of exactly its arguments, every byte consumed, whatever follows |
| Command.ReadPipeline | src/lib/hiredis/hiredis.c:524-560 | commands back to back read as the arrays of their arguments |
| Command.PipelineThroughReader | src/lib/hiredis/read.c:518-598 | the same through the resumable reader, however the bytes are cut |
| Command.BulkLen | src/lib/hiredis/hiredis.c:204-206 | the exact length of every argument of that length on the wire |
| Command.FormatCommandArgv | src/lib/hiredis/hiredis.c:524-560 | for every argument vector: the encoding, terminated, with exact predicted length; or -1, or out of the buffer, when the `int` length wraps around |
| Command.FormatSdsCommandArgv | src/lib/hiredis/hiredis.c:471-513 | for every argument vector: the bytes with each length modulo 2^32, the result cast to `int`, or the failed length assertion |
| Command.FormattersAgree | src/lib/hiredis/hiredis.c:471-560 | both argument-vector formatters succeed with the same bytes and the same result if and only if the command is shorter than INT_MAX bytes |
| Command.FormattersDisagree | src/lib/hiredis/hiredis.c:471-560 | on one argument of 2^31 bytes one reports that memory is short and the other writes the command and returns a negative length |
| Command.CommandIsWritten | src/lib/hiredis/hiredis.c:524-560 | a formatted command is the bytes that the protocol writes for the array of its arguments |
| Command.LengthsPrinted | src/lib/hiredis/hiredis.c:501-507 | the sds formatter prints the right lengths if and only if every argument is shorter than 2^32 bytes |
| Command.SplitTemplate | src/lib/hiredis/hiredis.c:229-380 | the loop over the template yields one argument for each maximal run of text; interpolated spaces do not split and empty interpolations count |
| Command.FormatCommand | src/lib/hiredis/hiredis.c:208-448 | for the arguments of a template, of any length, the same outcome as the argument-vector formatter |
| Command.BinaryTemplateWords | src/lib/hiredis/hiredis.c:229-268 | any arguments come out of the template "%b %b ..." as they went in |
| Templates.TemplateMeans | src/lib/hiredis/hiredis.c:229-380 | on the bytes of the template: its words, literal text mixed with %s, %b and %% in any order and kept apart by spaces, are the arguments, each the concatenation of what its parts mean; spare arguments are not used |
| Templates.EveryTemplate | src/lib/hiredis/hiredis.c:229-380 | every template has that form, a percent sign at its end included |
| Sds.SdsRange | src/lib/hiredis/sds.c:712-738 | keeps the bytes between two indices, negative ones counting from the end, of the string cut at its length as an `int` |
| Sds.DropsPrefix | src/lib/hiredis/sds.c:712-738 | `sdsrange(s, n, -1)` drops exactly the first n bytes if and only if the string has at most INT_MAX bytes |
| Sds.RangeLaws | src/lib/hiredis/sds.c:712-738 | which bytes a range keeps for indices of every kind: inclusive, counted from the end, past either end, and crossed |
| OutputBuffer.Context.AppendCommand | src/lib/hiredis/hiredis.c:893-904 | appends and changes nothing else |
| OutputBuffer.Context.BufferWrite | src/lib/hiredis/hiredis.c:817-844 | what is kept after a write of any size from a buffer of any size, and done exactly if the buffer is empty |
| OutputBuffer.DrainedExact | src/lib/hiredis/hiredis.c:832-841 | what is kept is what was not sent if and only if the buffer had at most INT_MAX bytes |
| OutputBuffer.LargeBufferEmptied | src/lib/hiredis/hiredis.c:832-841 | a write of any size empties a buffer of 2^31 to 2^32 bytes |
| OutputBuffer.Conservation | src/lib/hiredis/hiredis.c:817-904 | over any interleaving of appends and partial, retried or failed writes, sent followed by buffered is everything appended if and only if no write met more than INT_MAX bytes |
| OutputBuffer.WriteMoves | src/lib/hiredis/hiredis.c:817-844 | a write moves exactly the bytes the socket took from the buffer to what is sent; try-again changes nothing, and an error stops all later writes |
| OutputBuffer.SentIsTaken | src/lib/hiredis/hiredis.c:817-844 | over any run as many bytes are sent as the socket reports to have taken |
| Quoting.SdsCatRepr | src/lib/hiredis/sds.c:856-879 | appends the quoted form of all 256 byte values |
| Quoting.SdsSplitArgs | src/lib/hiredis/sds.c:931-1039 | the splitter computes the tokens of a line, or the error of unbalanced quotes |
| Quoting.SplitUndoesQuote | src/lib/hiredis/sds.c:931-1039 | quoting any list of byte strings, joining with spaces and splitting gives the list back, never an error |
| Quoting.QuoteLineHasNoNul | src/lib/hiredis/sds.c:856-879 | quoted text is a C string |
| Lines.SplitLine | src/lib/hiredis/sds.c:931-1039 | on the bytes of the line: bare text, double quotes with their escapes and hexadecimal codes, and single quotes are read as what they stand for, one argument for each, and the rest is split by itself |
| Lines.UnbalancedQuotes | src/lib/hiredis/sds.c:931-1039 | quotes that are not closed, or closed in front of anything but a blank, are an error |
| Lines.EscapedForms | src/lib/hiredis/sds.c:856-879 | what stands for each of the 256 bytes in quoted text |
| AsyncSpec.ExactlyOnceInOrder | src/lib/hiredis/async.c:228-504 | over every run and client, accepted callbacks are delivered ++ pending in issue order, the k-th reply goes to the k-th command, after the last reply only NULL, and none is left when the context is freed |
| AsyncSpec.AcceptedAsOffered | src/lib/hiredis/async.c:598-676 | over every run and client, the accepted commands are exactly the regular ones among those offered, by events and inside callbacks, while the context was neither disconnecting nor freeing |
| AsyncSteps.AllCommandsOffered | src/lib/hiredis/async.c:228-676 | what is recorded as offered is exactly what events pass to the live context and what every callback that ran passes, in order |
| AsyncSpec.ReportedOnce | src/lib/hiredis/async.c:276-318 | the disconnect is reported once, if and only if a connected context is freed, and as an error if and only if it failed and the client has not freed it |
| AsyncSpec.CommandsOnTheWire | src/lib/hiredis/async.c:598-676 | sent ++ buffered is the bytes of the accepted commands in order if and only if no write met more than INT_MAX buffered bytes |
| AsyncSpec.RunSound | src/lib/hiredis/async.c:276-504 | the invariant of every reachable context: consistent queue and wire, freed contexts empty, the disconnect reported once and only if connected |
| AsyncSpec.DestroyCompletes | src/lib/hiredis/async.c:276-318 | freeing, by whatever road, accepts nothing more, ends, and has called back once for every accepted command |
| AsyncSpec.TeardownSound | src/lib/hiredis/async.c:332-351 | a clean or failed disconnect leaves a freed, consistent context |
| AsyncSpec.ProcessSound | src/lib/hiredis/async.c:426-504 | a batch of replies keeps the invariant whatever callbacks do in between |
| AsyncSpec.DeliverKeeps | src/lib/hiredis/async.c:266-274 | one delivery with any client actions inside keeps order and wire, and changes no other history |
| AsyncSpec.PoliteRunNeverAborts | src/lib/hiredis/async.c:454-478 | with at most one reply per command the assertion about unexpected replies never fails |
| AsyncSteps.PassedCommand | src/lib/hiredis/async.c:598-676 | a regular command on a live context that is not closing: accepted, its callback behind all others, its bytes behind all others, and nothing else is different |
| AsyncSteps.RefusedCommand | src/lib/hiredis/async.c:598-676 | any other command leaves the context as it was |
| AsyncSteps.CallbackBrings | src/lib/hiredis/async.c:266-274 | one callback: it is taken off the front with its reply, the regular commands it passes before it asks for the end are queued behind all others, and the flags it raises are set |
| AsyncSteps.AskedToEnd | src/lib/hiredis/async.c:324-364 | freeing ends the context at once, and disconnecting too if no reply is due; otherwise only the flag is raised |
| AsyncSteps.Connecting | src/lib/hiredis/async.c:509-577 | the three ways to connect and what each does |
| AsyncSteps.ReadEnds | src/lib/hiredis/async.c:531-550 | a failing read, an error left behind and malformed input end the context |
| AsyncSteps.WriteEnds | src/lib/hiredis/async.c:552-577 | so does a failing write of a non-empty buffer |
| AsyncSteps.UnaskedReply | src/lib/hiredis/async.c:454-478 | a reply that nobody waits for ends the context if it is an error, and otherwise fails the assertion |
| AsyncSteps.FreeingCallback | src/lib/hiredis/async.c:483-491 | a callback that frees the context: nothing more is read, and nothing stays queued |
| AsyncSteps.LastReplyEnds | src/lib/hiredis/async.c:432-440 | a context that was asked to disconnect ends with the last reply that is due, without an error |
| Connection.RepliesOfTheBytes | src/lib/hiredis/async.c:426-550 | over every run in which bytes arrive in any pieces, the k-th accepted command gets the k-th reply in the bytes or NULL, and a context that is alive has handed out every complete reply |
| Connection.StreamGrows | src/lib/hiredis/read.c:518-598 | bytes that arrive later neither change nor reorder the replies before them, nor mend an error |
| Connection.ReaderEmits | src/lib/hiredis/read.c:518-598 | between two moments at which it is drained the reader emits exactly the replies that the new bytes complete |
| Async.CallbackList.Push | src/lib/hiredis/async.c:228-248 | the linked queue with head and tail appends at the end |
| Async.CallbackList.Shift | src/lib/hiredis/async.c:250-264 | and takes from the front |
| Async.AsyncContext.constructor | src/lib/hiredis/async.c:106-141 | a new context is the initial engine |
| Async.AsyncContext.AsyncCommand | src/lib/hiredis/async.c:598-676 | refuses while closing, otherwise queues the callback and appends the bytes |
| Async.AsyncContext.PassCommand | src/lib/hiredis/async.c:598-676 | the same call, recorded as offered with the flags of that moment |
| Async.AsyncContext.RunCallback | src/lib/hiredis/async.c:266-274 | a callback that issues, disconnects or frees does to the context what the engine says |
| Async.AsyncContext.Destroy | src/lib/hiredis/async.c:276-318 | the drain loop on the linked queue, entered only while closing, is the engine's |
| Async.AsyncContext.AsyncFree | src/lib/hiredis/async.c:324-329 | deferred inside a callback, immediate outside |
| Async.AsyncContext.Teardown | src/lib/hiredis/async.c:332-351 | its assertion of an empty queue holds on every clean disconnect |
| Async.AsyncContext.AsyncDisconnect | src/lib/hiredis/async.c:359-364 | deferred inside a callback or while replies are due |
| Async.AsyncContext.ProcessCallbacks | src/lib/hiredis/async.c:426-504 | the reply loop is the engine's, including its three ways to end |
| Async.AsyncContext.HandleConnect | src/lib/hiredis/async.c:509-526 | a refused or established connection, or one in progress, which leaves an error behind |
| Async.AsyncContext.HandleRead | src/lib/hiredis/async.c:531-550 | a read event is the engine's step |
| Async.AsyncContext.HandleWrite | src/lib/hiredis/async.c:552-577 | a write event is the engine's step |
| Async.Handle | src/lib/hiredis/async.c:324-577 | every event outside callbacks refines the engine, so its theorems hold for the context |
| Dict.HashTable.constructor | src/lib/hiredis/dict.c:66-86 | a new table is the empty map |
| Dict.HashTable.Expand | src/lib/hiredis/dict.c:89-133 | relinks every entry exactly once into slots by the new mask; same entries, same map; refused if the size is below the number of entries |
| Dict.HashTable.MoveAll | src/lib/hiredis/dict.c:105-128 | the loops empty the old table although they stop when nothing is in use, so the `used == 0` assertion holds |
| Dict.MoveEntry | src/lib/hiredis/dict.c:115-126 | moving one entry keeps both halves ordered and the map split between them, with one entry less and one more |
| Dict.HashTable.ExpandIfNeeded | src/lib/hiredis/dict.c:296-304 | leaves a free place; the size is 4 for an empty table, doubled for a full one, and otherwise kept |
| Dict.NextPower | src/lib/hiredis/dict.c:307-316 | the least power of two from 4 on that is large enough, or LONG_MAX |
| Dict.HashTable.KeyIndex | src/lib/hiredis/dict.c:321-339 | -1 if the key is present, otherwise the hash modulo the size, cast to `int` |
| Dict.HashTable.Add | src/lib/hiredis/dict.c:136-155 | adds if and only if the key is absent, and otherwise changes no entry |
| Dict.HashTable.Replace | src/lib/hiredis/dict.c:161-180 | the map is updated, 1 if and only if the key is new |
| Dict.HashTable.Delete | src/lib/hiredis/dict.c:183-211 | unlinks exactly the entry of the key and leaves the order of the others |
| Dict.HashTable.Find | src/lib/hiredis/dict.c:244-257 | the entry of the key, or NULL exactly if there is none |
| Dict.HashTable.Clear | src/lib/hiredis/dict.c:214-236 | frees every entry once although the loop stops when nothing is in use, and is then the empty table |
| Dict.HashTable.UsedIsSize | src/lib/hiredis/dict.c:136-211 | `used` is the size of the map |
| Dict.Run | src/lib/hiredis/dict.c:136-257 | any run of add, replace, delete and find on a new table, of any length, answers and ends as on a finite map |
| Dict.AnswersAfter | src/lib/hiredis/dict.c:136-257 | what each operation answers after another on the same key and on other keys, and the return codes of add, replace and delete |
| Dict.Iterator.constructor | src/lib/hiredis/dict.c:259-267 | a new iterator has every entry before it, or none if the size is no `int` |
| Dict.Iterator.Next | src/lib/hiredis/dict.c:269-287 | returns the entries still to come one by one, then NULL |
| Dict.DeleteReturned | src/lib/hiredis/dict.c:269-287 | deleting the entry just returned leaves what is still to come |
| Dict.Sweep | src/lib/hiredis/dict.c:259-287 | a full iteration ends and returns exactly the entries present at the start, in slot order, although the caller deletes any of them on the way; nothing if the size is no `int` |
| Dict.LargeSize | src/lib/hiredis/dict.c:269-274 | the size of a larger table is not positive as an `int` |
| Dict.ListedOnce | src/lib/hiredis/dict.c:269-287 | that listing holds every entry once |
| Sha256.ConsumeChunk | src/lib/crypt/sha-256.c:33-111 | the 16-word rolling window computes the compression of FIPS 180-4, section 6.2.2 |
| Sha256.WindowStep | src/lib/crypt/sha-256.c:59-80 | at round 16i+j the window holds the scheduled words the recurrence needs |
| Sha256.Sha256Stream.constructor | src/lib/crypt/sha-256.c:117-135 | a new stream has written nothing |
| Sha256.Sha256Stream.Write | src/lib/crypt/sha-256.c:137-168 | writing appends to the message, through the buffer or past it |
| Sha256.Sha256Stream.Close | src/lib/crypt/sha-256.c:170-216 | the digest is SHA-256 of the message, also when the padding spills into another block |
| Sha256.CalcSha256 | src/lib/crypt/sha-256.c:218-224 | one call digests a whole input |
| Sha256.HashPieces | src/lib/crypt/sha-256.c:117-216 | every way of splitting a message into writes, empty ones included, gives SHA-256 of it |
| Sha256.PadInjective | src/lib/crypt/sha-256.c:170-200 | the padding of section 5.1.1 tells messages below 2^61 bytes apart |
| Sha256.PaddingIsShortest | src/lib/crypt/sha-256.c:170-200 | and uses the fewest zero bytes that fill a block |
| Sha256Example.Primes2To19 | src/lib/crypt/sha-256.c:76-91 | with n the integer part of the cube root of the prime p and r = n * 2^32 + K[i], r^3 <= p * 2^96 < (r + 1)^3: the first eight round constants are the fractional parts of the cube roots of the first eight primes |
| Sha256Example.Primes23To53 | src/lib/crypt/sha-256.c:76-91 | the same for the next eight |
| Sha256Example.Primes59To89 | src/lib/crypt/sha-256.c:76-91 | and the next |
| Sha256Example.Primes97To131 | src/lib/crypt/sha-256.c:76-91 | and the next |
| Sha256Example.Primes137To173 | src/lib/crypt/sha-256.c:76-91 | and the next |
| Sha256Example.Primes179To223 | src/lib/crypt/sha-256.c:76-91 | and the next |
| Sha256Example.Primes227To263 | src/lib/crypt/sha-256.c:76-91 | and the next |
| Sha256Example.Primes269To311 | src/lib/crypt/sha-256.c:76-91 | and the last eight of the 64 |
| Sha256Example.InitialValue | src/lib/crypt/sha-256.c:123-134 | the initial hash value holds the fractional parts of the square roots of the first eight primes |
| Sha256Example.DigestOfAbc | src/lib/crypt/sha-256.c:33-111 | the digest of "abc" is ba7816bf 8f01cfea 414140de 5dae2223 b00361a3 96177a9c b410ff61 f20015ad |
| Base32.CharRoundTrip | src/lib/crypt/base-32.c:67-90 | `decode_char` undoes `encode_char` |
| Base32.GroupFromOctets | src/lib/crypt/base-32.c:102-147 | octet, offset and shifts pick out the 5-bit group of section 6 of RFC 4648 |
| Base32.EncodeSequence | src/lib/crypt/base-32.c:155-178 | one sequence of up to five octets, padded |
| Base32.Encode | src/lib/crypt/base-32.c:180-187 | the text is the big-endian 5-bit groups of the input as characters, then '=' |
| Base32.StepDigit | src/lib/crypt/base-32.c:196-209 | one turn of the decoding loop fills an octet and starts the next |
| Base32.DecodeSequence | src/lib/crypt/base-32.c:189-210 | the octets of up to eight digits, and how many are complete |
| Base32.Decode | src/lib/crypt/base-32.c:212-221 | the bytes that fit whole into the digits before the first other character; nothing past the byte after them is touched |
| Base32.RoundTrip | src/lib/crypt/base-32.c:180-221 | decoding the text of x, ended by padding or by any character outside the alphabet, gives x and its length, for every length |
| Base32.CodedInjective | src/lib/crypt/base-32.c:180-187 | different inputs have different texts |
| Base32.BlockIsNumber | src/lib/crypt/base-32.c:102-147 | eight groups, read in base 32, are the number that five octets are in base 256, missing octets counting as zero |
| Base32.Letters | src/lib/crypt/base-32.c:67-75 | the character of each group: A to Z, 2 to 7, and then padding up to a multiple of eight |
| Files.HashToString | src/lib/crypt/sha-256.c:226-232 | writes the digest in hexadecimal, terminated |
| Files.HexInjective | src/lib/crypt/sha-256.c:226-232 | the hexadecimal form determines the digest |
| Files.HexReads | src/lib/crypt/sha-256.c:226-232 | two digits for each byte, the high one first, in lower case: the hexadecimal reader of sds.c gets the bytes back |
| Files.GenerateBlockName | src/file.c:83-88 | the name is the digest in hexadecimal |
| Files.GenerateCid | src/file.c:56-81 | the CID is "b" and the base 32 text of "011220" and the digest in hexadecimal |
| Files.NamesAreDigests | src/file.c:56-88 | two contents share a name, or a CID, if and only if they share a digest |
| Files.NamesAreText | src/file.c:56-81 | a CID has 113 characters and can be kept as a C string |
| Files.CidReads | src/file.c:56-88 | behind the "b" a CID decodes as base 32 to "011220" and the block name, whose digits read as the digest |
| Dag.DecodeImage | src/dag.h:7-14 | reading a node image back gives the node |
| Dag.ImageLayout | src/dag.h:7-14 | at which of the 302268 bytes each field of a node begins and ends; numbers are four bytes, least significant first |
| Dag.ChunkImages | src/dag.c:38-44 | blocks of different data have different images |
| Dag.ChunksOfFile | src/dag.c:23-36 | all blocks but the last are full, the last holds the remainder, and together they are the file |
| Dag.Store.CopyChunk | src/dag.c:25-36 | the inner loop copies exactly one chunk into a zeroed buffer |
| Dag.Store.CreateChunk | src/dag.c:24-70 | writes and registers one block under the digest of its chunk |
| Dag.Store.CreateChunks | src/dag.c:15-73 | writes and registers every block, and returns their CIDs |
| Dag.Store.ConcatParentsToString | src/dag.c:176-182 | the file name and the CIDs, one after the other |
| Dag.Store.CopyLinks | src/dag.c:83-90 | the link table, of which at most 400 entries are filled |
| Dag.Store.CreateParent | src/dag.c:75-119 | writes and registers the parent block under the digest of its zero-filled naming string |
| Dag.Store.VerifyBlock | src/dag.c:125-132 | succeeds if and only if the file's CID is the one asked for |
| Dag.Store.ReadBlock | src/dag.c:134-174 | what is read matches the CID; a trusted block is read as it was added whatever happens to registry and files meanwhile; left alone, the call succeeds exactly on what is stored, changes nothing then, and otherwise forgets the registration and the file that did not match |
| Tnfs.AddTnfsFile | src/tnfs.c:13-47 | refuses empty and oversized files, otherwise stores all blocks and reports the parent's CID |
| Tnfs.GetTnfsFile | src/tnfs.c:71-97 | for the CID of an added file, under any interference, the output is that name and those bytes, or the program exits; an output file among the block files may be lost to others; undisturbed, the file is given back if and only if all its blocks are stored and the output file takes the place of none; the CID of a block is reported as no file, undisturbed if and only if it is stored |
| Tnfs.WriteBlocks | src/tnfs.c:86-91 | the loop writes the chunks in order, and ends early exactly at the first block that is missing or overwritten |
| Tnfs.StoredBehindOutput | src/tnfs.c:82-91 | a block is still readable while the output file grows if and only if it was stored and its file is not the output file |
| Tnfs.BlockOnDisk | src/dag.c:38-45 | the bytes of a block: kind 1, named "null", no links, its chunk, then zeros, and its length |
| Tnfs.FileOnDisk | src/dag.c:77-90 | the bytes of a parent block: kind 2, the number of links and the length of the file, its name, and the CID of each chunk, terminated |
| Tnfs.NamingOnDisk | src/dag.c:92-102 | the bytes whose digest names the parent block: the file name, the CIDs and zeros |
| Tnfs.PutOnDisk | src/dag.c:50-65 | a block is stored in the file named by the hexadecimal digest and ".dat", and registered under the CID of its image; nothing else in the store changes |
| Keeping.FileOfBlock | src/dag.c:50-65 | after any sequence of blocks, the file of a block holds the image written last under its name |
| Keeping.AllStored | src/dag.c:50-65 | all blocks of a sequence are stored, repeated ones included, if and only if no name stands for two images |
| Adds.NamingTells | src/dag.c:92-102 | the naming string determines the name and the links of a file |
| Adds.SameParent | src/dag.c:75-90 | the parent image determines the naming string, the link that does not fit included |
| Adds.AllGettable | src/tnfs.c:13-97 | after any number of adds to an undisturbed store, all files are complete if and only if the naming string of none is a chunk of one |
| Adds.NamingAsContent | src/dag.c:92-107 | a file whose content is the naming string of an earlier one takes its parent block away |
| Adds.OwnClash | src/dag.c:92-107 | only a chunk that contains its own identifier is the naming string of its own file |
| Adds.NamedAsItsBlock | src/tnfs.c:81-89 | a file added under the name of the block it becomes is in the way of that block |
| Adds.AddAllThenGet | src/tnfs.c:13-97 | on an undisturbed store any of the files added is given back, if none clash and its name is not that of one of its blocks |
| Adds.AddThenGet | src/tnfs.c:13-97 | a file that was just added is given back under exactly these conditions, and otherwise the program exits |

## Left out

- Publish/subscribe and monitor mode of async.c (`sub.channels`, `sub.patterns`, `sub.invalid`): the engine is modelled for contexts that never subscribe or monitor, in which these lists stay empty.
- onConnect and onDisconnect callbacks are taken not to call the API again.
- Conversions of printf in `redisvFormatCommand` (hiredis.c:273-368): they go to the C library; `Command.Template` describes the templates covered.
- Memory allocation failure other than for a length that wrapped around, `free`, the spare capacity and headers of sds strings (`sdsMakeRoomFor`), and the custom object functions of the reader.
- Error texts: `Resp.Fault` has one value for each message.
- Sockets, timeouts and event libraries (net.c, adapters): a write becomes a step with any outcome that fits its `int`, a read event brings any bytes.
- Reader.Reader.Feed: the buffer is kept at most INT_MAX bytes long; beyond that `seekNewline` and `readBytes` truncate, as `Reader.SeekFindsNothing` says.
- Reader.RunSession: the same bound on what is unread at each feed, next to fewer than 1024 bytes not dropped yet.
- Command.FormatCommandArgv: `Command.Undefined` stands for a length that wrapped to a smaller one or cannot be incremented, after which C leaves the buffer.
- Quoting.SdsCatRepr: characters are classified as in the C locale.
- Dict.HashTable.ExpandIfNeeded: the table it grows to has less than LONG_MAX slots; a larger one cannot be allocated.
- Dict.HashTable.KeyIndex: the same.
- Dict.HashTable.Add: a new key has a slot below 2^31; otherwise `_dictKeyIndex` returns another number, as `Dict.HashTable.KeyIndex` says, and the code indexes with it.
- Dict.HashTable.Replace: the same.
- Dict.Run: the map has fewer than 2^30 keys at a time, so that slots stay below 2^31.
- Dict.Sweep: entries other than the one just returned are not deleted during the iteration.
- Hash and comparison functions of dictionaries are an arbitrary function and equality; key and value duplication and destructors are left out.
- The Redis server, the peers and the dialogue with them (network.c, peer.c, tnfs-server.c): `look_for_block` is any change to the registry and the block files. Registry and files change between calls of `read_block`, not in the middle of one.
- Dag.Store.ReadBlock: nothing bounds how often the code retries; a run meets a finite list of interferences.
- Files.HashToString: the output has room for the terminator, one byte more than the callers in file.c and dag.c give it.
- Dag.Store.CreateParent: a file name has at most 255 bytes, the room that a node has.
- Tnfs.AddTnfsFile: the same; the file is read and blocks are written without I/O errors.
- Tnfs.GetTnfsFile: `Undefined` stands for reading past a node, which only images that were not made by adding a file, or a file of exactly MAX_FILE_LENGTH bytes, lead to. A file shorter than a node is read as if zero-filled. What is written to the output file is on disk at once. Which block file, if any, a file name denotes is given by a function (`Dag.Store.blockOf`).
- SHA-256 is not assumed to be injective: that no file in the store collides with the blocks of the file in question is a stated condition (`Dag.Store.Trusted`).
- Logging, colours, the command line, `tnfs_get_infos` and the peer list.
