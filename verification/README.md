# A verified model of red1z

red1z is a Redis client. This project models its protocol stack in Dafny, layer by layer, and proves what each layer promises to the next, up to one statement about the whole: a pipeline of typed calls over a partially transferring socket gives what executing the calls one at a time gives.

| file | what it models |
|---|---|
| `Decimal.dfy` | integers as text: `std::to_string`, `std::from_chars` and the int64 range |
| `Resp.dfy` | RESP2 replies as trees, their printing, and the reader as a function of the whole stream |
| `Server.dfy` | the peer: MULTI/EXEC/DISCARD as a machine over requests, and over bytes |
| `Socket.dfy` | the 256-byte read buffer, and scatter-gather sending |
| `Reader.dfy` | `_read_line`, `read_bulk_string`, `read_array`, `read_reply` over that buffer |
| `WriteAsWritten.dfy` | the partial-send arithmetic of `write_many` exactly as it stands |
| `Context.dfy` | the command queue and the requests in flight |
| `Pipeline.dfy` | dynamic pipelines and transactions |
| `Redis.dfy` | the four ways of running commands, and how they compare |
| `Signature.dfy` | the signature language, and the `encode` overloads as they are written and as they are meant |
| `Regularity.dfy`, `Packs.dfy` | which word they choose for a call, without and with unpacked ranges |
| `CommandSignatures.dfy` | the signatures that commands are declared with |
| `Encoder.dfy` | the `Encoder` and the overloads as methods that append to it |
| `Fillings.dfy` | what is sent for every way to fill in a signature, and by XREADGROUP, XREAD, SET, MSET and ZADD |
| `EndToEnd.dfy` | calls to bytes to server to bytes to results |
| `Streams.dfy` | decoding of stream replies |
| `Codec.dfy` | binary codecs of arrays, vectors, pairs and tuples, and the sequential writer and reader |

`dafny verify dfyconfig.toml` checks everything.

## How to read it

A byte string is a Dafny `string`, one `char` per byte. A C++ exception is a `Fail(Thrown(...))` result, or the `Error` of a `Try` or a `Read`.

The operating system is a pair of functions, `grant` and `accept`: the `k`-th `recv` returns at most `1 + grant(k)` bytes and the `k`-th `sendmsg` accepts at most `1 + accept(k)`. The theorems hold for all such functions, so for every way the two byte streams can be cut up. `Prompt()` names the peers whose `recv` never comes up short, `Grants(n)` those that deliver at least `n` bytes at a time. `CommandQueue` is the part of `Context.Context` that pipelines use.

A server is deterministic. Its data are the list of data commands it has executed, and `Rules.answer` is an arbitrary function of that list and the next command. `Rules.refuses` marks the commands it turns down while they are being queued in a transaction. Its replies keep to the protocol's own limits (`Printable`). Transactions follow the Redis documentation page "Transactions", replies and requests the Redis serialization protocol specification (RESP2), sections "Simple strings", "Integers", "Bulk strings" and "Arrays".

## Where the code does not do what it is meant to do

The model keeps the code as it is and proves when it is right.

- `Socket::read` refills its buffer with one `recv` and does not look at the result (`src/socket.cpp:105-108`). `Socket.Read` returns the next bytes if and only if `Covered` holds: the bytes are buffered, or too many for the buffer, or that one `recv` brings enough. Otherwise `m_pos` passes `m_size`; the model stops there with `Fail(Short)`, and every later contract says what holds unless this has happened and that it never happens with a prompt peer.
- `Socket::discard` subtracts what it asks for, not what it gets (`src/socket.cpp:70-74`). `SkippedExactly` has the exact condition. Its one caller overshoots the buffer by at most one byte, where it is always right (`DiscardOneMore`).
- `Socket::write_many` restarts its walk at the front of the queue and advances by `n - ret` (`src/socket.cpp:156-177`). `DeliversExactlyWhenSentAtOnce`: it returns with everything delivered once if and only if the first `sendmsg` accepts everything; `PartialSendRepeatsBytes` is an input on which it fails. `Socket.WriteMany` is the algorithm its comments describe; it agrees with the code whenever the first `sendmsg` accepts everything, and the layers above are built on it.
- An error inside an array is thrown before the rest of the array is read (`src/reply.cpp:55-58`). `ReaderStaysInStep`: the stream stays in step if and only if nothing is printed behind the first error; `ErrorInsideArrayLeavesBytes` is a case where it does not.
- What stands behind such an error is read in place of the next replies. `Context.GetReply` says which reply that is, and every method above says what is left to be read when it ends, so the contracts hold on connections that are out of step too.
- The `encode` overload for trailing flags behind `many<>` declares a template parameter that no argument determines, so it is never a candidate (`include/red1z/signature.h:223-229`). Where the arguments run out in front of a `many<>` with parameters behind it, the only candidate is the one that throws "missing arguments" (307-311), and many values with nothing but flags left behind them expand to a parameter that takes no flag. `Signature.Encode` has both sets of overloads, as written and as meant, and `Encoder` follows the former. `Regularity.ChoosesTheWord` has the exact condition. Of the signatures in use eleven are not affected (`WrittenAsMeant`), ZINTERSTORE, XAUTOCLAIM and XCLAIM cannot be called (`NeverEncoded`), and SORT only with a flag that stands behind GET (`SortNeedsTrailingFlag`; `SortOfAKey` is an input).
- A pack whose elements would fit is not always taken like them: `PacksFitExactly` has the exact condition, `PackReachesTrailing` and `FlagAndPackAsPair` are inputs.
- A destructor that drains the replies of a failed pipeline lets the next error reply escape, which ends the program. `PipelineDynamic` and `PipelineStatic` have the exact condition, `SecondErrorEscapes` is an input. In a transaction with a refused command it always happens, because EXEC is answered with an error too (`TransactionDynamic`, `AbandonTransaction`).
- `README.md:181` says that nothing is sent before `execute()`, and `README.md:231` that pipelines have no `discard()`. In the code a pipeline that is dropped or discarded sends its commands and they take effect (`AbandonPipeline`).
- `README.md:235` promises an exception for data of the wrong size. Tuples of several components do not check the length, arrays of arrays check only that it is a multiple. `ReadOrRefused` has the exact condition for every type, `ArrayOfArrays` inputs.

## Model

| member | source | states |
|---|---|---|
| `Decimal.FromCharsDecimal` | src/reply.cpp:41-49 | every int64 that is printed is read back as itself |
| `Decimal.FromCharsExactly` | src/reply.cpp:44-47 | for any text: a run of digits is read up to its end, with and without a minus sign, what stands behind it is ignored, and no digit or a value beyond int64 is refused |
| `Decimal.EveryInt64` | src/reply.cpp:41-49 | every integer from -9223372036854775808 to 9223372036854775807 is read back from its decimal digits |
| `Decimal.Int64Limits` | src/reply.cpp:44-47 | the texts of the two limits give those numbers, and those of the numbers one beyond them are refused |
| `Resp.ParsePrint` | src/reply.cpp:41-121 | for every printable tree and every continuation, the reader returns the tree (nulls of both kinds as Nil, both kinds of string as Text) and stops right behind it, or throws its first error and stops right behind that |
| `Resp.RepliesOnTheWire` | src/reply.cpp:103-118 | one reply of every kind that is no array, byte for byte |
| `Resp.ArrayOnTheWire` | src/reply.cpp:85-101 | an array of an integer and an empty string, byte for byte |
| `Resp.LineTakesAnyByte` | src/reply.cpp:13-20 | a line ends at its CR, and the one byte behind that is dropped whatever it is |
| `Resp.ReaderStaysInStep` | src/reply.cpp:55-58 | after reading a printed tree exactly the continuation is left if and only if nothing is printed behind the first error |
| `Resp.NothingLeftOver` | src/reply.cpp:96-98 | what stands behind the first error of a tree, array by array outwards, is nothing if and only if the tree is in step |
| `Resp.ErrorInsideArrayLeavesBytes` | src/reply.cpp:96-98 | a concrete array whose first element is an error leaves its second element on the stream |
| `Resp.WrongDelimiterIsRefused` | src/reply.cpp:76-80 | a bulk string of any bytes that is not followed by CR LF is refused, with the wrong delimiter consumed |
| `Resp.MalformedInArray` | src/reply.cpp:85-121 | an unknown type, a number that is none, a length below -1 or a wrong delimiter at any position of an array is refused there, with the reader right behind what it has looked at |
| `Resp.ParseExtend` | src/reply.cpp:103-121 | a complete reply is read, and a complete error is raised, the same whatever arrives behind it |
| `Server.RequestRoundTrip` | include/red1z/io.h:124-157 | a request reads back as the same strings, whatever bytes they hold, and leaves exactly what follows |
| `Server.WireUnique` | include/red1z/context.h:96-99 | commands sent back to back split uniquely |
| `Server.ReceiveInPieces` | src/socket.cpp:133-182 | the server's state and replies do not depend on how the sender slices the bytes |
| `Server.ServeRequests` | include/red1z/context.h:96-99 | commands sent back to back are run in order and answered in order |
| `Server.TransactionRun` | include/red1z/transaction.h:14-33 | MULTI, n commands, EXEC get one OK, n queue replies and the array of answers; the commands take effect together, in order, and only if none is refused |
| `Server.DiscardRun` | include/red1z/transaction.h:35-37 | MULTI, n commands, DISCARD leave the data unchanged and the mode Normal |
| `Server.PlainRun` | include/red1z/red1z.h:97-100 | outside a transaction the same commands leave the same data and get the same answers |
| `Socket.SkippedExactly` | src/socket.cpp:69-76 | the discard loop takes exactly what it should if and only if that much has been sent and each of its recvs returns all it asked for |
| `Socket.SkippedInTurn` | src/socket.cpp:69-76 | for all deliveries: the discard loop makes one recv for every 256 bytes it should take, the j-th asks for at most 256 of what is left after j full buffers whatever came before, and what it takes is the sum of what they return |
| `Socket.FindsExactly` | src/socket.cpp:69-76 | none of its recvs waits for ever if and only if there is a byte left after each number of full buffers asked for |
| `Socket.OneByteAtATime` | src/socket.cpp:105-108 | a concrete delivery in which a refill is short and discard drops too little |
| `Socket.Socket.Read` | src/socket.cpp:79-109 | returns exactly the next n bytes of buffer plus network if and only if it is covered, in all four regimes, and keeps 0 <= pos <= size <= 256; otherwise nothing more arrives or pos passes size; a refill is one recv of up to 256 bytes, and a read from the buffer is none |
| `Socket.Socket.PromptCovers` | src/socket.cpp:104-108 | with a prompt peer every read of bytes that have been sent is covered, as it is with any peer that grants as much as is read (GrantsCover) |
| `Socket.Socket.Discard` | src/socket.cpp:64-77 | drops the next n bytes if they are buffered, otherwise the buffer and what its recvs return; it ends if and only if they are buffered or each of these recvs finds a byte |
| `Socket.Socket.DiscardOneMore` | src/reply.cpp:17 | one byte beyond the buffer is always dropped correctly |
| `Socket.Socket.Advance` | src/socket.cpp:157-172 | the iovec window denotes the unsent suffix after any number of accepted bytes (intended arithmetic) |
| `Socket.Socket.WriteMany` | src/socket.cpp:133-182 | for every sequence of partial accepts the server receives the concatenation of the commands exactly once and in order (intended arithmetic) |
| `WriteAsWritten.Sender.OneWalk` | src/socket.cpp:157-172 | the for loop as written is function Walk, of which WalkStops says where it stops |
| `WriteAsWritten.Sender.WriteMany` | src/socket.cpp:133-182 | the statements as written compute function Written; and for any commands, any first and any second accept: if the first ends in command i with ret of its bytes and unsent bytes still owed, the second goes on at offset unsent of that command, delivers what it takes of that window, and where the length of the window would wrap the outcome is an exception |
| `WriteAsWritten.WalkStops` | src/socket.cpp:157-172 | a walk leaves the window at the first block that is not covered by what is left of ret, with the lengths of the blocks before it subtracted from n and ret, and moves that block by the difference n - ret, which no subtraction changes; if all are covered no block is moved |
| `WriteAsWritten.SecondSend` | src/socket.cpp:156-177 | for any commands, any first accept that ends in command i and any second accept: what has been delivered after the second sendmsg, as slices of the commands |
| `WriteAsWritten.DeliversExactlyWhenSentAtOnce` | src/socket.cpp:156-177 | as written it returns with everything delivered exactly once if and only if the queue is empty or the first sendmsg accepts everything |
| `WriteAsWritten.CountedTwice` | src/socket.cpp:167-170 | once a walk has abandoned accepted bytes, the loop can only end with too much delivered |
| `WriteAsWritten.DeadNeverReturns` | src/socket.cpp:156-177 | once the window holds no bytes while some are owed, the loop never ends normally |
| `WriteAsWritten.PartialSendRepeatsBytes` | src/socket.cpp:165-170 | a concrete partial send after which bytes are sent twice |
| `Reader.ReadLine` | src/reply.cpp:8-39 | from every buffer position it returns the bytes before the first CR and consumes two more, also when the CR is the last buffered byte or either half of a pair; it terminates because the stream shrinks; with two bytes a recv it is never short |
| `Reader.EndInBuffer` | src/reply.cpp:13-20 | the line that ends in the buffer, with its last byte buffered or not |
| `Reader.EndInSecond` | src/reply.cpp:30-35 | the line whose CR is the second byte of a pair |
| `Reader.ReadInteger` | src/reply.cpp:41-49 | the integer of the next line, anywhere in the int64 range (EveryInt64), or the error it raises, and the stream behind the line |
| `Reader.ReadBulk` | src/reply.cpp:64-83 | the payload, or the error for a negative size or a bad delimiter, and the stream behind it |
| `Reader.ReadBulkString` | src/reply.cpp:64-83 | a bulk string with its length, or the error for a bad length, and the stream behind it |
| `Reader.ReadElements` | src/reply.cpp:94-100 | the element loop follows the reader on the whole stream |
| `Reader.ReadArray` | src/reply.cpp:85-101 | an array with its length, or the error for a bad length or inside it, and the stream behind it |
| `Reader.ReadReply` | src/reply.cpp:103-121 | on every stream, buffer state and delivery, unless a refill was short, the result and the remaining stream are those of the reader on the whole stream; no refill is short if every recv brings two bytes and as many as the longest bulk string has, up to 256 |
| `Context.Context.Append` | include/red1z/context.h:86-90 | the reply to be expected for a command is the one the server gives after everything already under way; in_flight counts it |
| `Context.Context.Send` | include/red1z/context.h:96-99 | flushing leaves nothing queued and every reply still to be expected owed by the peer, in order |
| `Context.Context.GetReply` | include/red1z/context.h:41-48 | reads with the queue flushed, and returns what the first of the replies to be expected reads as; what stands behind an error in it is to be expected next, so the k-th read is the k-th expected reply also on a connection that has fallen out of step |
| `Context.Context.Discard` | include/red1z/context.h:106-114 | drains n replies, or raises the first error among them with what follows still to be read |
| `Context.Context.DiscardAll` | include/red1z/context.h:115-117 | drains everything in flight, or raises the first error |
| `Context.RemainsInStep` | src/reply.cpp:96-98 | behind a reply that was thrown nothing but the other replies is to be read if and only if that reply is in step |
| `Context.Context.Execute` | include/red1z/context.h:61-67 | refused while requests are pending, otherwise the next reply to be expected, which is the one to this command if none is left over |
| `Context.Context.StartPipeline` | include/red1z/context.h:78-84 | refused exactly while requests are pending |
| `Pipeline.LiteralsAreWire` | include/red1z/transaction.h:15-36 | the three literals are the requests MULTI, EXEC and DISCARD |
| `Pipeline.BasicPipeline.Run` | include/red1z/basic_pipeline.h:59-64 | pairs the new command with its resolver, and throws once the pipeline is resolved |
| `Pipeline.BasicPipeline.ExecutePipeline` | include/red1z/pipeline.h:17-22 | reply i goes to resolver i up to the first that throws, and result i is what resolver i makes of reply i; exactly the replies looked at have been read, and of the last one what stands before its error |
| `Pipeline.BasicPipeline.ExecuteTransaction` | include/red1z/transaction.h:19-33 | throws away exactly the replies to MULTI and to the n commands, then resolves element i of the EXEC reply with resolver i; an error among the former is raised with the rest still to be read |
| `Pipeline.BasicPipeline.Execute` | include/red1z/basic_pipeline.h:74-84 | runs once, by its kind, and throws when it is already resolved |
| `Pipeline.BasicPipeline.Discard` | include/red1z/basic_pipeline.h:86-90 | sends everything appended, for a transaction with DISCARD, and drains the replies |
| `Pipeline.BasicPipeline.Destroy` | include/red1z/basic_pipeline.h:53-57 | gets through if and only if no reply still to be drained holds an error |
| `Pipeline.BasicPipeline.ResolveElements` | include/red1z/basic_pipeline.h:78-81 | the resolver lambda over the elements of an array |
| `Redis.PipelineIsOneByOne` | include/red1z/pipeline.h:17-22 | results and errors of a pipeline are those of executing its commands in turn, which stops the server behind the first that throws |
| `Redis.StaticAgainstDynamic` | include/red1z/red1z.h:124-133 | without an error reply the static pipeline gives what the dynamic one gives, errors of processing included; with one it throws the first, whatever processing would throw, and the dynamic one the same unless processing fails before it |
| `Redis.StaticIsOneByOne` | include/red1z/red1z.h:124-133 | without an error reply the static pipeline gives what executing the commands in turn gives, errors of processing included |
| `Redis.TransactionIsOneByOne` | include/red1z/red1z.h:226-233 | static and dynamic transactions give the same; without an error in an answer it is what executing the commands in turn gives, with one there is no result |
| `Redis.SecondErrorEscapes` | include/red1z/context.h:123-125 | a concrete pipeline whose destruction ends the program: two commands, both answered with an error |
| `Redis.Redis.Run` | include/red1z/red1z.h:97-100 | one command: the server's reply, processed |
| `Redis.Redis.RunInTurn` | include/red1z/red1z.h:97-100 | commands executed in turn over the socket: results, final server state and what is left unread, as in the reference; reply k goes to the process of command k, up to the first that throws |
| `Redis.Redis.NewPipeline` | include/red1z/basic_pipeline.h:51 | constructing a pipeline is refused while requests are pending, and otherwise appends nothing, for a transaction MULTI |
| `Redis.Redis.PipelineDynamic` | include/red1z/basic_pipeline.h:51-84 | a pipeline from construction to destruction, whatever the server answers: reply k goes to the process of command k up to the first that throws, the results are those of executing the commands in turn; after a failure at reply k the destructor goes on behind the error, and gets through if and only if the next replies it finds there hold none |
| `Redis.Redis.FinishPipeline` | include/red1z/basic_pipeline.h:53-84 | the same of execute() and the end of the scope of any filled pipeline, also with replies left over from before |
| `Redis.Redis.AbandonPipeline` | include/red1z/basic_pipeline.h:53-57 | a pipeline that is dropped still runs all its commands |
| `Redis.Redis.TransactionDynamic` | include/red1z/transaction.h:14-33 | whatever the server answers: result i is what the process of command i makes of element i, the server ends in Normal mode with the commands run in order, and what stands behind an error among the elements is left unread; with a refused command nothing takes effect and the destructor raises |
| `Redis.Redis.AbandonTransaction` | include/red1z/transaction.h:35-37 | a dropped transaction leaves the data unchanged and, unless a command was refused, the connection ready |
| `Redis.Redis.PipelineStatic` | include/red1z/red1z.h:124-133 | whatever the server answers: all replies are read before the first is processed, then reply k goes to the process of command k; the first error reply wins over processing errors; without one the outcome, errors included, is that of executing the commands in turn; and the destructor gets through if and only if the next replies it finds behind an error hold none |
| `Redis.Redis.TransactionStatic` | include/red1z/red1z.h:107-117 | the same contract as the dynamic transaction |
| `Redis.Redis.ProcessTransactionReply` | include/red1z/red1z.h:226-233 | the reply to EXEC, whatever it holds: element i goes to the process of command i if there are as many elements as commands, the first error in it is thrown before, and another number of elements or no array is refused |
| `Signature.Sound` | include/red1z/signature.h:83-325 | whatever the overloads emit, as written or as meant, is a word of the signature, and without its keywords it is the caller's arguments in the caller's order, packs and flags included |
| `Regularity.Complete` | include/red1z/signature.h:83-325 | a word of a regular signature is what is emitted for its arguments: as meant always, as written if and only if it leaves every many<> an argument for the parameters behind it |
| `Regularity.ChoosesTheWord` | include/red1z/signature.h:198-229 | for regular signatures and arguments without packs: as written a word is emitted if and only if it is a word of the signature made of these arguments in which every many<> with parameters behind it is still left with an argument for them and many<> values have but one arg or pair behind them; as meant without that condition |
| `Regularity.TightAgrees` | include/red1z/signature.h:206-229 | where many<> is last, or many<> values stand in front of one last arg or pair, the overloads as written do what they are meant to do, with every call, failures included |
| `Regularity.LooseNeverEncodes` | include/red1z/signature.h:223-229 | with many<> values in front of anything else the overloads as written encode no call at all |
| `Regularity.AgreesWithFlagBehind` | include/red1z/signature.h:307-318 | with one many<> of a flag and flags behind it a call is encoded as written if and only if it is as meant and one of the flags behind is among the arguments |
| `Regularity.OptionalTakesFirst` | include/red1z/signature.h:99-107 | a concrete signature outside this class, where the optional flag takes the argument of the mandatory one |
| `Signature.KeysInOrder` | include/red1z/signature.h:83-90 | the keywords of the signature, all of them, in order, and no others |
| `Signature.HeaderAgrees` | include/red1z/signature.h:327-347 | the count in the array header equals the number of bulk strings emitted, for all pack sizes and flags, whenever encoding completes |
| `Signature.WeightExpanded` | include/red1z/signature.h:198-204 | the expansion of many<T> to T, many<T> lowers the measure by which the overloads terminate |
| `Packs.PacksAreTransparent` | include/red1z/signature.h:231-305 | as meant: whatever a call with packs emits, empty packs included, the call with their elements written out emits too |
| `Packs.PacksFitExactly` | include/red1z/signature.h:231-305 | for signatures whose single values come before their pairs, and packs that are not empty: a call with packs is encoded if and only if the call with their elements written out is, the packs of single values lie among the values taken singly and those of pairs behind them with no pair torn apart, and no pack is all there is for a parameter behind many<>; it is then encoded the same |
| `Packs.SinglesFitExactly` | include/red1z/signature.h:231-241 | without pairs: if the written-out call is encoded, the call with packs of single values is encoded the same if and only if the signature does not end in many<arg>, arg or the last argument is no pack |
| `Packs.FlagAndPackAsPair` | include/red1z/signature.h:213-221 | a concrete call outside this class, where a flag and a pack are taken for the two halves of the last pair |
| `Packs.PackReachesTrailing` | include/red1z/signature.h:231-241 | a pack in front of a trailing parameter takes all, where its elements written out would match |
| `Packs.VariadicTakesAll` | include/red1z/signature.h:268-305 | for signatures like that of MSET, packs and single items may be mixed at will: all are emitted in order if there are enough, otherwise arguments are missing |
| `CommandSignatures.SignaturesInUseAreRegular` | include/red1z/commands/generic.h:147-150 | the signatures of all commands that are declared with one are regular |
| `CommandSignatures.WrittenAsMeant` | include/red1z/commands/hash.h:84-91 | eleven of the fifteen signatures are encoded as written as they are meant, every call |
| `CommandSignatures.NeverEncoded` | include/red1z/commands/sorted_set.h:162-167 | no call of ZINTERSTORE, XAUTOCLAIM or XCLAIM is encoded |
| `CommandSignatures.SortNeedsTrailingFlag` | include/red1z/commands/generic.h:144-150 | a call of SORT is encoded if and only if it is one as meant and has an order, alpha or store flag |
| `CommandSignatures.SortOfAKey` | include/red1z/commands/generic.h:144-150 | SORT with nothing but a key throws |
| `CommandSignatures.BlPopWithPacks` | include/red1z/commands/list.h:13-20 | BLPOP with keys singly or in ranges: all values are emitted in order if and only if there are two and the last argument is no range |
| `CommandSignatures.HSetWithPacks` | include/red1z/commands/hash.h:84-91 | HSET with fields singly or in ranges of pairs: all values are emitted in order if and only if there are fields and no pair is torn apart |
| `CommandSignatures.RangeOfKeys` | include/red1z/commands/list.h:13-20 | BLPOP of a range of keys and a timeout |
| `CommandSignatures.RangeOfFields` | include/red1z/commands/hash.h:84-91 | HSET of a key and a range of fields |
| `Encoder.Encoder.EncodeOne` | include/red1z/io.h:135-143 | appends one bulk string |
| `Encoder.Encoder.EncodeRows` | include/red1z/args.h:61-78 | appends the elements of a pack in order |
| `Encoder.SpelledInOrder` | include/red1z/signature.h:85-129 | the strings of any word are, position by position, the keyword of that number for a keyword, the value for a value and the words in order for a flag |
| `Encoder.Encoder.EncodeArgs` | include/red1z/signature.h:83-325 | the overloads as written, by recursion over signature and arguments, append exactly the chosen word, or report missing arguments or no overload |
| `Encoder.Encoder.EncodeFirstRow` | include/red1z/signature.h:268-286 | encode_from_pack: one element here, the others packed again |
| `Encoder.Encoder.EncodeGeneric` | include/red1z/signature.h:53-76 | without a signature every argument is appended as it comes |
| `Encoder.EncodeCommand` | include/red1z/signature.h:340-347 | the finished bytes are the request made of the command's name and the word the overloads as written choose, header included; SpelledInOrder and EncodeFilled say which strings a word stands for |
| `Encoder.EncodePlainCommand` | include/red1z/command.h:45-50 | the finished bytes are the request made of the name and all arguments |
| `Fillings.FillingChosen` | include/red1z/signature.h:83-325 | however a regular signature is filled in, the overloads choose its word: as they are meant always, as written if many<> values have but one arg or pair behind them |
| `Fillings.EncodeFilled` | include/red1z/signature.h:340-347 | the bytes of such a call are the request made of the name and, in the order of the signature, every keyword under its own number, every value and the words of every flag, optional ones only if given |
| `Fillings.XReadGroup` | include/red1z/commands/stream.h:388-399 | XREADGROUP GROUP group consumer, the options in that order whatever their words, STREAMS, the keys and ids |
| `Fillings.XRead` | include/red1z/commands/stream.h:379-386 | XREAD, the options, STREAMS, the keys and ids |
| `Fillings.Set` | include/red1z/commands/string.h:150-156 | SET key value and the words of both options |
| `Fillings.MSet` | include/red1z/commands/string.h:134-139 | MSET and all pairs in order, or missing arguments without a pair |
| `Fillings.ZAdd` | include/red1z/commands/sorted_set.h:118-134 | ZADD key, the three options in order, all pairs in order, or missing arguments without a pair |
| `EndToEnd.EncodeCalls` | include/red1z/command.h:82-91 | the bytes of every command object are the request its arguments match |
| `EndToEnd.RunPipelined` | include/red1z/basic_pipeline.h:59-84 | typed calls, encoded, pipelined over any cutting of the two byte streams, whatever the server answers: the results of executing them in turn and the same server data, result k being what call k makes of reply k; if they succeed no byte is left unread, and if not it is said exactly when the destructor gets through and when it leaves the connection at rest |
| `EndToEnd.RunInTurn` | include/red1z/red1z.h:97-100 | the same calls one at a time, result k being what call k makes of reply k |
| `EndToEnd.RunTransaction` | include/red1z/transaction.h:14-33 | the same calls in a transaction, whatever the server answers: refused as a whole, without a result because an answer holds an error, or with the results of executing them in turn, result k being what call k makes of answer k; the connection is left at rest if and only if none is refused and nothing stands behind the first error |
| `Streams.ReadStream` | include/red1z/commands/stream.h:99-120 | the loops of StreamReadCommand compute the decoding function, errors included |
| `Streams.ReadMulti` | include/red1z/commands/stream.h:135-171 | the loops of MultiStreamReadCommand compute the decoding function; a null reply gives nothing |
| `Streams.StreamsDecode` | include/red1z/commands/stream.h:99-143 | every nested list of streams, entries and fields is read back from its flattened reply, in order |
| `Streams.VectorRoundTrip` | include/red1z/commands/stream.h:27-35 | into vectors it is read back unchanged |
| `Streams.MapKeepsFirst` | include/red1z/commands/stream.h:17-25 | into maps, the same streams and entries are read back in order, and in each entry the first value of every name, and no other name |
| `Streams.DecodesExactlyFlattenings` | include/red1z/commands/stream.h:104-106 | a reply is decoded if and only if it is the flattening of some streams |
| `Streams.EntryRefused` | include/red1z/commands/stream.h:99-120 | an entry that is no array, not of size two, with an odd list of fields or with a part that is no string, in any stream behind any good entries and streams, is refused with the error for just that |
| `Streams.StreamRefused` | include/red1z/commands/stream.h:129-143 | so is a stream that is no array, not of size two, without a name or without a list of entries |
| `Codec.RoundTrip` | include/red1z/io.h:207-329 | every value of a supported type is read back from its view |
| `Codec.ViewLength` | include/red1z/io.h:308-311 | the view of an item has its item size; arrays nest multiplicatively |
| `Codec.ComponentAt` | include/red1z/io.h:456-471 | the prefix-sum offsets tile the view of a tuple without gap or overlap |
| `Codec.BytesOfATuple` | include/red1z/io.h:456-495 | a concrete tuple of an array and an item, byte for byte, and read back |
| `Codec.ItemRead` | include/red1z/io.h:84-99 | an item is read from exactly its size, and has that view; a wrong size goes unnoticed exactly for arrays of arrays whose element size divides it |
| `Codec.VectorRead` | include/red1z/io.h:253-262 | a vector is read from exactly the lengths its item size divides |
| `Codec.TupleRead` | include/red1z/io.h:467-495 | a pair is read from exactly its size, a tuple from anything at least as long |
| `Codec.ReadOrRefused` | include/red1z/io.h:243-329 | for every supported type and any data: read from exactly the right lengths, undefined for exactly those that go unnoticed (another number of elements for an array of arrays, too little for a tuple of several components), and refused for the others |
| `Codec.ArrayOfArrays` | include/red1z/io.h:312-319 | a concrete array of arrays with too little, too much and an indivisible amount of data |
| `Codec.ViewItems` | include/red1z/io.h:229-237 | the appending loop concatenates the views |
| `Codec.ReadVector` | include/red1z/io.h:269-276 | the element loop reads what the specification reads |
| `Codec.IoReader.Read` | include/red1z/io.h:534-544 | takes an item off the front, or throws exactly when it exceeds what is left; consumed plus left is constant |
| `Codec.IoReader.ReadMany` | include/red1z/io.h:551-563 | reads of several items one after the other |
| `Codec.WriteThenRead` | include/red1z/io.h:509-563 | a writer and then a reader on what it wrote, whatever follows: the same items, and exactly what follows is left |
| `Codec.IoWriter.WriteMany` | include/red1z/io.h:509-518 | writes of several items append their views in order |
| `Codec.ReadsWhatWasWritten` | include/red1z/io.h:509-590 | what was written item by item is read back by the same types |
| `Codec.ReadsAllOrRefuses` | include/red1z/io.h:534-544 | items are read if and only if there is data for all of them, and otherwise it throws |

## Left out

- Connecting, host lookup, poll, EINTR and errno: operating system calls; recv and sendmsg are transfers of an arbitrary number of bytes, a closed peer is one that sends nothing more.
- Kernel limits on the number of blocks of one sendmsg, and failed allocations for huge announced sizes.
- A connection after a short refill: the model says when it gets there and does not follow the stale bytes any further.
- More than one live pipeline on a Context: start_pipeline only looks at the number of requests in flight.
- Publish/subscribe, get_message, URL parsing, AUTH and SELECT.
- The ranking of overloads by the C++ compiler: Signature.Encode resolves every call as the comments beside the overloads say, also where the compiler would find two candidates equally good; a pack is always taken by the overloads for packs. That one overload is no candidate at all is modelled.
- Calls that C++ rejects at compile time because of a pack that would fit at run time: Signature.Encode looks at the call that is made, and NoMatch is a call that no overload takes.
- Signatures with pairs in front of single values, or with many<> of both kinds, and packs: no command is declared with one. PacksAreTransparent covers them in one direction.
- cvt and io<T>::view of arguments: values enter the encoder as the bytes they are sent as, floating-point text in particular.
- many<> of anything but arg, pair or an optional flag: no command uses it.
- process_into with an output iterator and the order in which make_tuple evaluates its arguments: resolvers return values, the static forms process from left to right.
- Dereferencing after a move: replies are values.
- The order of the two accessors in MultiStreamReadCommand's emplace_back, which only matters for which error is thrown.
- The list, forward_list, deque and set codecs, one-component tuples of vectors, and the memory layout of primitive types.
- WATCH: a null reply to EXEC is handled as any reply that is no array, but the server here never sends one.
- Element counts beyond int: in_flight is bounded by INT_MAX, array sizes and bulk lengths by int64.
