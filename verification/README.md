# Zencached, verified

A Dafny model of the memcached client zencached: what it sends, how it delimits and reads replies, how a
connection recovers, how workers, their channels and the rebalance behave, and what a cluster of servers amounts
to for a caller. `dafny verify dfyconfig.toml` checks everything.

## How to read it

| file | content |
|---|---|
| `Bytes.dfy`, `Decimal.dfy` | byte strings, decimal numbers |
| `MarkerSearch.dfy` | the backward search for a marker |
| `Protocol.dfy` | key validation, the printing of commands, and a server-side parser after memcached's doc/protocol.txt |
| `Replies.dfy`, `MalformedReplies.dfy` | the printing of replies and the reading of a get reply; replies that no server prints |
| `Characters.dfy` | commands, replies, numbers and base64, in characters |
| `Telnet.dfy` | one connection and its worker loop: the class `Conn`, and the functions its methods are proved against |
| `Failures.dfy` | which error answers a job that fails, exactly when, what link it leaves, and which errors make a worker leave |
| `AddressCheck.dfy` | the checker goroutine against the worker's redials, as a state machine |
| `StaleReplies.dfy` | no job is given bytes of an earlier one, and exactly when that fails |
| `Framing.dfy` | which replies can be delimited, under which cuttings into chunks |
| `Compression.dfy` | unpadded base64, the layering of the Zstandard path, encoded values in replies |
| `Operations.dfy`, `Cluster.dfy` | operations end to end, and the cluster as one map |
| `Refusals.dfy` | what a caller is told when nothing is sent, or when the job fails |
| `AnyNetwork.dfy` | what an answer without error is worth when the network is not calm |
| `WorkerPool.dfy`, `Signalling.dfy` | the job channel of a node with the rebalance channel, and its disconnection channel, as state machines |
| `Sorting.dfy`, `Rebalancing.dfy`, `RebalancingStability.dfy` | `sort.Sort` as a compare/swap program, rebalance and Shutdown |
| `WorkerLives.dfy` | the end of every worker |
| `RepeatedNodes.dfy` | what a listing does that names a node twice |

The network is a script of events (`Telnet.Script`): chunks of any size up to the read buffer, timeouts, end of
stream, failures, refused deadlines, redials that succeed or not, and the checker goroutine latching the failure
flag. A statement for all scripts is a statement for all behaviours of the network. Reply bytes carry the number
of the job they answer, so that staleness can be stated. Three things about the network are taken for granted:
setting a read deadline fails only on a connection that is already closed; a read of no bytes without an error
does not happen on a live connection, so it is treated as the end of the stream; a server answers each complete
command it receives once, in order, on the connection the command came by. A write that succeeds is no receipt: the
peer can be gone unnoticed, so the network also chooses whether a command is received, written or not
(`Operations.Net`); one that is received at all is received before the next operation begins. The failure flag is
looked at twice in a job, so a flip inside a send or a read counts from the next look on.

A reply is handed on in the buffer it was gathered in. Go lets a slice reach past the end of the reply into the
capacity of that buffer, so every reading of a get reply has the bytes behind it, `spare`, as a parameter. What is
proved to be safe is proved for every `spare`. What is proved to go wrong is proved for what is really there:
the buffer starts empty and is only appended to (telnet.go:411-448), so the bytes behind the reply are zeros, and
only their number `room` is a parameter, because the Go runtime decides how a buffer grows.

The struct Zencached appears as two classes: `Rebalancing.Client` has the fields that a rebalance replaces, and
`Cluster.Zencached` what an operation sees of them, together with the contents of the servers.

A goroutine's step is one atomic action of a state machine. A pointer to a worker is its number in the table of
all workers ever made.

## What is proved

* **Command stream.** For every list of set/add/get/delete requests with valid keys, arbitrary values and times
  to live, the concatenated bytes parse back into exactly that list (`Protocol.StreamDecodes`).
* **Get replies.** The reading undoes the printing for every value, whatever stands behind the reply in its buffer
  (`Replies.ExtractInvertsPrinting`).
* **On the wire.** Every request is the text of doc/protocol.txt, character by character (`Characters.RequestIsAscii`).
* **Malformed replies.** Every reply that is no VALUE line is refused in a way that is told by its shape, or makes the
  reader index past it (the module `MalformedReplies`).
* **Marker search.** Sound always. A marker that is there is found at all exactly when the bytes behind some
  occurrence leave no attempt half done (`MarkerSearch.FoundExactlyWhen`), and the last one is found exactly when
  those behind it do (`MarkerSearch.FindsLastExactlyWhen`).
* **No stale replies.** Over every run of a worker, a job's answer without error is taken from its own reply,
  provided each reply has its markers only at its end (`StaleReplies.NoStaleReplies`). The condition is exact: a
  later job can be handed a stale byte exactly when the earlier reply has a marker before its end
  (`StaleReplies.StaleExactlyWhen`).
* **Chunking.** Such a reply is read as it is in one piece exactly when its last chunk holds the marker that is
  first found in it (`Framing.ChunkingExactlyWhen`).
* **One map.** Any sequence of operations without router hash on a cluster of connected nodes with healthy links and
  framed replies gives the results of one map keyed by path and key together, from rendered bytes to decompressed
  data, and leaves the links healthy (`Cluster.ShardedRunRefinesMap`).
* **Failures.** Each failure of the network is answered with its own error, exactly then and whatever the operation is
  (`Refusals.FailuresReachTheCaller`), and leaves a fresh connection, none, a dead one or a latched failure
  (`Failures.JobLeaves`); a deadline costs one job only (`Failures.DeadlineHeals`). A worker leaves exactly behind the
  first of the three errors that mean a disconnection (`Failures.WorkerLeavesExactlyWhen`). Nothing is sent to a node
  that is disconnected (`Refusals.NothingIsSent`).
* **Any network.** From a clean link, and under every script, a get without error brings what is stored or has no
  type because the stream ended, unless `END CR LF` stands in the data before its end (`AnyNetwork.GetIsNeverWrong`,
  `AnyNetwork.GetIsTruthful`), and a miss is never reported of data that is there
  (`AnyNetwork.MissExactlyWhenAbsent`); deletes and sets never report the wrong thing; an add can, exactly when its
  key is there (`AnyNetwork.FalseReportExactlyWhen`). On a clean link an answer without error means that the server
  obeyed (`Operations.AnsweredIsObeyed`), on no other does it (`Operations.AnswerMeansReceivedExactlyWhen`), and links
  stay clean over every run whose gets meet data that can be told from its ending (`Cluster.RunKeepsClean`); an error
  leaves it open (`Operations.ErrorsAreUndecided`).
* **Workers.** Jobs are conserved in every interleaving, a closed pool drains in a bounded number of steps, and a
  job can be stranded exactly when workers leave on disconnection (`WorkerPool.StrandsExactlyWhen`). A send meets
  a closed channel exactly when a terminate comes between the look at `connected` and the send
  (`WorkerPool.PanicsExactlyWhen`). Reporting a disconnection never blocks exactly when the channel has room for one
  signal per connection (`Signalling.NeverBlocksExactlyWhen`).
* **Rebalance.** The two arrays, sorted one by one, stay aligned over every run; over every run and one Shutdown the
  channels of every worker are closed exactly once, unless its node was dropped from a listing
  (`WorkerLives.WorkersEndOnce`); rebalancing again changes nothing; the order of the listing does not matter.

## What is false of the code

* A get reply whose data holds `END CR LF`, or ends in `END`, can be cut by the network so that the rest of it is
  taken for the next job's reply (`Framing.GetReplyIsSuffixOnlyExactlyWhen`, `StaleReplies.StaleExactlyWhen`).
  Base64 does not exclude it: the values that remain are whole groups of three bytes ending in a multiple of four
  and the letters `CC`, whose encoding ends in `END` (`Compression.EncodedReplyIsSuffixOnlyExactlyWhen`).
* `NOT_STORED` cut so that its last chunk has 8 to 11 bytes is reported as stored (`Framing.NotStoredIsRead`,
  `AnyNetwork.FalseReportExactlyWhen`).
* A get reply can be cut inside its data exactly when `END CR LF` stands in the data before its end
  (`AnyNetwork.GetIsCutExactlyWhen`). It is then read with zeros in the place of what is missing, or sliced out of
  bounds, which is a panic, exactly when the buffer has too little room for them (`AnyNetwork.CutIsReadBy`). So
  other data is read without an error, and without compression handed to the caller with type Found, exactly when
  the reply is cut, there is room, and what is missing is not all zero (`AnyNetwork.GetIsMisreadExactlyWhen`,
  `AnyNetwork.PlainGetIsWrongExactlyWhen`). The network can make a get go wrong in one of the two ways, whatever the
  room, exactly when `END CR LF` stands in the data before a byte that is not zero
  (`AnyNetwork.GetGoesWrongExactlyWhen`).
* An answer without error can stand for a command that no server received, exactly on a link that is not clean
  (`Operations.AnswerMeansReceivedExactlyWhen`).
* The search can miss a marker that is there, as in `END CR LF LF` (`MarkerSearch.HiddenByOneLineFeed`); exactly when
  is told by `MarkerSearch.FoundExactlyWhen`. It never finds a one-byte marker (`MarkerSearch.NeverFound`).
* The reader takes `EALUE` and `ENLUE` for `VALUE`, and no other word (`Replies.TakenForValueExactlyWhen`,
  `Replies.TakesEndForTheStartOfValue`). A server that conforms to doc/protocol.txt never sends these two words.
* ClusterSet stores an empty value, reports it as stored, and Get then misses it; Set refuses the same value
  (`Cluster.EmptyValueIsStoredAndMissed`).
* The error of a disconnected node does not tell that no command was sent: a node that is connected reports it too,
  exactly when its worker loses the connection over the command (`Cluster.IndexIsClosedExactlyWhen`).
* A caller that found a node connected can send to its closed channel, which is a panic
  (`WorkerPool.SendingCanPanic`, `WorkerPool.PanicsExactlyWhen`).
* Shutdown closes the rebalance channel while workers and listeners may still signal on it: the program ends by a
  panic exactly when one does (`WorkerPool.CrashesExactlyWhen`), which can happen exactly with
  RebalanceOnDisconnection (`WorkerPool.CanCrashExactlyWhen`).
* The cluster operations read the length of the array once. They index beyond it, which is a panic, exactly when
  rebalances make it, by the turn of some index, no longer than that index (`Cluster.LoopIsOutOfRangeExactlyWhen`).
* A redial whose name resolution fails leaves no address. The checker goroutine panics exactly when its next tick
  resolves the name before the failure is reported (`AddressCheck.PanicsExactlyWhen`).
* The workers of a node that a listing drops are never ended, not even by Shutdown, and no others are left open
  (`WorkerLives.WorkersEndOnce`).
* A listing that names a node twice can make Shutdown close a channel twice, which is a panic, and only such a listing
  can (`RepeatedNodes.EndsTwiceExactlyWhen`). The rebalance itself does so exactly when it ends the worker of a node
  without replacing it and the listing names the node again (`RepeatedNodes.RebalancePanicsExactlyWhen`).

Where the documentation says something else than the code, the code is modelled: docs/API.md:67 and
docs/ARCHITECTURE.md:148 speak of consistent hashing, the code takes the last byte of the key modulo the number of
nodes (zencached_worker.go:204-220); docs/ARCHITECTURE.md:467 speaks of automatic retries, the code retries no command.

## Model

| member | source | states |
|---|---|---|
| MarkerSearch.FindLastIndexOfByteSlice | telnet.go:479-511 | the loop over `i` and `j` answers what the search by jumps answers, for every text and marker |
| MarkerSearch.SearchSound | telnet.go:479-511 | any answer other than -1 is a real occurrence of the marker |
| MarkerSearch.FoundExactlyWhen | telnet.go:450-455 | for markers of two bytes or more, the search finds anything, which is all that the reading loop asks, exactly when the marker stands somewhere followed by bytes that leave no attempt half done |
| MarkerSearch.FindsLastExactlyWhen | telnet.go:488-508 | for markers of two bytes or more, the answer is the last occurrence exactly when the bytes behind it leave no attempt half done |
| MarkerSearch.FindsLastWhenUnfollowed | telnet.go:488-508 | in particular when the marker's last byte does not occur within the next length-minus-one bytes |
| MarkerSearch.FindsEnding | telnet.go:488-508 | a text that ends in the marker is answered with the place of that ending |
| MarkerSearch.NeverFound | telnet.go:505-507 | a marker of fewer than two bytes is never found |
| MarkerSearch.HiddenByOneLineFeed | telnet.go:496-499 | `END CR LF LF` holds `END CR LF` at 0 and the answer is -1 |
| Decimal.AtoiItoa | zencached_ops.go:402-405 | reading back a printed integer gives it, exactly when it fits an int |
| Decimal.ItoaInjective | telnet.go:42-45 | no two integers print alike |
| Characters.RequestIsAscii | zencached_ops.go:156-179 | the bytes of every request, character by character: verb, composite key, flags 0, time to live, length and value |
| Characters.RepliesAreAscii | zencached_ops.go:53-58 | the replies and words that the client looks for, character by character |
| Characters.DigitsAreAscii | zencached_ops.go:156-179 | numbers are printed digit by digit, the last one last, without leading zeros |
| Characters.IntegerExactlyWhen | zencached_ops.go:402-405 | a length is a number exactly when it is digits with at most one sign before them |
| Characters.EncodingIsAscii | compression.go:42-49 | three bytes are encoded as four letters of the standard alphabet, six bits each, the highest first |
| Protocol.ValidateKey | zencached_ops.go:106-133 | no error exactly for path and key that together have 1 to 250 bytes without space, CR and LF |
| Protocol.RenderStoreCmd | zencached_ops.go:156-179 | the buffer is filled to its last byte with the storage command of protocol.txt; it never has to grow |
| Protocol.RenderKeyOnlyCmd | zencached_ops.go:296-307 | the same for get and delete |
| Protocol.ParseStoreCmd | zencached_ops.go:156-179 | a printed storage command is parsed whole, whatever bytes the value holds and whatever follows |
| Protocol.ParseKeyOnlyCmd | zencached_ops.go:296-307 | a printed get or delete is parsed whole, whatever follows |
| Protocol.ParseRequest | zencached_ops.go:296-307 | every request with a valid key is decoded to its meaning, leaving exactly what follows |
| Protocol.StreamDecodes | zencached_ops.go:156-179 | the server recovers exactly the list of requests from their bytes put end to end |
| Protocol.StreamInjective | zencached_ops.go:156-179 | no two lists of commands have the same bytes |
| Replies.CompareWord | zencached_ops.go:330-336 | the comparison stops at the first difference or at the end of the reply |
| Replies.SkipWord | zencached_ops.go:359-379 | passes over a word and its space, and never lowers `found` |
| Replies.FindLineBreak | zencached_ops.go:389-396 | finds the first two line break bytes in a row, or tells that it would index past the reply |
| Replies.ExtractGetCmdValue | zencached_ops.go:325-408 | the loops read every reply, well-formed or not, with any spare bytes behind it, as `Extract` does, out-of-bounds accesses included |
| Replies.ExtractReadsBlock | zencached_ops.go:368-407 | what is read behind a header: the announced bytes, continued in the spare bytes where the reply ends first, an unusable length, or a slice out of the capacity |
| Replies.ExtractInvertsPrinting | zencached_ops.go:325-408 | for every key without space, flags, data and spare bytes, the data of a VALUE reply is returned exactly |
| Replies.CutReplyTakesSpareBytes | zencached_ops.go:407 | a reply cut inside its data block is completed with spare bytes, or sliced out of bounds exactly when they are too few |
| Replies.ExtractMiss | zencached_ops.go:327-340 | every reply that starts with END is a miss |
| Replies.TakenForValueExactlyWhen | zencached_ops.go:327-349 | a reply of six bytes or more that is no miss is refused as no VALUE line exactly when its first word is none of VALUE, EALUE and ENLUE, and is read as if it were VALUE otherwise |
| Replies.TakesEndForTheStartOfValue | zencached_ops.go:342-349 | a whole reply that starts with one of these words brings its data |
| MalformedReplies.ShortReplyIsRead | zencached_ops.go:330-351 | a reply of fewer than six bytes is a miss, makes the reader index past it exactly when it is cut inside one of the three words, or is no VALUE line |
| MalformedReplies.NoSpaceBeforeKeyExactlyWhen | zencached_ops.go:351-353 | refused for the space before the key exactly when the byte behind the word is none |
| MalformedReplies.NoSpaceAfterKeyExactlyWhen | zencached_ops.go:360-370 | refused for the space after the key exactly when there is no other space |
| MalformedReplies.NoSpaceAfterFlagsIsRefused | zencached_ops.go:373-400 | without a space after the flags it is refused for the line break, since `found` is still up |
| MalformedReplies.UnendedLineIsRefused | zencached_ops.go:389-400 | without two line break bytes in a row it is refused for the line break, or indexed past when it ends in one |
| MalformedReplies.EndedLineIsRead | zencached_ops.go:402-407 | otherwise the bytes up to the first two are read as a number, refused if they are none, and that many bytes are taken behind, or sliced out of bounds |
| Telnet.Conn.ReportDisconnection | telnet.go:612-631 | latches the failure flag, and sends a signal only when it was not latched before |
| Telnet.Conn.Checker | telnet.go:112-181 | one tick: what it latches, what it panics on (a resolved name and no address), and that it leaves the connection as it is |
| Telnet.Conn.Close | telnet.go:308-345 | leaves no connection, and offers the checker goroutine its end exactly when it is asked to and there was a connection |
| Telnet.Conn.Connect | telnet.go:209-257 | resolving and dialing: the address is lost with a name that does not resolve, before the connection is; without an error there is a fresh connection |
| Telnet.Conn.Reconnect | telnet.go:259-273 | a fresh connection without any bytes of the old one, or none and the closed-connection error; the address is lost exactly with a name that does not resolve |
| Telnet.Conn.WritePayload | telnet.go:536-574 | which outcomes leave a connection, and which of them `send` turns into a latched failure; after a timeout the connection is replaced, with whatever was on its way |
| Telnet.Conn.Send | telnet.go:348-382 | the state and error of every case; without an error there is a connection to read from |
| Failures.SendFailsExactlyWhen | telnet.go:348-382 | from every link: the exact condition of success, of a deadline and of a write error; a deadline leaves a fresh connection, a write error a latched failure |
| Telnet.Conn.TryMarkers | telnet.go:450-455 | the first marker of the set that the search finds in the chunk |
| Telnet.Conn.Read | telnet.go:404-477 | the reading loop, for every script of events; it is only entered with a connection or a latched failure |
| Failures.EventStopsLoop | telnet.go:422-448 | an end, timeout, failure or refused deadline ends the reading, behind any number of bytes, in its own way |
| Telnet.Conn.SendAndReadResponse | zencached_worker.go:246-259 | one job, from the link it finds to the link it leaves |
| Failures.UnreadJobFails | zencached_worker.go:246-259 | which error answers a job that does not come to read its reply, exactly when |
| Failures.ReadJobFails | zencached_worker.go:228-244 | which error answers one that does, exactly when; without an error all that was gathered is the answer |
| Failures.JobLeaves | telnet.go:458-476 | from any link and under any script, what a job leaves by the error that answers it |
| Telnet.Conn.Work | zencached_worker.go:94-120 | the answers to a list of jobs, with the early leave on disconnection; no connection is left, and the checker goroutine is offered its end exactly when the last job left one |
| Failures.WorkerAnswersInTurn | zencached_worker.go:96-100 | every answer is that of one job on the link that the job before has left |
| Failures.WorkerLeavesExactlyWhen | zencached_worker.go:102-110 | all jobs are answered without rebalancing; with it, the worker leaves exactly behind the first answer with no response, a write error or a read error |
| Failures.DeadlineHeals | zencached_worker.go:94-111 | after a deadline the worker stays, and the next job finds the connection of a new worker |
| AddressCheck.PanicsExactlyWhen | telnet.go:209-231 | over every interleaving of redials, reports and ticks, the checker goroutine dereferences a nil address exactly when a redial fails to resolve the name and the next thing to happen is a tick that resolves it |
| AddressCheck.LeavesExactlyWhen | telnet.go:112-181 | over every other run the checker goroutine leaves exactly when it is told to, or finds something wrong before the worker has reported a failure, and then it latches the failure |
| StaleReplies.LoopGathers | telnet.go:422-456 | whatever happens, the loop gathers a first part of what was on its way |
| StaleReplies.LoopStopsOnMarker | telnet.go:450-455 | with markers only at the end, a stop on a marker means the whole reply was read |
| StaleReplies.AnswerIsOwn | zencached_worker.go:228-244 | from a clean link, an answer without error is a non-empty first part of the job's own reply |
| StaleReplies.JobStaysClean | telnet.go:404-477 | with markers only at the end, every script leaves the connection nil, latched or without pending bytes |
| StaleReplies.NoStaleReplies | zencached_worker.go:94-111 | over every run of a worker, answers without error are the job's own, and whole when a marker ended them |
| StaleReplies.CleanExactlyWhen | telnet.go:422-456 | a job leaves a clean link under every script exactly when its reply has markers only at the end |
| StaleReplies.StaleExactlyWhen | telnet.go:450-476 | a later job can be handed a byte of an earlier reply exactly when that reply has a marker before its end |
| StaleReplies.NoReadOnceLost | telnet.go:536-540 | with no connection or a latched failure, every later job of a run is refused with a write error and the failure stays latched; with rebalancing the first of them is the last |
| Framing.LineIsSuffixOnly | zencached_ops.go:53-58 | one-line replies have the markers of every response set only at the end |
| Framing.GetReplyIsSuffixOnlyExactlyWhen | zencached_ops.go:66-69 | a get reply has its marker only at the end exactly when END CR LF does not stand in the data and the line break behind it |
| Framing.LastChunkDecides | telnet.go:450-455 | with markers only at the end, the last chunk alone decides how the reply is read |
| Framing.CutReplyIsRead | telnet.go:458-476 | such a reply, however it is cut, is returned whole with the meaning of its last chunk, or the read times out |
| Framing.ChunkingExactlyWhen | telnet.go:422-476 | whole reply and same meaning as in one piece, exactly when the last chunk holds the first marker found in the reply |
| Framing.CuttingReadsWhole | telnet.go:422-456 | every such cutting frames the reply |
| Framing.OnePieceIsFramed | telnet.go:445-455 | so does no cutting at all, even with markers inside the data |
| Framing.NotStoredIsRead | zencached_ops.go:61-64 | NOT_STORED means "not stored" in one piece only; by its last chunk it is taken for "stored" or times out |
| Framing.FramedJob | zencached_worker.go:246-259 | a job with a framed reply on a healthy link answers the whole reply and leaves the link healthy |
| Compression.DecodeInvertsEncode | compression.go:42-61 | unpadded base64 decodes to the input, for every byte string |
| Compression.DecodesExactlyWhen | compression.go:51-61 | a text decodes without an error exactly when, but for line breaks, it is symbols only and not one more than whole groups and a remainder of two or three |
| Compression.BreaksArePassedOver | compression.go:51-61 | a line break changes nothing, wherever it stands |
| Compression.EncodingFillsBuffer | compression.go:44-53 | the encoding fills a buffer of EncodedLen exactly, and DecodedLen gives back the length of the input |
| Compression.EncodingLacksBreaks | compression.go:42-49 | an encoding has neither CR nor LF |
| Compression.Base64IsLossless | compression.go:40-63 | the base64 codec loses nothing and keeps data non-empty |
| Compression.LayeredIsLossless | compression.go:70-123 | base64 before any lossless compressor, undone in the opposite order, is lossless |
| Compression.EncodingEndsInEndExactlyWhen | compression.go:42-49 | which byte strings have an encoding that ends in END |
| Compression.EncodedReplyIsSuffixOnlyExactlyWhen | zencached_ops.go:66-69 | the reply with an encoded value can be delimited under every cutting, exactly when the value does not end that way |
| Operations.AnsweredIsObeyed | zencached_ops.go:220-255 | whatever the network does, the server obeys a job once or not at all, and only the link of one worker changes; from a clean link, no error means that the server received and obeyed it, and that the bytes answered begin its reply |
| Operations.AnswerMeansReceivedExactlyWhen | telnet.go:556-573 | for every worker of a node, an answer without error means a received command under every network exactly when the link of the worker is clean |
| Operations.ErrorsAreUndecided | telnet.go:556-566 | the same error can come from a server that obeyed and from one that did not |
| Operations.StoreEndToEnd | zencached_ops.go:258-293 | bytes, server and reply together: set and add store the value with its time to live and report as the protocol says |
| Operations.GetEndToEnd | zencached_ops.go:431-497 | a get changes nothing and brings the stored data through the decompressor, or NotFound |
| Operations.DeleteEndToEnd | zencached_ops.go:515-536 | a delete removes the key, and reports whether it was there |
| Cluster.SplitDoesNotMatter | zencached_worker.go:204-220 | without router hash the node depends on the composite key only |
| Cluster.SplitIsInvisible | zencached_ops.go:310-322 | get and delete under another split of the same composite key behave the same, in every state |
| Cluster.PerformRefines | zencached_ops.go:202-218 | one operation on the cluster is one operation on the map, empty values and invalid keys included |
| Cluster.ShardedRunRefinesMap | zencached_worker.go:191-225 | so is every sequence of operations: same result types and data, and the cluster stands for the map at the end |
| Cluster.OnNodeIsObeyed | zencached_ops.go:258-293 | on any network, a set, add, get or delete is obeyed once or not at all, and once when the links are clean and there is no error |
| Cluster.RunKeepsClean | zencached_worker.go:94-111 | over every run on any network, every link stays clean, while the gets meet data that can be told from its ending |
| Cluster.EmptyRepresentsEmpty | zencached_worker.go:191-225 | empty servers stand for the empty map |
| Cluster.IndexIsClosedExactlyWhen | zencached_cluster.go:40-49 | an index reports the closed connection exactly when it is disconnected or its worker loses the connection over this command; nothing happens to it in the first case |
| Refusals.NothingIsSent | zencached_worker.go:181-225 | in every state: an invalid key, an empty value, no nodes and a disconnected node are answered each in their own way, and nothing happens |
| Refusals.TargetIsAsked | zencached_worker.go:204-220 | otherwise the operation is performed on the node of the router hash, or of the composite key, and no other node notices |
| Refusals.RouterHashDecides | zencached_worker.go:204-220 | the last byte of a router hash decides, whatever the keys are |
| Refusals.LotDecides | zencached_worker.go:214-217 | with nothing to route by, the last digit of the number drawn decides |
| Refusals.InvalidKeyEverywhere | zencached_cluster.go:30-38 | an operation on all nodes with an invalid key says so at every index, and nothing happens |
| Refusals.JobErrorIsAnswered | zencached_ops.go:226-255 | the error of the job is the error of the operation, and it has no network error of its own; the result says so, or there is none for a delete |
| Refusals.FailuresReachTheCaller | zencached_ops.go:444-449 | for every operation, node, link and script: which failure of the network is answered with which error |
| Refusals.UnsentIsReported | zencached_ops.go:258-268 | a value that cannot be compressed is not sent, and the answer says so |
| Cluster.ClusterSetReachesAll | zencached_cluster.go:23-52 | on any network and from clean links, without an error at any index, every node holds the value and every other key is as before |
| Cluster.ClusterSetIsReadExactlyWhen | zencached_cluster.go:11-14 | from clean links, a following Get with any router hash and any split finds the value, exactly when what was sent is not empty |
| Cluster.EmptyValueIsStoredAndMissed | zencached_cluster.go:40-49 | for every key and healthy cluster, ClusterSet without compression reports at every index to have stored the empty value that Set refuses, and the next Get misses it |
| Cluster.ReplyIsSuffixOnlyExactlyWhen | zencached_ops.go:60-74 | which replies of real commands have their markers only at the end |
| Cluster.ReplyIsServed | zencached_ops.go:269-281 | the bytes of a request make the server give the reply that the response set of the command is for |
| Cluster.CommandsAreNeverStale | zencached_worker.go:94-111 | a worker serving real commands never hands out a stale byte while no data it fetches is of the bad kind |
| Cluster.Zencached.BaseStoreOn | zencached_ops.go:258-293 | compression, rendering and all error results |
| Cluster.Zencached.BaseGetOn | zencached_ops.go:431-497 | misses, empty values, malformed replies and decompression errors |
| Cluster.Zencached.BaseDeleteOn | zencached_ops.go:515-536 | the result, or no result and the error |
| Cluster.Zencached.GetConnectedNodeWorkers | zencached_worker.go:191-225 | the choice of the node, by lot when there is nothing to route by, and both reasons to refuse |
| Cluster.Zencached.Store | zencached_ops.go:182-218 | Set and Add, from validation to result, as `Perform` tells |
| Cluster.Zencached.Get | zencached_ops.go:310-322 | the same for Get |
| Cluster.Zencached.Delete | zencached_ops.go:500-512 | the same for Delete |
| Cluster.Zencached.ClusterRun | zencached_cluster.go:23-116 | the loops of clusterStore, ClusterGet and ClusterDelete fill results and errors index by index, on the array that is published at each turn, or run out of range |
| Cluster.LoopIsOutOfRangeExactlyWhen | zencached_cluster.go:25-49 | the loop indexes beyond the array exactly when rebalances make the array, by the turn of some index, no longer than that index |
| Cluster.QuietLoop | zencached_cluster.go:23-116 | without a rebalance in between, every index is answered by the node as it was before the operation, and nothing is out of range |
| Refusals.LoopAsksPublished | zencached_cluster.go:40-49 | an index behind a rebalance is answered by the node that the rebalance has published there |
| AnyNetwork.AnswerHoldsMarker | telnet.go:422-476 | from a clean link and under any script, an answer without error is a first part of the own reply and holds the marker of its type, or has no type |
| AnyNetwork.PartIsReadRight | zencached_ops.go:325-408 | any first part of a get reply that holds the marker is read as the stored data, or was cut inside data that has END CR LF before its end |
| AnyNetwork.GetIsNeverWrong | zencached_ops.go:431-497 | for all other data, and whatever the network and the spare bytes do, a get without error brings what is stored, or has no type; an error of the job is the error of the get |
| AnyNetwork.GetIsTruthful | zencached_ops.go:444-496 | on a node and any network: nothing found, the value, the decompression error of what is stored, no type, or the error of the network |
| AnyNetwork.MissExactlyWhenAbsent | zencached_ops.go:470-481 | for all data: an answer without error and with a type is NotFound exactly when nothing or no data is stored |
| AnyNetwork.UnreadableIsReported | zencached_ops.go:462-468 | a reply that cannot be read is answered with the error, never as a miss |
| AnyNetwork.GetIsCutExactlyWhen | telnet.go:422-456 | the network can cut a get reply inside its data, with type Found and no error, exactly when the key is held and END CR LF stands in its data before the end |
| AnyNetwork.CutIsReadBy | zencached_ops.go:407 | a reply cut behind the first n bytes of its data, with any room of zeros behind it, is sliced out of bounds exactly when the room is too small, read as what is stored exactly when what is missing is all zero, and otherwise as those n bytes and zeros |
| AnyNetwork.GetIsMisreadExactlyWhen | zencached_ops.go:431-468 | under every script and every room of zeros behind the reply, a get slices out of bounds exactly when its reply is cut and the room is too small, and reads other data without an error exactly when it is cut, the room suffices and what is missing is not all zero |
| AnyNetwork.GetGoesWrongExactlyWhen | zencached_ops.go:431-468 | some script makes a get go wrong, whatever the room, exactly when the key is held and END CR LF stands in its data before a byte that is not zero |
| AnyNetwork.PlainGetIsWrongExactlyWhen | zencached_ops.go:492-496 | without compression, exactly then, script by script and room by room, the answer is Found with other data than is stored |
| AnyNetwork.DeleteIsNeverWrong | zencached_ops.go:515-536 | under any script a delete without error reports what was the case, or has no type |
| AnyNetwork.StoreReports | zencached_ops.go:258-293 | under any script "not stored" without error means that the server refused an add |
| AnyNetwork.FalseReportExactlyWhen | zencached_ops.go:61-64 | the network can make a store report "stored" falsely exactly for an add of a key that is there |
| AnyNetwork.GetsOfARunAreRight | zencached_worker.go:94-111 | over every run of a worker, gets with a type bring what the server held when the command arrived, while no data fetched is of the bad kind |
| WorkerPool.JobsAreConserved | zencached_worker.go:94-120 | in every reachable state each accepted job is queued, in progress or answered, in one place only, and no panicked job is accepted |
| WorkerPool.DrainedIsAnswered | zencached_worker.go:79-111 | without rebalancing, when all workers have left, the queue is empty and all accepted jobs are answered once |
| WorkerPool.DrainIsBounded | zencached_worker.go:79-111 | after terminate a node takes no more steps of its own than the work that was left, whatever other nodes, the rebalance and Shutdown do in between |
| WorkerPool.DrainNeverSticks | zencached_worker.go:79-111 | and it can go on while a worker is there, or a caller that has not sent; what a worker can have to wait for is the goroutine that rebalances, before Shutdown |
| WorkerPool.RunIsBounded | zencached_worker.go:79-116 | over every run the channels hold no more than they can, a node that is connected has all its workers, and nothing that is closed or gone comes back |
| WorkerPool.LeavingDisconnects | zencached_worker.go:113-116 | once a worker has left, its node is not connected, and never again |
| WorkerPool.PanicsExactlyWhen | zencached_ops.go:212-227 | a send meets a closed channel exactly when its caller found the node connected before a terminate and sends behind it |
| WorkerPool.SendingCanPanic | zencached_worker.go:79-87 | which can happen in every pool |
| WorkerPool.StrandsExactlyWhen | zencached_worker.go:102-110 | an accepted job can be left unanswered exactly with RebalanceOnDisconnection |
| WorkerPool.CrashesExactlyWhen | zencached_worker.go:102-110 | over every run, a goroutine of the client sends on the closed rebalance channel exactly when a worker or a listener signals after Shutdown closed it |
| WorkerPool.CanCrashExactlyWhen | zencached_worker.go:122-135 | which can happen exactly with RebalanceOnDisconnection |
| WorkerPool.NodeWorkers.IsConnected | zencached_worker.go:181-188 | a caller goes on to send exactly when the node is connected at that moment |
| WorkerPool.NodeWorkers.AddJob | zencached_ops.go:226-227 | a job enters the channel at its end, or panics exactly when the channel is closed; jobs stay conserved |
| WorkerPool.NodeWorkers.Receive | zencached_worker.go:96 | the oldest job, or the end of a closed and empty channel; jobs stay conserved |
| WorkerPool.NodeWorkers.Respond | zencached_worker.go:98-105 | the job in hand is answered; on a disconnection that triggers a rebalance the worker takes no more jobs and goes on to signal |
| WorkerPool.NodeWorkers.Signal | zencached_worker.go:106-116 | the worker sends its signal and leaves, and panics exactly when Shutdown has closed the rebalance channel |
| WorkerPool.NodeWorkers.Close | zencached_worker.go:79-92 | closes the channel, which can be done once |
| Signalling.NeverBlocksExactlyWhen | zencached_worker.go:142-151 | no report ever waits, in any interleaving, exactly when the channel holds one signal per connection |
| Signalling.SignalsOncePerConnection | telnet.go:612-626 | over every run a connection is reported once at most |
| Signalling.LostExactlyWhenClosed | telnet.go:618-630 | over every run the signals that are lost are those sent behind the closing of the channel, where no send waits |
| Sorting.SortInPlace | zencached.go:179-180 | running a compare/swap program on an array gives what the program makes of its contents |
| Sorting.SortFollowsHosts | telnet.go:59-62 | any two slices with the same hosts are rearranged by the same permutation |
| Sorting.BeforeExactlyWhen | telnet.go:59-62 | a host is before another exactly when it ends, or has the smaller byte, where the two differ first |
| Sorting.PermutationIsInjective | zencached.go:179-180 | and it is a permutation |
| Sorting.SortedByHost | zencached_worker.go:49-52 | a program that meets the contract of sort.Sort puts elements in the order of their hosts |
| Sorting.InsertionSorts | zencached.go:179-180 | that contract can be met for every length, by insertion sort |
| Rebalancing.NodeStringInjective | telnet.go:42-45 | two nodes with the same host:port text are the same node |
| Rebalancing.VisitKeeps | zencached.go:149-177 | one turn of the loop keeps the arrays aligned and terminates no worker that is kept or still to be visited |
| Rebalancing.SortsStayAligned | zencached.go:179-185 | two sorts of the two arrays leave worker i a worker of node i, and lose nothing |
| Rebalancing.RebalanceKeeps | zencached.go:112-207 | a rebalance keeps the invariant, publishes no terminated worker, and brings no worker back |
| Rebalancing.RunKeeps | zencached.go:112-207 | so does every run of rebalances and failures |
| Rebalancing.ChannelsCloseOnce | zencached.go:255-267 | over every run and one Shutdown the channels of a worker are closed once at most, those in the array exactly once |
| WorkerLives.PublishedExactlyWhen | zencached.go:151-176 | a visit publishes its node exactly when its worker was found connected or every dial succeeds |
| WorkerLives.RebalanceClosesRest | zencached.go:149-177 | open behind a rebalance are the workers it publishes, and those open before whose nodes it did not look at |
| WorkerLives.ReplacedAreEnded | zencached.go:156-163 | a worker whose node is listed and which is not published again has both channels closed, once |
| WorkerLives.WorkersEndOnce | zencached.go:149-177 | over every run and one Shutdown, every worker ever made has both channels closed exactly once, unless it stood in the array for a node that a listing dropped: then never |
| Rebalancing.DistinctListingIsSafe | zencached.go:149-177 | from the invariant, a rebalance on a listing without repeated nodes ends no worker twice and keeps the invariant |
| Rebalancing.EndingPanicsExactlyWhen | zencached.go:260-267 | Shutdown closes a channel twice exactly when a worker of the array is ended already or stands in it twice |
| Rebalancing.Client.Fail | zencached_worker.go:113-130 | workers and listeners lower `connected` whenever they notice a failure; the invariant is kept |
| Rebalancing.Client.IndexWorkers | zencached.go:140-147 | the map from node texts to workers |
| Rebalancing.Client.Terminate | zencached_worker.go:79-92 | closes both channels of a worker, and panics exactly when it is ended already |
| Rebalancing.Client.CreateNodeWorker | zencached_worker.go:142-169 | the loop over the connections gives a connected worker, or at the first failure one that is terminated and not published |
| Rebalancing.Client.VisitNode | zencached.go:151-176 | retain, terminate, create or skip, as the state and the network say; panics exactly when it ends a worker that is ended already |
| Rebalancing.Client.Discover | zencached.go:149-177 | the loop over the discovered nodes, for every listing, and exactly when it panics |
| Rebalancing.Client.Publish | zencached.go:179-206 | both sorts in place, and the exchange of the arrays |
| Rebalancing.Client.Rebalance | zencached.go:112-207 | the whole rebalance, for every listing, and exactly when it panics; the arrays stay aligned, and a listing that repeats no node panics never and keeps the invariant |
| Rebalancing.Client.Shutdown | zencached.go:240-267 | every worker of the array is terminated and the rebalance channel closed, a second call does nothing; it panics exactly when a worker is ended already or stands in the array twice, which the invariant excludes |
| RepeatedNodes.EndedAllCounts | zencached.go:260-267 | Shutdown ends a worker as often as it stands in the array |
| RepeatedNodes.EndsTwiceExactlyWhen | zencached.go:149-177 | a first rebalance and a Shutdown can close the channels of a worker twice exactly when the listing names a node twice |
| RepeatedNodes.RebalancePanicsExactlyWhen | zencached.go:149-177 | from the invariant and on any listing, a rebalance closes channels twice exactly when it ends the worker of a node without replacing it and the listing names that node again |
| RebalancingStability.RebalancingAgainChangesNothing | zencached.go:149-185 | with the same listing and all workers connected, every worker stays at its index, repeated hosts included |
| RebalancingStability.SteadyRebalance | zencached.go:149-177 | which nodes are published: those listed that have a connected worker or can be reached |
| RebalancingStability.NotAvailableExactlyWhen | zencached.go:187-206 | no node is available afterwards exactly when none can be published |
| RebalancingStability.HostOrderIsUnique | telnet.go:59-62 | two lists in host order with the same nodes and no host twice are equal |
| RebalancingStability.ListingOrderDoesNotMatter | zencached.go:149-185 | permuted listings without repeated hosts lead to the same nodes in the same order |

## Left out

- Sockets, name resolution, clocks, tickers and logging: only their outcomes are in the model, as script events.
- Metrics: they repeat the same calls with timing.
- The value of `Telnet.address`: the model knows whether there is one; a dial succeeds, does not reach it, or does not resolve the name.
- `WorkerPool.LeavingDisconnects`: a listener lowers `connected` as well, before a worker leaves; the model lets callers go on to choose the node until then.
- `Telnet.Conn.Send`: takes one command, since every caller passes one.
- `Cluster.ShardedRunRefinesMap`: a calm network with framed replies, and workers that are connected and healthy at the start, one operation after the other; what other networks leave is told by `Cluster.OnNodeIsObeyed`, `Framing.ChunkingExactlyWhen` and `StaleReplies.StaleExactlyWhen`.
- `Cluster.Zencached.ClusterRun`: the array changes between two turns of its loop only, never inside one, and a node whose workers have all left is not given a job.
- `Cluster.RunKeepsClean`: needs gets that meet data which can be told from its ending, and no router hash; without the first, links go bad exactly as `StaleReplies.CleanExactlyWhen` tells.
- The growth of Go's reply buffer: how many bytes stand behind a reply is the parameter `room` of `AnyNetwork.GetIsMisreadExactlyWhen`.
- `Rebalancing.RunKeeps`: rebalances one after the other, none after Shutdown, and listings without repeated nodes; what repeated nodes lead to is told by `RepeatedNodes.RebalancePanicsExactlyWhen` and `RepeatedNodes.EndsTwiceExactlyWhen`; the code's lock does not exclude overlapping rebalances.
- `Rebalancing.Client.Shutdown`: one call at a time; the code reads the flag and sets it in two steps, so that two concurrent calls can both go on to close the channels.
- `Rebalancing.Client.Rebalance`: what a panic leaves behind is not described, since it ends the program.
- `WorkerPool.StrandsExactlyWhen`: a channel with room for at least one job; an unbuffered channel hands jobs over from caller to worker.
- What the workers of a node that was dropped from a listing go on to do: the code does not end them (`WorkerLives.WorkersEndOnce`).
- The answers of jobs that are still queued when workers leave to trigger a rebalance: only conservation is claimed.
- `tryListNodes` and the retry when no node could be connected: a listing is a parameter.
- The version command: its marker is a prefix of the reply, so it works for replies in one piece only.
- zstd itself: any lossless codec takes its place.
- Aliasing of slices in ValidateKey.
- Eviction, expiry and item size limits of the servers.
- Lengths beyond the range of a Go int: values are assumed to have a length that fits where a reply is read.
