# strike: verified models of the gateway's core

strike is a gateway and proxy. This project models the parts of it that compute: the token bucket and the
stream limiters, the URI parser with its path normaliser and query arguments, the unbounded work queue and
the sharded dispatch built on it, the receive buffer with its slice pool, the MQTT 3.1.1 codec, and the
incremental HTTP/1.1 request-head parser. Every part is stated twice: once as the code works (classes, loops,
arrays updated in place), and once as a function or a step relation; the first is proved equal to the second,
and the promises are proved of the second for all inputs and all runs.

`dafny verify dfyconfig.toml` checks everything.

## How to read the model

* Bytes are `Bytes.byte`, integers 0 to 255; bit operations are written with division and remainder.
* Times and durations are whole nanoseconds (`int`). Token counts and permits are `real`; the truncation to
  whole nanoseconds is kept. Clock readings are parameters. A limiter's zero time is instant 0.
* A method that holds a mutex is one atomic step. In `WorkQueue` every access to shared state is a step of its
  own, so a run is a sequence of steps and every interleaving is some run.
* Panics that the MQTT decoder recovers from are results carrying the buffer as it was at the panic.
* Go's `&` and `>>` have the same precedence, so `flags & 0x18 >> 3` selects bits 3 and 4.

## Main results

* **Token bucket.** Over every window of every run of reservations, the tokens granted stay below burst plus
  the refill between the first and last promised act time plus one nanosecond; act times never decrease; a
  cancelled reservation leaves the bucket within one nanosecond's tokens of never having been made.
* **Path normaliser.** The four in-place passes compute exactly a one-pass segment stack, for every input.
* **URI.** Parse, print, parse is a fixpoint if and only if the host given holds no slash or the uri brings an
  authority of its own.
* **Work queue.** No wakeup is lost, no job is lost or duplicated, each connection's ordinary jobs keep their
  order and a prioritized job overtakes exactly those on the list, under every interleaving; once producers are
  quiet everything offered is delivered in that order.
* **MQTT.** The decoder inverts the encoders on streams, and the chunking of a stream does not matter unless a
  cut falls inside a fixed header; what a call leaves at such a cut, and when the whole result is still right,
  is an if-and-only-if. On arbitrary bytes, a run of calls fails to return exactly when some call is entered
  awaiting a payload of which too little has arrived, and the only way into such a state is a call that
  recovers from a panic inside a payload without putting its bytes back.
* **HTTP.** Framing, retry after in-place rewriting, arrival in arbitrary pieces, printer and scanner as
  inverses, and exactly when the Host shortcut agrees with a full parse, stated on the header lines.
* **Buffers.** The sliding, growing array is a first-in first-out queue with a mark for every sequence of
  operations in which no write comes between Mark and Restore; with one write in between, the mark's fate is an
  if-and-only-if on offsets, capacity and size.

## Where the code does less than one might expect

* `ParsePrintFixpoint`, `SlashHostExample`: with a host that holds '/', such as "a/b" for the uri "/", printing
  and parsing again changes the host.
* `SpinsExactly`, `HangsExactly`: a decoder called while it awaits a payload that has not all arrived does not
  return. Real runs get there. `HungByOverrun` is a PINGREQ and an UNSUBSCRIBE whose topic overruns its message,
  then one more byte; `HungByEnd` is a SUBSCRIBE that ends before its QoS byte, then one more byte. `CallLeaves`
  and `QuietRunReturns` say that only a call that abandons a payload leads there.
* `TwoChunks`, `HeaderCutExample`: a chunk that ends inside a fixed header loses the header's bytes, except
  after the first byte of a stream. `UnnoticedCutExample`: the messages may come out right all the same.
* `Restore`, `WriteThenRestore`, `StaleMarkExample`: a write between Mark and Restore that slides or reallocates
  keeps the old mark, so Restore skips bytes never read or moves the offset past the end; Append on a drained
  buffer drops the mark.
* `DirectionsAreSeparate`: the upstream share of the shards is kept in a byte, so with a count that is 1 modulo
  256 (one shard, 257, 513, ...) both directions use the same shards.
* `HostAgrees`, `TwoHostsDiffer`: the Host shortcut keeps outer spaces, and takes the first of several Host
  lines where the full parser takes the last.
* `UnsubscribeDecodes`, `SubscribeDecodes`, `SubAckDecodes`: of a list only the first entry is read; the others
  are taken for the next message.
* `AuthorityEnds`: a '/' in the query of a uri without a path, as in "http://h?x=/a", becomes the end of the host.
* `ClearHalves`: the comment in utils/container/squeue/squeue.go:81 says that one event remains; half of them do.
* The comment in utils/time/rate/rate.go:29 says a bucket starts full. It starts empty with a last update at
  the zero time, so it is full once the clock is far enough from that time (`RefillAllows`).

## Model

| member | source | states |
|---|---|---|
| `TokenBucket.DurationGalois` | utils/time/rate/rate.go:361-370 | the two unit conversions are adjoint: d nanoseconds fit within the duration of t tokens exactly when their tokens are at most t |
| `TokenBucket.Limiter.constructor` | utils/time/rate/rate.go:80-85 | a new limiter is valid, with no tokens and the zero time |
| `TokenBucket.Limiter.Advance` | utils/time/rate/rate.go:336-357 | computes the refilled count without changing the limiter; between the old count and the old count plus the elapsed refill, never above burst |
| `TokenBucket.Limiter.ReserveN` | utils/time/rate/rate.go:283-332 | the new state and reservation are those of Reserve, and the limiter stays valid |
| `TokenBucket.Limiter.AllowN` | utils/time/rate/rate.go:95-97 | allows n exactly when n is at most burst and below the available tokens plus one nanosecond's worth |
| `TokenBucket.Limiter.CancelAt` | utils/time/rate/rate.go:149-186 | the new state is that of Cancel, never above burst |
| `TokenBucket.AvailableCompose` | utils/time/rate/rate.go:336-357 | refilling in two legs gives exactly what refilling in one does, truncation included |
| `TokenBucket.RefillExactly` | utils/time/rate/rate.go:336-357 | the count is all that came in since the last update while that fits the burst, and from then on the burst to within a nanosecond; nothing while the clock is behind |
| `TokenBucket.WaitBounds` | utils/time/rate/rate.go:301-305 | the wait covers the debt to within less than one nanosecond's tokens and never overshoots it |
| `TokenBucket.ReserveExactly` | utils/time/rate/rate.go:283-332 | any reservation, into the future too, is granted if and only if the burst allows it and the tokens will be there after the longest wait allowed; its act time is the earliest such; a refusal changes no token |
| `TokenBucket.RunKeepsLedger` | utils/time/rate/rate.go:283-332 | in every run each grant fits the burst, spends only what its predecessor left plus the refill, and acts no earlier than its predecessor |
| `TokenBucket.WindowBound` | utils/time/rate/rate.go:283-357 | for all i <= j of any run, grants i..j total less than burst + limit * (act_j - act_i + 1ns), and act times never decrease |
| `TokenBucket.RefillAllows` | utils/time/rate/rate.go:95-97 | after idling long enough any n up to burst is granted at once, although truncation leaves the bucket up to a nanosecond short |
| `TokenBucket.CancelUndoes` | utils/time/rate/rate.go:149-186 | cancelling the latest reservation by its act time leaves, at every later instant, at least the never-reserved count, less than one nanosecond's tokens more, and at most burst |
| `TokenBucket.ActsTellTokens` | utils/time/rate/rate.go:161-164 | in every run, for reservations queued up behind one another, the time between two act times tells within a nanosecond how many tokens were reserved after the first |
| `TokenBucket.CancelInRun` | utils/time/rate/rate.go:149-186 | cancelling any but the latest of them restores its tokens less those reserved later, within a nanosecond and up to the burst, and nothing if later ones took more |
| `TokenBucket.RollbackFinds` | utils/time/rate/rate.go:178-183 | cancelling the latest moves the last event back to where its predecessor put it, within a nanosecond, unless that is past |
| `Limiters.NewRateLimiter` | pkg/filter/stream/common/limit/rate.go:38-57 | a limiter is built exactly when all settings are in range |
| `Limiters.RateLimiter.constructor` | pkg/filter/stream/common/limit/rate.go:48-56 | interval times allowance is the period; no permits stored |
| `Limiters.RateLimiter.TryAcquire` | pkg/filter/stream/common/limit/rate.go:60-72 | grants exactly when now is past the next free ticket, and then takes a ticket |
| `Limiters.RateLimiter.ReserveEarliestAvailable` | pkg/filter/stream/common/limit/rate.go:75-88 | stored permits stay between 0 and the maximum, and the new state is that of TakeTicket |
| `Limiters.TicketAdvancesHorizon` | pkg/filter/stream/common/limit/rate.go:75-88 | each ticket pushes the time already handed out by more than an interval less a nanosecond |
| `Limiters.RateWindow` | pkg/filter/stream/common/limit/rate.go:60-88 | any m consecutive grants of any run satisfy (m-1) * (interval - 1ns) < elapsed + interval * maxPermits |
| `Limiters.TicketCost` | pkg/filter/stream/common/limit/rate.go:75-88 | a grant costs at most one interval: permits earned are stored and stored ones spent first |
| `Limiters.BurstGranted` | pkg/filter/stream/common/limit/rate.go:60-88 | with k permits in store, or idle time for them, k calls in a row are granted |
| `Limiters.SpacedGranted` | pkg/filter/stream/common/limit/rate.go:60-88 | calls more than an interval apart are all granted |
| `Limiters.QPSLimiter.constructor` | pkg/filter/stream/common/limit/qps.go:36-48 | the first window closes one period from now with nothing used |
| `Limiters.QPSLimiter.TryAcquire` | pkg/filter/stream/common/limit/qps.go:51-65 | one step of the window counter, whose answers WindowExactly and NextWindowExactly give |
| `Limiters.WindowsBound` | pkg/filter/stream/common/limit/qps.go:59-64 | until a window closes only its remaining permits are granted, and for one period more one further window's worth |
| `Limiters.PeriodBound` | pkg/filter/stream/common/limit/qps.go:51-65 | at most 2 * maxAllows grants in any half-open interval of one period of any run |
| `Limiters.WindowExactly` | pkg/filter/stream/common/limit/qps.go:59-64 | while a window lasts exactly its first calls are granted, as many as it has permits left |
| `Limiters.NextWindowExactly` | pkg/filter/stream/common/limit/qps.go:59-64 | the first call at or after its end opens a window of one period in which exactly the first maxAllows calls are granted |
| `PercentCoding.AppendQuoted` | utils/bytesconv.go:404-427 | appends the quotation of the source text in either alphabet |
| `PercentCoding.DecodeArgAppend` | utils/args.go:374-402 | appends the decoded text, by the fast or the slow path |
| `PercentCoding.UnquotePlain` | utils/args.go:375-378 | the fast path agrees with the slow one: without escapes decoding is the identity |
| `PercentCoding.HexRoundTrip` | utils/bytesconv.go:317-338 | the digit table undoes the digit printer, and the two digits make up the byte |
| `PercentCoding.UnquoteQuote` | utils/bytesconv.go:404-427 | decoding undoes quoting for all byte strings, both alphabets and both decoders |
| `PercentCoding.UnquoteWritten` | utils/args.go:374-402 | decoding gives what the text means: escapes in digits of either case, '+' a space for the argument decoder only, other bytes themselves |
| `PercentCoding.StrayPercent` | utils/args.go:382-394 | a percent sign that starts no escape stands for itself, and with fewer than two bytes behind it all stay as they are |
| `PercentCoding.HexTable` | utils/bytesconv.go:317-338 | the table holds the sixteen digits of either case and nothing else |
| `PercentCoding.QuoteExactly` | utils/bytesconv.go:404-427 | a text is left unquoted if and only if all its bytes are letters, digits or the marks of the alphabet |
| `PercentCoding.QuotedLacks` | utils/bytesconv.go:404-427 | quoted text holds no byte that is neither plain nor a percent sign |
| `QueryArgs.ScanPair` | utils/args.go:345-371 | the scanning loop ends at the first '&' or the end, with the pair that the text up to there decodes to |
| `QueryArgs.ArgsScanner.Next` | utils/args.go:337-372 | takes one segment off the input and decodes it into the slot, whatever the slot held before |
| `QueryArgs.Args.ParseBytes` | utils/args.go:96-110 | the arguments become those of ParseArgs, although slots are reused |
| `QueryArgs.Args.AppendBytes` | utils/args.go:126-139 | appends the printed arguments |
| `QueryArgs.PairRoundTrip` | utils/args.go:126-139 | a printed pair is a single segment that decodes to the pair, and is empty only for the blank pair |
| `QueryArgs.ParseJoined` | utils/args.go:96-110 | a query string is parsed segment by segment, each split at its first '=', and pairs empty on both sides are dropped |
| `QueryArgs.ParsePrint` | utils/args.go:96-139 | parsing what was printed returns the arguments less the pairs that are empty on both sides |
| `QueryArgs.ParsePrintParse` | utils/args.go:96-139 | parse, print, parse equals parse for every byte string |
| `PathNormalizer.RemoveDuplicateSlashes` | pkg/protocol/http/v1/uri.go:298-311 | ends with no "//" left and keeps the value the segment stack gives |
| `PathNormalizer.RemoveDotParts` | pkg/protocol/http/v1/uri.go:313-323 | ends with no "/./" left, brings back no "//", keeps the value |
| `PathNormalizer.RemoveDotDotParts` | pkg/protocol/http/v1/uri.go:325-338 | ends with no "/../" left, brings back neither of the others, keeps the value |
| `PathNormalizer.RemoveTrailingDotDot` | pkg/protocol/http/v1/uri.go:340-350 | the result is tidy and has the same value |
| `PathNormalizer.NormalizePath` | pkg/protocol/http/v1/uri.go:293-351 | the four passes equal the one-pass segment stack on the decoded path; the result starts with '/', has no "//", "/./" or "/../" and does not end in "/.." |
| `PathNormalizer.WalkCongruence` | pkg/protocol/http/v1/uri.go:293-351 | two prefixes that leave the same stack give the same value with any continuation |
| `PathNormalizer.DotDotStep` | pkg/protocol/http/v1/uri.go:326-338 | removing the first "/../" with the segment before it keeps the value |
| `PathNormalizer.TidyIsResolved` | pkg/protocol/http/v1/uri.go:293-351 | a path no pass can change is its own value |
| `PathNormalizer.ResolveIdempotent` | pkg/protocol/http/v1/uri.go:293-351 | normalising twice is normalising once |
| `Uri.LowercaseBytes` | utils/bytesconv.go:366-371 | lower-cases every ASCII letter in place |
| `Bytes.CaseTables` | utils/bytesconv.go:340-364 | the two tables map 26 letters each way and nothing else |
| `Uri.SplitAtIndices` | pkg/protocol/http/v1/uri.go:258-290 | the two searches find path, query and fragment; a '?' in the fragment starts no query |
| `Uri.URI.Parse` | pkg/protocol/http/v1/uri.go:248-291 | the fields are those of ParseURI, whose parts ParseTarget and ParseAbsolute give, and the original path is kept |
| `Uri.URI.QueryArgs` | pkg/protocol/http/v1/uri.go:530-541 | parses the query string on first use only |
| `Uri.URI.RequestURI` | pkg/protocol/http/v1/uri.go:354-369 | prints quoted path, parsed arguments or else the query string, and hash |
| `Uri.URI.AppendBytes` | pkg/protocol/http/v1/uri.go:479-488 | appends scheme, host and request URI |
| `Uri.SplitIsSlashFree` | pkg/protocol/http/v1/uri.go:503-527 | the scheme found never holds '/', and the host only if it is the caller's |
| `Uri.AuthorityDecides` | pkg/protocol/http/v1/uri.go:503-527 | the host is taken from the uri exactly when the first '/' of the uri is doubled, and then holds no '/'; otherwise the parts are http, the caller's host and the whole uri |
| `Uri.SplitScheme` | pkg/protocol/http/v1/uri.go:503-527 | any uri with a scheme, a colon or none, and two slashes is split there, whatever follows |
| `Uri.AuthorityEnds` | pkg/protocol/http/v1/uri.go:515-527 | the host comes back if and only if a path follows it, or no '/' does and either a query or nothing comes next |
| `Uri.SplitPrinted` | pkg/protocol/http/v1/uri.go:503-527 | in a printed URI the first "//" is the one after the scheme, whatever path, query and hash hold |
| `Uri.SplitPrintedTarget` | pkg/protocol/http/v1/uri.go:258-290 | splitting a printed request target gives back path, query and hash |
| `Uri.PathFixpoint` | pkg/protocol/http/v1/uri.go:293-369 | a normalised path survives quoting, decoding and normalising again |
| `Uri.ParseTarget` | pkg/protocol/http/v1/uri.go:248-291 | a uri without authority parses to the caller's host in lower case and the path, query and hash written, the path normalised |
| `Uri.ParseTidyTarget` | pkg/protocol/http/v1/uri.go:248-291 | a tidy path without escapes comes back unchanged, '+' included |
| `Uri.ParseAbsolute` | pkg/protocol/http/v1/uri.go:248-291 | a uri with authority parses to its scheme and host in lower case and the path, query and hash written; the path may be missing |
| `Uri.PrintExample` | pkg/protocol/http/v1/uri.go:248-291 | a concrete uri, its parts and its printed form byte by byte |
| `Uri.ParsePrintFixpoint` | pkg/protocol/http/v1/uri.go:248-291 | for every host and uri, printing and parsing again gives the same scheme, host, path, query and hash if and only if the host argument has no '/' or the first '/' of the uri is doubled |
| `Uri.SlashHostExample` | pkg/protocol/http/v1/uri.go:503-527 | a host and uri for which it does not |
| `Uri.ArgsSurviveReparse` | pkg/protocol/http/v1/uri.go:354-362 | under the same condition, once arguments are parsed they are what is printed, and parsing again yields the same arguments and the same other parts |
| `Uri.ArgsArePrinted` | pkg/protocol/http/v1/uri.go:354-369 | arguments, where there are any, are printed instead of the query string, and parsing yields them less the empty ones |
| `WorkQueue.SList.PopFronts` | utils/container/slist/slist.go:113-127 | removes the first max elements, or all, in order |
| `WorkQueue.PushStep` | utils/container/squeue/squeue.go:112-117 | pushing on the list itself, at either end, is the Push step of the protocol, whose place in the line PushPlaces gives |
| `WorkQueue.PushPlaces` | utils/container/squeue/squeue.go:112-117 | a prioritized job goes in front of the whole list and behind all who left it, any other one to the end |
| `WorkQueue.PopStep` | utils/container/squeue/squeue.go:68-72 | the mover's pop on the list itself is the Pop step, and what it returns is the batch delivered next |
| `WorkQueue.PushExtendsLine` | utils/container/squeue/squeue.go:112-121 | a push adds its job once, and an ordinary job behind all ordinary ones, whatever has been pushed to the front |
| `WorkQueue.LineUnchanged` | utils/container/squeue/squeue.go:57-89 | no other step of producer, mover or consumer changes the line of received, channel, batch and list |
| `WorkQueue.StepKeepsInv` | utils/container/squeue/squeue.go:57-121 | every step of every goroutine keeps the invariant, no lost wakeup included |
| `WorkQueue.QueueSafety` | utils/container/squeue/squeue.go:57-121 | in every run: nothing lost or duplicated, ordinary jobs in offer order, a non-empty list with no producer inside push has a pending event or a mover about to check, and clearing never takes the last event |
| `WorkQueue.RunKeepsOrder` | utils/container/squeue/squeue.go:57-121 | in every run whoever stands in the line keeps that order, and whoever has left the list keeps their place |
| `WorkQueue.PrioritizedOvertakes` | utils/container/squeue/squeue.go:103-121 | from its push on, in every run, a prioritized job stands before every job that was on the list and behind everybody who had left it |
| `WorkQueue.SendsDoNotBlock` | utils/container/squeue/squeue.go:118-120 | with at most eleven producers inside push at once, sending an event never blocks |
| `WorkQueue.ClearHalves` | utils/container/squeue/squeue.go:82-84 | the mover left to itself clears half of the pending events, rounded down |
| `WorkQueue.QuietRunDelivers` | utils/container/squeue/squeue.go:65-85 | with producers quiet, mover and consumer steps are bounded, and a run that cannot go on has delivered every job offered, in the order of the line |
| `ShardPool.InitEventSound` | pkg/filter/network/proxy/event.go:46-56 | for every shard count and every byte the conversion may yield, the upstream part is smaller than the whole, and empty exactly for counts that are 1 modulo 256 |
| `ShardPool.UpstreamShare` | pkg/filter/network/proxy/event.go:46-56 | for 2 to 255 shards the upstream part is three tenths of them, rounded, and neither part is empty |
| `ShardPool.EveryShardServes` | pkg/filter/network/proxy/event.go:67-80 | every shard is that of some connection, in the direction whose part it belongs to |
| `ShardPool.ShardInRange` | pkg/filter/network/proxy/event.go:67-80 | the shard computed exists, and lies in the upstream part exactly for upstream jobs when there is one |
| `ShardPool.DirectionsAreSeparate` | pkg/filter/network/proxy/event.go:46-80 | downstream and upstream never share a shard if and only if the count is not 1 modulo 256; every shard computed exists |
| `ShardPool.PoolStepKeepsInv` | pkg/sync/shardworkerpool.go:65-90 | every step keeps each queue's invariant and each queue's offers equal to the log filtered by shard |
| `ShardPool.PerConnectionOrder` | pkg/sync/shardworkerpool.go:65-90 | in every run a connection's ordinary jobs of one direction stand on one shard, received before on their way, exactly as offered and in that order |
| `ShardPool.PoolConserves` | pkg/sync/shardworkerpool.go:72-90 | each shard's line holds exactly the jobs offered to it |
| `BytePool.ByteBufferPool.Slot` | pkg/buffer/bytebufferpool.go:70-86 | the slot of the least power of two that is at least the size, or the error slot outside the pooled range |
| `BytePool.ByteBufferPool.Take` | pkg/buffer/bytebufferpool.go:93-108 | an array of at least the size asked for and, if pooled, less than twice that, fresh or out of the pool; no longer in it unless the pool held an array twice |
| `BytePool.ByteBufferPool.Give` | pkg/buffer/bytebufferpool.go:111-124 | takes back exactly the arrays whose capacity is a pooled power of two, so a slot only holds arrays of its own size; the pool stays free of duplicates exactly when the array was not in it already |
| `IoBuffer.IoBuffer.constructor` | pkg/buffer/iobuffer.go:438-449 | an empty queue on an array from the pool |
| `IoBuffer.IoBuffer.Read` | pkg/buffer/iobuffer.go:54-69 | moves as many bytes as fit from the front; end of file only when nothing is left and there was room |
| `IoBuffer.IoBuffer.ReadByte` | pkg/buffer/iobuffer.go:479-490 | takes the first byte, or reports end of file and resets, losing the mark |
| `IoBuffer.IoBuffer.Write` | pkg/buffer/iobuffer.go:195-203 | appends all bytes, through reslicing, sliding or reallocation, and what each does to the mark |
| `IoBuffer.IoBuffer.WriteByte` | pkg/buffer/iobuffer.go:492-501 | appends one byte the same way |
| `IoBuffer.IoBuffer.Append` | pkg/buffer/iobuffer.go:270-292 | appends all bytes, with all slice bounds valid, and what that does to the mark |
| `IoBuffer.IoBuffer.Grow` | pkg/buffer/iobuffer.go:215-244 | makes room for n bytes behind the contents, which stay |
| `IoBuffer.IoBuffer.Copy` | pkg/buffer/iobuffer.go:408-424 | moves the contents to the start of the same or of a larger array, and recycles the old one |
| `IoBuffer.IoBuffer.Drain` | pkg/buffer/iobuffer.go:338-345 | drops bytes from the front, or does nothing when asked for too many |
| `IoBuffer.IoBuffer.Cut` | pkg/buffer/iobuffer.go:321-336 | hands out a copy of the first bytes and drops them, or nothing |
| `IoBuffer.IoBuffer.Peek` | pkg/buffer/iobuffer.go:298-304 | a window on the first n bytes, or nothing |
| `IoBuffer.IoBuffer.Mark` | pkg/buffer/iobuffer.go:306-308 | nothing has been read since the mark |
| `IoBuffer.IoBuffer.Restore` | pkg/buffer/iobuffer.go:310-315 | for every mark: puts back what was read since, skips unread bytes when the mark is ahead of the offset, and leaves a valid buffer exactly when the mark is not past the end |
| `IoBuffer.WriteThenRestore` | pkg/buffer/iobuffer.go:195-315 | after a write or append between Mark and Restore, what was read since the mark comes back if and only if the mark survives, by offsets, capacity and size |
| `IoBuffer.StaleMarkExample` | pkg/buffer/iobuffer.go:408-424 | a concrete sequence in which Restore skips five bytes never read |
| `IoBuffer.Replay` | pkg/buffer/iobuffer.go:195-345 | every sequence of Write, Append, WriteByte, Read, ReadByte, Drain, Cut, Mark and Restore gives the results, contents and mark of the abstract queue, as long as no Restore follows a write that followed its Mark |
| `MqttMessage.PutLength` | pkg/protocol/mqtt/message/message.go:202-215 | appends the length, seven bits a byte |
| `MqttMessage.PutConnect` | pkg/protocol/mqtt/message/connect.go:84-115 | writes variable header and payload of a CONNECT, and fails exactly on a bad will QoS or an empty string |
| `MqttMessage.PutFilters` | pkg/protocol/mqtt/message/subscribe.go:63-66 | writes every topic filter, and fails exactly on an empty name |
| `MqttMessage.PutMessage` | pkg/protocol/mqtt/message/connect.go:84-129 | the encoding of any message, overflowing flags included, refused exactly when its body cannot be written or a CONNECT is too long |
| `MqttCodec.RoundProgress` | pkg/protocol/mqtt/message/codec.go:59-105 | every round that succeeds consumes bytes or completes a payload, except in a payload state short of bytes, where it changes nothing at all |
| `MqttCodec.SpinsExactly` | pkg/protocol/mqtt/message/codec.go:59-105 | on every input, well-formed or not, the loop fails to return if and only if it is entered awaiting a payload of which too little is there |
| `MqttCodec.CallLeaves` | pkg/protocol/mqtt/message/codec.go:35-107 | a call from a state ready for its input returns and leaves the codec ready again, unless it recovered inside a payload without putting the bytes back |
| `MqttStream.FlagBits` | pkg/protocol/mqtt/message/connect.go:42-57 | the bit of each CONNECT flag in the byte the encoder writes |
| `MqttStream.ConnectOnWire` | pkg/protocol/mqtt/message/connect.go:84-129 | a concrete CONNECT with all its strings, byte by byte |
| `MqttStream.PublishOnWire` | pkg/protocol/mqtt/message/publish.go:63-83 | two concrete PUBLISH packets, with and without identifier, byte by byte |
| `MqttStream.SubscribeOnWire` | pkg/protocol/mqtt/message/subscribe.go:58-75 | a concrete SUBSCRIBE of two filters, byte by byte |
| `MqttStream.ShortPacketsOnWire` | pkg/protocol/mqtt/message/header.go:26-31 | concrete packets of the other layouts, and two lengths, byte by byte |
| `MqttStream.ReadLength` | pkg/protocol/mqtt/message/message.go:183-215 | the length decoder inverts the encoder up to 268435455 and leaves the rest alone |
| `MqttStream.ReadHeader` | pkg/protocol/mqtt/message/header.go:16-31 | the fixed header decoder inverts the encoder |
| `MqttStream.ReadString` | pkg/protocol/mqtt/message/message.go:217-273 | reading a string inverts writing one |
| `MqttStream.ReadConnectVariable` | pkg/protocol/mqtt/message/connect.go:42-57 | the CONNECT variable header is read back field by field, all six flags included |
| `MqttStream.ReadConnectRest` | pkg/protocol/mqtt/message/connect.go:59-82 | the flag-dependent CONNECT payload is read back |
| `MqttStream.PublishBody` | pkg/protocol/mqtt/message/publish.go:30-83 | a PUBLISH is completed in the variable-header state without a payload and in the payload state with one |
| `MqttStream.BodyRounds` | pkg/protocol/mqtt/message/codec.go:77-104 | a complete body of any canonical message is decoded to it, whichever state completes it |
| `MqttStream.RoundTrip` | pkg/protocol/mqtt/message/codec.go:35-107 | decoding the encodings of any list of canonical messages returns that list, consumes every byte and ends between messages |
| `MqttStream.UnsubscribeDecodes` | pkg/protocol/mqtt/message/unsubscribe.go:31-53 | an UNSUBSCRIBE as clients send it is decoded with its first topic; further topics are left and read as the next message |
| `MqttStream.SubscribeDecodes` | pkg/protocol/mqtt/message/subscribe.go:36-58 | the same for the filters of a SUBSCRIBE, all of which the encoder writes |
| `MqttStream.SubAckDecodes` | pkg/protocol/mqtt/message/suback.go:38-59 | the same for the codes of a SUBACK |
| `MqttStream.TwoByteBody` | pkg/protocol/mqtt/message/puback.go:26-32 | the types with a packet identifier only, and CONNACK, are complete after two bytes whatever length was declared |
| `MqttStream.TypeRefused` | pkg/protocol/mqtt/message/header.go:16-24 | types 0 and 15 panic once the first byte is read, and no others do |
| `MqttStream.LengthRefused` | pkg/protocol/mqtt/message/message.go:183-200 | a length of more than four bytes panics |
| `MqttStream.ReturnCodeRefused` | pkg/protocol/mqtt/message/connack.go:27-38 | a CONNACK with a return code of 6 or more is an error, and its two bytes stay for the next call |
| `MqttStream.HangsExactly` | pkg/protocol/mqtt/message/codec.go:35-107 | a run over any chunks hangs if and only if some call of it is entered awaiting a payload of which too little has arrived |
| `MqttStream.QuietRunReturns` | pkg/protocol/mqtt/message/codec.go:35-107 | a run in which no call abandons a payload returns from every call and stays ready |
| `MqttStream.HungByOverrun` | pkg/protocol/mqtt/message/codec.go:36-40 | two chunks after which the decoder hangs, because a message was completed before the panic |
| `MqttStream.HungByEnd` | pkg/protocol/mqtt/message/codec.go:36-53 | two chunks after which it hangs although none was, because the end of the buffer lost the mark |
| `MqttStream.SplitInvariance` | pkg/protocol/mqtt/message/codec.go:35-107 | any chunks cut outside fixed headers yield the same messages in the same order and the same final state |
| `MqttStream.HeaderCut` | pkg/protocol/mqtt/message/codec.go:36-53 | what a cut inside a fixed header leaves: the first byte of a stream is kept, any other unfinished header is dropped |
| `MqttStream.TwoChunks` | pkg/protocol/mqtt/message/codec.go:35-107 | for every cut into two chunks: what the first call leaves, and that the whole result is right if and only if the cut is good, falls after the first byte, or the stream without the dropped bytes decodes alike |
| `MqttStream.HeaderCutExample` | pkg/protocol/mqtt/message/codec.go:36-53 | a concrete stream of two messages of which such a cut loses one |
| `MqttStream.SubscribeAnyLength` | pkg/protocol/mqtt/message/subscribe.go:35-60 | a SUBSCRIBE with one filter is decoded whatever length from 3 up to its own was declared |
| `MqttStream.UnnoticedCutExample` | pkg/protocol/mqtt/message/codec.go:36-53 | streams of two messages that survive a cut inside a fixed header |
| `MqttDecoder.GetUint8` | pkg/protocol/mqtt/message/message.go:253-259 | the reader on the real buffer does what the decoder function does, panic and reset included |
| `MqttDecoder.GetUint16` | pkg/protocol/mqtt/message/message.go:236-251 | the same for two-byte integers |
| `MqttDecoder.GetString` | pkg/protocol/mqtt/message/message.go:217-234 | the same for strings |
| `MqttDecoder.DecodeLength` | pkg/protocol/mqtt/message/message.go:183-200 | the same for the length loop |
| `MqttDecoder.DecodeHeader` | pkg/protocol/mqtt/message/header.go:16-24 | the same for the fixed header |
| `MqttDecoder.DecodeConnectVariable` | pkg/protocol/mqtt/message/connect.go:42-57 | the same for the CONNECT variable header |
| `MqttDecoder.DecodeConnectRest` | pkg/protocol/mqtt/message/connect.go:59-82 | the same for the CONNECT payload |
| `MqttDecoder.DecodeConnAckVariable` | pkg/protocol/mqtt/message/connack.go:27-38 | the same for CONNACK, which refuses return codes of 6 and more |
| `MqttDecoder.DecodePublishVariable` | pkg/protocol/mqtt/message/publish.go:37-49 | the same for the PUBLISH variable header |
| `MqttDecoder.DecodeIdVariable` | pkg/protocol/mqtt/message/puback.go:26-32 | the same for the types whose variable header is a packet identifier |
| `MqttDecoder.DecodePayload` | pkg/protocol/mqtt/message/publish.go:51-61 | the same for all payload stages; what each list stage reads is UnsubscribeDecodes, SubscribeDecodes and SubAckDecodes |
| `MqttDecoder.Decoder.Round` | pkg/protocol/mqtt/message/codec.go:60-103 | one pass through the switch on the real buffer |
| `MqttDecoder.Decoder.DoDecode` | pkg/protocol/mqtt/message/codec.go:35-107 | whenever the loop returns at all, messages, error, codec state and buffer after the call are those of Loop, marks, restores and recovery included; an unready codec is left only by abandoning a payload |
| `HttpHeaders.NormLaws` | pkg/protocol/http/v1/header.go:2047-2069 | normalising a name is idempotent and changes only letters, into letters |
| `HttpHeaders.NormAt` | pkg/protocol/http/v1/header.go:2047-2069 | byte by byte: the first of every word is upper-cased and the rest lower-cased, where a word starts at the front and behind a dash that does not start one |
| `HttpHeaders.NextLocal` | pkg/protocol/http/v1/header.go:1942-1980 | a complete header line is scanned the same whatever follows it |
| `HttpHeaders.RewriteStable` | pkg/protocol/http/v1/header.go:1957-1958 | scanning a rewritten line finds the same name and rewrites it to itself |
| `HttpHeaders.RetryScan` | pkg/protocol/http/v1/header.go:1942-1980 | scanning what an unfinished scan left, plus new data, equals scanning everything from scratch: fields, length, outcome and buffer |
| `HttpHeaders.AppendHeaderLine` | pkg/protocol/http/v1/header.go:1598-1603 | appends name, colon, space, value and line end |
| `HttpHeaders.ScanPrinted` | pkg/protocol/http/v1/header.go:1598-1603 | scanning printed fields, a blank line and any bytes yields exactly the fields, stops after the blank line and changes nothing |
| `HttpHead.LineWithVersion` | pkg/protocol/http/v1/header.go:1685-1705 | method, uri and version of a line put together from them; the uri is all between the first and the last space |
| `HttpHead.LineWithoutVersion` | pkg/protocol/http/v1/header.go:1694-1697 | a line with one space is not HTTP/1.1 |
| `HttpHead.MalformedExactly` | pkg/protocol/http/v1/header.go:1685-1702 | a line is malformed if and only if it has no space, starts with one, or has two in a row and no other |
| `HttpHead.PartsWithVersion` | pkg/protocol/http/v1/header.go:1685-1705 | a line with a second space is its parts put together again |
| `HttpHead.PartsWithoutVersion` | pkg/protocol/http/v1/header.go:1694-1697 | and so is one without |
| `HttpHead.FirstLineFound` | pkg/protocol/http/v1/header.go:1675-1683 | the request line is found behind any number of empty lines |
| `HttpHead.ScanBlock` | pkg/protocol/http/v1/header.go:1831-1889 | the eager scan of a well-formed block returns all its fields and exactly its length |
| `HttpHead.FieldOfText` | pkg/protocol/http/v1/header.go:1942-1980 | any header line as it may be written gives the normal name and the value without the spaces around it or its carriage return |
| `HttpHead.RawOnBlock` | pkg/protocol/http/v1/header.go:1739-1765 | the raw scan of a well-formed block returns exactly its length |
| `HttpHead.Framing` | pkg/protocol/http/v1/header.go:1621-1643 | a well-formed head followed by any bytes is parsed to exactly its length and to the head HeadOf describes; eager and raw scan agree; every proper prefix asks for more |
| `HttpHead.FramedRequest` | pkg/protocol/http/v1/header.go:1621-1643 | a head given by method, uri and version comes back as those, with the fields and host, or for GET and HEAD in HTTP/1.1 with the block as text |
| `HttpHead.RetryParse` | pkg/protocol/http/v1/header.go:1366-1391 | parsing again what a "need more" attempt left, plus new data, equals parsing everything from scratch |
| `HttpHead.ChunkedHead` | pkg/protocol/http/v1/header.go:1366-1391 | a well-formed head arriving in any pieces is answered as if it had arrived at once |
| `HttpHost.PeekInRange` | pkg/protocol/http/v1/header.go:1708-1737 | on any block kept by readRawHeaders, from any input, the search never reads past the end |
| `HttpHost.PeekOnLines` | pkg/protocol/http/v1/header.go:1708-1737 | the shortcut finds a value exactly when the first line that mentions "Host" opens with "Host: ", and then it is that line's text |
| `HttpHost.HostLineField` | pkg/protocol/http/v1/header.go:1942-1980 | the full parser reads such a line as Host with the same text, trimmed |
| `HttpHost.HostAgrees` | pkg/protocol/http/v1/header.go:411-427 | for every well-formed block: Host() equals the full parse if and only if the shortcut finds nothing, or finds the last Host line without outer space, or an earlier one with the last one's value |
| `HttpHost.HostAfterParse` | pkg/protocol/http/v1/header.go:411-427 | the host a caller sees after any head has been parsed, eagerly or not, in terms of its lines |
| `HttpHost.TwoHostsDiffer` | pkg/protocol/http/v1/header.go:411-427 | in any block with Host lines of different values the shortcut gives the first value and the full parse the last |
| `HttpParser.NormalizeHeaderKey` | pkg/protocol/http/v1/header.go:2047-2069 | the loop rewrites exactly the name, to its normal form |
| `HttpParser.HeaderScanner.Next` | pkg/protocol/http/v1/header.go:1942-1980 | one step of the scanner on the receive buffer, which changes only by the rewritten name |
| `HttpParser.ParseHeaders` | pkg/protocol/http/v1/header.go:1831-1873 | fields, host, length and buffer are those of the whole scan |
| `HttpParser.ReadRawHeaders` | pkg/protocol/http/v1/header.go:1739-1765 | the block up to its blank line, or more data needed |
| `HttpParser.NextNonEmptyLine` | pkg/protocol/http/v1/header.go:1675-1683 | the first line that is not empty, and where it ends |
| `HttpParser.RequestHeader.SetRequestLine` | pkg/protocol/http/v1/header.go:1685-1705 | method, URI and version of the line, or a malformed line, as LineWithVersion and MalformedExactly describe them |
| `HttpParser.RequestHeader.Parse` | pkg/protocol/http/v1/header.go:1621-1643 | result, header state and buffer are those of HttpHead.Parse |
| `HttpParser.RequestHeader.DoParse` | pkg/protocol/http/v1/header.go:1366-1391 | one attempt on the connection buffer, drained by the head's length only when complete |
| `HttpParser.RequestHeader.Host` | pkg/protocol/http/v1/header.go:411-427 | a host set earlier, else what the shortcut or the full parse gives, the fields being filled in only by the latter |

## Left out

- Sockets, event loops, TLS, certificates, tokens, JSON configuration, logging, signals and examples: input and output, or thin wrappers.
- pkg/sync/workerpool.go, the proxy's downstream and upstream life cycle, the controller, the emitter and pkg/upstream: pooled objects, callbacks and stubs around unseen schedulers.
- Floating-point rounding, overflow of 64-bit durations, clocks that run backwards, infinite or zero limits, SetLimit and WaitN's timers in the token bucket; a reservation cancelled twice is modelled but nothing is claimed of it.
- Closing a work queue, bounded queues and blocking offers, which bypass the list or may discard jobs.
- UNSUBSCRIBE topics and SUBSCRIBE or SUBACK lists of more than one entry have no round trip: the decoders read one entry and the UNSUBSCRIBE encoder writes none. What they decode to is stated instead.
- The buffer's end-of-file flag and reference count, ReadOnce, ReadFrom, WriteTo, Clone and buffers built around a caller's slice; slices handed out by Peek and Bytes are windows on the array, and what callers do with them later is not followed.
- HttpParser.ParseHeaders: keeps the list of fields and the host; the sorting of the other fields into content length, content type, connection and user agent is not modelled.
- MqttDecoder.Decoder.DoDecode: says nothing of a call that never returns; its requires is exactly the condition of SpinsExactly under which the loop does return, and HangsExactly covers the other case on runs.
- IoBuffer.Replay: runs in which a Restore follows a write that followed its Mark are left to WriteThenRestore, which follows one such write; what they do depends on the capacities the pool hands out.
- PathNormalizer.RemoveTrailingDotDot: works on values; in the source the root result is a package-level slice that later parses append into, and such sharing is not modelled.
- Response headers, cookies, header printing beyond one line, and HTTP bodies.
- URI.Update, CopyTo, parseQuick and the host taken lazily from a request header.
- Deletion of query arguments, numeric argument access and HTML escaping.
