# rivetxgo: streams, workers and batched SQL, verified

A Dafny model of the parts of rivetxgo where a mistake is easy to make and hard to see, with
proofs about it. `dafny verify dfyconfig.toml` checks the whole project.

**Buffered streams and the loops on top of them.** `BufReader.Reader` and `BufWriter.Writer`
are the classes of `bufiox`, with their arrays, cursors, sticky errors and unread state. They
sit on a `Streams.Source` and a `Streams.Sink` that supply or take as little as they like at
every call, fail when they like, and scribble on the part of the array they were lent and did
not fill; a `steady` one fails only at the end of what it has, or never. Everything delivered, everything buffered and everything still to come is one byte
sequence (`delivered + Pending()`), everything sunk and buffered another (`Image()`); every
method is specified by what it does to these. `StreamRuns` proves what whole runs of calls keep,
that lines and runes depend on the bytes alone, and the UTF-8 round trip (`Utf8` is section 3 of
RFC 3629). `ConnLoops` is `ConnService.Write` and `ReadBytes`; `IdleTimer` is `checkTimeout`.

**Concurrent components.** `BatchSpawns`, `UniqSpawns`, `LinkedMap`, `ShardedMap` and `MsgPool`
are step relations: one `Action` for each atomic step of any goroutine, an invariant over every
interleaving, and results about every run from the start. What the calls of a run were and what they
were answered is taken from its actions, not from what the model notes down.

**Query batching and pagination.** `SqlText` and `SqlArgs` build the statements and bind their
placeholders; `SqlTokens` reads their text word by word. `SqlWhere` gives the text of a `WHERE`
part its meaning, with `AND` binding tighter than `OR`; `SqlSelect`, `SqlKeyset` and `SqlDelete`
prove that many small statements mean one large one. The database is an oracle over a list of rows
that refuses text that does not parse and, unless it is `up`, may fail at every statement; a limited
delete picks freely among the rows it may take.

## What the proofs turned up

- The comment on `ReadLine` promises that `UnreadByte` after it always unreads the last byte
  read (rivetxcore/bufiox/bufio.go:405-407). When a full buffer ends in a carriage return, the
  code puts that byte back (lines 411-422) but keeps it as the last byte, so `UnreadByte`
  replaces the byte before it. A caller can tell: unreading is safe exactly after a whole line,
  after a prefix that fills the buffer, and after one that ends in a carriage return itself
  (`UnreadAfterReadLine`). `UnreadAfterStraddle` is an input for which it is not, and `RunReader`
  shows that nothing else in any run can damage the stream.
- An error that ends an unfinished line is handed out neither by the `ReadLine` that returns the line
  nor by the next call: it is forgotten, and the source is asked again (`ReadLine`, `DoReaderCall`).
- `BatchSpawns.Close` is lost if another signal is drained after it (`CloseIsSwallowed`): what is
  sent so far stops the consumer exactly if `Close` is the last of it (`StopsAloneIff`).
- A caller of `UniqSpawns.Add` that waits can go on exactly if its function did not panic and,
  once the context is done, was begun before (`GoesOnIff`). `PanicHappens` is a run in which it
  panicked, `StopHappens` one in which the goroutine ended with the call still queued; either way
  the caller waits for ever. This takes for granted that functions return: one that itself waits
  for another call of the same `UniqSpawns` never does.
- `nextPowerOfTwo` reaches its argument for exactly the sizes up to 2^62; above that the
  variable overflows to zero and the loop never ends (`LoopExitsIff`).
- `execOrderFieldSelect` writes an `AND` of its own in front of its condition, and `BuildQuery`
  writes one too. The text parses exactly if there is a user condition (which parses) or there
  are no fixed columns (`KeysetTextParses`).
- A user condition with a bare `OR` is not put in parentheses. The fixed columns in front of it
  then restrict its first alternative only, and the text behind it its last (`WhereMeansSome`,
  `WhereNarrowsIff`). So `WhereEq` does not restrict such a select or delete: with `tenant = 5`
  and the condition `a OR b`, a row of another tenant is selected by `b` alone
  (`OrEscapesFixed`). Fixed columns restrict every condition of a given shape exactly if the
  shape has no bare `OR` (`FixedRestrictsIffOrFree`), and so does text behind it
  (`BehindRestrictsIffOrFree`).
- For keyset pagination this means that a row which meets an alternative before the last comes
  back on every later page (`OrLetsRowsBack`). The pages are right exactly if no such row stands
  before the place where the last query starts (`ExecOrderFieldSelect`, `RightIff`).
- A chunked select returns a row once for every chunk that selects it; it equals the unchunked
  one exactly if no row is selected by two chunks (`ChunkedIsWhole`), as when all tuples differ.
- `execReserveSize` keeps the promised number of rows exactly if some value parts them from the
  others (`ReservesExactlyIff`), as when all values differ. It also never asks whether reading the
  key row failed: if the connection breaks there, it reports success and deletes nothing
  (`LostKeyKeepsAll`). And it leaves aside the conditions its builder was given: with
  `WhereEq("tenant", 5)` rows of every tenant go (`Table.Exec`, `ReserveIgnoresTenant`). It spares
  what the builder does not want, in every table, exactly if the conditions restrict nothing at all
  (`SparesUnwantedIff`), also where all values differ (`SparesDistinctUnwantedIff`); a fixed column
  with a condition without a bare `OR` always restricts (`FixedIsNotSpared`). With distinct values the
  delete has kept the promised number exactly if the key row was read or there were no more rows.
- `SelectRaw` refuses IN columns without values; `DeleteRaw` does not, and then sends no IN part,
  so the statement deletes whatever the other conditions select (`EmptyInListIsDropped`). A
  delete without a bare `OR` touches only rows its IN values name exactly if it has values, has no
  IN columns, or selects nothing at all (`DeletesOnlyNamedIff`).

## Model

| member | source | states |
|---|---|---|
| BufReader.NewReaderSize | rivetxcore/bufiox/bufio.go:47-56 | a reader whose buffer is large enough is given back as it is; otherwise a new one on the source, its buffer of the size asked for but at least 16, nothing buffered, nothing to unread |
| BufReader.Reader.IntactIsReceived | rivetxcore/bufiox/bufio.go:96-124 | the whole stream is intact exactly if delivered bytes followed by the buffer are what the source has supplied |
| BufReader.Reader.Fill | rivetxcore/bufiox/bufio.go:96-124 | slides the buffer to the front and keeps its bytes and the stream; something new is buffered unless an error is pending, and that error is the one the source reported, or `NoProgress` behind exactly a hundred empty reads in a row |
| BufReader.Reader.ResetErr | rivetxcore/bufiox/bufio.go:126-134 | hands out the sticky error once and changes nothing else |
| BufReader.Reader.Peek | rivetxcore/bufiox/bufio.go:143-170 | takes nothing; the bytes are the next ones, all of them exactly if there is no error, which is what the source's answers settle; does not ask the source for what is buffered |
| BufReader.Reader.Discard | rivetxcore/bufiox/bufio.go:177-207 | delivers exactly the next bytes skipped, as many as asked for unless the error that the source's answers settle comes first |
| BufReader.Reader.Read | rivetxcore/bufiox/bufio.go:216-263 | what lands in the caller's array is what comes next in the stream, through the buffer or past it, by at most one read of the source; the array in front stays, and behind too unless the read bypasses the buffer; an error is the pending one or the source's, and comes with an empty buffer |
| BufReader.Reader.ReadByte | rivetxcore/bufiox/bufio.go:267-279 | the next byte, or the error that the source's answers settle with nothing left buffered and, if errors are final, nothing left at all |
| BufReader.Reader.UnreadByte | rivetxcore/bufiox/bufio.go:286-301 | succeeds exactly if there is a byte to unread and room; the stream is whole again exactly if that byte is the one delivered last |
| BufReader.Reader.ReadRune | rivetxcore/bufiox/bufio.go:306-322 | the rune is decoded from bytes that no later byte could change, unless an error hides them; with final errors it is the next rune of the stream; does not ask the source while a full rune is buffered |
| BufReader.Reader.UnreadRune | rivetxcore/bufiox/bufio.go:328-336 | puts back exactly the bytes of the last rune, or refuses; the stream is whole either way |
| BufReader.Reader.ReadSlice | rivetxcore/bufiox/bufio.go:351-390 | up to and including the first delimiter, or with an error everything buffered and no delimiter in it; the error is that of a full buffer or what the source's answers settle, and none is lost; does not ask the source for a buffered delimiter |
| BufReader.Reader.SeekDelim | rivetxcore/bufiox/bufio.go:352-379 | the search that skips what it has scanned finds the first delimiter, across every slide of the buffer |
| BufReader.Reader.ReadLine | rivetxcore/bufiox/bufio.go:408-441 | a part of a line that joins with the next, without line end; a carriage return at the end of a full buffer goes back to the stream; an error is handed out without bytes, stays pending, or is forgotten with the unfinished line it ended |
| BufReader.Reader.ReadWholeLine | rivetxcore/bufiox/bufio.go:392-441 | fragments joined until none follows are the line of the stream, for any buffer and any split of the input; so for its error |
| BufReader.Reader.CollectFragments | rivetxcore/bufiox/bufio.go:450-472 | the fragments together run to the first delimiter and no further; the length is theirs; the error is what the source's answers to all the fills settle |
| BufReader.Reader.ReadBytes | rivetxcore/bufiox/bufio.go:481-492 | the stream cut behind the first delimiter; found exactly if the stream holds one when errors are final; otherwise the error that the source's answers settle |
| BufReader.Reader.ReadString | rivetxcore/bufiox/bufio.go:501-512 | the same, joined piece by piece |
| BufReader.JoinInto | rivetxcore/bufiox/bufio.go:481-492 | a buffer of exactly the right length holds the fragments in order |
| Lines.LinePartJoins | rivetxcore/bufiox/bufio.go:408-441 | the parts of one line join to a part of that line, also where a carriage return went back between them |
| Lines.LinePartCuts | rivetxcore/bufiox/bufio.go:392-441 | the part that completes a line is the stream's line, less one line end |
| Lines.LinesRoundTrip | rivetxcore/bufiox/bufio.go:392-441 | lines written with either ending, in any mix, are read back as they were |
| Lines.ReadUpToCuts | rivetxcore/bufiox/bufio.go:474-512 | a read up to a delimiter depends on the stream alone |
| BufWriter.NewWriterSize | rivetxcore/bufiox/bufio.go:590-603 | a writer whose buffer is large enough is given back as it is; otherwise a new one on the sink, its buffer of the size asked for, 4096 if that is not positive, with nothing in it |
| BufWriter.Writer.ResetErr | rivetxcore/bufiox/bufio.go:612-621 | hands out the sticky error once and clears it |
| BufWriter.Writer.Flush | rivetxcore/bufiox/bufio.go:646-667 | keeps sunk and buffered bytes the same sequence on every short or failed write; one call of the sink, whose error it reports, or that it was short; empties the buffer otherwise |
| BufWriter.Writer.Write | rivetxcore/bufiox/bufio.go:687-709 | exactly the bytes counted are accepted, all of them unless it reports an error, which is the first that the sink came to; nothing moves once the error is sticky, and the sink is left alone while there is room |
| BufWriter.Writer.WriteByte | rivetxcore/bufiox/bufio.go:712-722 | the byte is accepted exactly if no error is reported, and always if the sink takes everything |
| BufWriter.Writer.WriteRune | rivetxcore/bufiox/bufio.go:726-752 | a whole encoding is accepted, or an error says that only so many bytes of it were; always the former on a sink that takes everything, for buffers smaller than a rune too |
| BufWriter.Writer.WriteString | rivetxcore/bufiox/bufio.go:758-789 | as `Write`, always through the buffer |
| BufWriter.Writer.ReadFrom | rivetxcore/bufiox/bufio.go:795-839 | every byte taken from the reader is accepted, whatever fails; the error is the sink's, or what the reader's answers settle but for its end; a sink that takes everything leaves no sticky error, and then a reader with final errors is used up |
| Utf8.DecodeIsInverse | rivetxcore/bufiox/bufio.go:306-322 | a scalar value is what is decoded exactly if its encoding stands there |
| Utf8.DecodeRejects | rivetxcore/bufiox/bufio.go:306-322 | U+FFFD of size 1 is the answer exactly if no scalar value's encoding stands there |
| Utf8.FullRuneIsStable | rivetxcore/bufiox/bufio.go:307-309 | bytes that hold a full rune decode the same whatever follows |
| Utf8.PartialRuneIsUndecided | rivetxcore/bufiox/bufio.go:307-309 | bytes that do not can still become a scalar value |
| Utf8.DecodeAllInverse | rivetxcore/bufiox/bufio.go:726-752 | decoding all that was encoded gives every value and size back |
| Utf8.EncodeKeepsOrder | rivetxcore/bufiox/bufio.go:726-752 | encodings stand in the order of their values, byte by byte, and smaller values have no longer ones |
| StreamRuns.RunWriter | rivetxcore/bufiox/bufio.go:612-839 | call by call over any run, resets included: each accepts a first part of its argument, all of it without an error, nothing behind a sticky one; the error is the first that the sink came to; on a sink that takes everything no call of any run fails; sunk plus buffered bytes are at every point exactly those accepted, in order |
| StreamRuns.StepsAccept | rivetxcore/bufiox/bufio.go:612-839 | what a run of such calls has accepted at any point is what its calls accepted, joined, and sunk bytes stay sunk |
| StreamRuns.DoWriterCall | rivetxcore/bufiox/bufio.go:612-839 | one call does its part: accepted bytes tied to its argument and its error, no error on a sink that takes everything, a flush without one sinks everything, a reader with final errors is used up |
| StreamRuns.RunReader | rivetxcore/bufiox/bufio.go:96-512 | call by call over any run: what each took off the stream or put back, that it takes something where the stream has it, what can be unread behind it, and that every error the source's answers settle is handed out or stays pending; delivered bytes followed by the buffer are what the source supplied up to the first call that corrupts the stream, which can only be an `UnreadByte` behind a `ReadLine` |
| StreamRuns.RunKeepsWhole | rivetxcore/bufiox/bufio.go:96-512 | in any run of such calls the stream is whole up to that call and not behind it |
| StreamRuns.DoReaderCall | rivetxcore/bufiox/bufio.go:96-512 | one call moves exactly the bytes it should, or puts back exactly the last byte or the last rune, and reports no error exactly if it has done what it was asked for; a read that took something can be unread by a byte, only one of a rune by a rune, and neither behind an unread, a peek or a skip |
| StreamRuns.StepKeepsWhole | rivetxcore/bufiox/bufio.go:96-336 | one call keeps the stream whole exactly if it does not put back a byte other than the one delivered last |
| StreamRuns.ReadAllLines | rivetxcore/bufiox/bufio.go:392-441 | reading to the end gives the lines of the stream, whatever the buffer and the reads |
| StreamRuns.UnreadAfterReadLine | rivetxcore/bufiox/bufio.go:286-301 | behind every `ReadLine`, also one that follows a carriage return put back: unreading succeeds unless there was an error, and leaves the stream whole exactly if the line is whole, fills the buffer, or ends in a carriage return |
| StreamRuns.UnreadAfterStraddle | rivetxcore/bufiox/bufio.go:405-422 | an input for which unreading after a line loses a byte and doubles another |
| StreamRuns.WriteRunes | rivetxcore/bufiox/bufio.go:726-752 | without an error every rune's encoding is accepted, in order; a sink that takes everything leads to none |
| StreamRuns.ReadRunes | rivetxcore/bufiox/bufio.go:306-322 | the runes and sizes of the stream, whatever the buffer and the reads |
| StreamRuns.RuneRoundTrip | rivetxcore/bufiox/bufio.go:306-322 | runes written, flushed and read back are the same with their sizes, for every size of both buffers and every split, unless an error is reported; a sink that takes everything leads to none |
| ConnLoops.Conn.WriteMsg | rivetxcore/tcpx/tcp.go:848-906 | all of a kept message is accepted or the loop closes with a first part of it, the latter only if the writer had failed or its sink fails now; nothing of one discarded or refused; the count stays exact |
| ConnLoops.Conn.WriteLoop | rivetxcore/tcpx/tcp.go:908-975 | for every sequence of picks: takes as many messages as they say and ends as they say, or fails inside a message with the sink; the payload of the messages taken is accepted; whenever the loop waits, the buffer is empty or its timer runs, unless the writer has failed |
| ConnLoops.CourseReasons | rivetxcore/tcpx/tcp.go:908-975 | each pick of a message takes the next one; the loop quits only for the context, is drained only when closed and empty, and fails at the first refusal |
| ConnLoops.DoneIsHeard | rivetxcore/tcpx/tcp.go:913-973 | the end of the context stops the loop wherever it is picked between bursts |
| ConnLoops.DrainsIff | rivetxcore/tcpx/tcp.go:908-975 | without a refusal or an end of the context, everything is taken and the loop ends exactly if the channel is found closed behind a pick for each message |
| ConnLoops.Conn.FlushOrArm | rivetxcore/tcpx/tcp.go:957-964 | after a burst the flush timer is armed exactly if something is buffered, there is a flush time and no quit; otherwise nothing waits unless the writer has failed; nothing accepted is lost |
| ConnLoops.Conn.FlushLate | rivetxcore/tcpx/tcp.go:965-969 | the timer leaves nothing waiting unless the writer has failed |
| ConnLoops.Conn.Write | rivetxcore/tcpx/tcp.go:821-979 | the same with the deferred flush: the wire never holds anything but a prefix of the payload, also after the reset, and all that is accepted once the loop has ended, unless the writer has failed; the count is bytes sunk plus bytes buffered |
| ConnLoops.AcceptedIsPrefix | rivetxcore/tcpx/tcp.go:833-906 | what a failure leaves accepted is a prefix of the payload |
| ConnLoops.Conn.ReadBytes | rivetxcore/tcpx/tcp.go:981-1016 | the array is filled with the stream's next bytes, each counted once, unless the quit flag is seen or the reader reports an error first; with final errors and no quit, it closes exactly if the stream is too short; failed exactly if the error is not one of a peer that is gone |
| IdleTimer.IdleTicksIsLongest | rivetxcore/tcpx/tcp.go:498-544 | the idle time counts the longest run of ticks without a change |
| IdleTimer.IdleTimeIsTicks | rivetxcore/tcpx/tcp.go:513-543 | the idle time is the interval times the ticks since the counter changed |
| IdleTimer.IntervalIsLeast | rivetxcore/tcpx/tcp.go:509-511 | ticks are as far apart as asked for, half a second at least, and no further |
| IdleTimer.Advance | rivetxcore/tcpx/tcp.go:513-543 | one clock stays the interval times the ticks since its counter changed, its flag the comparison with the threshold |
| IdleTimer.CheckTimeout | rivetxcore/tcpx/tcp.go:498-594 | closes at precisely the first tick at which the configured condition holds, unless the connection has quit; names the direction |
| IdleTimer.CanTimeOutIff | rivetxcore/tcpx/tcp.go:523-543 | some silence closes the connection exactly if the thresholds the mode needs are set |
| IdleTimer.StaysPut | rivetxcore/tcpx/tcp.go:513-543 | a counter that stops changing times out exactly when the ticks since add up to the threshold |
| BatchSpawns.RunKeepsInv | rivetxcore/gox/go.go:245-332 | every interleaving keeps order and number of the items, the wake-up, and the flag acted on |
| BatchSpawns.RunFromInit | rivetxcore/gox/go.go:245-346 | the items of the calls of `Add` are those handed to the callback, then in hand, then waiting, in lock order; no list of the batch size asked for waits unseen; once stopped, all before the last swap is delivered |
| BatchSpawns.StopsOnLastClose | rivetxcore/gox/go.go:283-330 | the consumer stops exactly if the last flag drained is `Close` |
| BatchSpawns.CloseStops | rivetxcore/gox/go.go:270-330 | if no signal follows it, a `Close` stops the consumer by its own steps, with everything added before its last swap delivered |
| BatchSpawns.StopsAloneIff | rivetxcore/gox/go.go:270-330 | what is sent so far stops the consumer exactly if `Close` is the last of it |
| BatchSpawns.CloseIsSwallowed | rivetxcore/gox/go.go:262-303 | a run in which a `Close` has no effect |
| BatchSpawns.WakeUpDelivers | rivetxcore/gox/go.go:245-312 | from any state with a wake-up, signals under way and the consumer's own steps deliver everything added so far |
| BatchSpawns.TicksDeliver | rivetxcore/gox/go.go:278-332 | unless a `Close` is the last signal, the consumer's own steps and one tick deliver everything added so far, full or not, and it goes on |
| BatchSpawns.OneSignalForEachList | rivetxcore/gox/go.go:245-260 | however many goroutines add, they signal at most once for each list |
| UniqSpawns.StepKeepsInv | rivetxcore/gox/go.go:133-217 | each step keeps functions running one at a time in the order sent, and no two callers on one channel |
| UniqSpawns.WaitsForItsOwn | rivetxcore/gox/go.go:52-67 | a waiting caller goes on exactly when its own function has ended; answering never blocks; a pooled channel is empty |
| UniqSpawns.BeginsInOrder | rivetxcore/gox/go.go:133-217 | functions begin one at a time, in the order of the sends of the run |
| UniqSpawns.AnsweredHasReturned | rivetxcore/gox/go.go:133-217 | nobody is answered whose function has not run to its end |
| UniqSpawns.NoChannelIsLost | rivetxcore/gox/go.go:133-217 | every channel ever lent is pooled, with its call, or dropped by the pool |
| UniqSpawns.PanickedWaitsForEver | rivetxcore/gox/go.go:147-217 | after its function panicked a waiting caller never goes on, whatever happens |
| UniqSpawns.WaitingGoesOn | rivetxcore/gox/go.go:133-217 | as long as the function has not panicked and the goroutine has not ended before beginning it, the goroutine's and the caller's own steps bring the answer |
| UniqSpawns.GoesOnIff | rivetxcore/gox/go.go:133-217 | in every run a call that waits for its function, sent or not yet, can go on exactly if the function has not panicked and, once the context is done, was begun before |
| UniqSpawns.LostWaitsForEver | rivetxcore/gox/go.go:147-217 | otherwise it never goes on, whatever happens |
| UniqSpawns.PanicHappens | rivetxcore/gox/go.go:151-155 | a run in which a waiting caller's function panics |
| UniqSpawns.StopHappens | rivetxcore/gox/go.go:156-181 | a run in which the context is done with a call queued: it waits for ever though nothing panicked |
| LinkedMap.StepKeepsInv | rivetxcore/linkedmap/linked_map.go:22-39 | each step keeps the list free of duplicates and the map's keys split into listed, not yet listed, and not yet deleted |
| LinkedMap.RunKeepsInv | rivetxcore/linkedmap/linked_map.go:22-39 | so does every interleaving |
| LinkedMap.AlwaysBounded | rivetxcore/linkedmap/linked_map.go:26-36 | at every point the map exceeds its bound by no more than the insertions under way, and one |
| LinkedMap.QuiescentHoldsLast | rivetxcore/linkedmap/linked_map.go:22-43 | whenever no insertion is under way, the map holds exactly the last accepted entries with their values |
| LinkedMap.CallsAreBooked | rivetxcore/linkedmap/linked_map.go:22-39 | at every point, the calls answered true are the accepted ones and those that wait for the mutex |
| LinkedMap.QuiescentHoldsCalls | rivetxcore/linkedmap/linked_map.go:22-43 | then the calls answered true are exactly the accepted ones, in mutex order |
| LinkedMap.AddIsFound | rivetxcore/linkedmap/linked_map.go:22-43 | a call for an absent key is answered true and its entry found until evicted; one for a present key is answered false and changes nothing |
| LinkedMap.DistinctCallsLeaveLast | rivetxcore/linkedmap/linked_map.go:22-43 | n calls with different keys and a bound m leave min(n, m) entries, the last in mutex order |
| LinkedMap.QuietsDown | rivetxcore/linkedmap/linked_map.go:22-39 | from every reachable state the calls under way can all end without a further call |
| ShardedMap.NextPowerOfTwo | rivetxcore/shardedmap/sharded_map.go:8-17 | the least power of two at or above the size, for every size up to 2^62 |
| ShardedMap.LoopExitsIff | rivetxcore/shardedmap/sharded_map.go:8-17 | the doubling reaches the size in 64-bit arithmetic exactly up to 2^62 |
| ShardedMap.MaskIsResidue | rivetxcore/shardedmap/sharded_map.go:44-52 | masking with the count less one is the residue, and in range |
| ShardedMap.GetShard | rivetxcore/shardedmap/sharded_map.go:50-52 | the shard of a key is its residue by the number of shards |
| ShardedMap.StepKeepsInv | rivetxcore/shardedmap/sharded_map.go:54-109 | each step keeps the shards one set with each key in its own shard, settles at most one answer, of the call that moves, and keeps the counter off by the changes not yet counted |
| ShardedMap.RefinesOneSet | rivetxcore/shardedmap/sharded_map.go:54-109 | every interleaving gives its calls the answers that one plain set would, in the order the answers are settled |
| ShardedMap.CallSettlesOnce | rivetxcore/shardedmap/sharded_map.go:54-109 | each call is settled exactly once between its first step and its return, with its own key and the answer it returns |
| ShardedMap.OwnStepsEnd | rivetxcore/shardedmap/sharded_map.go:54-109 | no call takes more than three steps of its own |
| ShardedMap.NeverStuck | rivetxcore/shardedmap/sharded_map.go:54-109 | while a call is under way, some call can take its next step |
| MsgPool.NewMsg | rivetxcore/msgPool/msg.go:33-41 | a new message has one to two blocks more room than the size it is made for, and a pool exactly if pools are open and one serves that size |
| MsgPool.IndexServes | rivetxcore/msgPool/msg.go:33-37 | the k-th pool serves the sizes of the k-th block |
| MsgPool.StepKeepsInv | rivetxcore/msgPool/msg.go:33-130 | each step, a handler that clones the message in its hand included, keeps every count equal to the references there are, and the pools to unreferenced messages, once each |
| MsgPool.GivesSizeAsked | rivetxcore/msgPool/msg.go:33-90 | a client gets a message of the size it asked for with one reference, new or pooled, whatever happens in between |
| MsgPool.ReceivesInOrder | rivetxcore/tcpx/tcp.go:754-820 | the loops receive what the run sent on their channels, in the order sent |
| MsgPool.PutUndoesClone | rivetxcore/tcpx/tcp.go:754-761 | when a send by reference fails, putting the clone restores everything |
| MsgPool.ClonedIsSent | rivetxcore/tcpx/tcp.go:778-785 | when it succeeds, the channel has one reference more and the caller as many as before; once the write loop has put the messages in front and then the clone, everything is as if only those in front had been there |
| MsgPool.NeverPanics | rivetxcore/msgPool/msg.go:33-130 | no panic branch is ever reached, and pooled messages have room for every size their pool serves |
| MsgPool.DrainedStays | rivetxcore/tcpx/tcp.go:480-490 | once the channels are closed and drained, nothing comes to be in them again |
| MsgPool.DrainLeavesNothing | rivetxcore/tcpx/tcp.go:478-490 | then a count is what clients own, and a pooled message nobody owns is back, or on its way |
| SqlText.BuildQuery | rivetxsql/util.go:417-493 | the clauses present, in order, joined by `AND`, between head and tail |
| SqlArgs.RepeatedMarks | rivetxsql/select.go:177-180 | repeating and trimming leaves as many marks as values, with commas between |
| SqlArgs.DecimalReads | rivetxsql/select.go:193 | what is printed for a number is read back as that number |
| SqlArgs.PlaceholdersAlign | rivetxsql/util.go:417-493 | bound in order, every value stands next to the column or in the tuple it was given for, and none is left over |
| SqlArgs.SelectStatement | rivetxsql/select.go:156-194 | the statement `SelectRaw` sends, with its arguments bound |
| SqlArgs.DeleteStatement | rivetxsql/delete.go:67-98 | the statement `DeleteRaw` sends, with its arguments bound |
| SqlWhere.AndBindsToFirst | rivetxsql/util.go:449-459 | text in front of an `AND` binds to the first alternative of the condition behind it |
| SqlWhere.AndBindsToLast | rivetxsql/select.go:323-328 | text added behind an `AND` binds to the last alternative of the condition |
| SqlWhere.HoldsBySome | rivetxsql/util.go:449-459 | reading a condition with `AND` before `OR` is asking whether some alternative between its `OR`s holds as a whole |
| SqlWhere.AndNarrowsIff | rivetxsql/select.go:323-328 | so it narrows the condition at a row exactly if it holds there or no earlier alternative does; always without `OR` |
| SqlWhere.WhereParses | rivetxsql/util.go:440-480 | the assembled text parses exactly if there is a clause, the user's condition parses, and the IN part names a column |
| SqlWhere.WhereMeansAll | rivetxsql/util.go:440-480 | without a bare `OR` the text means all its clauses together |
| SqlWhere.WhereMeansSome | rivetxsql/util.go:440-480 | for every condition: an alternative counts where it holds, the fixed columns do if it is the first, and the IN part does if it is the last |
| SqlWhere.WhereNarrowsIff | rivetxsql/util.go:440-480 | the text means all its clauses together at a row exactly if the row meets the fixed columns and the IN part, or every alternative that holds there is cut off by the clause it is bound to |
| SqlWhere.FixedRestrictsIffOrFree | rivetxsql/select.go:301-305 | fixed columns restrict every condition of a shape, at every row, exactly if it has no bare `OR` |
| SqlWhere.BehindRestrictsIffOrFree | rivetxsql/select.go:323-328 | text behind a condition restricts every one of its shape exactly then |
| SqlWhere.OrEscapesFixed | rivetxsql/delete.go:178-182 | a row of another tenant that a condition with `OR` selects all the same |
| SqlTokens.ReadAtAnd | rivetxsql/util.go:443-451 | text joined by `AND` reads, word by word, as its parts do, if the first closes its parentheses; `AND` and `OR` connect in capitals or not |
| SqlTokens.TextReadsAsTokens | rivetxsql/util.go:440-480 | the clauses as joined, with their values bound, read as the tokens whose meaning is proved |
| SqlTokens.StatementReads | rivetxsql/util.go:440-480 | so does the `WHERE` part of the whole statement sent, once its arguments are bound in order |
| SqlTokens.FirstTextReads | rivetxsql/select.go:398-402 | the condition text of the first page reads as the condition whose meaning is proved |
| SqlTokens.NextTextReads | rivetxsql/select.go:393-397 | and so does that of a later page, for every value of the last row |
| SqlTokens.SelectHeadReads | rivetxsql/select.go:194 | a select names its fields, its table and its join in front of `WHERE` |
| SqlTokens.DeleteHeadReads | rivetxsql/delete.go:97 | a delete names its table in front of `WHERE` |
| SqlTokens.TailReads | rivetxsql/select.go:192-194 | a select ends with its order, its limit and its offset, in that order and with the numbers given |
| SqlTokens.DeleteTailReads | rivetxsql/delete.go:93-97 | a delete ends with its limit, if it has one |
| SqlTokens.FixedWords | rivetxsql/select.go:189-191 | a fixed condition is its column, an equals sign, its value |
| SqlTokens.InWords | rivetxsql/util.go:461-480 | the IN part is its columns, `IN`, its tuples |
| SqlTokens.KeyWords | rivetxsql/select.go:393 | the comparison is the order column, the operator, the last value |
| SqlSelect.MakeChunks | rivetxsql/select.go:126-141 | the loop cuts the values into pieces of the given size, or makes one empty piece |
| SqlSelect.SelectChunk | rivetxsql/select.go:151-241 | the pages of a chunk are one query's rows `[offset, offset+limit)`, for any page size; the paging ends, and succeeds if the database is up and the text parses |
| SqlSelect.SelectRaw | rivetxsql/select.go:69-244 | refuses exactly the arguments the checks name; without order, limit and offset every row comes as often as chunks select it, as from one statement if tuples differ and there is no bare `OR`; with one of them, rows `[offset, offset+limit)` of the one statement; fails otherwise only if the database is not up, the text does not parse or the offset is negative |
| SqlSelect.AcceptedParses | rivetxsql/select.go:104-124 | apart from counts that do not match, what is refused is what would not parse, or IN columns without values |
| SqlSelect.SomeChunkSelects | rivetxsql/select.go:126-141 | a row is selected with all values exactly if some chunk selects it, `OR` or not |
| SqlSelect.ChunkedIsWhole | rivetxsql/select.go:79-88 | chunked and unchunked answers agree as multisets exactly if no row is selected by two chunks |
| SqlSelect.DistinctTuplesChunkFreely | rivetxsql/select.go:79-88 | they agree when the tuples differ and the condition has no bare `OR` |
| SqlKeyset.KeysetTextParses | rivetxsql/select.go:377-402 | the text of every page parses exactly if the user's condition does and there is one wherever there are fixed columns |
| SqlKeyset.KeysetTextMeans | rivetxsql/select.go:377-402 | for every condition: the first text selects the rows that escape by an alternative before the last and those of the last; a later text restricts only the latter to rows beyond the last one; without `OR` none escapes and the rest is what was asked for |
| SqlKeyset.OrLetsRowsBack | rivetxsql/select.go:394-397 | a condition with `OR` that lets an earlier row in again |
| SqlKeyset.BeyondIsBehind | rivetxsql/select.go:394-397 | in an ordered list, the rows a later text selects are those behind the k-th if none up to it escapes, and start with one that does otherwise |
| SqlKeyset.ExecOrderFieldSelect | rivetxsql/select.go:366-420 | for every condition, direction and batch size: rows `[offset, offset+limit)` of what the first text selects, exactly if no row escapes before the last query starts; without `OR` always, and of what was asked for; it ends, refuses an offset above the limit, and fails otherwise only if the database is not up, a text does not parse or the offset is negative |
| SqlKeyset.TrackStep | rivetxsql/select.go:383-418 | one more page keeps the rows in place, or takes them astray for good exactly where a row escapes |
| SqlKeyset.Exec | rivetxsql/select.go:422-432 | the same for both ways to select, refusals and success included: pairs each direction with the comparison that leads on in it |
| SqlDelete.Table.DeleteRaw | rivetxsql/delete.go:15-123 | without a limit removes and counts exactly the rows one statement would, repeated tuples or not; succeeds if the database is up and the text parses; an error leaves whole chunks undone; with a limit, as many selected rows as it allows |
| SqlDelete.EmptyInListIsDropped | rivetxsql/delete.go:27-38 | IN columns without values are not refused and leave every row selected that the other conditions select |
| SqlDelete.DeletesOnlyNamedIff | rivetxsql/delete.go:27-38 | a delete without a bare `OR` touches only rows its IN values name exactly if it has values, has no IN columns, or selects nothing |
| SqlDelete.MissedByAll | rivetxsql/delete.go:50-65 | the chunks together miss exactly what the statement with all values misses |
| SqlDelete.Table.DeleteUpTo | rivetxsql/delete.go:242-264 | repeated limited deletes end with exactly the rows above the key, whichever rows each picks, and with success if the database is up; an error never costs a row above it |
| SqlDelete.Table.ExecReserveSize | rivetxsql/delete.go:223-264 | keeps the rows above the key and reports how many went, if the key row was read, which succeeds if the database is up; success with nothing deleted if its reading failed; with distinct values keeps exactly the number reserved if and only if the key row was read or there were no more rows |
| SqlDelete.LostKeyKeepsAll | rivetxsql/delete.go:232-241 | a table and a broken connection for which success is reported and nothing deleted |
| SqlDelete.Table.Exec | rivetxsql/delete.go:266-272 | what a builder executes, which succeeds if the database is up: with a reserve field exactly the rows above the key stay, whatever conditions it was given |
| SqlDelete.SparesUnwantedIff | rivetxsql/delete.go:223-264 | that delete spares what the builder's conditions do not want, in all tables and for any reserve, exactly if the conditions restrict nothing |
| SqlDelete.SparesDistinctUnwantedIff | rivetxsql/delete.go:223-264 | the same over tables whose values all differ |
| SqlDelete.FixedIsNotSpared | rivetxsql/delete.go:178-182 | so a fixed column is not enough, unless the condition has a bare `OR`: some table loses a row of another value |
| SqlDelete.ReserveIgnoresTenant | rivetxsql/delete.go:178-182 | a builder restricted to one tenant that reports one row deleted: another tenant's |
| SqlDelete.KeyAtPlace | rivetxsql/delete.go:225-236 | the key has at most the reserved number of values above it, and more with those that equal it |
| SqlDelete.ReservesExactlyIff | rivetxsql/delete.go:223-264 | exactly the reserved number is kept if and only if some value parts them from the rest |
| SqlDelete.DistinctReservesExactly | rivetxsql/delete.go:223-264 | distinct values always part |

## Left out

- BufReader.Reader.ReadSlice: its result, like those of `Peek` and `ReadLine`, is a value here; in the source it is a view of the buffer that the next read may overwrite.
- BufReader.NewReaderSize: an argument that is a `Reader` with too small a buffer becomes the source of a new one in the original; here sources are not readers.
- BufReader.Reader.Fill: a source that reports a negative count makes the original panic; here counts are never negative.
- BufReader.Reader.ReadLine: a source may report end of file or errors of its own, but not one of this package's error values, which the original would mistake for its own.
- BufWriter.NewWriterSize: an argument that is a `Writer` with too small a buffer becomes the sink of a new one in the original; here sinks are not writers.
- BufWriter.Writer.Write: a sink that takes nothing and reports nothing for ever keeps the original in its loop; here the number of such calls in a row is bounded, by any number.
- BufWriter.Writer.WriteString: models the buffered path only, not a sink that is itself an `io.StringWriter`.
- BufWriter.Writer.ReadFrom: models the buffered path only, not a sink that is itself an `io.ReaderFrom`.
- ConnLoops.Conn.Write: every error of the writer closes the connection, as all branches of `SocketErr` do; which reason is recorded is not modelled.
- ConnLoops.Conn.ReadBytes: which device errors say that the peer is gone is a parameter, as the error values of the system are not modelled.
- IdleTimer.CheckTimeout: which direction names a close for both at once depends on the wall clock and is left open; callbacks and the rounding of sleeps are not modelled.
- BatchSpawns.RunKeepsInv: `Flush` and `Close` that give up after five seconds are runs in which they do not send; a callback that panics is not modelled.
- UniqSpawns.GoesOnIff: a function that is running is taken to return or to panic at some time; one that waits for another call of its own `UniqSpawns` does neither.
- UniqSpawns.WaitsForItsOwn: pools of other channel sizes are not modelled.
- LinkedMap.RunKeepsInv: a goroutine waiting for the mutex is known by the key it has stored; `Load` reads the map as it is at that step and changes nothing, so it has no action.
- ShardedMap.RefinesOneSet: the counter is unbounded; its 64-bit wrap-around needs more keys than there is memory for.
- MsgPool.NeverPanics: clients put each reference once, senders finish before the delayed close (a send on a closed channel panics in the original), and every received message is put; `ReadChan` without a servicer drops its messages instead.
- MsgPool.StepKeepsInv: counts are unbounded, channels have no capacity (a full one is a send that does not happen yet), and the bytes of a message are in `ConnLoops` instead.
- SqlArgs.PlaceholdersAlign: for condition texts with as many marks as arguments and other texts without any, as every use needs.
- SqlTokens.TextReadsAsTokens: what a phrase between connectives means is the database's, and quoted text is not told from other words; `||`, `XOR` and the `AND` of a `BETWEEN` are not told apart from phrases and connectives.
- SqlWhere.WhereMeansSome: NULL and three-valued logic are not modelled; a parenthesised condition is one atom.
- SqlSelect.SelectRaw: rows stand in the order the statement asks for and do not change between pages; time limits are database errors; reading rows into structs is not modelled.
- SqlKeyset.ExecOrderFieldSelect: the limit is not negative (the original panics), order values are distinct and not NULL, there are at most 2147483647 IN tuples, and every row can tell its order value.
- SqlDelete.Table.ExecReserveSize: how the query for the key row fares is a parameter; no other client changes the table meanwhile, values are not NULL, and pauses are not modelled.
- SqlDelete.Table.DeleteRaw: the last insert id it also returns is not modelled.
- `WriteTo`, `AvailableBuffer` and `Reset` of the buffers.
- Dialing, listening, deadlines and the goroutines that start and stop a connection.
- Insert, update and create statements: the same chunk loop, and text formatting.
- `ListSpawns`, `TimerSpawns`, statistics, logging, `vector`, `arcswap`, `syncx`, `session`, `config`, `limitx` and `ginx`: plumbing that would add easy members.
