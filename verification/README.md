# Goblin Core benchmarks: a verified model

The benchmark programs of Goblin Core hold several self-contained cores on whose correctness every published number
depends: a concurrent fan-out barrier, the atomic Lua idioms and their native commands, three incremental RESP readers,
generators that predict a server's replies, a parallel file scan, a bounded ranking, a recovery check and the sizing of
a reserved arena. This project models those cores and proves what they promise, for all inputs, all schedules, all ways
of cutting a byte stream and all random choices. `dafny verify dfyconfig.toml` checks everything.

Code that updates state in place is modelled by classes and loops; each such method is proved against a specification
function, and the promises are lemmas about those functions.

| file | what it models | main results |
|---|---|---|
| `Barrier.dfy` | publisher and N readers over two shared atomics, stepped atomically, spurious compare-exchange failures included | barrier safety in every interleaving, no late write, exact samples, no deadlock, bounded work |
| `Collections.dfy` | facts about sequences, sets and division shared by the models | |
| `Decimal.dfy` | decimal and hexadecimal text of numbers | round trips, injectivity |
| `Resp.dfy` | RESP values, their encoding and a pure decoder | round trip for every well-formed value, exactly which replies are confused, command round trip |
| `Connection.dfy` | the pub/sub reader: growing, clearing and compacting a buffer while parsing | refines the pure decoder on every stream under every fragmentation |
| `Boundary.dfy` | the latency reader, which only finds the end of a reply with `strtol` | same boundary as the decoder whenever the decoder accepts |
| `Client.dfy` | the byte-at-a-time reader of the worker and of the recovery client, over a sliding array | refines its decoder; which lines it can read back |
| `Leases.dfy` | claim, compare-and-delete, compare-and-expire, compare-and-set, expiry, the split unlock | lease safety over whole runs, invisibility of expiry, exactly when the split unlock hits another owner |
| `SlidingWindow.dfy` | the sliding-window limiter, script and native form | limit over every interval of every run, when script and native agree, when a request is granted |
| `Counters.dfy` | bounded increment, decrement-if-positive, set-if-greater | conservation, ceiling, order independence |
| `MixedModel.dfy` | dense sets with inverse index and the mixed hash workload | every predicted reply is what a plain map answers |
| `MixedWire.dfy` | that workload as HSET and HDEL over bytes | the wire replies are the predicted ones |
| `MixedWorkload.dfy` | the mixed sorted-set workload | the live table is the member set after every event |
| `Tokens.dfy` | fixed-width tokens and the in-place placeholder rendering | width, read-back, order isomorphism, probes hit |
| `Shards.dfy` | byte-range sharding of a line file, merged in completion order | each record scanned exactly once |
| `Leaderboard.dfy` | bounded insertion array and the three decay weightings, Python form | prefix of the stable sort; what each mode ranks |
| `LuaLeaderboard.dfy` | the Lua form over one-based tables and numbers with infinities | exactly when the two scripts agree |
| `Recovery.dfy` | the recovery check over six data types | the check passes exactly on the exact dataset |
| `Arena.dfy` | packing values into a reserved chunked arena | exact footprint; exactly when the reservation suffices |
| `Churn.dfy` | the pipelined set worker | every token loaded once, churn restores the set, checksums for any depth |

## Findings

Where a plausible property is false of the code, the code is kept, a lemma shows a failing input and another lemma gives
the exact condition.

- The documentation of `GOBLIN.ZWINDOW` (docs/commands/GOBLIN.ZWINDOW.md:70-74, 97-104, 132) says that a holder refreshes its
  place by calling again and that a rejected call leaves the set unchanged. Both are false of the code. A full window
  rejects its own holder (`SlidingWindow.HolderCannotRenew`); in every run a request is granted exactly when fewer than
  `limit` members were granted in the current window (`SlidingWindow.GrantedExactly`). A rejection evicts first
  (`SlidingWindow.RejectionEvicts`); it leaves the set unchanged exactly when nothing was due for eviction
  (`SlidingWindow.RejectedUnchangedExactly`).
- The native command evicts from minus infinity, the script from zero; they agree for every limit and member exactly when
  no entry due for eviction has a negative score (`SlidingWindow.NativeMatchesScriptExactly`). Such an entry blocks the
  script for good and not the native command (`SlidingWindow.NegativeScoreBlocksScript`,
  `SlidingWindow.NegativeScoreFreesNative`).
- The pub/sub reader cannot tell a nil reply from an empty one, and confuses nothing else (`Resp.SameValueExactly`). The
  worker's reader cannot read a line that holds a carriage return (`Client.StrictLineExactly`). What the
  `strtol` reader makes of a header depends on how much has arrived behind it exactly when the header holds nothing but
  white space (`Boundary.StrtolStableExactly`).
- The replies of the bounded increment do not account for the counter once a granted increment lands on -1, the answer
  that means denied (`Counters.RefundMisread`); they do exactly when the increments misread that way sum to zero
  (`Counters.RepliesAccountExactly`).
- The split GET then DEL unlock can delete another owner's key (`Leases.SplitUnlockRace`); it does exactly when a request
  in between was a granted claim or a successful swap to another token whose entry is still there
  (`Leases.SplitUnlockExactly`).
- LINEAR decay is not a recency ranking across `now` plus one half-life: it is one exactly when no two members lie on
  opposite sides of that point (`Leaderboard.LinearIsRecencyExactly`).
- The Lua and the Python form of the ranking are not interchangeable: they differ for a bound below one as soon as
  there is a member, for a zero half-life (`LuaLeaderboard.ZeroHalfLife`) and for a member on the pole of the linear weight
  (`LuaLeaderboard.PoleInLua`), and nowhere else (`LuaLeaderboard.ScriptsAgreeExactly`).
- `array_reserve_bytes` suffices for every number of values exactly when
  `(C % e) * 65536 <= (C - C % e) * (e - 1)` (`Arena.ReserveExactly`). That always holds for chunks of 128 KiB and more, and
  for values of up to 257 bytes in 64 KiB chunks; 10923-byte values in 64 KiB chunks break it (`Arena.NotCovered`).

## Model

| member | source | states |
|---|---|---|
| Barrier.BarrierHolds | benchmarks/pubsub_benchmark.cpp:917-996 | in every legal schedule, whenever the publisher leaves its spin loop all N readers have finished exactly this iteration, nothing is in flight, and `last_tick` is the true maximum of the ticks sampled in it and not before its start |
| Barrier.NoLateWrite | benchmarks/pubsub_benchmark.cpp:933-987 | in every reachable state from collecting a round until the next publication no reader can write `arrived` or `last_tick` |
| Barrier.MeasurementExact | benchmarks/pubsub_benchmark.cpp:961-987 | a finished run holds one acknowledgement and one delivery per sample, each exactly the distance from its round's start to the clock reading it ends at, so no subtraction wraps |
| Barrier.TicksAreReadings | benchmarks/pubsub_benchmark.cpp:932-949 | in every schedule the tick a reader recorded for a round is the clock of the state in which it took its sample, with that round's message in hand, that many ticks recorded before and the round still open |
| Barrier.StartsAreReadings | benchmarks/pubsub_benchmark.cpp:961-968 | the start of a round is the clock of the state that published it |
| Barrier.AcksAreReadings | benchmarks/pubsub_benchmark.cpp:967-969 | the acknowledgement of a round is the clock of the state that took it |
| Barrier.ClockTellsTime | benchmarks/pubsub_benchmark.cpp:933-987 | the clock of a run is its initial value plus the time the run lets pass |
| Barrier.NeverStuck | benchmarks/pubsub_benchmark.cpp:917-996 | in every state of the invariant that is not finished some step that makes progress is enabled: no deadlock |
| Barrier.AlwaysFinishes | benchmarks/pubsub_benchmark.cpp:917-996 | the number of progress steps of any schedule is bounded, however the compare-exchange loops interfere, and while the publisher has not finished there is one more to take |
| Barrier.StepKeeps | benchmarks/pubsub_benchmark.cpp:917-996 | every atomic step of publisher, reader or delivery keeps the inductive invariant that ties counters, inboxes, program counters and recorded samples together |
| Barrier.RunKeeps | benchmarks/pubsub_benchmark.cpp:917-996 | so the invariant holds in every state any legal schedule reaches |
| Barrier.RoundClosed | benchmarks/pubsub_benchmark.cpp:961-987 | when `arrived` equals N in an open round, every reader is one iteration on and idle, and `last_tick` is the maximum of that round |
| Barrier.MoverKept | benchmarks/pubsub_benchmark.cpp:909-915 | a reader's load, compare, exchange (with spurious failure) and increment steps never lower `last_tick` and keep the reader in step with the round |
| Decimal.IntRoundTrip | benchmarks/pubsub_benchmark.cpp:373-381 | every 64-bit integer that is formatted is parsed back |
| Decimal.DigitsInjective | benchmarks/external_logging_recovery.cpp:305-311 | distinct ordinals have distinct texts |
| Resp.RoundTrip | benchmarks/pubsub_benchmark.cpp:383-435 | decoding the encoding of any well-formed nested value gives it back and leaves the following bytes alone |
| Resp.RoundTripAll | benchmarks/pubsub_benchmark.cpp:437-449 | any sequence of replies is decoded in order |
| Resp.SameValueExactly | benchmarks/pubsub_benchmark.cpp:383-435 | two well-formed replies decode to the same value exactly when they differ only in nil against empty |
| Resp.EncodeCommand | benchmarks/pubsub_benchmark.cpp:154-173 | the command writer produces the encoding of an array of bulk strings |
| Resp.CommandRoundTrip | benchmarks/pubsub_benchmark.cpp:154-173 | a written command reads back as its arguments, for arbitrary bytes including CR and LF |
| Resp.AppendBulk | benchmarks/external_logging_recovery.cpp:313-319 | appends exactly the encoding of one bulk string |
| Connection.RespConnection.Fill | benchmarks/pubsub_benchmark.cpp:337-353 | receives any nonempty prefix of what remains, or reports the end; the unread bytes as a whole do not change |
| Connection.RespConnection.Line | benchmarks/pubsub_benchmark.cpp:361-371 | returns the line the whole stream has, however little of it had arrived |
| Connection.RespConnection.ParseValue | benchmarks/pubsub_benchmark.cpp:383-435 | on every stream, well-formed or not, the outcome is that of the pure decoder and depends on the bytes alone |
| Resp.HugeGroupFails | benchmarks/pubsub_benchmark.cpp:416-431 | a group that announces more elements than the bytes behind it can hold decodes to a failure |
| Connection.RespConnection.ReadValue | benchmarks/pubsub_benchmark.cpp:437-449 | reads exactly what the unread bytes decode to and leaves exactly the bytes behind it, whether the buffer is kept, cleared or compacted |
| Connection.RespConnection.ReadMany | benchmarks/pubsub_benchmark.cpp:437-449 | repeated reading returns the values of the stream in order |
| Boundary.RespConn.Parse | benchmarks/latency_shootout.cpp:220-247 | whenever the checking decoder accepts the stream, this reader finds the same boundary under every fragmentation, nil bulks, nil arrays and maps of 2N elements included |
| Boundary.RespConn.Command | benchmarks/latency_shootout.cpp:185-191 | one command consumes exactly one reply and returns its kind |
| Boundary.RespConn.Fill | benchmarks/latency_shootout.cpp:212-217 | extends the buffer by a nonempty prefix of what remains |
| Boundary.StrtolAgrees | benchmarks/latency_shootout.cpp:220-247 | on a header that is a number `strtol` reads that number whatever lies behind it |
| Boundary.StrtolStableExactly | benchmarks/latency_shootout.cpp:220-247 | what `strtol` makes of a header line is the same whatever has arrived behind it exactly when the header holds a byte that is not white space |
| Boundary.StrtolReadsOn | benchmarks/latency_shootout.cpp:220-247 | on a header of white space only it reads what comes behind the line |
| Client.RespClient.ReceiveMore | benchmarks/collection_benchmark_worker.cpp:237-251 | sliding the window or doubling the array before receiving leaves the unread bytes unchanged |
| Client.RespClient.ReadLine | benchmarks/collection_benchmark_worker.cpp:258-268 | reads up to the first carriage return and fails when no line feed follows it |
| Client.RespClient.ReadBytes | benchmarks/collection_benchmark_worker.cpp:270-281 | returns exactly the next bytes of the stream, across any number of receives |
| Client.RespClient.ReadResponse | benchmarks/collection_benchmark_worker.cpp:292-329 | on every stream the reply is exactly what the unread bytes decode to, whatever the pieces and the buffer movements |
| Client.ReplyRoundTrip | benchmarks/collection_benchmark_worker.cpp:292-329 | every well-formed reply of the supported kinds is read back, nil and empty kept apart |
| Client.RepliesRoundTrip | benchmarks/collection_benchmark_worker.cpp:292-329 | so is every sequence of replies |
| Client.ErrorRaises | benchmarks/collection_benchmark_worker.cpp:292-329 | an error line never becomes a reply: whatever it says, the read fails with a server error |
| Client.StrictLineExactly | benchmarks/collection_benchmark_worker.cpp:258-268 | a header line is read back exactly when it holds no carriage return |
| Leases.KeySpace.ScriptCad | benchmarks/idiom_native_vs_lua.py:57-62 | the script, call by call, is one atomic step: it deletes exactly when the live value is the token |
| Leases.KeySpace.ScriptCaExpire | benchmarks/idiom_native_vs_lua.py:63-68 | the script, call by call, is one atomic step: it moves the deadline exactly when the live value is the token; what that step answers and how long the renewed lease lasts are `Leases.Told` and `Leases.RenewalLasts` |
| Leases.KeySpace.ScriptCas | benchmarks/idiom_native_vs_lua.py:69-75 | one atomic step: it replaces the value and keeps the deadline exactly when the live value is the token |
| Leases.KeySpace.ScriptClaim | benchmarks/idiom_native_vs_lua.py:112-117 | the script, call by call, is one atomic step: it grants exactly when the key is free; what a losing claim reads and how long a granted one lasts are `Leases.Told` and `Leases.ClaimLasts` |
| Leases.ClaimLasts | benchmarks/idiom_native_vs_lua.py:112-117 | through any run in which nobody names the key, a granted claim of n seconds reads as its token exactly while less than 1000 n milliseconds have passed, and as absent from then on |
| Leases.RenewalLasts | benchmarks/idiom_native_vs_lua.py:63-68 | through any such run a renewal of n milliseconds does so exactly while less than n have passed since the renewal |
| Leases.Told | benchmarks/idiom_native_vs_lua.py:57-117 | the replies: each conditional command answers success exactly when the live value is the token and otherwise changes nothing; a losing claim changes nothing and answers what the result key, not the lease key, reads as; a claim for no time is an error |
| Leases.OthersUntouched | benchmarks/idiom_native_vs_lua.py:57-117 | a step on one key leaves what every other key reads as |
| Leases.HeldUnlessPresented | benchmarks/idiom_native_vs_lua.py:57-75 | a step changes a held entry only if it shows the current token or time passes the deadline |
| Leases.SwapKeepsDeadline | benchmarks/idiom_native_vs_lua.py:69-75 | compare-and-set never moves a deadline |
| Leases.HeldThroughRun | benchmarks/idiom_native_vs_lua.py:57-75 | through any run in which nobody shows its token, a held entry stays exactly as it is until its deadline |
| Leases.EndedExactly | benchmarks/idiom_native_vs_lua.py:57-75 | one step takes a live key away exactly when it is a release or an expiry at once showing the current token, an unconditional delete, or time passing the current deadline; renewals and swaps never do |
| Leases.OneClaimPerLease | benchmarks/idiom_native_vs_lua.py:112-117 | between two grants of one key in any run some step finds the key live and ends it, by the token or the deadline that is current at that step, so renewed and swapped leases are covered |
| Leases.ReapsInvisible | benchmarks/idiom_native_vs_lua.py:57-75 | whenever and whichever dead entries the server removes, every client sees the same replies |
| Leases.KeySpace.GetDelOp | benchmarks/cad_benchmark.py:131-136 | the read, the requests of others in between and the delete on a match are the two-step unlock |
| Leases.SplitUnlockExactly | benchmarks/cad_benchmark.py:131-136 | after a matching read, over any requests in between, the delete hits another owner exactly when one of them was a granted claim or a successful swap to another token whose entry is still there, and exactly then the result differs from an atomic release |
| Leases.SplitUnlockWithinLease | benchmarks/cad_benchmark.py:131-136 | the split unlock is safe while the lease covers the delete and nobody showed the token in between |
| Leases.SplitUnlockRace | benchmarks/cad_benchmark.py:131-136 | a concrete run in which the split unlock deletes another owner's key and a third owner is granted it inside that lease |
| SlidingWindow.SortedSetKey.ScriptZwindow | benchmarks/idiom_native_vs_lua.py:76-85 | the script, call by call, is one atomic limiter step |
| SlidingWindow.LimitHolds | benchmarks/idiom_native_vs_lua.py:76-85 | in every run from an absent key any interval of length `window` holds grants to at most `limit` members, whenever dead keys are removed |
| SlidingWindow.LimitHoldsForRequests | benchmarks/idiom_native_vs_lua.py:76-85 | with a fresh member per request no block of grants spanning less than `window` is longer than `limit` |
| SlidingWindow.ExpiryInvisible | benchmarks/idiom_native_vs_lua.py:76-85 | every reply is that of a limiter without any time to live |
| SlidingWindow.GrantHeldForWindow | benchmarks/idiom_native_vs_lua.py:76-85 | each grant re-arms the time to live: through any later run without a grant, rejections included, the member is held exactly while less than the window has passed, and then the key is gone |
| SlidingWindow.GrantedExactly | src/store.cpp:1776-1811 | at any point of any run a request to the native command or to the script is granted exactly when fewer than `limit` members were granted in the window that ends now, the caller counted like any other |
| SlidingWindow.NativeRunsAlike | src/store.cpp:1776-1811 | from every reachable state a run of the native command reaches the states and gives the replies of the script |
| SlidingWindow.RejectedUnchangedExactly | src/store.cpp:1776-1811 | a rejection leaves the set as it was exactly when no entry was due for eviction, for the native command and for the script |
| SlidingWindow.RejectionEvicts | src/store.cpp:1776-1811 | a rejected request that evicts |
| SlidingWindow.HolderCannotRenew | src/store.cpp:1776-1811 | with capacity one the holder of a live place is refused its own renewal, by the native command and by the script |
| SlidingWindow.NativeMatchesScriptExactly | src/store.cpp:1776-1811 | native command and script agree in state and reply for every limit and member exactly when no entry due for eviction has a negative score |
| SlidingWindow.NegativeScoreBlocksScript | benchmarks/idiom_native_vs_lua.py:76-85 | while an entry with a negative score is stored under no deadline, the script rejects every request of every later run at capacity one |
| SlidingWindow.NegativeScoreFreesNative | src/store.cpp:1776-1811 | the native command grants as soon as that entry is out of the window |
| Counters.Cell.ScriptIncrBound | benchmarks/idiom_native_vs_lua.py:86-92 | one atomic step: increments exactly when the result stays within the bound |
| Counters.Cell.ScriptDecrPos | benchmarks/idiom_native_vs_lua.py:93-97 | the script, call by call, is one atomic step, and `Counters.DecrementsExactly` says what a run of them grants |
| Counters.Cell.ScriptSetGreater | benchmarks/idiom_native_vs_lua.py:104-111 | one atomic step: replaces exactly when absent or greater |
| Counters.DecrementsExactly | benchmarks/idiom_native_vs_lua.py:93-97 | of m decrements of a counter at n exactly the first min(n, m) are granted, answering n - 1, n - 2 and so on down to zero; the others answer -1 and the counter ends at n - min(n, m) |
| Counters.IncrementsExactly | benchmarks/idiom_native_vs_lua.py:86-92 | of m increments by delta exactly as many are granted as there is room for below the ceiling, answering the running value; the others answer -1 |
| Counters.UnitIncrements | benchmarks/idiom_native_vs_lua.py:86-92 | m unit increments end at the smaller of the ceiling and the start plus m; those of an absent counter answer 1, 2 and so on |
| Counters.RecordsAnswered | benchmarks/idiom_native_vs_lua.py:104-111 | a submission is answered 1 exactly when it is a new record: greater than the initial value, if any, and than everything submitted before it; otherwise 0 |
| Counters.QuotaHolds | benchmarks/idiom_native_vs_lua.py:86-97 | every run of one quota stays within zero and the ceiling, and the counter is the initial value plus granted increments minus granted decrements |
| Counters.CeilingHolds | benchmarks/idiom_native_vs_lua.py:86-92 | negative deltas never break the ceiling either |
| Counters.RepliesAccountExactly | benchmarks/idiom_native_vs_lua.py:86-97 | over any run of any deltas the replies account for the counter exactly when the increments that landed on -1, and were read as denials, sum to zero |
| Counters.MisreadIsMissing | benchmarks/idiom_native_vs_lua.py:86-97 | the counter is the initial value plus what the replies say plus exactly those misread increments |
| Counters.RefundMisread | benchmarks/idiom_native_vs_lua.py:86-92 | a refund of one from zero is granted and read as denied |
| Counters.WatermarkIsMax | benchmarks/idiom_native_vs_lua.py:104-111 | set-if-greater ends at the maximum of the initial and submitted values |
| Counters.WatermarkOrderFree | benchmarks/idiom_native_vs_lua.py:104-111 | the same submissions in any order leave the same value |
| MixedModel.DenseSet.Append | benchmarks/hset_benchmark.cpp:1804-1811 | adds one value; `positions` stays the exact inverse of `values` |
| MixedModel.DenseSet.Remove | benchmarks/hset_benchmark.cpp:1813-1824 | removes exactly that value by moving the last one into the gap, keeps the inverse exact, fails on an absent value |
| MixedModel.SwapRemoveContents | benchmarks/hset_benchmark.cpp:1813-1824 | the swap removal loses exactly the removed value |
| MixedModel.Next | benchmarks/hset_benchmark.cpp:1839-1906 | the command is the operation drawn, except that a delete that would empty the hash becomes an insert and a growth with nothing short left becomes an update; an insert takes the next unused id, an update keeps the width, growth enlarges it; it draws its predicted reply from the tracked hash, `live` never empties and all tables keep tracking the hash |
| MixedModel.BuildMixedModel | benchmarks/hset_benchmark.cpp:1839-1906 | for every sequence of draws, weights and sizes every command is the one its draw means in the state it is drawn in; replayed on the loaded map it draws its expected reply, and the final size is the predicted one |
| MixedModel.Draw | benchmarks/hset_benchmark.cpp:1839-1906 | the operation whose stretch of the cumulative weights holds the drawn number, so each operation is drawn by exactly as many numbers as it weighs and one of weight zero never |
| MixedWire.WireStep | benchmarks/hset_benchmark.cpp:1908-1915 | HSET or HDEL on the byte hash draws the reply the model gives for the id and the width, and keeps one field of that width for exactly the items of the model |
| MixedWire.WireReplies | benchmarks/hset_benchmark.cpp:1908-1915 | commands that fit the model draw on the wire exactly the replies it predicted |
| MixedWire.RunMixed | benchmarks/hset_benchmark.cpp:1839-1915 | for every sequence of draws the commands sent are the ones drawn; load and commands on the wire draw every predicted reply and end with the predicted number of fields, unless one does not fit its width |
| MixedWorkload.ChooseOperation | benchmarks/mixed_leaderboard_benchmark.py:147-154 | the operation whose stretch of the number line holds the drawn number, so each is drawn by exactly as many numbers as it weighs and never one of weight zero |
| MixedWorkload.Workload.constructor | benchmarks/mixed_leaderboard_benchmark.py:137-145 | the fresh table mirrors the loaded sorted set |
| MixedWorkload.Workload.NextEvent | benchmarks/mixed_leaderboard_benchmark.py:159-196 | the event is the operation whose stretch holds the drawn number, on the live member drawn: its score, the last index of a range and the new member are the ones the script sends; no read misses, an update adds nobody, a replacement removes one and adds one, and the sorted set again holds exactly the members of the distinct, same-sized table below the next id |
| MixedWorkload.Workload.Events | benchmarks/mixed_leaderboard_benchmark.py:198-205 | the same over a whole run of draws, with the counts adding up to the number of events |
| MixedWorkload.ReplaceAnswered | benchmarks/mixed_leaderboard_benchmark.py:182-196 | replacing one id by the next unused one is what ZREM and ZADD do to the member set, each answering 1 |
| MixedWorkload.RanksComplement | benchmarks/mixed_leaderboard_benchmark.py:164-168 | the rank and the reverse rank of a member add up to the size less one, for every set of scores with name order breaking ties |
| MixedWorkload.RanksDiffer | benchmarks/mixed_leaderboard_benchmark.py:164-168 | no two members share a rank |
| MixedWorkload.RangeListsRanks | benchmarks/mixed_leaderboard_benchmark.py:170-173 | a range lists exactly as many names, or names and scores, as there are members that rank no higher than its last index |
| MixedWorkload.NamesSize | benchmarks/mixed_leaderboard_benchmark.py:137-145 | the mirrored set has as many members as the table |
| Tokens.ZeroPaddedReads | benchmarks/hset_benchmark.cpp:866-874 | a padded number has exactly the requested width and reads back as the number |
| Tokens.ZeroPaddedExactly | benchmarks/hset_benchmark.cpp:866-874 | padding succeeds exactly for the numbers below base to the width |
| Tokens.TokenExactly | benchmarks/collection_benchmark_worker.cpp:129-142 | there is a token exactly when the width has room for the marker and a digit and the number is below sixteen to the width less one; it starts with the marker |
| Tokens.TokensOrdered | benchmarks/collection_benchmark_worker.cpp:129-142 | tokens of one width and marker have that width, compare like their numbers and are equal exactly for equal numbers |
| Tokens.FieldsDistinct | benchmarks/hset_benchmark.cpp:876-878 | distinct items have distinct field names |
| Tokens.RenderRandomToken | benchmarks/hset_benchmark.cpp:538-561 | the array-filling renderer returns the pattern with its placeholder replaced by the padded number, the pattern itself without one, and an error when it does not fit |
| Tokens.ProbesHitFields | benchmarks/hset_benchmark.cpp:538-561 | rendering the field pattern names exactly the loaded field, so every probe below the number of fields hits |
| Tokens.MembersDistinct | benchmarks/zset_benchmark.py:500-501 | distinct ids have distinct member names at any magnitude |
| Tokens.MemberReads | benchmarks/zset_benchmark.py:500-501 | the name ends in at least ten digits that read back as the id, more only when the id needs them |
| Shards.Align | benchmarks/pubsub_jsonl_channels.py:16-22 | moves to the first record that starts at or behind the range start |
| Shards.ScanRange | benchmarks/pubsub_jsonl_channels.py:25-51 | scans exactly the records that start inside the range, count and channels |
| Shards.Merge | benchmarks/pubsub_jsonl_channels.py:74-92 | merging in any completion order gives the sum and the union |
| Shards.ParallelScan | benchmarks/pubsub_jsonl_channels.py:74-92 | for every file content, number of tasks and completion order the result is that of scanning the whole file, each record once |
| Shards.AllCovered | benchmarks/pubsub_jsonl_channels.py:74-92 | every record start lies in one of the ranges |
| Shards.RangesDisjoint | benchmarks/pubsub_jsonl_channels.py:74-92 | and in only one |
| Leaderboard.Board.Sift | benchmarks/leaderboard_rescore_benchmark.py:180-181 | the swap loop turns the appended entry into the stable insertion |
| Leaderboard.Board.Push | benchmarks/leaderboard_rescore_benchmark.py:173-181 | the board becomes the first `k` of the stable descending order of what it held and the new entry |
| Leaderboard.PushAll | benchmarks/leaderboard_rescore_benchmark.py:171-194 | over any stream the board ends as the first min(k, n) entries of the stable descending sort, unless a weight raises |
| Leaderboard.Rescore | benchmarks/leaderboard_rescore_benchmark.py:169-199 | the Python reply on every input: an unknown mode, a division by zero exactly for a zero half-life or a member on the pole, or the head of the stable descending sort |
| LuaLeaderboard.LuaBoard.Rise | benchmarks/leaderboard_rescore_benchmark.py:47-49 | the swap loop in which both branches end, over one-based tables, leaves the entry behind the last one it does not outweigh |
| LuaLeaderboard.LuaBoard.PushBehind | benchmarks/leaderboard_rescore_benchmark.py:46-47 | the first branch: the new entry goes behind the counter, then up to its place |
| LuaLeaderboard.LuaBoard.PushOver | benchmarks/leaderboard_rescore_benchmark.py:48-49 | the second branch: the new entry overwrites position `k`, then goes up to its place |
| LuaLeaderboard.LuaBoard.Push | benchmarks/leaderboard_rescore_benchmark.py:45-51 | one push keeps at most `k` entries, whatever the numbers; it fails, on the missing score, exactly for a bound below one |
| LuaLeaderboard.KeepLifted | benchmarks/leaderboard_rescore_benchmark.py:45-51 | on real weights a Lua push is the cut insertion of the Python push |
| LuaLeaderboard.LuaRescore | benchmarks/leaderboard_rescore_benchmark.py:41-62 | the Lua reply on every input, infinite and undefined weights included |
| LuaLeaderboard.ScriptsAgreeExactly | benchmarks/leaderboard_rescore_benchmark.py:41-62 | the two scripts give the same reply exactly when the mode is unknown to both, or the bound is at least one or nothing is ranked, and neither a zero half-life nor the pole divides by zero |
| LuaLeaderboard.ZeroHalfLife | benchmarks/leaderboard_rescore_benchmark.py:52-53 | with a half-life of zero Python raises while LINEAR in Lua returns the first members in input order |
| LuaLeaderboard.PoleInLua | benchmarks/leaderboard_rescore_benchmark.py:52-53 | a member on the pole makes Python raise while Lua ranks it with an infinite weight |
| Leaderboard.SortedDescending | benchmarks/leaderboard_rescore_benchmark.py:173-181 | the reference sort is descending |
| Leaderboard.SortedStable | benchmarks/leaderboard_rescore_benchmark.py:173-181 | and keeps the entries of every weight, all of them and in input order |
| Leaderboard.StableSortUnique | benchmarks/leaderboard_rescore_benchmark.py:173-181 | those two facts determine it: the reference is the only stable descending sort |
| Leaderboard.InsertTake | benchmarks/leaderboard_rescore_benchmark.py:173-181 | cutting at `k` before an insertion loses nothing a cut after it would keep |
| Leaderboard.SameRanking | benchmarks/leaderboard_rescore_benchmark.py:183-188 | weightings that compare the members alike rank them alike |
| Leaderboard.ExpRanking | benchmarks/leaderboard_rescore_benchmark.py:186-188 | EXP ranks by recency for every strictly decreasing base function and positive half-life |
| Leaderboard.LinearRanking | benchmarks/leaderboard_rescore_benchmark.py:183-185 | LINEAR ranks by recency up to `now` plus one half-life and puts everything later behind that, by recency |
| Leaderboard.LinearIsRecencyExactly | benchmarks/leaderboard_rescore_benchmark.py:183-185 | LINEAR is the recency ranking exactly when no two members lie on opposite sides of that point |
| Leaderboard.LinearMatchesExp | benchmarks/leaderboard_rescore_benchmark.py:183-188 | with every timestamp before `now` plus one half-life LINEAR and EXP return the same names in the same order for every bound |
| Leaderboard.StepRanking | benchmarks/leaderboard_rescore_benchmark.py:189-192 | STEP ranks members inside the window in input order, then those outside in input order |
| Leaderboard.StepReply | benchmarks/leaderboard_rescore_benchmark.py:189-199 | the reply is that ranking with its weights, cut at the bound |
| Leaderboard.ExpReply | benchmarks/leaderboard_rescore_benchmark.py:186-199 | the whole EXP reply: the most recent members first, equally recent ones in input order, cut at the bound |
| Leaderboard.LinearReply | benchmarks/leaderboard_rescore_benchmark.py:183-199 | the whole LINEAR reply: it fails exactly when a member is one half-life ahead of `now`, and otherwise lists the earlier members by recency, then the later ones by recency, cut at the bound |
| Leaderboard.HalfLife | benchmarks/leaderboard_rescore_benchmark.py:183-188 | a member of this moment weighs one; EXP halves with every half-life of age, LINEAR is 1 / (1 + n) at the n-th half-life |
| Recovery.Session.PopulateRange | benchmarks/external_logging_recovery.cpp:237-257 | for every server and batch size: succeeds exactly when every reply to the writes sent one by one is the expected one, and then leaves the server where they would |
| Recovery.Session.VerifyRange | benchmarks/external_logging_recovery.cpp:259-282 | for every server and batch size the result is the tally of all the answers, which `Recovery.TallyTells` counts out, or a failure exactly when one is an error or an array |
| Recovery.Session.RequireCardinality | benchmarks/external_logging_recovery.cpp:284-297 | passes exactly when the server answers the expected integer, always for strings |
| Recovery.Session.RemoveDataset | benchmarks/external_logging_recovery.cpp:208-235 | nothing of the dataset is left, no other key changes, and the total is the number of keys that disappeared |
| Recovery.PopulateExact | benchmarks/external_logging_recovery.cpp:237-257 | populating on top of the exact first `begin` ordinals draws every expected reply and leaves the exact first `end`, for all six kinds |
| Recovery.NextElement | benchmarks/external_logging_recovery.cpp:411-432 | writing the next ordinal extends the exact dataset by it and draws the reply the client expects |
| Recovery.WriteNoticesExactly | benchmarks/external_logging_recovery.cpp:411-432 | into any collection a write draws the expected reply exactly when the ordinal is unused, or for a list the next; arrays never show a stray element |
| Recovery.TallyFull | benchmarks/external_logging_recovery.cpp:434-454 | everything is tallied as matched exactly when every answer matches |
| Recovery.TallyCounts | benchmarks/external_logging_recovery.cpp:434-454 | every answer is tallied once |
| Recovery.TallyTells | benchmarks/external_logging_recovery.cpp:434-454 | `matched`, `missing` and `mismatched` are the numbers of right answers, of nil answers, and of answers that are neither |
| Recovery.TallyExists | benchmarks/external_logging_recovery.cpp:434-454 | the tally exists exactly when no answer is an error or an array |
| Recovery.LostTailTallied | benchmarks/external_logging_recovery.cpp:434-454 | after a recovery that kept the first m ordinals and lost the rest the tally is m matched and the rest missing; a set answers 0 and not nil, so there the rest is mismatched |
| Recovery.Pigeonhole | benchmarks/external_logging_recovery.cpp:284-297 | a set of the right size that has every ordinal has nothing else |
| Recovery.ScoreTextExactly | benchmarks/external_logging_recovery.cpp:434-454 | only the score that is the ordinal prints as the ordinal |
| Recovery.VerifyExactly | benchmarks/external_logging_recovery.cpp:594-608 | cardinality and reads pass exactly when the server holds exactly the dataset, for every state of the server |
| Recovery.Session.Prepare | benchmarks/external_logging_recovery.cpp:610-637 | from any state it never fails and leaves every selected dataset exact at the snapshot size |
| Recovery.Session.ContinueAfterRecovery | benchmarks/external_logging_recovery.cpp:639-661 | after a restart into any state it passes exactly when every selected dataset is exact at the snapshot size, and then completes them all |
| Recovery.Session.VerifyAll | benchmarks/external_logging_recovery.cpp:663-675 | the final verdict is positive exactly on the states that hold every selected dataset |
| Recovery.ExactKept | benchmarks/external_logging_recovery.cpp:610-661 | work on one kind leaves the datasets of the other kinds exact |
| Arena.ReservedArena.Append | include/goblin/core/array_storage.hpp:325-346 | stored exactly when it ends within the reservation; then in one chunk, behind and apart from every earlier value |
| Arena.ReservedArena.AppendAll | include/goblin/core/array_storage.hpp:325-346 | a series of equal values is stored completely exactly when the packing of all of them fits |
| Arena.CursorExact | include/goblin/core/array_storage.hpp:325-346 | the footprint of n values is n times their size plus the waste of every chunk left behind |
| Arena.ReserveExactly | benchmarks/collection_benchmarks.py:631-637 | the reservation suffices for every number of values exactly when the waste of a chunk is covered |
| Arena.ReserveSuffices | benchmarks/collection_benchmarks.py:631-637 | the sufficient direction, for each number of values |
| Arena.ReserveFails | benchmarks/collection_benchmarks.py:631-637 | otherwise a number of values for which it is too small |
| Arena.CoveredInLargeChunks | benchmarks/collection_benchmarks.py:631-637 | covered for every value of up to 64 KiB in chunks of at least 128 KiB |
| Arena.CoveredInMinimumChunks | benchmarks/collection_benchmarks.py:631-637 | covered for every value of up to 257 bytes in 64 KiB chunks |
| Arena.NotCovered | benchmarks/collection_benchmarks.py:631-637 | 10923-byte values in 64 KiB chunks outgrow the reservation |
| Churn.Worker.Pipeline | benchmarks/collection_benchmark_worker.cpp:196-213 | for every server and depth the set ends where the commands one by one would leave it and the checksum is the sum over their replies modulo 2^64 |
| Churn.LoadSendsEachOnce | benchmarks/collection_benchmark_worker.cpp:358-370 | for every batch size loading sends each member exactly once, in order |
| Churn.LoadBatches | benchmarks/collection_benchmark_worker.cpp:358-370 | no load command is empty and none is longer than a batch |
| Churn.LoadFills | benchmarks/collection_benchmark_worker.cpp:358-370 | loading an empty set leaves exactly the members, every one counted as new |
| Churn.ChurnRestores | benchmarks/collection_benchmark_worker.cpp:392-397 | the set is restored after the last pair and the replies add up to 36 per request |
| Churn.PairsRestore | benchmarks/collection_benchmark_worker.cpp:392-397 | the set is restored after every pair |
| Churn.ReadsPredicted | benchmarks/collection_benchmark_worker.cpp:371-388 | every hit probe hits, every miss probe misses, so the checksum is a known multiple of the requests and nothing changes |
| Churn.PassProbes | benchmarks/collection_benchmark_worker.cpp:371-388 | probe t of every pass over the members: the hit names member t, the miss the stranger of that number, the multi-member probe four members from t on, so each pass names every member once |
| Churn.FormattedApart | benchmarks/collection_benchmark_worker.cpp:371-379 | the worker's hit tokens are all loaded and its miss tokens never are |
| Churn.LoadAndChurn | benchmarks/collection_benchmark_worker.cpp:516-522 | load then churn at any batch size, depth and number of requests: it fails exactly when a member token does not fit the width, and otherwise ends on the loaded set with a churn checksum of 36 per request modulo 2^64 |

## Left out

- Sockets, processes, clocks, tick calibration, reports and argument parsing: input and output with no property of their own; `recv` is any nonempty prefix of the remaining stream, ticks are a rising counter, random numbers are arbitrary choices.
- Memory orders weaker than sequential consistency in the barrier: its steps are atomic and interleave.
- The server's own data structures, snapshots, replication and transports: only the commands the benchmarks send are modelled.
- IEEE-754 rounding: weights and scores are exact reals, the scripts' numbers exact integers; recovery scores are whole or printed with a decimal point, and ordinals are at most 2^63 - 1, which for sorted sets ignores the rounding of doubles above 2^53.
- The buffered reader of benchmarks/hset_benchmark.cpp: it has the shape of the one in `Client.dfy`.
- The hash compare-and-delete script: the same step as compare-and-delete on one field.
- The Wren, Tcl and JavaScript copies of the ranking script, and the array and sorted-set suites of the worker: they repeat the modelled algorithms.
- The first-failure message of the recovery check and its GOBLIN.SAVE call: text and a command without a modelled effect.
- ZRANGE replies in `MixedWorkload.dfy` are reduced to the number of items listed.
- Recovery.VerifyExactly: strings have no cardinality command, so for them exactness means that the first `count` keys hold their ordinals, and extra string keys are not excluded.
- Connection.RespConnection.ParseValue: running out of memory is not modelled; where reserving a huge element count throws, or doubling it for a map overflows, the model fails too, but with the end of the stream as its reason.
- LuaLeaderboard.ScriptsAgreeExactly: compares names and weights, not the text of the scores, which Lua and Python print differently; the sign of zero is not modelled.
