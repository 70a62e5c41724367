# Verified models of revelt

revelt renders React components by handing requests from a Go server to a small
ring of Node processes. This project models the parts of it that keep state over
time, and proves what they promise over every run:

- **the multiplexed Node worker** — many callers share one stdin and one stdout,
  replies are matched to callers by request ID, and a reader goroutine dispatches,
  drains and shuts down. `Protocol` is the interleaving of all the atomic steps;
  `WorkerProcess` is the Go object with its map, channels and loops, each method
  tied to the same functions (`Mux`) that the interleaving is made of; `Framing`
  is the newline framing of the two pipes, and `Pipes` ties what is written there to
  the protocol's steps; `Wire` is Node's answer and what
  `Renderer.Render` makes of it; `Markup` is the two HTML escapers and what a
  browser reads back.
- **the rate limiter** — `TokenBuckets` is one lazily refilled bucket,
  `Limiters` the keyed table that evicts idle ones.
- **template substitution** — `Templates`, `TemplateOrder` and `TemplateFiles`:
  sequential replacement over a Go map, whose order is random.
- **the worker ring** — `Pools` (start, close, round robin), `WorkerSlots` (the look-up
  that replaces a dead worker) and `Replacement` (the same by any number of goroutines).
- **the dev supervisor** — `Supervisor` (kill, wait, rebuild, restart, two
  debounced watchers) and `Changes` (comparing two snapshots of the files).
- **sliding sessions** — `Sessions`.
- **concurrent page slots** — `Pages`.

Code that the repository writes imperatively is a class or a method with loops
here, proved against a function; what is promised over runs is proved about that
function. Code whose point is concurrency is a step system: `Enabled` says when a
step can be taken, `Apply` what it does, and a theorem about a reachable state
holds for every interleaving. A branch of a `select` with several ready arms is a
choice of steps.

## Assumptions

- The JSON codec is abstract: decoding what was encoded gives it back, encoded text
  holds no raw newline (section 7 of RFC 8259), and an object cut short does not
  decode. Marshalling may fail, and then nothing is written. Properties are their
  JSON text: Go's and Node's spellings of one value (escaped angle brackets, say) are
  taken as the same text. That leaves out integers beyond 2^53 inside properties,
  which JavaScript changes before it writes them back.
- Request IDs pass through JavaScript numbers, exact up to 2^53 (section 6 of
  RFC 8259). The results on the protocol hold while a worker has been asked at most
  2^53 times; `Protocol.OneTooMany` shows the next request breaks them.
- Once a write to stdin fails, every later one fails. A write completes or fails.
  When stdin ends, Node takes what follows the last newline for one more line: a
  request that lacks only its newline is answered like any other, and anything
  shorter is a line Node cannot parse.
- Node puts on stdout its replies, each to a request on stdin (again, late or out
  of order as it likes), replies to lines it cannot parse (under ID 0), lines that do
  not decode, and lines that decode under ID 0. Nothing else on its side prints a
  line that decodes under an ID of its own choosing.
- What a component throws has a message that is a string, or none. A thrown null ends
  Node, which is the reader's stop; a message that is no string makes a line Go cannot
  decode, which is noise.
- A killed process eventually makes `Wait` return.
- Clocks never go back. In the limiter time and tokens are real numbers; a tick is
  the time that earns one token, so `rate * t` turns an instant in seconds into
  ticks. In sessions instants are whole nanoseconds.
- Strings are sequences of Unicode scalar values.

## What the proofs brought out

- A component that throws is reported as a success with an empty page unless what it
  throws has a message, and not an empty one (`Wire.FailureIsReported`). An error with
  an empty message is not (`Wire.EmptyMessagePasses`), nor is a thrown string, whose
  `message` is undefined and drops out of the reply (`Wire.ThrownStringPasses`):
  `renderer.go:277` takes an empty or a missing `error` for none.
- `ratelimit.New` accepts any positive capacity, but one below 1 admits nobody
  (`TokenBuckets.PacedCallerPasses`).
- Eviction changes decisions exactly when the capacity is at least 1 and
  `rate * expiration` falls short of it (`Limiters.EvictionIsInvisible`).
- A template is rendered alike for every map order exactly when no placeholder can
  arise that was not there: at no point does the text, some placeholders dropped as
  if their values were empty, spell another one, either to its end or, past both
  opening braces, up to a further placeholder (`TemplateOrder.DeterministicIffClean`).
  `{{{A}}{B}}` with an empty `A` is such a point (`TemplateOrder.EmptyValueShows`).
- Round robin stays fair across the wrap of its 64-bit cursor exactly when the
  pool's size divides 2^64 (`Pools.FairAcrossWrap`).
- `hasFileChanged` and `hasFileChangedByHash` miss no difference between two
  snapshots. They read a missing path as the zero value, so this rests on no stamp
  being that value (`Changes.SeesAllIffNoZeroStamp`): a file's modification time
  carries a location, which the zero time lacks, and no content is known whose
  SHA-256 is all zeros.
- A session lifetime above 9223372036 seconds overflows a Go duration
  (`Sessions.AgesAreExact`). The sliding window guarantees gaps of half the
  lifetime, and not a nanosecond more (`Sessions.GapGuarantee`).
- A component name is written into the markup unescaped by both sides; one with a
  quote never reads back (`Markup.NameReadsBack`).
- `protocol/wire.go:24-27` asks Node to treat null properties as `{}`. The component
  does get the same empty properties either way, but the `data-ssr-props` attribute
  does not: for nil properties Node writes `null`, since the default in
  `handleRequest` applies to a missing field only, and the client-only placeholder
  writes `{}`. The two read back alike exactly when the properties were not nil
  (`Wire.NilPropsShow`).

## Model

| member | source | states |
|---|---|---|
| Protocol.Correlation | worker.go:99-135 | In every reachable state, a caller for whom `Renderer.Render` succeeds got Node's answer to its own request: never another caller's, a drain message, or a line under ID 0, whatever was cancelled, repeated or late |
| Protocol.OutcomeStays | worker.go:111-135 | What a caller leaves with it returns, however the run goes on: the deferred delete changes nothing |
| Protocol.AnswerIsReturned | worker.go:123-125 | A reply that a waiting caller takes is what it returns on every continuation, as a page if its error is empty and as that error if not; and it is gone from the channel |
| Protocol.OutcomeHappened | worker.go:118-134 | A call ends with a reply, a write error, an exit or a cancellation only if that very step of its happened |
| Protocol.ExitedMeansDone | worker.go:126-129 | Nobody is told that the process exited before `done` is closed |
| Protocol.CallReturnsItsPage | worker.go:99-135 | From every reachable state whose worker is up and idle, a new call has a run in which it returns what Node makes of its request |
| Protocol.CancelFrees | worker.go:130-133 | A waiting caller can always give up, is gone in two steps of its own, and leaves nothing pending |
| Protocol.RequestsAreAsMade | worker.go:99-110 | The requests of the calls are those that callers came with, in order |
| Protocol.OneTooMany | protocol/wire.go:10-17 | Exactness of that bound: after one request more than 2^53 there is a reachable state in which a caller gets another caller's page |
| Protocol.NoLeak | worker.go:102-116 | A channel never holds two replies; pending IDs belong to callers registered and not returned, and until the drain all of theirs are there; nothing is pending once all have returned |
| Protocol.KeepsInv | worker.go:42-55 | Every step of callers, reader and Node keeps the whole invariant: IDs, pending map, stdin, stdout, reader, channels, results |
| Protocol.RunKeepsInv | worker.go:99-224 | Hence every run keeps it |
| Protocol.RequestIsSent | worker.go:137-154 | A waiting caller's request is on stdin exactly once, as it was made |
| Protocol.NothingAfterFailure | worker.go:150-152 | Once a write has failed, no run puts anything more on stdin |
| Protocol.StdoutKeepsOrder | worker.go:162-183 | Over every run, stdout holds the lines printed, in order, less as many as the reader has read |
| Protocol.OthersAreFree | cmd/revelt/templates/react/render-server.js.tpl:23-36 | The results above do not rest on a schedule: any request on stdin can be answered at any time, again and in any order, other lines come as they like, callers give up, writes fail and the reader stops |
| Protocol.AnswerIsDelivered | worker.go:186-203 | An answer at the head of stdout reaches its waiting caller's empty channel in the reader's next three steps, and the caller can then take it |
| Protocol.FirstAnswerArrives | worker.go:159-203 | Over every interleaving: once the reader has read as far as the first line that answers a waiting caller, it has that answer in hand, or the caller, if it still waits, has it in its channel, and can return with no other reply |
| Protocol.ReaderNeverBlocks | worker.go:197-223 | Whatever the reader is about to do, including every send, is enabled |
| Protocol.SettlingStepsLower | worker.go:99-135 | With the reader gone, every step of a caller or of the drain lowers a bound on the steps left |
| Protocol.SettlingRunIsShort | worker.go:99-135 | Whatever Node prints in between, the callers there are and the reader take no more steps than that bound |
| Protocol.SomeStepIsEnabled | worker.go:123-134 | With the reader gone nobody is stuck: some step that is neither a cancellation nor an avoidable failure can be taken, and after `done` closes it is one of the caller's own |
| Protocol.EveryCallerReturns | worker.go:205-224 | Progress: after the reader is gone, callers who register after the drain included, every run without new calls holds a bounded number of caller and reader steps, however much Node still prints in between; when none of those can go on, everyone has returned and nothing is pending |
| Protocol.NoSuccessAfterTheReader | renderer.go:273-281 | A caller with no answer when the reader goes, drained or late, ends with an error from `Renderer.Render` on every continuation |
| Protocol.OwnPage | renderer.go:219-282 | End to end: a nonempty page reads back in the browser as the component and properties this very caller asked for |
| Protocol.DrainWakes | worker.go:205-224 | From the step that stops the reader on, over every continuation, a caller that had registered and still waits can take a message, or the drain goes on and its ID is still in the map; once the drain is over it can take one |
| Protocol.DrainedIsTold | worker.go:208-222 | A caller that ends with the drain's message is told the error the reader stopped with, or that the worker exited if there was none |
| Mux.DrainOneThenAll | worker.go:217-223 | One turn of the drain loop, on whichever ID, leaves the outcome of the whole drain unchanged, so the map's order does not show |
| WorkerProcess.Worker.NewCall | worker.go:100-106 | A fresh ID, modulo 2^64, and a fresh empty channel; all others as they were |
| WorkerProcess.Worker.Register | worker.go:107-109 | The channel is pending under its ID, and nothing else changes |
| WorkerProcess.Worker.Deregister | worker.go:111-116 | The ID is gone from the map; channels stay |
| WorkerProcess.Worker.Dispatch | worker.go:186-203 | The registered channel, and no other, is offered the response; a stale one is dropped |
| WorkerProcess.Worker.DrainPending | worker.go:205-224 | The loop over the map in any order empties it and offers the message to exactly the registered channels |
| WorkerProcess.Worker.HandleLines | worker.go:162-183 | Whatever the chunks, exactly the newline-terminated segments are handled, in order, and never a truncated tail |
| WorkerProcess.Worker.ReadLoop | worker.go:156-184 | Lines, then the drain with the read error or its default, and only then `done` |
| WorkerProcess.FirstReplyWins | worker.go:162-203 | Over all the lines read, a waiting caller's channel ends up with the first reply under its ID, later ones dropped, and stays empty exactly if there is none; the pending map is as it was |
| Framing.SplitJoin | protocol/wire.go:4-7 | Splitting at newlines gives back exactly the lines that were joined, and the tail |
| Framing.Stdin.WriteRequest | worker.go:137-154 | The write succeeds exactly if the request marshals, nothing has failed before and the whole line goes out; what is on the pipe is the whole lines in order and at most one that is unended or cut short |
| Framing.WrittenHolds | worker.go:137-154 | Every write, however it ends, keeps that shape of the pipe's bytes |
| Framing.StdinFrames | cmd/revelt/templates/react/render-server.js.tpl:18-36 | Reading the pipe to its end line by line yields exactly the requests that went out but perhaps for the last one's newline, IDs included, in lock order, and after them at most one line, which does not decode |
| Pipes.WriteIsStep | worker.go:118-121 | However a write ends, it is one of the protocol's steps of this caller, which can be taken, and the pipe then holds what the protocol says is on stdin |
| Pipes.WriteStep | worker.go:118-121 | So it is for the worker's own pipe and `writeRequest` |
| Pipes.PlayCarries | worker.go:118-154 | Over whole runs of bytes and protocol together, the pipe holds what the protocol says is on stdin, and the protocol's part is one of its runs |
| Pipes.LinesNameCallers | worker.go:99-154 | Over every run from the start, each line Node reads off the pipe, an unended last one included, carries one caller's ID and request, or is the last and does not decode; no two carry the same ID |
| Framing.LineReader.ReadBytes | worker.go:163-172 | Over any chunking, the next newline-terminated segment, or failure with what is left |
| Wire.FailureIsReported | cmd/revelt/templates/react/render-server.js.tpl:51-77 | Exactly when a failed rendering reaches the caller as an error: an empty or unknown component, or a thrown value with a message that is not empty, which is then the error |
| Wire.RefusalIsTold | cmd/revelt/templates/react/render-server.js.tpl:54-63 | What the caller is told of an empty component, and of an unknown one, whose name is quoted |
| Wire.ErrorsDiffer | worker.go:127-132 | A failed write, an exit and a cancellation are errors, and no two read alike |
| Wire.EmptyMessagePasses | renderer.go:277-281 | An error thrown with an empty message comes out as a success with an empty page |
| Wire.ThrownStringPasses | cmd/revelt/templates/react/render-server.js.tpl:73-76 | So does a thrown value that has no message, such as a string |
| Wire.PageIsOwn | cmd/revelt/templates/react/render-server.js.tpl:67-72 | A nonempty page that answers a request reads back as that request's component and properties |
| Wire.PageHoldsMarkup | cmd/revelt/templates/react/render-server.js.tpl:68-72 | What React rendered is what the browser finds between the island's tags, and the reply echoes the request's ID |
| Wire.RouteIsOne | renderer.go:219-273 | For all modes, components and properties: a call goes to the pool exactly if its component is rendered by Node, with its component and properties; it is refused exactly if the component is empty or unlisted, or a client-only one's properties do not marshal |
| Wire.LocalPageIsOwn | renderer.go:219-260 | Node is bypassed exactly for known client-only components whose properties marshal; the placeholder reads back as the component and its properties, and is lazy exactly in mode `lazy-client` |
| Wire.RemotePageIsOwn | protocol/wire.go:24-27 | Whatever the modes, a call that goes to the pool comes back as a page that reads back as the component and its properties, `null` if they were nil |
| Wire.NilPropsShow | protocol/wire.go:24-27 | The browser reads a page of Node's and a placeholder, for the same component and properties, alike if and only if the properties were not nil |
| Markup.EscapeHTML | renderer.go:297-317 | The one-pass loop computes the entity-wise escape of the whole text |
| Markup.EscapersAgree | cmd/revelt/templates/react/render-server.js.tpl:42-49 | The five chained replacements equal the one pass, on every string |
| Markup.DecodeEscaped | renderer.go:297-317 | Decoding an escaped text gives the text back |
| Markup.ReadBack | renderer.go:242-256 | Scanning the double-quoted attributes and decoding them returns name and properties, whatever follows |
| Markup.ContentReadsBack | cmd/revelt/templates/react/render-server.js.tpl:70-70 | Markup put inside an island is what the browser finds there, line ends normalised |
| Markup.NameReadsBack | renderer.go:253-256 | A name without ampersands reads back if and only if it has no quote |
| TokenBuckets.TokenBucket.constructor | middleware/ratelimit/limiter.go:19-27 | A new bucket is full |
| TokenBuckets.TokenBucket.Allow | middleware/ratelimit/limiter.go:29-50 | The level is the smaller of the capacity and the old tokens plus rate times the elapsed seconds; the call is granted exactly if it is at least 1, and then costs 1; so the bucket follows the specification's |
| TokenBuckets.TokensInRange | middleware/ratelimit/limiter.go:38-48 | Over every run tokens stay between zero and capacity |
| TokenBuckets.LevelIsLeastAllowance | middleware/ratelimit/limiter.go:35-43 | The tokens on hand at a call are the least allowance over all windows that end there: the lazy bucket is the min-plus specification |
| TokenBuckets.ClosedForm | middleware/ratelimit/limiter.go:31-50 | A call is granted if and only if no window ending at it, the one since creation included, would exceed capacity plus earnings |
| TokenBuckets.ClosedFormInSeconds | middleware/ratelimit/limiter.go:35-38 | On the wall clock: a call is granted if and only if no window ending at it would exceed capacity plus rate times its length in seconds |
| TokenBuckets.BurstBound | middleware/ratelimit/limiter.go:31-50 | Any window of calls gets at most capacity plus what its length earns |
| TokenBuckets.BurstBoundInSeconds | middleware/ratelimit/limiter.go:35-50 | On the wall clock: capacity plus rate times the window's length in seconds |
| TokenBuckets.PacedCallerPasses | middleware/ratelimit/ratelimit.go:46-51 | Callers that keep a token's time between calls are never refused if and only if the capacity is at least 1 |
| TokenBuckets.SecondsGiveSpacedTicks | middleware/ratelimit/limiter.go:36-38 | Calls at least 1/rate seconds apart are paced |
| TokenBuckets.SmallCapacityRefusesAll | middleware/ratelimit/limiter.go:45-49 | With less than one token of capacity every call of every run is refused |
| TokenBuckets.RefusedCallsAreErasable | middleware/ratelimit/limiter.go:35-49 | Deleting any set of refused calls leaves every other decision, and the tokens on hand at any later instant, as they were |
| Limiters.Manager.Allow | middleware/ratelimit/limiter.go:79-100 | Decides and updates this key's bucket, created full if missing, so that a first call passes exactly if the capacity is at least 1, and leaves every other bucket as it was |
| Limiters.Manager.Cleanup | middleware/ratelimit/limiter.go:113-127 | The loop deletes exactly the buckets idle for longer than the expiration |
| Limiters.KeysAreIndependent | middleware/ratelimit/limiter.go:52-61 | Without eviction, a key's decisions are those of one bucket called at that key's instants alone |
| Limiters.EvictionIsInvisible | middleware/ratelimit/limiter.go:102-127 | Every decision over every mix of keys, calls and cleanups equals that of a table that never evicts, if and only if the window earns at least the capacity or the capacity is below 1; the same with cleanups at the ticker's instants alone |
| Limiters.EvictionInSeconds | middleware/ratelimit/limiter.go:63-66 | On the wall clock: if and only if rate times expiration reaches the capacity, or the capacity is below 1 |
| Limiters.SweepsOnlyHelp | middleware/ratelimit/limiter.go:113-127 | Calls that a bucket never swept away grants are all granted by a table that sweeps, whenever it does |
| Limiters.EvictingKeysAreIndependent | middleware/ratelimit/limiter.go:63-66 | With a window that long, a key's decisions depend on its own calls alone, evictions included |
| Templates.TwoRounds | cmd/revelt/template.go:42-44 | Substituting two disjoint sets of keys in turn is substituting both at once, where the first completes no placeholder for the second |
| Templates.ReplaceIsSubstitute | cmd/revelt/template.go:43-43 | One `ReplaceAll` is the substitution of one key |
| Templates.OrderDoesNotMatter | cmd/revelt/template.go:30-50 | On a clean text, with braceless keys and values without opening braces, sequential replacement in any key order equals one simultaneous substitution |
| Templates.SeparatedIsClean | cmd/revelt/template.go:57-72 | A text is clean if each placeholder starts it or follows a character that is no brace and occurs in no key |
| TemplateOrder.Growth | cmd/revelt/template.go:42-44 | Where the value of one key completes a placeholder for another, replacing the one adds to the placeholders of the other and loses none |
| TemplateOrder.PairTells | cmd/revelt/template.go:42-44 | Wherever a value without opening braces can complete a placeholder for another key, some values make the two orders of the two keys give different lengths |
| TemplateOrder.ArisingTells | cmd/revelt/template.go:42-44 | Wherever empty values for some keys and one more value can make a placeholder arise, some values for exactly the given keys make two orders of them differ |
| TemplateOrder.DeterministicIffClean | cmd/revelt/template.go:30-50 | For every text and set of braceless keys: all map orders give the same file, for all values of exactly these keys without opening braces, if and only if the text is clean |
| TemplateOrder.EmptyValueShows | cmd/revelt/template.go:42-44 | A concrete text with one extra brace that map order can tell |
| TemplateFiles.ReplaceKeys | cmd/revelt/template.go:32-34 | The loop over the map gives what some order of the keys gives |
| TemplateFiles.RenderTemplates | cmd/revelt/template.go:24-53 | An error exactly if a template is missing; otherwise every entry once, path and content both substituted |
| TemplateFiles.CleanGivesSubstitution | cmd/revelt/template.go:31-44 | So for a clean content or path the result is the simultaneous substitution |
| TemplateFiles.ValueWithPlaceholder | cmd/revelt/template.go:42-44 | A value that holds a placeholder lets the order show: a concrete pair of results |
| Pools.NewPool | pool.go:35-61 | Succeeds exactly if the size is positive and every start succeeds; a failure attempts to close exactly the workers started, in order |
| Pools.CloseRange | pool.go:110-120 | Every worker in the range is attempted whatever fails, and the first failure is the one reported |
| Pools.Cursor.Next | pool.go:65-66 | Whatever stretch of selections ends with this one, each slot has had m/size of it, rounded down or up, until the cursor wraps, and beyond if the size divides 2^64 |
| Pools.SelectionsAreFair | pool.go:63-74 | So is every stretch of what the pool's cursor ever selected |
| Pools.RoundRobinIsFair | pool.go:63-74 | In every window of selections before the cursor wraps, from any cursor value, each slot comes up m/size times rounded down or up |
| Pools.FairAcrossWrap | pool.go:28-32 | Across the wrap as well, if and only if the size divides 2^64 |
| Replacement.ReplacementIsSafe | pool.go:76-103 | Over every interleaving: only dead workers are overwritten, none twice, spawned is size plus swaps plus at most one in flight under the lock, and no spawned worker is lost |
| Replacement.EveryCallerIsServed | pool.go:76-103 | Without new calls the callers take a bounded number of steps, however many workers die; when none can go on, each has a worker, or `newWorker` failed for it |
| Replacement.FailsOnlyIfSpawnFails | pool.go:97-100 | A caller gets an error only if `newWorker` failed in its own call |
| Replacement.DeadIsReplaced | pool.go:87-102 | Undisturbed, a caller that finds a dead worker puts a new one in its slot, leaves the others, and gets the new one |
| Replacement.LiveIsHandedOut | pool.go:78-85 | Undisturbed, a caller gets a live worker without touching a slot |
| Replacement.LockExcludes | pool.go:87-90 | While one caller holds the write lock, another can do no more than look at a worker it has read before |
| Replacement.DeadAreThoseThatDied | worker.go:246-254 | A worker counts as dead exactly if its reader has exited |
| WorkerSlots.Ring.WorkerAt | pool.go:76-103 | A live worker is handed out where it stands; a dead one, unless another goroutine has replaced it by the second look, makes way for a new one, or stays if none can be had; no other slot changes |
| Replacement.OnlyStoreOverwrites | pool.go:97-102 | A slot changes only in the final store, and only the slot asked for |
| Replacement.HandedOut | pool.go:78-102 | A worker handed out stood in the slot and was alive when checked, or was spawned by this call |
| Supervisor.SupervisorIsSafe | cmd/revelt/dev.go:139-243 | At most one child is unreaped and it is the one `cmd` names; the exit token is its and its send never blocks; none is left when the loop returns |
| Supervisor.KillNeverHangs | cmd/revelt/dev.go:149-156 | Whenever the kill waits, at most two steps of the child's own waiter bring the token, and it is that child's |
| Supervisor.NeverLeftDown | cmd/revelt/dev.go:206-215 | An idle loop with no child, no failed attempt and no cancellation always has a restart to take |
| Supervisor.DownOnlyAfterFailure | cmd/revelt/dev.go:217-241 | Read off the steps of every run: an idle loop without a server or a restart to take is cancelled, or its last build or start failed; and a server is started only when the last build succeeded |
| Supervisor.ExitedServerReturns | cmd/revelt/dev.go:206-241 | From every reachable state, a running server that exits has a run that builds and starts it again |
| Supervisor.CancelledLoopReturns | cmd/revelt/dev.go:201-204 | Once cancelled, wherever the loop is, it has a run to its return, with no child left |
| Supervisor.ReturnsOnlyWhenCancelled | cmd/revelt/dev.go:199-204 | It returns only if it was cancelled |
| Supervisor.CancelledNeverPauses | cmd/revelt/dev.go:206-215 | Once cancelled, an exit makes it neither wait nor ask for a restart |
| Supervisor.RestartsAreAskedFor | cmd/revelt/dev.go:113-135 | Restarts taken and restarts still in the channel are at most those asked for: the first, one for each exit, one for each change whose debounce has passed |
| Supervisor.DebounceAsks | cmd/revelt/dev.go:127-133 | A tick past the debounce leaves the change not pending and the channel not empty, and without a change asks for nothing |
| Supervisor.NoLostChange | cmd/revelt/dev.go:113-135 | Every change noticed is, in every later state, covered by a pending debounce, a restart asked for or under way, or a build begun since, though sends may be dropped |
| Supervisor.DetectionsStay | cmd/revelt/dev.go:176-180 | What has been noticed stays on record over every run, so the above speaks of all later states |
| Supervisor.DetectionsAreTicks | cmd/revelt/dev.go:120-125 | A change is on record exactly if the watcher's tick at that instant found one |
| Supervisor.BuildsAreSteps | cmd/revelt/dev.go:220-224 | The last build began at the last step that begins one |
| Supervisor.QuietMeansBuilt | cmd/revelt/dev.go:217-226 | Once nothing is pending or asked for, the last build began after every change noticed |
| Changes.HasFileChanged | cmd/revelt/dev.go:282-295 | Reports a change exactly if the snapshots differ, when no stamp is the zero one; in general, exactly if the counts differ or some path's stamp differs from the earlier one, a missing one read as zero |
| Changes.UnseenIsNewAndZero | cmd/revelt/dev.go:284-294 | A difference that went unseen would take a new path with the zero stamp |
| Changes.SeesAllIffNoZeroStamp | cmd/revelt/dev.go:336-349 | The comparison misses no difference from any earlier snapshot if and only if no stamp is the zero one, as no modification time and no known hash is |
| Sessions.AgesAreExact | middleware/auth/cookie.go:86-126 | The lifetime is the configured seconds, or a day if they are not positive, if and only if that fits in 64 bits of nanoseconds, and then the refresh age is exactly half |
| Sessions.Session.Middleware | middleware/auth/cookie.go:129-195 | Served only with a readable cookie, logged in, and a last access at most the lifetime ago; otherwise skipped if SkipAuth says so and refused if not; past half the lifetime the last access becomes now, or the request fails if that does not save |
| Sessions.Session.SetState | middleware/auth/cookie.go:201-221 | Authenticated with the last access now, or an error and the cookie as it was |
| Sessions.Session.Clear | middleware/auth/cookie.go:229-241 | Nothing of the session is left |
| Sessions.GapGuarantee | middleware/auth/cookie.go:154-189 | A client that logs in and whose gaps never exceed a bound is always served, whatever its visits, if and only if the bound is at most half the lifetime |
| Sessions.ExpiredUntilLogin | middleware/auth/cookie.go:168-181 | With a session that is expired, or not logged in, every visit is rejected and none is served until the next login |
| Sessions.LoggedOutUntilLogin | middleware/auth/cookie.go:229-241 | After a logout, whatever came before, no visit is served until the next login |
| Sessions.LongGapExpires | middleware/auth/cookie.go:172-181 | After any run, a gap longer than the lifetime is such an expiry |
| Sessions.RefreshesAreApart | middleware/auth/cookie.go:183-189 | Refreshes are more than half a lifetime apart, and that far from the access before them |
| Sessions.RefreshBudget | middleware/auth/cookie.go:183-189 | So a window that holds n + 1 refreshes is longer than n half-lifetimes |
| Pages.PageBuilder.Slot | app.go:407-413 | Appends the slot after those declared before |
| Pages.PageBuilder.Render | app.go:435-455 | Whatever order the goroutines finish in, the page is that of rendering from left to right |
| Pages.Collect | app.go:448-455 | Each key's last slot, or the first failing slot's error |
| Pages.PageIsUnique | app.go:402-404 | There is one such page or error, so the schedule cannot show; it is an error exactly if some slot fails |

## Left out

- DeterministicIffClean: values with an opening brace are not covered; `TemplateFiles.ValueWithPlaceholder` shows that one can let the order show on a clean text.
- RefusedCallsAreErasable: states the tokens on hand at every later instant; the raw token field differs between the two runs until the next refill.
- ReadLoop: the method runs on its own, with no caller in between; the interleaving with callers is `Protocol`'s.
- Render: takes each slot's outcome as given, and its goroutines' order as a choice; parsing and executing the page template is not modelled.
- NameReadsBack: names with ampersands are not covered, since a browser decodes many more character references than the five the escapers write.
- `Manager.Allow` is one step; look-up and consumption as two steps, where a caller can spend from a bucket evicted in between, are not modelled.
- Floating-point rounding in the limiter.
- Process spawning, pipes, environment, signals, stderr capture and HTTP serving: these appear as steps that may succeed or fail.
- Draining of renders in flight by `worker.close`, and `pool.close` concurrent with replacement, which takes no lock.
- Walking the file tree in `collectMtimes` and `collectHashes`: the comparison takes the two snapshots. A change between two snapshots that leaves equal stamps is no change to it.
- `runNodeWatcher`, and time itself in the supervisor: a debounce or a sleep may end at any step.
- The cookie store's own signature and age checks, beyond whether the cookie reads, and what the error handlers write.
- Gzip, brotli, etag and logger writers, CORS, CSRF, security headers, request IDs, recovery, JWT, basic authentication, flash messages, health and HTTP helpers: single checks or wrappers over libraries.
- Reading component modes from source files, browser code, bundling and scaffolding beyond template substitution.
