# Verified models of kratos-micro-layout

Dafny 4.11 models of four parts of the repository, with proofs over every input, every run and every
interleaving. `dafny verify dfyconfig.toml` checks all of it.

| files | part | in short |
|---|---|---|
| `Int64.dfy`, `SnowflakeId.dfy`, `DecimalText.dfy` | `pkg/snowflake`, the ID | shifts and masks on two's complement, the 41/10/12 layout as an order embedding, the decimal text |
| `Generator.dfy` | `pkg/snowflake`, `Generate` | one call: a declarative specification and the method that meets it |
| `Runs.dfy` | `pkg/snowflake`, one node | theorems on runs of any length: order, uniqueness, rate, honesty, failures |
| `Cluster.dfy`, `ClusterSafety.dfy`, `ClusterProgress.dfy`, `ClusterRefinement.dfy` | `pkg/snowflake`, concurrency | any number of goroutines on any number of nodes, in small steps: what they guarantee, when calls end, and that every sequential run happens |
| `Attrs.dfy`, `ColorHandler.dfy` | `pkg/log`, the colour handler | two tree walks against a reference by full paths; handlers and slices on the heap |
| `DocText.dfy`, `DocRewrites.dfy`, `DocTheorems.dfy`, `DocLiterals.dfy` | `pkg/docs` | regular expressions character by character, rewrites line by line, guarantees for every text, the documents they are meant for in literal lines |
| `NacosWatcher.dfy` | `pkg/nacos`, the watcher | a channel protocol with unbounded publishers, `Next` and `Stop` callers, and the watcher object |

## How the models are built

**Snowflake.** The clock is whatever sequence of int64 readings it likes to be; `epoch` and readings are
arbitrary, and all int64 arithmetic wraps. A call is given the readings it takes; a call whose readings do not
end its wait is `Spinning` and still holds the lock. `RunCall` says what a call does without any loop: it is
refused, or it settles on the first offset that still has a free slot and issues the least slot not yet passed.
`Node.Generate` has the code's branches and both waits and is proved to return exactly that. `Runs` chains
completed calls. In `Cluster` each call goes through lock, read, decide, wait, stamp, unlock and return as
separate steps interleaved with all others; the invariant relates the lock holder's position to a partial
`RunCall`, since the step field changes before the time field does. Every interleaving is shown to be a
sequential run per node, on the readings its actions carry, so the theorems of `Runs` carry over; and every
sequential run is what some interleaving does.

**Colour handler.** Attribute trees with groups nested to any depth, zero attributes, empty keys and LogValuers.
The reference lists every leaf with all names on the way to it. Quoting is an arbitrary function.

**Docs.** A text is split into its complete lines and an unfinished rest; splitting is one to one, so the
line-level theorems hold for every text, with or without a final newline.

**Watcher.** Publications are numbered in the order in which their selects happen. When a select has two ready
cases, either may be taken.

## Where code and documentation differ

- "A real ID always carries a positive timestamp offset": a node whose clock still shows the epoch issues an ID at
  offset 0 (`Runs.ZeroOffsetPossible`). A call does so exactly if it finds the node still in millisecond 0 with a step
  left and its clock shows the epoch before anything past it (`Runs.ZeroOffsetIff`); if the first reading of a node is
  past its epoch, all its IDs have positive offsets (`Runs.PositiveOnceStarted`). The ID itself is positive always.
- The drift guard compares a `time.Duration`: a lag of 9,223,372,036,855 ms overflows it. A node that has issued one ID
  at any offset in range then waits for its clock to come back instead of refusing (`Runs.HugeLagWaitedOut`).
  `Runs.FailsIff` says for every lag which calls fail; for lags whose product fits it is the documented 5 ms.
  Uniqueness and order do not depend on the guard.
- Single-line records: a value with a newline and no blank, tab or quote is printed raw (`Attrs.NewlineEscapes`), and so
  are messages and names; `ColorHandlers.SingleLineRecordIff` says exactly which records stay on one line.
- The scheme is attached exactly if there was a components key or the text ended its last line
  (`DocTheorems.SchemeAttached`); injection and servers rewrite commute exactly if the text does not end, unfinished,
  inside a servers list without a components key (`DocTheorems.CommuteIff`); a document and the same document with an
  empty components key at its end get the same result (`DocTheorems.SameResultIff`).
- `Next` does not always return the newest config, then or ever after (`NacosWatcher.NewestLost`); a config is lost to
  all later calls exactly when an older one is still pending or the select takes the stop case
  (`NacosWatcher.LostIffSlotFull`). A failed `ListenConfig` is never retried (`NacosWatcher.OnceEach`).

## Model

| member | source | states |
|---|---|---|
| Int64.Pointwise | pkg/snowflake/snowflake.go:211 | the recursive or and and are the bitwise ones, at every bit |
| Int64.OrDisjoint | pkg/snowflake/snowflake.go:211 | or-ing into the bits a shift left free adds |
| Int64.MaskIsRemainder | pkg/snowflake/snowflake.go:75-76 | the node and step masks take remainders modulo 1024 and 4096, of negative int64 values too |
| SnowflakeId.PackIsSum | pkg/snowflake/snowflake.go:211 | the shifted and or-ed fields lie side by side in the 64 bits, the timestamp cut to 42 bits |
| SnowflakeId.UnpackFields | pkg/snowflake/snowflake.go:239-251 | the accessors recover node and step always, and the timestamp as a signed 42-bit number |
| SnowflakeId.TimeSurvivesIff | pkg/snowflake/snowflake.go:13-15 | the timestamp survives exactly while it fits its field |
| SnowflakeId.RepackFields | pkg/snowflake/snowflake.go:239-251 | packing what the accessors read from any int64 gives it back |
| SnowflakeId.CollideIff | pkg/snowflake/snowflake.go:211 | two IDs collide exactly if node and step agree and the times are a multiple of 2^42 ms apart |
| SnowflakeId.SignIff | pkg/snowflake/snowflake.go:13-15 | the sign bit is zero exactly for timestamps below 2^41, modulo 2^42 |
| SnowflakeId.OrderEmbedding | pkg/snowflake/snowflake.go:8-15 | integer order of IDs is lexicographic order on time, node, step |
| SnowflakeId.DecodeReading | pkg/snowflake/snowflake.go:238-241 | decoding against the epoch gives the clock reading back, even when the subtraction wrapped |
| DecimalText.TextRoundTrip | pkg/snowflake/snowflake.go:259-282 | every int64 survives String and parsing |
| DecimalText.ReprintIff | pkg/snowflake/snowflake.go:263-282 | of the texts that parse exactly the canonical ones are reproduced |
| DecimalText.StringDigits | pkg/snowflake/snowflake.go:259-261 | the text of a non-negative ID, digit by digit |
| DecimalText.NegativeDigits | pkg/snowflake/snowflake.go:259-261 | and of a negative one, down to the least int64 |
| DecimalText.ParsesIff | pkg/snowflake/snowflake.go:276 | exactly which texts parse, and to what: numbers whose normal form is the text of an int64 |
| DecimalText.SignsAre | pkg/snowflake/snowflake.go:276 | a plus sign changes nothing |
| DecimalText.LeadingZeroIgnored | pkg/snowflake/snowflake.go:276 | a leading zero changes nothing, after a minus sign either |
| DecimalText.IdCell.MarshalText | pkg/snowflake/snowflake.go:266-268 | the one canonical text that parses to the ID |
| DecimalText.IdCell.UnmarshalText | pkg/snowflake/snowflake.go:275-282 | accepts exactly the numbers in range and writes their value; any other text leaves the variable alone |
| DecimalText.CopyThroughText | pkg/snowflake/snowflake_test.go:157-181 | an ID sent as text arrives unchanged |
| Generator.MeetsIff | pkg/snowflake/snowflake.go:176-212 | the declarative result of a call is the only one the outcome-by-outcome relation allows |
| Generator.NextSlotIsLeast | pkg/snowflake/snowflake.go:195-211 | a call issues the least slot not yet passed at or above the offset it settled on, in that millisecond |
| Generator.IssueSpelledOut | pkg/snowflake/snowflake.go:190-211 | which readings a call passes over, the slot it takes and the ID as a number, in plain arithmetic |
| Generator.RefusalReport | pkg/snowflake/snowflake.go:186-188 | a refused call reports both times and the lag in nanoseconds, wrapped if it does not fit |
| Generator.StepResetsWithTime | pkg/snowflake/snowflake.go:195-208 | the step is 0 exactly when the millisecond advanced, else one more than before |
| Generator.StepWraps | pkg/snowflake/snowflake.go:196 | the masked increment counts to 4095 and wraps to 0 |
| Generator.EndsByThen | pkg/snowflake/snowflake.go:188-204 | a call ends by the first reading past the last issued millisecond; a refused call takes one reading |
| Generator.SpinsIff | pkg/snowflake/snowflake.go:190-204 | a call spins exactly while it is not refused and no reading had a free slot |
| Generator.LaterReadingsIgnored | pkg/snowflake/snowflake.go:176-212 | what the clock shows after a call ended cannot change it |
| Generator.GuardExact | pkg/snowflake/snowflake.go:94-98 | refused exactly for a lag over 5 ms, while the nanoseconds fit an int64 |
| Generator.GuardExactInRange | pkg/snowflake/snowflake.go:182-189 | the same for offsets from -2^42 to 2^41 |
| Generator.GuardOverflows | pkg/snowflake/snowflake.go:186-187 | the first lag whose product wraps passes the guard, whatever the last issued time |
| Generator.GuardIff | pkg/snowflake/snowflake.go:186-187 | for every lag, the guard in terms of the low 64 bits of the product |
| Generator.Node.NewNodeWithEpoch | pkg/snowflake/snowflake.go:128-142 | a fresh node exactly for ids 0 to 1023 and a non-zero epoch not in the future, else the first error |
| Generator.Node.BumpStep | pkg/snowflake/snowflake.go:196 | the step field counts up and wraps |
| Generator.Node.Spin | pkg/snowflake/snowflake.go:190-204 | a wait stops at the first reading that reaches its floor |
| Generator.Node.Issue | pkg/snowflake/snowflake.go:195-211 | from an offset that does not lag: the next slot at the first offset with one, or an endless wait with the step wrapped |
| Generator.Node.Generate | pkg/snowflake/snowflake.go:176-212 | outcome, readings taken and new fields are those of the declarative call |
| Runs.IdsIncrease | pkg/snowflake/snowflake.go:1-16 | a later call of a node returns a larger ID, however the clock moved, for offsets below 2^41 |
| Runs.IdsDiffer | pkg/snowflake/snowflake.go:176-212 | IDs of a node differ for offsets below 2^42 |
| Runs.IdsPositive | pkg/snowflake/snowflake.go:13-14 | IDs are positive and carry the node id and the offset settled on, which is not negative |
| Runs.ZeroOffsetPossible | pkg/snowflake/snowflake.go:174-175 | an ID with timestamp offset 0 and step 1 |
| Runs.ZeroOffsetIff | pkg/snowflake/snowflake.go:174-175 | an ID's offset is 0 exactly if the node was in millisecond 0 with a step left and the clock showed the epoch first |
| Runs.PositiveOnceStarted | pkg/snowflake/snowflake.go:174-175 | if a node's first reading is past its epoch, every ID of the run has a positive offset |
| Runs.TimestampsHonest | pkg/snowflake/snowflake.go:180-211 | an ID decodes to the last clock reading of its own call |
| Runs.TimestampsClimb | pkg/snowflake/snowflake.go:113-114 | timestamps of a node never go back |
| Runs.StepIsCount | pkg/snowflake/snowflake.go:195-208 | an ID's step is the number of IDs issued before it in its millisecond, one more in millisecond 0 |
| Runs.RateBound | pkg/snowflake/snowflake.go:14-16 | at most 4096 IDs per millisecond over every window of every run |
| Runs.BurstFillsMillisecond | pkg/snowflake/snowflake.go:169-172 | on a stuck clock 4096 calls succeed and the next one blocks |
| Runs.FailuresTransparent | pkg/snowflake/snowflake.go:182-189 | without its refused calls a run is a run, with the same end and the same IDs |
| Runs.FailsIff | pkg/snowflake/snowflake.go:182-189 | which calls of a run fail, for every lag: over 5 ms while the nanoseconds fit an int64; on one reading, with what report |
| Runs.FailsInRange | pkg/snowflake/snowflake.go:182-189 | in particular over 5 ms, for offsets from -2^42 to 2^41 |
| Runs.HugeLagWaitedOut | pkg/snowflake/snowflake.go:182-193 | after an ID at any offset in range, the first lag whose product wraps spins until the clock is back; one ms less is refused |
| Runs.AskAll | pkg/snowflake/snowflake.go:33-42 | the answers of a node object asked again and again are a run |
| Cluster.ReadKeepsMidway | pkg/snowflake/snowflake.go:180-204 | each clock reading moves the lock holder along the declarative call |
| Cluster.StampKeepsMidway | pkg/snowflake/snowflake.go:210-211 | writing the time completes the declarative call, begun on the slot found at the lock |
| Cluster.Recorded | pkg/snowflake/snowflake.go:176-204 | the state records each call on the node it was made on, with the readings its actions carry, in order |
| Cluster.StepKeepsInv | pkg/snowflake/snowflake.go:106-115 | every step of every call keeps the invariant, with fields half written |
| Cluster.RunKeepsInv | pkg/snowflake/snowflake.go:106-115 | so does every interleaving |
| ClusterSafety.MutualExclusion | pkg/snowflake/snowflake.go:177-178 | at most one call is inside a node's critical section |
| ClusterSafety.Serialised | pkg/snowflake/snowflake.go:106-108 | the calls of a node form a sequential run, in which each returned what the run says for the readings the clock showed it |
| ClusterSafety.Unique | pkg/snowflake/snowflake.go:18-22 | all IDs ever returned in the cluster differ, given distinct node ids |
| ClusterSafety.RealTimeOrder | pkg/snowflake/snowflake.go:176-212 | in any run, a call made on the node after another has returned returns a larger ID |
| ClusterSafety.TimeOrder | pkg/snowflake/snowflake.go:1-6 | across nodes and goroutines the smaller offset has the smaller ID; with a shared epoch the earlier reading |
| ClusterSafety.IdsHonest | pkg/snowflake/snowflake.go:180-211 | every returned ID is positive, names the node its call was made on and decodes to what the clock showed that call last |
| ClusterSafety.RateBounded | pkg/snowflake/snowflake.go:14-16 | the rate bound over all goroutines of a node |
| ClusterProgress.SomeoneCanMove | pkg/snowflake/snowflake.go:176-204 | a call that has not returned can move, or waits for a lock holder that can |
| ClusterProgress.HolderReturns | pkg/snowflake/snowflake.go:190-211 | with readings past its node's last time, a lock holder has returned after at most seven own steps, in any interleaving |
| ClusterProgress.AllReturn | pkg/snowflake/snowflake.go:169-212 | from any reachable state all calls can return within eight steps each, with an ID unless refused before |
| ClusterRefinement.RunRealised | pkg/snowflake/snowflake.go:176-212 | every sequential run of a node, on any clock, is what some interleaving does, with the same results |
| Attrs.TextPrints | pkg/log/color_log.go:235-259 | the text a string attribute prints under any group: dotted name, equals sign, quotes, or nothing |
| Attrs.ScalarPrints | pkg/log/color_log.go:235-259 | the same for other scalars and the nil value |
| Attrs.ValuerTransparent | pkg/log/color_log.go:217-236 | a LogValuer prints and is stored as the value it stands for |
| Attrs.GroupPrints | pkg/log/color_log.go:240-246 | a group prints its members in order under its name |
| Attrs.JoinGroupMonoid | pkg/log/color_log.go:200-211 | joinGroup is associative with the empty string as unit |
| Attrs.JoinGroupIsDotted | pkg/log/color_log.go:200-211 | joining name by name gives the non-empty names with single dots between them |
| Attrs.FlattenThenRender | pkg/log/color_log.go:213-260 | flattening early and rendering without a group writes what rendering late writes |
| Attrs.FlattenIsFlat | pkg/log/color_log.go:213-229 | stored attributes are scalars, resolved, and not zero |
| Attrs.RenderIsReference | pkg/log/color_log.go:231-260 | rendering a tree prints each leaf once, in order, under its full path |
| Attrs.SingleLineIff | pkg/log/color_log.go:231-259 | the attribute text has no newline exactly if every printed leaf has newline-free names and a newline-free or quoted value |
| Attrs.NewlineEscapes | pkg/log/color_log.go:256-259 | a value that breaks the line |
| ColorHandlers.HandlerMeaning | pkg/log/color_log.go:17-19 | after any WithAttrs and WithGroup calls each attribute prints under exactly the groups open when it was added |
| ColorHandlers.SingleLineRecordIff | pkg/log/color_log.go:100-134 | what any derived handler writes for a record is a single line exactly if its head is and every leaf fits |
| ColorHandlers.GroupAsAttr | pkg/log/color_log.go:152-161 | a group opened before a record prints like a group attribute in it, the empty name included |
| ColorHandlers.StoredAsRecord | pkg/log/color_log.go:118-126 | attributes stored before a record print as the first ones of the record |
| ColorHandlers.SplitWithAttrs | pkg/log/color_log.go:139-150 | attributes stored in one call or in two are the same |
| ColorHandlers.Append | pkg/log/color_log.go:228 | append keeps the items, in the old backing array or a fresh larger one |
| ColorHandlers.AppendColorAttr | pkg/log/color_log.go:216-229 | appends the flattened attribute |
| ColorHandlers.AppendColorAttrs | pkg/log/color_log.go:146-148 | appends the flattened attributes in order |
| ColorHandlers.WriteColorAttr | pkg/log/color_log.go:235-260 | writes the rendered attribute |
| ColorHandlers.ColorHandler.WithAttrs | pkg/log/color_log.go:139-150 | a new handler on a backing array of its own; no existing handler shows anything else |
| ColorHandlers.ColorHandler.WithGroup | pkg/log/color_log.go:154-161 | a new handler sharing the array with the name joined on; no existing handler shows anything else |
| ColorHandlers.ColorHandler.Handle | pkg/log/color_log.go:103-134 | one write of head, stored attributes, record attributes and newline |
| ColorHandlers.Derive | pkg/log/color_log.go:136-161 | any chain of derivations leaves every older handler as it was |
| ColorHandlers.LogThrough | pkg/log/color_log.go:100-161 | the line written through any chain of derivations is the reference text; when it is a single line |
| DocText.ParseUnique | pkg/docs/docs.go:114-127 | a text has one reading as lines and an unfinished rest |
| DocText.MatchAgrees | pkg/docs/docs.go:120-126 | what the three patterns match in the text is what they match in the lines |
| DocText.RewriteAgrees | pkg/docs/docs.go:85-100 | replacing all matches in the text is editing the lines |
| DocTheorems.SecuredText | pkg/docs/docs.go:85-100 | the whole injection, the appended key included, line by line |
| DocTheorems.ServeTwice | pkg/docs/docs.go:158-162 | rewriting to one origin and then another is rewriting to the second |
| DocTheorems.ServeKeepsRest | pkg/docs/docs.go:115-120 | only servers lists change, each to the one origin; all else stays in order |
| DocTheorems.SchemeAttached | pkg/docs/docs.go:70-99 | every components and openapi line is followed by its block; when a components line exists |
| DocTheorems.SecurityLossless | pkg/docs/docs.go:85-99 | the original can be read back, but for an empty components key at the end |
| DocTheorems.SameResultIff | pkg/docs/docs.go:89-93 | which documents get the same result |
| DocTheorems.CommuteIff | pkg/docs/docs.go:85-162 | when injection and servers rewrite commute for every origin |
| DocTheorems.SwallowExample | pkg/docs/docs.go:89-93 | a document on which they do not |
| DocLiterals.ItemIff | pkg/docs/docs.go:120 | what an item of a servers list is, for any indentation and host |
| DocLiterals.SecuredDocument | pkg/docs/docs.go:85-112 | a document with a components key, line by literal line, after the injection |
| DocLiterals.CompletedDocument | pkg/docs/docs.go:89-93 | a document without one, line by literal line |
| DocLiterals.ServedDocument | pkg/docs/docs.go:158-162 | a servers list of any items becomes one literal item with the origin; all else stays |
| NacosWatcher.ActionsRecorded | pkg/nacos/source.go:94-135 | the state holds the published values in order and every call made |
| NacosWatcher.EndsForReason | pkg/nacos/source.go:108-125 | Next is cancelled only after Stop and fails only if its own ListenConfig failed |
| NacosWatcher.RunKeepsInv | pkg/nacos/source.go:81-135 | every interleaving keeps mutex, registration, stop and channel in order |
| NacosWatcher.DeliveredInOrder | pkg/nacos/source.go:99-116 | values taken and pending are an in-order selection of those published |
| NacosWatcher.EveryPublicationAccounted | pkg/nacos/source.go:99-106 | every publication is taken, pending or discarded, and only one of these |
| NacosWatcher.EachTakenOnce | pkg/nacos/source.go:114-123 | each taken publication was returned by exactly one Next call |
| NacosWatcher.OnceEach | pkg/nacos/source.go:95-111 | ListenConfig is called at most once, its error returned at most once, stop closed at most once, CancelListenConfig called once by each finished Stop |
| NacosWatcher.SomeNextEnabled | pkg/nacos/source.go:114-126 | with stop closed an unfinished Next always has a step, its own if it waits in the select |
| NacosWatcher.StepsUseWork | pkg/nacos/source.go:94-127 | steps of Next calls use up their work and nobody else adds any |
| NacosWatcher.StopUnblocksAll | pkg/nacos/source.go:129-135 | after Stop all Next calls can return within five steps each |
| NacosWatcher.DiscardedNeverReturned | pkg/nacos/source.go:99-106 | a discarded publication is returned by no call of any continuation |
| NacosWatcher.LostIffSlotFull | pkg/nacos/source.go:100-105 | no continuation returns a publication exactly when an older one was pending, which stays, or the select took the stop case |
| NacosWatcher.NewestLost | pkg/nacos/source.go:93-106 | a run after which the newest config is returned in no continuation |
| NacosWatcher.NextAlone | pkg/nacos/source.go:94-127 | the protocol's Next, run alone, ends as the object's Next does |
| NacosWatcher.StopAlone | pkg/nacos/source.go:130-135 | a Stop call on its own closes the channel if nobody has, cancels once and returns the answer |
| NacosWatcher.BlankIff | pkg/nacos/source.go:116 | what counts as blank content, by code points |
| NacosWatcher.Watcher.OnChange | pkg/nacos/source.go:99-106 | queued if the slot is free and the select does not take the stop case, else dropped |
| NacosWatcher.Watcher.Next | pkg/nacos/source.go:94-127 | exactly when each result is returned, with what content, and what is left in the slot |
| NacosWatcher.Watcher.Stop | pkg/nacos/source.go:130-135 | the stop channel is closed once, however often Stop is called; the listener is cancelled each time and the answer returned |
| NacosWatcher.MissNewest | pkg/nacos/source.go:94-106 | the same loss on the object |

## Left out

- NewNodeFromHostname, MustNewNode, MustGenerate: the hash's spread is probabilistic, the others panic on an error modelled here.
- Error texts of the snowflake package; the refused outcome keeps the three numbers the message shows.
- strconv error kinds: a syntax and a range error are one `None`.
- Fairness of the mutex and of the scheduler: `ClusterProgress` and `SomeNextEnabled` say who can move and how far, not that the scheduler lets them.
- Timestamps, levels, ANSI colours and source locations of log lines: one given text `head`.
- `%q`: an arbitrary quoting function; only the single-line theorems assume that it escapes newlines.
- slog's limit of 100 nested LogValuers and recovery of their panics; values are resolved completely.
- Interleaving of two `Handle` calls: each is one write under a mutex.
- The caller changing the attribute slice it passed to WithAttrs: it is passed by value here.
- origin(): the request headers; the origin is a parameter, newline-free as header values are.
- Embedding, routing and serving of documents, the Swagger UI.
- configSource.Load and formatOf: single calls and a lookup.
- What the Nacos SDK does: ListenConfig and CancelListenConfig may succeed or fail and OnChange may be called at any time once it has been called, after Stop too.
- Gateway, rate limiting, JWT, middleware, configuration: wrappers around libraries that are not part of this model.
