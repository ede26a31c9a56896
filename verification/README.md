# Verified models of kh-common

Dafny models of the five parts of kh-common whose behaviour is hard to see from one function:
the table-driven CRC, the Telegram listener, the SQL query builder, the expiring caches with the
two-level store and the aggregators, and the token codec. `dafny verify dfyconfig.toml` checks
everything.

**CRC** (`Bits`, `CrcRegister`, `CrcPolynomial`, `Crc`, `CrcTheorems`, `CrcParity`). Registers are bit words of
symbolic width, most significant bit first. The table that the constructor fills by doubling is
proved entry by entry, the byte-at-a-time update is proved equal to a register that takes one bit
at a time, and that register is proved to hold the one remainder of division by the generator in
GF(2)[x], with polynomials as sets of exponents. On top of this: an error goes
undetected exactly when the generator divides it, shifted by the width; every burst no longer than the
width is detected exactly when the polynomial's constant term is one, and every error in an odd
number of bits exactly when the generator has an even number of terms. Polynomial, start value
and xor-out are integers of any size and sign, as in the code: the polynomial is cut to the register,
the start value by the first byte, the xor-out never.

**Telegram listener** (`TelegramListener`, `TelegramShutdown`, `TelegramProgress`, `ListenerObject`,
`SplitMessage`). The receiver, the
server, the queue and N workers are a state machine whose events interleave freely: an update
arrives, the flag is read, a poll reaches the server or is lost, its answer is read or is lost, one
update is enqueued, a worker reads the loop condition, takes an update, finishes it. "Handled"
means that the handler returned or its exception was caught. Proved over all runs: exactly-once
handling in a gap-free order, safe shutdown (true exactly when there is at least one worker), and
that shutdown completes; and while the flag is up, that all that has arrived can be handled within a
bounded number of steps. `ListenerObject` is the object with its fields; each of its methods is what
one coroutine does between two suspension points. It requires and keeps that some run of the protocol
leads to where the object is, so that all theorems about runs apply to it. What happens outside the
two coroutines, at the server and to the flag, are further methods.
`SplitMessage` is the sequential message splitter.

**SQL query builder** (`SqlTree`, `SqlTheorems`, `SqlDriver`, `SqlReader`, `SqlReadBack`, `SqlQuery`). Query trees with nested subqueries,
the walk that renders text with placeholders, the walk that lists parameters, and the builder
object. The reference for the two walks is a third rendering, which writes the values in place. None
stands for a failed assertion. `SqlReader` reads SQL back into trees, with keywords of its own; `SqlReadBack`
proves that it undoes the rendering. How a value looks in text is a parameter (`show`). `SqlDriver` goes on
to characters and to the scan of the database driver, psycopg2, which replaces `%s` by the next value
and `%%` by a percent sign, and fails on any other use of one.

**Caches and stores** (`ExpiringCache`, `ArgsCache`, `ArgsCacheRuns`, `CacheWrapper`, `CacheKeys`,
`CallKeys`, `KeyValueStore`, `StoreRuns`, `StoreSteps`, `StoreLink`, `StoreStaleness`, `Welford`, `Aggregators`). An
insertion-ordered dictionary is a sequence of entries with distinct keys. When nothing is found after
its deadline, for any deadline, is characterised exactly: for one state of a cache, and for whole runs
by a condition on each store. Counterexample runs show that the conditions can fail. `CacheWrapper` is
the wrapper as an object, for calls that do not overlap for one key; its state is one that such a run
reaches. `StoreLink` shows that the operations of the store object are runs of its steps. Clock readings
are parameters and never decrease. The aggregators are proved over the reals, with a window as the
sequence of its updates and one name as the trace of what they hold for it.

**Token codec** (`Base64`, `Base64Numbers`, `Integers`, `Token`, `TokenCache`). The standard library's lenient base64
decoder is modelled as the scanner that skips characters outside the alphabet and ends at padding that
completes a group. The token printer is the one written out in `tests/utilities/auth.py`. The clock, the
formats of the library (UTF-8, dates, JSON), the signature check with the fetched key and the token
store are parameters (`World`); the token store answers within the bounds of `StoreStaleness`.
`TokenCache` puts the cache of 30 seconds around verification, with one world for every instant.

Where the code and what one might expect of it differ, the model follows the code:

- The age of a value from the two-level store is bounded by the TTL alone exactly when values are stored
  at the instant of the remote access (`kh_common/caching/key_value_store.py:58-59`); otherwise the time
  between the two adds to it. `RunTimelyIff` with `InTimeSinceHeld`; `SlowAnswersAgeMore` is a run that
  shows it.
- A put for a key that is held locally keeps the key's place and can hide older entries from eviction
  (`kh_common/caching/key_value_store.py:45`), exactly when something behind it was stored earlier.
  `RunTimelyIff` with `InTimeSinceStored`; `OverwriteReturnsStale` is a run that shows it.
- Two overlapping calls for one key can have the same effect on the function caches
  (`kh_common/caching/__init__.py:121`). `RunIsIdealIff`; `OverlapReturnsStale`.
- A verified token is returned for 30 seconds whatever becomes of it
  (`kh_common/auth/__init__.py:141`), so an expired one is returned unless every token is stored at least
  30 seconds before its expiry. `RunNeverExpiredIff`; `ExpiredButAccepted`.
- A call that Python would reject can share the key of one that it accepts, because surplus positional
  arguments are dropped when the key is made and keywords replace positional arguments
  (`kh_common/caching/__init__.py:150`). While the answer for that key is cached, such a call is answered
  with it; otherwise the function is called and rejects it. `SharesKeyIff`, `SharedKeyMeans`.
- What `*args` takes is not part of the key (`kh_common/caching/__init__.py:150`), and a list and a dictionary
  can convert alike (`kh_common/caching/__init__.py:47-52`), so different calls can share a key in exactly these
  two ways. `KeysIdentifyBindings`; `SurplusIgnored`, `ShapesConflated`.
- A percent sign in a table, column or function name breaks the query that is sent, whatever its values
  (`kh_common/sql/query.py:64-67`). `BuiltQuerySubstitutesIff`.
- The averages count updates, not occurrences of a name (`kh_common/caching/__init__.py:333`), so they are
  right for a name exactly when the first updates carry it, and the variances exactly when all do.
  `AverageDeliveredIff`, `VarianceDeliveredIff`.
- With one update in the window the standard deviation divides by zero and the window is kept
  (`kh_common/caching/__init__.py:322`, `kh_common/caching/__init__.py:339-347`).

## Model

| member | source | states |
|---|---|---|
| Crc.NewCRC | kh_common/crc.py:3-11 | a CRC is built exactly for positive widths divisible by 8, whatever the other arguments; it holds the start value and xor-out that are given, and 2^w - 1 for a missing one |
| Crc.BuildTable | kh_common/crc.py:13-31 | the doubling loop fills all 256 entries, each eight shifts from its index in the top byte |
| Crc.FillBlock | kh_common/crc.py:26-27 | the inner loop extends a correct table from i to 2i entries |
| Crc.CRC.Init | kh_common/crc.py:7-31 | the constructed object holds a correct table for its polynomial, and the given or default start value and xor-out |
| Crc.CRC.Call | kh_common/crc.py:34-42 | the table-driven loop returns the checksum of the bit-at-a-time register, for start and xor-out values of any size and sign |
| Crc.CRC.Round | kh_common/crc.py:40 | one round cuts whatever it is given to the width and takes the register one byte further |
| Bits.XorInjective | kh_common/crc.py:42 | the final xor, with an integer of any size and sign, loses nothing |
| Bits.XorOfWords | kh_common/crc.py:42 | on registers of one width the xor of integers is the bitwise one |
| Bits.XorBits | kh_common/crc.py:42 | for integers of any size and sign, each bit of the xor is the exclusive or of the two bits in its place |
| Bits.LowBits | kh_common/crc.py:22-24 | the bits kept of an integer, negative ones too, write what is left on division by 2^w |
| Crc.ChecksumOfWords | kh_common/crc.py:34-42 | for start and xor-out values within the width the checksum is the register xored bit by bit, a word of that width |
| Crc.EmptyChecksum | kh_common/crc.py:34-42 | the checksum of the empty message is the start value xor the xor-out |
| Crc.DefaultChecksum | kh_common/crc.py:9-10 | with both defaults the register starts from ones, its bits are turned round at the end, and the result is below 2^w |
| Crc.RegisterNext | kh_common/crc.py:40 | one look-up equals eight register shifts with the byte's bits fed in, at any width of at least 8 |
| Crc.EntryDoubling | kh_common/crc.py:26-27 | the entry at 2^k + j is the xor of the shifted start bit and the entry at j |
| Crc.EntryAtPower | kh_common/crc.py:18-24 | the loop's register after k+1 shifts of the top bit is the entry at 2^k |
| CrcTheorems.TableLinear | kh_common/crc.py:13-31 | table[a ^ b] == table[a] ^ table[b] for every built CRC |
| CrcPolynomial.FeedIsRemainder | kh_common/crc.py:34-42 | the register after any data is a remainder of init*x^n + data*x^w modulo x^w + polynomial |
| CrcPolynomial.RemainderUnique | kh_common/crc.py:34-42 | division by the generator leaves only one remainder, so the reference is well defined |
| CrcPolynomial.ValueIsNumber | kh_common/crc.py:8 | the polynomial of a register has exactly the exponents of the powers of two in its integer value |
| CrcTheorems.MessageNumber | kh_common/crc.py:37 | the bits of a message, in the order in which they are fed, are those of the number its bytes write big-endian |
| CrcTheorems.ChecksumIsTheRemainder | kh_common/crc.py:34-42 | a polynomial is that remainder for a byte message if and only if it is the final register |
| CrcTheorems.UndetectedIff | kh_common/crc.py:3-42 | two messages of one length have one checksum if and only if the generator divides their difference times x^w, whatever the start value and the xor-out |
| CrcTheorems.BurstDetection | kh_common/crc.py:3-42 | all bursts of at most w bits, at any bit position, change the checksum if and only if the constant term is one |
| CrcTheorems.BurstLeavesTrace | kh_common/crc.py:17-24 | with constant term one, an error confined to w consecutive bits never cancels to a zero register |
| CrcTheorems.LostWord | kh_common/crc.py:17-24 | with constant term zero, one nonzero word is shifted out without trace |
| CrcParity.OddErrorDetection | kh_common/crc.py:3-42 | all errors in an odd number of bits change the checksum if and only if the generator has an even number of terms |
| CrcParity.FeedParity | kh_common/crc.py:34-42 | with an odd polynomial the register has the parity of all it has taken in |
| CrcRegister.FeedIsSteps | kh_common/crc.py:40 | up to a register of data may be combined with the register before shifting |
| CrcRegister.FeedLinear | kh_common/crc.py:34-42 | the register is linear in its start value and the data together |
| SplitMessage.SplitMessage | kh_common/telegram/__init__.py:76-100 | the two loops terminate and give the pieces of a split of the text |
| SplitMessage.SplitIff | kh_common/telegram/__init__.py:76-100 | the split computed is the only one in which pieces and dropped strings make up the text, the last piece fits, and every other is cut out of the first `limit` characters of what was left: at the last occurrence there of the first usable break, or at their end if no break is usable |
| SplitMessage.SplitRejoins | kh_common/telegram/__init__.py:96-97 | putting the dropped break strings back at the cuts rebuilds the text |
| SplitMessage.PieceSizes | kh_common/telegram/__init__.py:82-99 | no piece exceeds the limit, and no piece of a nonempty text is empty |
| SplitMessage.PieceCount | kh_common/telegram/__init__.py:82-99 | the text is no longer than limit times the number of pieces |
| SplitMessage.CutChoice | kh_common/telegram/__init__.py:83-94 | the cut is the last occurrence of the first listed break that occurs at a positive index, else a hard cut |
| SplitMessage.DroppedAreBreaks | kh_common/telegram/__init__.py:86-94 | only listed break strings, or nothing, are dropped |
| SplitMessage.RFindIsLast | kh_common/telegram/__init__.py:87 | rfind gives the greatest index of an occurrence |
| SplitMessage.NoLimitNoProgress | kh_common/telegram/__init__.py:82-97 | with limit zero a cut removes nothing, whatever the breaks |
| TelegramListener.NextInv | kh_common/telegram/__init__.py:244-308 | every interleaved step keeps order, conservation and the confirmation invariants |
| TelegramListener.NextInOrder | kh_common/telegram/__init__.py:281-303 | enqueued ids stay a prefix of what the server was given, through lost polls and answers |
| TelegramListener.NextConserved | kh_common/telegram/__init__.py:244-269 | queued, in hand and handled add up to enqueued, and task_done is counted once per update |
| TelegramListener.NextLeftoversAreNew | kh_common/telegram/__init__.py:245-303 | once a worker has left, the queue holds only ids at or above the last poll's offset |
| TelegramShutdown.ExactlyOnce | kh_common/telegram/__init__.py:244-308 | in every reachable state: increasing gap-free prefix, each id in one place, handled at most once, unfinished count exact |
| TelegramShutdown.SafeShutdown | kh_common/telegram/__init__.py:244-308 | when all coroutines have returned every confirmed update is handled; leftovers belong to the last, unconfirmed batch |
| TelegramShutdown.SafeShutdownIff | kh_common/telegram/__init__.py:272-274 | that holds on every run if and only if there is at least one worker |
| TelegramShutdown.NoWorkersLosesUpdates | kh_common/telegram/__init__.py:272-303 | a run without workers that ends with a confirmed, unhandled update |
| TelegramShutdown.ConfirmedNeverLost | kh_common/telegram/__init__.py:285-303 | at any time a confirmed update is handled, in a worker's hands or queued |
| TelegramShutdown.ShutdownBounded | kh_common/telegram/__init__.py:245-251 | with the flag down the length of every run is bounded by the work left and a constant for each update that still arrives |
| TelegramShutdown.ShutdownProgress | kh_common/telegram/__init__.py:245-251 | with the flag down some step is possible until all coroutines have returned |
| TelegramShutdown.MaximalRunsFinish | kh_common/telegram/__init__.py:272-274 | a run only arrivals could extend is one where everything has returned, and conversely |
| TelegramProgress.WorkerServes | kh_common/telegram/__init__.py:245-269 | flag up or down, a worker at the head of its loop takes the oldest queued update and handles it |
| TelegramProgress.ReceiverAsks | kh_common/telegram/__init__.py:281-287 | with the flag up the receiver sends a request, for all that the server holds and has not been put |
| TelegramProgress.EverythingIsHandled | kh_common/telegram/__init__.py:244-303 | from every reachable state with the flag up and a worker, a bounded number of the listener's own steps lead to where all that has arrived is handled |
| TelegramProgress.ResponsiveIff | kh_common/telegram/__init__.py:272-274 | in every reachable state with the flag up all that has arrived can still be handled, if and only if there is at least one worker |
| ListenerObject.Listener.Run | kh_common/telegram/__init__.py:272-274 | the object starts in the protocol's initial state with n workers, which a run reaches |
| ListenerObject.Listener.ReceiveOrLeave | kh_common/telegram/__init__.py:281-287 | the flag decides between a request and leaving; a request asks for exactly the updates that have not been put, so all that it confirms has been put |
| ListenerObject.Listener.Served | kh_common/telegram/__init__.py:285-291 | an answer holds the next updates that have not been put, and what the server then forgets has been put |
| ListenerObject.Listener.RequestFailed | kh_common/telegram/__init__.py:305-308 | after a lost request or answer the next request asks for exactly the updates not yet put |
| ListenerObject.Listener.PutAnswer | kh_common/telegram/__init__.py:297-303 | the loop puts the whole answer, and what has been put stays a gap-free prefix of what the server was given |
| ListenerObject.AnswerDoneIsRun | kh_common/telegram/__init__.py:297-303 | that state is reached by the read event followed by one put event per update |
| ListenerObject.Listener.WorkOrLeave | kh_common/telegram/__init__.py:245 | a worker goes on to take an update unless the flag is down and everything put has been taken; when it leaves, all that was put, also all that is confirmed, is handled or in another worker's hands |
| ListenerObject.Listener.TakeUpdate | kh_common/telegram/__init__.py:246-251 | updates are taken in the order in which the server was given them, each once and none left out |
| ListenerObject.Listener.UpdateDone | kh_common/telegram/__init__.py:253-269 | an update is handled once, and the queue still waits for exactly the updates put and not handled |
| SqlTheorems.QueryAgrees | kh_common/sql/query.py:157-233 | for every nested query the parameters fill the placeholders, in order and exactly, to the inline query |
| SqlTheorems.OperandAgrees | kh_common/sql/query.py:49-55 | the same for an operand: field, value with or without function, or subquery |
| SqlTheorems.WhereAgrees | kh_common/sql/query.py:79-91 | the same for a condition, with the value skipped in both walks for null tests |
| SqlTheorems.JoinsAgree | kh_common/sql/query.py:128-137 | the same for a list of joins |
| SqlTheorems.TailAgrees | kh_common/sql/query.py:187-197 | the same for order, limit and offset, with zero counts dropped from both walks |
| SqlTheorems.QueryBuilds | kh_common/sql/query.py:157-159 | building fails exactly when something rendered selects nothing or joins without a condition |
| SqlReadBack.BuiltReadsBack | kh_common/sql/query.py:157-234 | an independent reader with its own keywords takes the characters and parameters of any query that can be built and whose names are words, and gives back fields, table, joins, conditions, groups, orderings and counts |
| SqlReadBack.SeenIff | kh_common/sql/query.py:79-84 | what it gives back is the tree itself exactly if that holds no empty function name, no count of zero and no second operand of a null test |
| SqlReadBack.OperatorReads | kh_common/sql/query.py:28-41 | every operator between two operands is read back as itself |
| SqlReadBack.DirectionReads | kh_common/sql/query.py:9-16 | every direction of an ordering is read back as itself |
| SqlReadBack.JoinTypeReads | kh_common/sql/query.py:19-25 | every type of join is read back as itself |
| SqlDriver.SubstituteIsFillIff | kh_common/sql/query.py:206-207 | for fitting parameters and any way of showing values, scanning the characters does what filling the tokens does if and only if no literal text holds a percent sign |
| SqlDriver.BuiltQuerySubstitutesIff | kh_common/sql/query.py:206-207 | for any way of showing values, what build returns gives the inline query if and only if no rendered table, column or function name holds a percent sign |
| SqlDriver.QueryCleanIff | kh_common/sql/query.py:157-199 | the literal text of a query is free of percent signs exactly when its rendered names are |
| SqlQuery.Query.BuildQuery | kh_common/sql/query.py:157-199 | the accumulated text is the text of the tree built so far |
| SqlQuery.Query.Params | kh_common/sql/query.py:209-233 | the accumulated list is the parameter walk of the tree |
| SqlQuery.Query.Build | kh_common/sql/query.py:206-207 | text and parameters fit, for any way of showing values; where all names are words they are read back as the query; None exactly on malformed trees |
| SqlQuery.Query.Select | kh_common/sql/query.py:235-239 | appends the fields and changes nothing else |
| SqlQuery.Query.Join | kh_common/sql/query.py:241-245 | appends the join objects and changes nothing else |
| SqlQuery.JoinIsSeen | kh_common/sql/query.py:128-137 | in every state a query shows its joins as they are then, with conditions they got after they were added |
| SqlQuery.Join.Where | kh_common/sql/query.py:122-126 | appends the conditions to the join and changes nothing else |
| SqlQuery.Query.Where | kh_common/sql/query.py:247-251 | appends the conditions and changes nothing else |
| SqlQuery.Query.Having | kh_common/sql/query.py:259-263 | appends the conditions and changes nothing else |
| SqlQuery.Query.Group | kh_common/sql/query.py:253-257 | appends the fields and changes nothing else |
| SqlQuery.Query.OrderBy | kh_common/sql/query.py:265-269 | appends the field with its direction and changes nothing else |
| SqlQuery.Query.Limit | kh_common/sql/query.py:271-274 | sets the limit exactly when it is positive |
| SqlQuery.Query.Offset | kh_common/sql/query.py:276-279 | sets the offset exactly when it is positive |
| SqlQuery.Query.Page | kh_common/sql/query.py:281-285 | needs a positive page and a limit, and skips the pages before |
| SqlQuery.Query.Function | kh_common/sql/query.py:287-289 | sets the function around the query and changes nothing else |
| ExpiringCache.OrderedDict.ClearCache | kh_common/utilities/__init__.py:7-25 | the loop removes the expired entries before the first good one; on a sorted cache exactly all expired ones |
| ExpiringCache.EvictExactIff | kh_common/utilities/__init__.py:18-22 | eviction is exact at an instant if and only if no expired entry stands behind a good one |
| ExpiringCache.EvictAlwaysExactIffSorted | kh_common/utilities/__init__.py:18-22 | eviction is exact at every instant if and only if the cache is sorted by expiry |
| ExpiringCache.AssignSortedIff | kh_common/caching/__init__.py:121 | a store with the latest expiry keeps the order if and only if nothing behind the key expires earlier |
| ExpiringCache.FoundTimelyIff | kh_common/utilities/__init__.py:18-22 | for any deadline: nothing is found after its deadline, at any later instant, if and only if no entry still good expires after the deadline of itself or of an entry behind it |
| ExpiringCache.TimelyAssignIff | kh_common/caching/__init__.py:121 | a store with the latest expiry keeps all deadlines if and only if it expires in time for itself and for what stands behind its key |
| ArgsCacheRuns.CacheIsIdealIff | kh_common/caching/__init__.py:112-123 | after any run, overlapping or not, all later calls hit exactly when the latest value is within TTL, and return it, if and only if behind an entry still good nothing expires earlier |
| ArgsCacheRuns.RunIsIdealIff | kh_common/caching/__init__.py:112-123 | calls that could follow any state of a run do so if and only if at every store the key is not cached or nothing behind it expires earlier |
| ArgsCacheRuns.SeparateRunsAreIdeal | kh_common/caching/__init__.py:112-123 | runs without overlapping calls for one key, nested calls included, are such runs |
| ArgsCacheRuns.RunIsTimelyIff | kh_common/caching/__init__.py:112-123 | for any deadline: no call that could follow any state of a run finds a value after its deadline if and only if every store is in time |
| ArgsCache.YoungIsFound | kh_common/caching/__init__.py:112-123 | in every run a latest value within TTL is found |
| ArgsCacheRuns.OverlapReturnsStale | kh_common/caching/__init__.py:117-121 | a run with overlapping calls for one key in which another key's expired value is returned |
| ArgsCache.NextInv | kh_common/caching/__init__.py:112-123 | every step keeps distinct keys, and what is cached is the latest value with its expiry |
| ArgsCacheRuns.NextInOrder | kh_common/caching/__init__.py:112-123 | without overlap every step keeps the cache sorted by expiry |
| CacheWrapper.Wrapper.BeforeCall | kh_common/caching/__init__.py:115-118 | what is found is the last value for the key while it is within TTL, otherwise the key is not cached any more |
| CacheWrapper.Wrapper.Call | kh_common/caching/__init__.py:114-123 | a whole call, with all wrapped calls that its function makes in turn and whether they return or raise, gives and leaves what a cache does that only keeps the last value computed for each key |
| CacheWrapper.Wrapper.AfterRaise | kh_common/caching/__init__.py:120 | when the function raises nothing is stored, and the key can be called again |
| CallKeys.KeysIdentifyBindings | kh_common/caching/__init__.py:143-150 | accepted calls bind alike, also what `**kwargs` and `*args` take, if and only if they share a key, `*args` takes the same, and no list stands in one where the other has a dictionary |
| CallKeys.SurplusIgnored | kh_common/caching/__init__.py:150 | calls that differ only in what `*args` takes are accepted, share a key and do not bind alike |
| CallKeys.SameBindingSameKey | kh_common/caching/__init__.py:143-150 | positional, keyword and defaulted passing of one binding give one key |
| CallKeys.MergedIsBinding | kh_common/caching/__init__.py:144-150 | the merged dictionary of an accepted call is its binding of all names, `**kwargs` included |
| CallKeys.DefaultsAreLast | kh_common/caching/__init__.py:144 | the defaults belong to the last parameters, in their order |
| CacheKeys.ConvertInjective | kh_common/caching/__init__.py:36-52 | values of any shape that convert to one hashable key are equal if and only if nowhere in them a list stands against a dictionary |
| CacheKeys.AscendingIsSorted | kh_common/caching/__init__.py:49 | a dictionary's keys have one ascending list, whatever their insertion order |
| CacheKeys.ShapesConflated | kh_common/caching/__init__.py:47-52 | the empty list and the empty dictionary share a key |
| CallKeys.SharesKeyIff | kh_common/caching/__init__.py:143-150 | any call has the key of some accepted call if and only if it names no unknown keyword, which `**kwargs` allows, and every parameter has an argument or a default |
| CallKeys.SharedKeyMeans | kh_common/caching/__init__.py:150 | the accepted calls with that key, but for a list against a dictionary, are exactly those that bind what is left when surplus positional arguments are dropped and a parameter given twice takes its keyword value |
| CallKeys.AcceptedIff | kh_common/caching/__init__.py:143-150 | of those calls exactly the ones without a surplus argument and without a parameter given twice are accepted |
| KeyValueStore.KeyValueStore.Put | kh_common/caching/key_value_store.py:34-45 | writes the remote record, then the local entry, in place if the key is held |
| KeyValueStore.KeyValueStore.Get | kh_common/caching/key_value_store.py:54-66 | evicts, answers locally or from the remote store, and stores what it fetched |
| KeyValueStore.KeyValueStore.GetMany | kh_common/caching/key_value_store.py:76-114 | answers exactly the keys given, each as a single get would, asking the remote store only for keys not held |
| KeyValueStore.KeyValueStore.Remove | kh_common/caching/key_value_store.py:124-133 | removes the key from both levels |
| KeyValueStore.FetchedLookup | kh_common/caching/key_value_store.py:84-95 | after a fetch exactly the asked keys with a record are held with the new expiry, the rest is untouched |
| KeyValueStore.FetchedSorted | kh_common/caching/key_value_store.py:84-92 | storing fetched keys keeps the cache sorted by expiry |
| StoreRuns.StoreIsTransparent | kh_common/caching/key_value_store.py:34-133 | for one client alone every reply of every run equals that of a plain remote map |
| StoreRuns.PerformAll | kh_common/caching/key_value_store.py:34-133 | the store object, performing any operations one after the other, replies as a plain map |
| StoreRuns.Perform | kh_common/caching/key_value_store.py:34-133 | each operation of the object replies and changes both levels as in those runs, whatever order it asks for missing keys in |
| StoreRuns.OpCoherent | kh_common/caching/key_value_store.py:34-133 | every operation keeps each local entry equal to the remote record |
| StoreLink.GetIsRun | kh_common/caching/key_value_store.py:54-66 | from any state between operations, a get is a run of the steps that ends with exactly the local level that the object has |
| StoreLink.GetAnswers | kh_common/caching/key_value_store.py:47-66 | it answers what that run finds locally, or what the remote store has |
| StoreLink.GetManyIsRun | kh_common/caching/key_value_store.py:76-114 | the same for many keys, in whatever order the missing ones are asked for |
| StoreLink.PutIsRun | kh_common/caching/key_value_store.py:34-45 | the same for a put |
| StoreLink.RemoveIsRun | kh_common/caching/key_value_store.py:124-133 | the same for a removal |
| StoreSteps.HitWasHeld | kh_common/caching/key_value_store.py:34-114 | with other clients writing at any time, a value found locally was the remote value at an instant before it was stored |
| StoreStaleness.ExpiryBoundedIff | kh_common/caching/key_value_store.py:34-114 | after any run no read finds a value longer than TTL after its storing if and only if behind an entry still good nothing expires earlier |
| StoreStaleness.AgeBoundedIff | kh_common/caching/key_value_store.py:34-114 | the same for TTL and any slack since the remote access that gave the value; without slack this is the bound by TTL alone |
| StoreStaleness.HeldBoundedIff | kh_common/caching/key_value_store.py:34-114 | for the value itself: all that later reads find was in the remote store TTL and slack ago or later if and only if, when an entry still good expires, that is so of its own value and of every value behind it |
| StoreStaleness.RunTimelyIff | kh_common/caching/key_value_store.py:34-114 | whole runs, for any deadline: no read that could follow any state of the run finds a value after its deadline if and only if everything stored expires in time for itself and, where a put renews a held key, for everything behind it |
| StoreStaleness.InTimeSinceStored | kh_common/caching/key_value_store.py:45 | for the bound by TTL since the storing this says: nothing behind a renewed key was stored earlier |
| StoreStaleness.InTimeSinceHeld | kh_common/caching/key_value_store.py:58-59 | for the bound by TTL and slack since the remote access it says: everything is stored within slack, and nothing behind a renewed key was held longer ago |
| StoreSteps.NextInv | kh_common/caching/key_value_store.py:34-114 | every step keeps distinct keys, each local value a past remote value with its expiry, and what is fetched new to the local cache |
| StoreStaleness.NextTimelyIff | kh_common/caching/key_value_store.py:34-114 | a step keeps all deadlines if and only if what it stores is in time |
| StoreStaleness.OverwriteReturnsStale | kh_common/caching/key_value_store.py:45 | a run with a put for a held key after which a read returns a value that left the remote store longer than TTL ago |
| StoreStaleness.SlowAnswersAgeMore | kh_common/caching/key_value_store.py:58-59 | a run with a slow remote read after which a read returns a value that left the remote store longer than TTL ago |
| Welford.WelfordStep | kh_common/caching/__init__.py:334-337 | one online update keeps the mean and the squared deviations exact |
| Welford.WelfordMeaning | kh_common/caching/__init__.py:332-337 | the running quantities are the mean and the nonnegative sum of squared deviations from it |
| Welford.AlwaysIsWelford | kh_common/caching/__init__.py:332-337 | they are exact for a name that is in every update, whatever other names do |
| Aggregators.StoredIs | kh_common/caching/__init__.py:306-337 | in any window, what the loops leave for a name follows from the updates that carry it and their places in the window |
| Aggregators.StandardDeviationAggregator.Update | kh_common/caching/__init__.py:332-337 | the loop leaves what the window alone determines: averages and squared deviations moved once for each name of each update, in order |
| Aggregators.StandardDeviationAggregator.Result | kh_common/caching/__init__.py:318-347 | mean and sample variance of every name that is in every update, and a fresh window; fails exactly after one update with a name |
| Aggregators.AverageAggregator.Update | kh_common/caching/__init__.py:306-309 | the same for the averages |
| Aggregators.AverageAggregator.Result | kh_common/caching/__init__.py:311-315 | the mean of every name that the first updates carry, and a fresh window |
| Aggregators.AverageDeliveredIff | kh_common/caching/__init__.py:306-315 | the average of a name is the mean of its own values, in all windows whose updates carry it alike, if and only if the updates that carry it are the first ones |
| Aggregators.VarianceDeliveredIff | kh_common/caching/__init__.py:332-347 | the variance of a name is its sample variance, in all windows whose updates carry it alike, if and only if every update carries it |
| Aggregators.AverageAggregate.Call | kh_common/caching/__init__.py:387-400 | a window ends exactly when it has expired and delivers the averages of its own calls; every call belongs to one window, in order |
| Aggregators.DeviationAggregate.Call | kh_common/caching/__init__.py:387-400 | the same for deviations; a window of one call fails, and the call stays in the window that follows |
| Aggregators.SumAggregate.Update | kh_common/caching/__init__.py:291-293 | what is pending is the sum of the open window's calls, name by name |
| Aggregators.SumAggregate.Call | kh_common/caching/__init__.py:387-400 | a window ends exactly when it has expired and delivers the sums of its own calls; delivered and pending sums equal all inputs |
| Base64.DecodeEncode | kh_common/base64.py:5-10 | decoding undoes encoding for every byte string, and encodings hold no dot and no padding |
| Base64.EncodeIsPlain | kh_common/base64.py:5-6 | stripping removes the padding and nothing else |
| Base64Numbers.EncodedNumber | kh_common/base64.py:5-6 | an encoding is the number of its bytes written to base 64, filled up with zero bits, in as many digits as there are bits for |
| Base64Numbers.SymbolIs | kh_common/base64.py:5-6 | digit v is the character at place v of the URL-safe alphabet |
| Base64Numbers.ValueOfIs | kh_common/base64.py:9-10 | the decoder reads a character as its place in that alphabet, and takes `+` and `/` for the last two places as well |
| Base64Numbers.SignsAre | kh_common/base64.py:5-10 | the padding sign is `=` and the separator of tokens `.`, and neither stands for a digit |
| Base64.DecodesIff | kh_common/base64.py:9-10 | any text decodes if and only if no group is open at its end, or the open one holds a byte and the padding signs at the end with those put back complete it, or padding signs complete a group before and so end the text |
| Base64.AlphabetDecodesIff | kh_common/base64.py:9-10 | unpadded text over the alphabet decodes unless its length is one more than a multiple of four |
| Integers.IntRoundTrip | kh_common/utilities/__init__.py:56-61 | conversion never overflows, is undone, and uses the least number of bytes |
| Integers.IntFromBytesAppend | kh_common/utilities/__init__.py:56-61 | bytes are read big-endian: what stands first counts for as many bytes as follow |
| Integers.BytesRoundTripIff | kh_common/utilities/__init__.py:56-61 | a byte string comes back from its integer if and only if it has no leading zero byte |
| Token.ParsePrinted | kh_common/auth/__init__.py:78-94 | printing then parsing gives every field and the exact signed content, or the error for the first field without meaning |
| Token.RoundTripIff | kh_common/auth/__init__.py:78-94 | the fields come back if and only if the algorithm name is dot-free UTF-8, the expiry a date, and the guid of 16 bytes |
| Token.LoadSplits | kh_common/auth/__init__.py:88 | five dot-free fields split off and the dots of the data stay in the data |
| Token.AcceptedIff | kh_common/auth/__init__.py:73-133 | a printed token passes verification, as what was printed, exactly when format, version, key id, expiry, signature, record and data all agree; the cache around it is not part of this row |
| Token.RejectedIff | kh_common/auth/__init__.py:73-148 | for any text, each error exactly when it is answered: another version, fields that do not parse, an expiry outside the calendar, a missing record, and key, expiry, signature or record that are not in order |
| Token.PrintedFault | kh_common/auth/__init__.py:73-148 | a printed token with a dot-free name is answered with its first fault, in the order of the checks |
| Token.AcceptedAsPrinted | kh_common/auth/__init__.py:73-133 | a printed token with a dot-free algorithm name never passes verification as anything else than what was printed |
| Token.AcceptedTokensAreSigned | kh_common/auth/__init__.py:73-133 | any text that passes verification is content, dot and signature, verified over exactly that content, unexpired, with an agreeing active record; the cache around it is not part of this row |
| TokenCache.ReturnedWasAuthentic | kh_common/auth/__init__.py:141-148 | with the cache: what a call returns was authentic when it was verified, for exactly the text presented, in any run |
| TokenCache.ReturnedIsRecent | kh_common/auth/__init__.py:141-148 | if behind an entry still good nothing expires earlier, it was stored no more than 30 seconds ago, and only the time its verification took adds to its age |
| TokenCache.RecentIff | kh_common/auth/__init__.py:141-148 | no later call returns a token verified longer than 30 seconds and slack ago if and only if no entry still good expires later than that, for itself and those behind it |
| TokenCache.NeverExpiredIff | kh_common/auth/__init__.py:141-148 | no later call returns a cached token that has expired if and only if no entry still good outlives its token or one behind it |
| TokenCache.RunNeverExpiredIff | kh_common/auth/__init__.py:141-148 | that is so for the calls that could follow any state of a run if and only if every token is stored at least 30 seconds before it expires, and before those behind a renewed one do |
| TokenCache.ExpiredButAccepted | kh_common/auth/__init__.py:141-148 | a token verified at t is returned exactly until t + 30, also when it has expired or its record has changed in between |
| Token.ContentInjective | tests/utilities/auth.py:45-56 | different fields, with a dot-free algorithm name, never have the same signed content |

The base64 alphabet and padding rules follow sections 3.2, 4 and 5 of RFC 4648.

## Left out

- TelegramListener: the coroutines are cut at their suspension points, into the events of the state machine and the methods of the object; sleeping, logging and command dispatch are not modelled.
- SqlQuery.Query.Where: conditions and subqueries are values, so a change made to a subquery object after a condition has taken it is not seen; the two assertions on table names are not modelled.
- SqlReadBack.BuiltReadsBack: names with spaces, parentheses, commas, semicolons or percent signs, and columns with dots, are rendered but cannot be told from the text around them; a table may have an alias.
- SqlDriver.Substitute: the driver's flags and widths between `%` and `s` count as errors; like any other placeholder they would take a value too many.
- StoreSteps: the runs there have one client; its operations do not overlap each other.
- CallKeys.KeysIdentifyBindings: values are integers, strings, lists and dictionaries with string keys. Bytes, which convert like a list of integers, sets, which convert in whatever order they have, and equal numbers of different types are not modelled, nor are positional-only and keyword-only parameters.
- Aggregators: exact reals instead of floating point, and no square root.
- Aggregators.SumAggregate.Call: the wrapped function is not modelled; if it raises, what its window delivered is lost. The same holds for the other two.
- Integers.IntRoundTrip: the division by eight is exact, where the code rounds a float up.
- Token.AcceptedIff: which byte strings are UTF-8 or JSON and which integers are dates is a parameter, and so is what key fetching gives.
- TokenCache.ReturnedWasAuthentic: verification reads the clock at one instant and the record at a later one; the key fetch and its own cache belong to the later one.
- TokenCache.Returns: the token is passed by position, as all calls in the repository do; the cache ignores keywords, so calls that name it would share one key.
- Base64.DecodeEncode: a `str` is a sequence of codes below 256 in which every code from 128 up stands for a character outside ASCII.
- Thread pools and locks of the asynchronous caches, `SimpleCache`, `CalcDict`, `AerospikeCache`, `KeyValueStore.truncate` and `exists`: thin wrappers with easy claims.
- HTTP, mail, message queue, database, Backblaze, logging, server, middleware and the data models: foreign clients and plain data.
