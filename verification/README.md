# mydis: the lock protocol and the data types on top of it, in Dafny

Mydis serves integers, lists, hashes and plain byte strings out of etcd, which offers only one thing: an
atomic "compare one key, then run these operations" transaction on a map of byte strings. Everything richer is
built from it. A key is locked by a second entry, `key + "*_MYDIS_LOCK"` holding `[0]`; a plain write tests that
entry in the transaction that writes; an update of a typed value locks, reads, computes and commits with one
transaction that unlocks and stores. Nothing but this discipline makes such updates atomic.

The project proves that it does, for every interleaving of any number of calls, and proves the sequential parts
underneath: prefix ranges, the byte encoding of stored values, in-place list editing, hash listings, typed
values, and the bookkeeping of watches.

`dafny verify dfyconfig.toml` checks everything.

## How it is put together

| file | contents |
|---|---|
| `Bytes.dfy`, `Sorting.dfy` | byte strings and their order, 64-bit integers, sorted enumerations |
| `Keys.dfy` | `getPrefix`, key ranges, lock names |
| `Wire.dfy`, `Messages.dfy` | varints, ZigZag, length-delimited records; `IntValue`, `List` and `Hash` byte by byte |
| `Values.dfy` | `NewValue`, its readers and the conversion loops |
| `ListEdit.dfy` | shifting, cutting and searching a list in place |
| `HashEnumeration.dfy` | `HashFields`, `HashValues` |
| `Etcd.dfy` | the store and the four transactions mydis issues |
| `Operations.dfy` | what each update decides once it has read the current value |
| `Protocol.dfy` | calls in flight as a step system; the atomic server it should look like |
| `Safety.dfy`, `Theorems.dfy` | the inductive invariant; mutual exclusion, non-interference, linearizability, release |
| `Histories.dfy` | counters, queues, set-once keys, bounded lists and hashes over every run |
| `Answers.dfy` | for every state of a key: what each operation answers and leaves stored, in terms of what is read back |
| `Tallies.dfy` | the same over histories: every answered call is counted, the first SetNX and the last field update win |
| `Server.dfy` | the handlers, written as they run, inside an arbitrary concurrent environment |
| `Reads.dfy`, `Sentinel.dfy` | multi-key reads; why the dummy comparison on `"\0"` never holds |
| `Watching.dfy` | the request loop and the event loop of a watcher |

**Runs.** `Protocol.State` is the store, the stage of every call, and a log of the moments at which calls took
effect. A run is any sequence of labels (a call arrives; a call runs its next transaction), so a theorem about
`Exec(Start(d), labels)` is a theorem about every interleaving. `Atomic` says what a one-step version of a call
does; `Legal` and `Replay` chain such steps. `Theorems.Linearizable` ties the two together.

**Answers.** `Operations.Decide` is the code's own case analysis. `Answers` says independently of it what comes
out: which replies go with a write, and which integer, items or fields are read back afterwards.
`Answers.AnsweredAtomically` makes each of these statements one about every answer in every run.

**Handlers.** A method of `Server.Server` issues its own transactions; before each, `Others` runs an arbitrary
piece of script of other calls. `Valid` says that the state reached is one of the protocol's runs, and
`Finished(call, r)` that the protocol has this very call answering `r`, so every theorem about runs applies to
the handlers.

**What is assumed of the store.** A comparison on an absent key fails; an empty range end asks for one key, `[0]`
for everything from the key on, anything else for the keys in between; a transaction is one indivisible step.

**What is assumed of clients.** Their keys do not end in the lock suffix, and only the holder of a lock gives it
back. `Theorems.ForeignUnlockBreaksExclusion` shows that the second cannot be dropped.

**Panics.** Where Go would panic in a handler (an index just outside a list, a write to the nil map that an empty
hash decodes to, a negative list limit), the call answers `Panicked` and its lock stays.

## Where the code and its documentation part ways

The model follows the code.

- `SetListItem` and `ListDelete` are documented to report an index out of range. They do so only from two past
  the end on; at the length and one past it (for `SetListItem` also one before the front) they panic.
  `Operations.SetItemExactly` and `Operations.DeleteAtExactly` give the exact condition.
- `GetListItem` never reports an index out of range: `Operations.GetItemExactly`.
- A hash whose last field was deleted cannot be given a field again: `Operations.SetFieldExactly`,
  `Operations.LastFieldThenSetFieldPanics`.
- `SetNX` on an existing key and `ListDeleteItem` of an absent value return with the key still locked, after which
  no run changes its value: `Operations.LeaksExactly`, `Theorems.LeakFreezesKey`.
- `ErrTypeMismatch` is not what an integer read as a list or hash gives: a decoding error is, or an empty list or
  hash if the integer is zero: `Answers.IntegerReadAsOther`, `Answers.ListReadAsInteger`.
- `GetKeyPrefix` of a key without `*` covers every key from it on: `Keys.KeyPrefixCovers`.
- Cancelling a watch that was never opened opens it: `Watching.RequestOpensAndCloses`.

## Model

| member | source | states |
|---|---|---|
| Keys.GetPrefix | mydis/util.go:84-96 | the in-place increment loop returns an end such that a key lies in the range exactly if it has the prefix |
| Keys.PrefixRangeExact | mydis/util.go:84-96 | for all keys and prefixes, empty and all-0xff ones included: in the range if and only if the prefix matches |
| Keys.SentinelExactlyWhenUnbounded | mydis/util.go:95 | the computed end is `[0]` exactly for prefixes of 0xff bytes only (the empty one too), so a real end is never read as "no end" |
| Keys.KeyPrefixCovers | mydis/util.go:99-107 | with a trailing `*` the range is exactly the prefix before it; without, every key from the given one on |
| Keys.LockNameInjective | mydis/util.go:59-61 | two keys share a lock name only if equal; a lock name is never an invalid key |
| Keys.LockNameOnto | mydis/util.go:59-61 | lock names are exactly the keys with the suffix |
| Keys.LockChainsNeverMeet | mydis/util.go:59-61 | a data key, its lock, its lock's lock and so on are all distinct, and chains of different data keys never meet |
| Wire.VarintRoundTrip | pb/mydis.proto:460-463 | every 64-bit number is read back whole whatever bytes follow |
| Wire.ZigZagRoundTrip | pb/mydis.proto:462 | ZigZag is a bijection between int64 and uint64 |
| Wire.DelimitedFieldRoundTrip | pb/mydis.proto:477-481 | a length-delimited record is read back with its number and body, and the rest is left |
| Wire.VarintShape | pb/mydis.proto:460-463 | byte i of a varint is the i-th group of seven bits, lowest first, the high bit set exactly while more is to come |
| Wire.ZigZagShape | pb/mydis.proto:462 | even numbers stand for non-negative integers, odd for negative ones, half of it is the magnitude counted from 0 and -1 |
| Messages.IntLayout | pb/mydis.proto:460-463 | the bytes of an IntValue: tag 0x0A and the key, tag 0x10 and the ZigZag varint, zero values left out |
| Messages.ListLayout | pb/mydis.proto:477-481 | the bytes of a List: tag 0x0A and the key, tag 0x12 and each item, tag 0x18 and the limit in two's complement |
| Messages.HashLayoutIs | pb/mydis.proto:502-505 | the bytes of a Hash: tag 0x0A and the key, tag 0x12 around each entry of field 1 and field 2 |
| Messages.IntRoundTrip | mydis/type_int.go:43-49 | every IntValue, key included, survives Marshal then Unmarshal |
| Messages.ListRoundTrip | mydis/type_list.go:67-77 | every List keeps its items, their order and its limit, negative limits included |
| Messages.BlankedListRoundTrip | mydis/type_lock.go:151-159 | blanking Key before storing loses the key and nothing else |
| Messages.HashRoundTrip | mydis/type_lock.go:162-170 | whatever order the entries were written in, and whether or not empty values were, the same hash comes back |
| Messages.MarshalFields | mydis/type_hash.go:129-138 | walking the map in any order yields some encoding of the hash |
| Values.NewValue | util/value.go:32-107 | each branch of the type switch yields the representation the round trips below are about |
| Values.ScalarsRoundTrip | util/value.go:128-144 | bytes, strings, bools, every int64 and every duration come back through their readers |
| Values.RewrappingKeeps | util/value.go:36-37 | a value given to NewValue again stands for whatever it stood for |
| Values.ErrorsCarry | util/value.go:104-106 | an error, and the one for an unknown type, comes back from every reader |
| Values.ListsRoundTrip | util/value.go:198-204 | lists of bytes, strings or values come back item by item |
| Values.TypedListRoundTrip | util/value.go:75-83 | in a list of typed values each item read by its own reader is what went in |
| Values.MapsRoundTrip | util/value.go:207-213 | typed maps come back field by field for any emission order |
| Values.TypedMapRoundTrip | util/value.go:84-101 | maps of strings, bytes, bools and int64s come back with the same keys and the same values through the element readers |
| Values.ListValueToBytes | util/value.go:255-265 | the loop yields the bytes of each value in place |
| Values.MapIntToMapBytes | util/util.go:52-61 | the loop, in any order, maps every key to the encoding of its integer |
| Values.MapBytesToValues | util/value.go:268-277 | the loop, in any order, wraps every entry |
| Values.ListToValues | util/value.go:216-226 | the loop wraps every item in place |
| ListEdit.CopyWithin | mydis/type_list.go:167 | Go's overlapping copy, done in place in either direction, moves what a copy through a temporary would |
| ListEdit.ListBuffer.Insert | mydis/type_list.go:163-169 | grow, shift, write is the splice `s[..i] + [v] + s[i..]` with the index clamped |
| ListEdit.ListBuffer.Remove | mydis/type_list.go:343-345 | shift down, blank, shorten is `s[..i] + s[i + 1..]` |
| ListEdit.ListBuffer.TakeEnd | mydis/type_list.go:238-239 | a pop hands out the end it was asked for and keeps exactly the rest |
| ListEdit.ListBuffer.EnforceLimit | mydis/util.go:124-135 | keeps the newest `limit` items; panics exactly for negative limits |
| ListEdit.ListBuffer.Find | mydis/type_list.go:309-314 | the search loop returns the first occurrence or -1 |
| ListEdit.FirstOccurrenceRemoved | mydis/type_list.go:367-382 | deleting at the found index removes the first occurrence and lowers that value's multiplicity by one |
| ListEdit.SpliceThenWithout | mydis/type_list.go:158-172 | deleting where one has just inserted restores the list |
| ListEdit.AppendAllIsTheNewest | mydis/type_list.go:176-194 | any number of limited appends leave the newest `limit` of old and new items |
| ListEdit.AppendsToEmpty | mydis/util.go:124-135 | n appends to an empty list with limit L leave the last min(n, L) |
| HashEnumeration.HashFields | mydis/type_hash.go:93-105 | for every iteration order the same strictly increasing list, as long as the hash has fields |
| HashEnumeration.HashValues | mydis/type_hash.go:108-126 | the values line up index by index with that list |
| HashEnumeration.ZipRebuilds | mydis/type_hash.go:84-126 | zipping the two listings gives back exactly the hash |
| Sorting.EnumerationUnique | mydis/type_hash.go:103 | a set has one increasing enumeration, of its own size |
| Sorting.SortOrders | mydis/type_hash.go:103 | sorting distinct strings makes them strictly increasing |
| Etcd.TxnEffects | mydis/type_lock.go:67-88 | what the four transactions do to the map, in each branch of their comparison |
| Operations.SetItemExactly | mydis/type_list.go:96-109 | for every index: commits exactly inside the list, reports out of range exactly two or more past an end, panics exactly in between |
| Operations.DeleteAtExactly | mydis/type_list.go:334-345 | the same for ListDelete, whose negative indices are always reported |
| Operations.OutOfRangeNotReported | mydis/type_list.go:79-82 | a one-item list and index 1: the documented error does not come |
| Operations.GetItemExactly | mydis/type_list.go:49-63 | for every index: the item, the item at the nearer end, or a panic next to the ends; the smallest int64 wraps to the last item |
| Operations.SetFieldExactly | mydis/type_hash.go:147-154 | SetHashField commits on every readable key except one holding an empty hash, where it panics |
| Operations.LastFieldThenSetFieldPanics | mydis/type_hash.go:183-197 | deleting the last field always leaves such a key |
| Operations.PopTakesAnEnd | mydis/type_list.go:238-244 | a pop stores the rest and returns the end item |
| Operations.LeaksExactly | mydis/type_list.go:375-377 | a locked update returns without unlocking if and only if one of five listed causes holds |
| Operations.CommitsOnlyValidKeys | mydis/type_lock.go:113-116 | no update commits to the empty key or `"\0"` |
| Operations.DecisionsNeverSayLocked | mydis/type_lock.go:93-102 | ErrKeyLocked comes from waiting for a lock and from nothing else |
| Protocol.ExecAppend | mydis/type_lock.go:65-103 | runs compose |
| Safety.MoveKinds | mydis/type_lock.go:62-148 | every transaction of a call is one of five kinds of move on its own key and lock |
| Safety.UnlockTurn | mydis/type_lock.go:107-109 | with no lock of a lock in the store, Unlock goes through at once |
| Safety.StepKeepsInv | mydis/type_lock.go:62-148 | every step of every call keeps the whole invariant |
| Safety.RunKeepsInv | mydis/type_lock.go:62-148 | the invariant holds in every state of every run |
| Theorems.MutualExclusion | mydis/type_lock.go:62-104 | at most one call per key is between its lock and its release, and then the entry is there holding `[0]` |
| Theorems.LockEntryExactly | mydis/type_lock.go:66-88 | the lock entry of a data key is stored exactly while some call holds it |
| Theorems.NamespacesApart | mydis/util.go:59-61 | every reachable store splits into data keys and locks of data keys |
| Theorems.UnlockAtFirstTry | mydis/type_keys.go:92-130 | in every run Unlock succeeds at its first attempt and removes exactly the lock entry |
| Theorems.KeyLockedOnlyWhenHeld | mydis/type_bytes.go:160-163 | ErrKeyLocked is settled only while another call holds the key, with nothing written |
| Theorems.ForeignUnlockBreaksExclusion | mydis/type_lock.go:107-109 | in any reachable state, an Unlock by somebody else lets a waiting call in beside the holder |
| Theorems.OthersLeaveHeldKey | mydis/type_bytes.go:132-154 | no step of another call changes a held key or the hold on it |
| Theorems.NoInterference | mydis/type_keys.go:97-122 | from after its lock to before its release, a holder's key has the same value in every interleaving |
| Theorems.StepIsAtomicOrSilent | mydis/type_lock.go:112-148 | every step of the system is invisible in the data or is one step of the atomic server |
| Theorems.Linearizable | mydis/type_lock.go:112-148 | in every run the log is a legal atomic history that explains the data and every reply, each call once |
| Theorems.RealTimeOrder | mydis/type_lock.go:62-148 | a call that answered before another began precedes it in that history |
| Theorems.ReleaseOnExit | mydis/type_list.go:80-113 | a call that returns after holding a lock leaves it free and no other key changed |
| Theorems.OnlyOwnKey | mydis/type_lock.go:118-146 | no step of a call touches any key but its own and that key's lock |
| Theorems.LeakOnlyForCause | mydis/type_bytes.go:174-178 | in every run a lock is left behind only for one of the listed causes |
| Theorems.LeakFreezesKey | mydis/type_bytes.go:174-178 | after a leak no run changes the key's value |
| Histories.CounterConserved | mydis/type_int.go:52-83 | the stored integer is the initial one plus all committed deltas modulo 2^64 |
| Histories.IncrementReturnsRunningSum | mydis/type_int.go:64-76 | each increment returns the running sum at its own commit |
| Histories.DecrementSubtracts | mydis/type_int.go:80-83 | negating in 64 bits and adding is subtracting, for the smallest integer too |
| Histories.CounterInEveryRun | mydis/type_int.go:52-83 | both, in every run of the protocol |
| Histories.QueueConserved | mydis/type_list.go:176-245 | initial contents and appends in commit order are the removals in order followed by the current contents |
| Histories.PoppersDistinct | mydis/type_list.go:197-245 | no two removals were handed to the same call |
| Histories.PoppedByTheirCall | mydis/type_list.go:238-244 | every item counted as popped is the reply of the call that popped it |
| Histories.QueueInEveryRun | mydis/type_list.go:176-245 | first in, first out, each item to at most one call, in every run |
| Histories.SetIfAbsentNeverOverwrites | mydis/type_bytes.go:169-184 | SetNX says true exactly if it found nothing and stored its value; on an existing key it changes nothing |
| Histories.SetOnce | mydis/type_bytes.go:169-184 | between two successful SetNX on a key there is a delete of it, whatever else happened |
| Histories.SetOnceInEveryRun | mydis/type_bytes.go:169-184 | without deletes at most one of any number of concurrent SetNX calls returns true |
| Histories.BoundedAfterTrim | mydis/util.go:124-135 | after a committed insert or append the list stays within its limit until a new limit or an overwrite |
| Histories.BoundedInEveryRun | mydis/type_list.go:145-194 | the same in every run |
| Histories.HashFollowsItsUpdates | mydis/type_hash.go:141-197 | the stored hash is what the committed field updates make of the initial one, in commit order |
| Histories.HashInEveryRun | mydis/type_hash.go:141-197 | the same in every run |
| Answers.AnsweredAtomically | mydis/type_lock.go:112-148 | every answer in every run is that of one atomic event, with the data before it those left by the events before |
| Answers.IncrementAnswers | mydis/type_int.go:59-76 | on every readable counter, absent ones included, an increment stores the wrapped sum under a blank key and answers it |
| Answers.IncrementRefuses | mydis/type_int.go:60-62 | an unreadable counter is reported and kept |
| Answers.SetIfAbsentAnswers | mydis/type_bytes.go:174-183 | on an absent key SetNX stores its value and answers true, whatever the value; on a present one it answers false and changes nothing |
| Answers.AppendAnswers | mydis/type_list.go:182-193 | on every readable list with a limit of zero or more an append answers nil; the new item is last, the oldest give way, the limit stays |
| Answers.InsertAnswers | mydis/type_list.go:151-172 | the same by position: every item's place is given, negative indices mean the front, those past the end the end |
| Answers.NegativeLimitPanics | mydis/util.go:124-135 | with a negative limit both panic and store nothing |
| Answers.SetItemAnswers | mydis/type_list.go:105-112 | inside the list the item at the position meant is replaced and no other; length and limit stay |
| Answers.DeleteAtAnswers | mydis/type_list.go:343-348 | inside the list the stored items are those before and those after the index |
| Answers.DeleteItemAnswers | mydis/type_list.go:367-385 | answers the first occurrence, stores the list without it, one copy fewer; an absent value gives -1 and changes nothing |
| Answers.SetLimitAnswers | mydis/type_list.go:136-141 | the limit read back is the one asked for, zero if negative; all items stay |
| Answers.PopAnswers | mydis/type_list.go:232-244 | the end item is answered and the rest left, with the same limit; an empty list is reported |
| Answers.MissingListAnswers | mydis/type_list.go:205-207 | the answer of each list operation on an absent key |
| Answers.EmptyListAnswers | mydis/type_list.go:92-95 | setting or deleting by position in an empty list reports it empty |
| Answers.UnreadableListAnswers | mydis/type_list.go:35-39 | bytes that are no list are reported by every list operation, with the decoder's reason, and kept |
| Answers.HashUpdateAnswers | mydis/type_hash.go:147-156 | every update outside the nil-map case answers nil; field by field the given ones have their values, the deleted one is gone, the others are as they were |
| Answers.HashUpdateRefuses | mydis/type_hash.go:188-192 | the remaining ones: no key to delete from, or the nil-map panic; nothing changes |
| Answers.UnreadableHashAnswers | mydis/type_hash.go:34-38 | bytes that are no hash are reported and kept |
| Answers.IntegerReadAsOther | mydis/type_int.go:34-38 | a nonzero integer read as a list or hash is a wrong wire type, not ErrTypeMismatch; zero passes for an empty one |
| Answers.ListReadAsInteger | mydis/type_list.go:35-39 | a list with items read as an integer is a wrong wire type; one without counts as zero |
| Answers.PlainAnswers | mydis/type_bytes.go:28-56 | Get answers the stored bytes, Set stores the given ones, Delete leaves none; no operation changes another key |
| Tallies.CommittedIsAnswered | mydis/type_int.go:73-76 | the committed increments are exactly those answered with a number |
| Tallies.EveryIncrementCounts | mydis/type_int.go:52-77 | on a counter only incremented, every increment that got the lock was stored and answers the running sum of all answered ones |
| Tallies.IncrementsInEveryRun | mydis/type_int.go:52-83 | in every run the counter holds its initial value plus every increment answered with a number |
| Tallies.AppendedIsAccepted | mydis/type_list.go:176-194 | the committed appends are exactly those answered nil |
| Tallies.AppendsKeepNewest | mydis/type_list.go:176-194 | after any appends the list holds the last min(n, limit) of old and accepted items |
| Tallies.AppendsThenLimit | README.md:165 | appends to an absent key, a limit L, then appends: the last min(n, L) of all items; the limit alone removes none |
| Tallies.AppendsInEveryRun | mydis/type_list.go:176-194 | the same in every run |
| Tallies.FirstSetNewWins | mydis/type_bytes.go:169-184 | of the SetNX calls on an absent key the first to get the lock is told true and its value stays; all later ones are told false |
| Tallies.FirstSetNewWinsInEveryRun | mydis/type_bytes.go:169-184 | the same in every run |
| Tallies.LastFieldUpdateWins | mydis/type_hash.go:141-197 | a field is what the last update of it that answered nil made it, deleted ones absent, whatever happened to other fields |
| Tallies.LastFieldUpdateWinsInEveryRun | mydis/type_hash.go:141-197 | the same in every run |
| Tallies.GetSeesTheLastWrite | mydis/type_bytes.go:28-56 | a Get answers what was last stored under its key by any operation, or that there is none after a Delete |
| Server.FreshId | mydis/type_lock.go:65 | a call gets an id no call in flight has |
| Server.Server.Others | mydis/type_lock.go:98 | other calls may do anything the protocol allows and cannot move the call at hand |
| Server.Server.LockWithTimeout | mydis/type_lock.go:62-104 | acquires exactly with one write into a store where the lock was free; times out having written nothing, and not before the deadline |
| Server.Server.Lock | mydis/type_lock.go:53-56 | the same with the waiting time of the request, and no earlier |
| Server.Server.Unlock | mydis/type_lock.go:107-109 | ends the call with its lock given back |
| Server.Server.UnlockThenSet | mydis/type_lock.go:112-148 | stores and unlocks in one transaction, or refuses an invalid key and leaves the lock |
| Server.Server.UnlockThenSetList | mydis/type_lock.go:151-159 | commits the edited list with a blank key |
| Server.Server.UnlockThenSetHash | mydis/type_lock.go:162-170 | commits the edited hash with a blank key, in whatever order it is walked |
| Server.Server.Set | mydis/type_bytes.go:122-166 | answers nil exactly if its one write went into a store where the key was free; otherwise wrote nothing |
| Server.Server.DeleteLoop | mydis/type_keys.go:92-130 | the loop shared by Delete and Unlock |
| Server.Server.Delete | mydis/type_keys.go:92-130 | ends without holding a lock, with the reply the protocol settled |
| Server.Server.SetNX | mydis/type_bytes.go:169-184 | answers what the protocol's call answers, in every environment, and ErrKeyLocked only after the full waiting time |
| Server.Server.SetMany | mydis/type_bytes.go:187-198 | one Set per entry; the error map has exactly the entries whose Set failed, with the reason |
| Server.Server.Get | mydis/type_bytes.go:28-56 | a blocking Get with timeout T looks at most 1 + 100 T times, and gives up only after exactly that many |
| Server.Server.IncrementInt | mydis/type_int.go:52-77 | answers what the protocol's call answers, in every environment, and ErrKeyLocked only after the full waiting time |
| Server.Server.DecrementInt | mydis/type_int.go:80-83 | is the increment by the amount negated in 64 bits |
| Server.Server.SetListItem | mydis/type_list.go:80-113 | guards, in-place write and every error path end in the protocol's reply |
| Server.Server.ListLimit | mydis/type_list.go:125-142 | stores the limit, negative ones as zero, and leaves the items |
| Server.Server.ListInsert | mydis/type_list.go:145-173 | the in-place insert and trim commit what the protocol's insert commits |
| Server.Server.ListAppend | mydis/type_list.go:176-194 | the same for append |
| Server.Server.ListPop | mydis/type_list.go:197-298 | every attempt but the last found the list empty; with timeout T at most 100 T retries, and the list is called empty only after exactly that many |
| Server.Server.RetryPop | mydis/type_list.go:218-230 | the waiting loop of a blocking pop, whose attempts do not block themselves |
| Server.Server.ListHas | mydis/type_list.go:301-315 | the index found is the first occurrence in the list the read saw |
| Server.Server.GetListItem | mydis/type_list.go:44-64 | the clamping code returns what GetItemExactly describes |
| Server.Server.ListDelete | mydis/type_list.go:318-349 | guards, in-place delete and every error path end in the protocol's reply |
| Server.Server.ListDeleteItem | mydis/type_list.go:352-386 | search and in-place delete end in the protocol's reply |
| Server.Server.SetHashField | mydis/type_hash.go:141-157 | the map write commits what the protocol's update commits |
| Server.Server.SetHashFields | mydis/type_hash.go:160-180 | the merge loop, in any order, commits what the protocol's update commits |
| Server.MergeFields | mydis/type_hash.go:174-176 | the loop writes every given field over the old ones |
| Server.Server.DelHashField | mydis/type_hash.go:183-197 | the delete commits what the protocol's update commits |
| Reads.KeysWithPrefix | mydis/type_keys.go:40-50 | exactly the stored keys with the prefix, in order |
| Reads.GetWithPrefix | mydis/type_bytes.go:106-119 | exactly the stored pairs with the prefix; with a limit those of the smallest keys |
| Reads.GetMany | mydis/type_bytes.go:59-103 | the store restricted to the keys asked for, unless `"\0"` holds `[0]`, when nothing |
| Sentinel.WriteKeepsSentinelClear | mydis/type_keys.go:73-89 | no write of the server, with any arguments, puts `[0]` at `"\0"`; SetExpire's raw put and Clear included |
| Sentinel.SentinelStaysClear | mydis/type_bytes.go:122-126 | so it never holds it after any sequence of writes |
| Sentinel.UnlockThenSetDoesBoth | mydis/type_lock.go:118-146 | so in every reachable store UnlockThenSet does both its writes |
| Watching.BooksAlwaysMatched | mydis/watch.go:126-152 | after any requests the open watches and the remembered requests are in bijection, and each request got one reply |
| Watching.RequestOpensAndCloses | mydis/watch.go:133-152 | duplicates open nothing, cancelling a known watch closes exactly its own, anything else opens one |
| Watching.RequestIDsCollideExactly | mydis/watch.go:101-107 | two requests share an identity if they watch the same, or one spells out the prefix suffix; otherwise not |
| Watching.RequestIDsCanCollide | mydis/watch.go:101-107 | the second case happens |
| Watching.WantsItsRange | mydis/watch.go:169-171 | the event filter lets through exactly the range the watch was opened on |
| Watching.WatchesAsAsked | mydis/watch.go:144-151 | every open watch has the key and revision of a request received and covers exactly the keys it asked for |
| Watching.SentAsReported | mydis/watch.go:153-175 | everything sent is an event reported by the store, field by field, to a request that covers its key |
| Watching.DeliveredInOrder | mydis/watch.go:155 | events go out in the order they came in |
| Watching.OncePerRequest | mydis/watch.go:168-173 | an event goes out as often as remembered requests cover its key |
| Watching.Watcher.Handle | mydis/watch.go:130-152 | the request branch does to the watcher's fields what one request does to the book |
| Watching.Watcher.Deliver | mydis/watch.go:153-176 | each event is emitted once per interested entry, in event order |

## Left out

- Etcd itself, gRPC, the gateway, TLS, configuration, authentication, the client and the command line: libraries and I/O; a transaction is one indivisible step that does not fail in transport.
- SetExpire, Clear and lease expiry are outside the step system, since they write without looking at locks; only the sentinel results include them.
- Two sessions of a client on the same lock: a `Session` call stands for one Lock, one Get and then UnlockThenSet or Unlock by the same client; a client that unlocks somebody else's lock is shown to break exclusion and is otherwise excluded.
- One turn of a waiting loop (attempt, sleep, look at the clock) is one step: other calls run before an attempt, not between a failed attempt and the error it leads to.
- Blocking reads and pops are sequences of calls in the step system; their number and their replies are proved on the handlers.
- Progress: that a waiting call gets the lock eventually is not claimed, since nothing in the server orders waiters.
- IncrementFloat and the other floating-point operations: the same protocol as integers.
- Times: only the nanoseconds within the second are stored, so they do not round-trip. Durations and int64 do.
- Reads of an old revision (Key.Revision above zero), and deadlines that overflow a 64-bit duration.
- Protocol Buffers groups (wire types 3 and 4) are refused by the decoder of the model; mydis never writes them.
- Messages.HashRoundTrip: asks that each framed entry fit in a Go byte slice; `Messages.StoredHashFits` shows that every hash stored in fewer than 2^63 - 64 bytes does.
- Histories.HashInEveryRun: asks that stored values be shorter than 2^63 - 64 bytes, for the same reason.
- Answers.HashUpdateAnswers: the same; a longer value is no Go byte slice.
- Answers.SetItemAnswers: asks for fewer than 2^63 - 1 items, as Operations.SetItemExactly does; a Go slice cannot have more.
- Server.Server.Others: the store's watch stream is not part of what other calls do; watches are modelled on their own.
- WatchController, which only numbers watchers and forgets them when they end.
- HashLength, ListLength, Length, Has, Keys, GetInt, GetHashField, GetHashFields and HashHas: one read and a projection of it.
