# Taurus node: a verified model of its chain logic

This project models the parts of the node that decide things: how a contract interface
turns values into bytes, whether provided keys satisfy an authority, in which order the
actions of a transaction run, which fork is the chain and what becomes of an abandoned
one, when a block is irreversible, when a producer schedule takes over, who pays for
stored rows, and the word-level arithmetic behind names, Merkle roots, 128-bit
conversions and signature padding. Each part has a plain definition (a weighted sum, a
tree walk, a sum over rows, a string, a rational number) and a model of the code that
looks different from it (greedy evaluation with a cache, worklists, incremental counters,
shifts and masks). The theorems connect the two, and say what the plain definitions mean
in terms of bytes, blocks, traces, rows and numbers alone.

`dafny verify dfyconfig.toml` checks everything. Objects that the node updates in place
are classes with methods; code that only computes is functions and lemmas.

| modules | what they model |
|---|---|
| `Bits` | 64- and 128-bit words as numbers: shifts, masks, or, and |
| `Merkle` | the Merkle fold and the incremental tree |
| `Names`, `NameSuffix` | 64-bit names and their suffix |
| `AuthorityChecker`, `AuthorityExact`, `AuthorityResults`, `AuthorityLeast`, `AuthorityMarks`, `AuthorityObjects` | the authority checker, its specification, validation, block signing authorities |
| `ActionOrder`, `ActionReplay`, `Scheduler`, `ActionSequence` | actions, notifications and inline actions of a transaction |
| `TrxQueue`, `QueueOrder` | the queue of unapplied transactions |
| `ForkTree`, `ForkDb`, `ForkSwitch`, `ForkLines` | the fork database and switching forks |
| `Dpos`, `DposResults`, `DposHistory`, `DposExact`, `DposExamples`, `Promotion`, `Rotation` | irreversibility, producer schedules and rotation |
| `KvRam` | key-value rows and who is charged for them |
| `AbiCodec`, `AbiLayout`, `AbiWhole`, `AbiRoundTrip`, `AbiLost`, `AbiResults` | the interface codec |
| `FixInt`, `FloatWiden`, `FloatInt` | conversions between floating point and 128-bit integers |
| `Pkcs1` | the padding used by the test signer |
| `Journal` | the undo journal of visited permissions |

## What does not hold

Some expected properties are false of the code. Each has a concrete input and a condition
under which the property does hold:

- The checker's verdict differs from the plain weighted sum when a cached verdict is used
  where the plain definition would look again: at another depth
  (`DeeperThanTheLimit`), inside a cycle (`CycleRefused`). The keys it reports as used may
  be too few (`MarksTakenBack`). The verdict is exact when nesting ends within the limit
  (`ExactWhenBounded`), and both verdict and marks are right when no permission is met
  twice (`ExactWhenDistinct`). Acceptance is never wrong in the sense of `Sound`.
- The verdict is not monotone: a higher limit (`HigherLimitRefuses`) or one more key
  (`MoreKeysRefuse`) can turn an acceptance into a refusal. It is monotone under either of
  the two conditions (`VerdictMonotone`); neither is necessary (`HarmlessLoop`).
- Clearing the queue leaves its counters alone: they are right afterwards exactly when they
  were zero before (`Queue.Clear`, `ClearedButCounted`). An incoming transaction past the
  size limit is refused after it was inserted and counted (`Queue.Push`, `RefusedButKept`).
- Removing the head of the fork database keeps the tree exactly when nothing was built on
  the head (`RemoveHead`, `LooseEnds`, `HeadWithChild`).
- Adding a block can take the head of the fork database back to a lower irreversible block,
  exactly when the head is still the root and every validated block has a lower one than
  the root (`ForkDatabase.Add`, `AddLowersHead`).
- Fork switching is undefined exactly when the new head descends from the head by more than
  one block and its chain does not apply, because the code then takes the last element of
  an empty branch (`Switch`, `PushBlock`, `SwitchUndefined`).
- The last irreversible block can go back, but only in the block after a promotion
  (`LibNeverDrops`, `LibGoesBack`).
- A producer can confirm a block twice, and alone make a block proposed irreversible,
  exactly by claiming to confirm more blocks than there are: the test against it compares
  with a 32-bit difference that wraps (`RepeatIff`, `NeverRefused`, `ConfirmsAlone`).
- The size used for updating a row wraps at 2^32; an update keeps the books balanced exactly
  when its sizes are right, or wrong by as much on both sides (`UpdateBooks`,
  `WrapsToNothing`).
- Conversions to 128-bit integers wrap for magnitudes from 2^127 up to 2^128 instead of
  saturating (`FixWraps`, `FixExactIff`, `RoundsOutOfRange`).
- The padding of the signer is the standard one exactly for moduli with an even number of
  hexadecimal digits (`EncodeIsEmsa`, `OddIsShorter`).
- The interface codec loses accepted values, exactly those that are not whole
  (`RoundTripIff`): structs with nothing to show (`EmptyStructLost`), a required field that
  is missing after an extension (`ExtensionInTheMiddle`), values nested so deep that they
  are written within the scopes there are and cannot be read (`ChainComesBackIff`). This is
  of interfaces whose fields are named once and whose bases are structs, as far as they can
  be reached from the type; without that values are lost as well (`RepeatedNameIff`,
  `InheritedNameLost`, `ShadowedBaseLost`).

Where a comment and the code disagree the code is modelled: `clz_power_2` is said to count
leading zeros and returns the exponent (libraries/chain/include/eosio/chain/incremental_merkle.hpp:38);
`name_suffix` treats dots before the first other character like any dot
(unittests/misc_tests.cpp:108); the size comment in
libraries/chain/backing_store/kv_context.cpp:221 says the sum cannot overflow, but the
operands are 32 bits wide.

## Model

| member | source | states |
|---|---|---|
| Merkle.Fold | libraries/chain/merkle.cpp:35-50 | pairing levels in place until one digest is left gives the root of the full binary tree in which missing right children repeat the last leaf |
| Merkle.RootByLevels | libraries/chain/merkle.cpp:35-50 | the root level by level: neighbours hashed in pairs, the left one first, a last one without a neighbour with itself, until one digest is left |
| Merkle.NextPowerOf2 | libraries/chain/include/eosio/chain/incremental_merkle.hpp:17-27 | on every 64-bit word, smearing the bits of n - 1 and adding one gives the least power of two that is at least n, and 0 where that is no word |
| Merkle.ClzPower2 | libraries/chain/include/eosio/chain/incremental_merkle.hpp:38-50 | the mask tests give the exponent of any 64-bit power of two, and 64 for zero |
| Merkle.CalculateMaxDepth | libraries/chain/include/eosio/chain/incremental_merkle.hpp:59-65 | for every 64-bit count, one more than the depth of the smallest tree with room for all leaves, 0 for none; above 2^63 the wrap to zero gives the right depth |
| Merkle.DepthBounds | libraries/chain/include/eosio/chain/incremental_merkle.hpp:59-65 | two to the depth holds n leaves and two to one less does not |
| Merkle.DepthUnique | libraries/chain/include/eosio/chain/incremental_merkle.hpp:59-65 | the depth is the only such number |
| Merkle.IncrementalMerkle.constructor | libraries/chain/include/eosio/chain/incremental_merkle.hpp:97-99 | starts with no leaves |
| Merkle.IncrementalMerkle.Append | libraries/chain/include/eosio/chain/incremental_merkle.hpp:168-226 | with only the completed subtrees kept, the returned root is the root that a full fold over all leaves so far would give, and the kept nodes are again the completed subtrees; when the 64-bit count wraps the tree starts over |
| Merkle.Collapse | libraries/chain/include/eosio/chain/incremental_merkle.hpp:169-215 | the climb from the new leaf reads each kept subtree when it needs it and leaves exactly the completed subtrees and the root |
| Merkle.IncrementalMerkle.GetRoot | libraries/chain/include/eosio/chain/incremental_merkle.hpp:233-239 | the same root without appending |
| Names.CharmapSymbols | unittests/name_tests.cpp:11-131 | the printing table and the parsing table are inverse |
| Names.StringToUint64 | libraries/chain/include/eosio/chain/name.hpp:35-54 | accepts exactly strings of at most 13 characters out of dot, 1 to 5 and a to z, a thirteenth being no later than j, with the error for length apart, and gives their word |
| Names.WordLayout | libraries/chain/include/eosio/chain/name.hpp:20-54 | the word in figures: the first of the symbols 0 for a dot, 1 to 5, and 6 on for letters in the highest five bits, and so on, the thirteenth in the lowest four |
| Names.EncodeFullRange | libraries/chain/include/eosio/chain/name.hpp:49-53 | or-ing shifted symbols in never overlaps and refuses exactly the invalid characters |
| Names.ToString | libraries/chain/name.cpp:12-26 | peeling symbols off from the low end and trimming gives the text of the word |
| Names.IsStringValidName | libraries/chain/name.cpp:28-52 | says yes exactly to the strings that parse |
| Names.PackDigits | libraries/chain/name.cpp:12-26 | unpacking and packing symbols is the identity on all 64-bit words |
| Names.DigitsPack | libraries/chain/include/eosio/chain/name.hpp:35-54 | packing and unpacking is the identity on all lists of 13 symbols |
| Names.WordRoundTrip | unittests/name_tests.cpp:11-131 | printing then parsing is the identity on every 64-bit word |
| Names.TextRoundTrip | unittests/name_tests.cpp:11-131 | parsing then printing drops trailing dots and nothing else |
| Names.OrderAgrees | unittests/misc_tests.cpp:650-697 | on strings without trailing dots, word order is alphabetic order, both ways |
| NameSuffix.NameSuffix | unittests/misc_tests.cpp:89-118 | the bit loop returns the word of the text after the last dot |
| NameSuffix.FindLastActualDot | unittests/misc_tests.cpp:91-106 | the scan finds the last dot that a later symbol follows |
| NameSuffix.ShiftedWord | unittests/misc_tests.cpp:111-117 | the two shifted parts do not overlap or overflow, and together are the word of the remaining symbols |
| NameSuffix.SuffixText | unittests/misc_tests.cpp:89-118 | the suffix prints as the characters after the last dot, which are never none |
| NameSuffix.SuffixIdempotent | unittests/misc_tests.cpp:89-118 | taking the suffix twice changes nothing more |
| NameSuffix.SuffixZero | unittests/misc_tests.cpp:89-118 | only the empty name has an empty suffix |
| AuthorityChecker.VisitOrder | libraries/chain/include/eosio/chain/authority_checker.hpp:130-149 | every factor is visited once, heavier ones first |
| AuthorityLeast.VisitedInOrder | libraries/chain/include/eosio/chain/authority_checker.hpp:131-150 | the order of visits in full: by falling weight; among equal weights waits, keys, accounts; within these as the authority lists them |
| AuthorityChecker.SatHeaviestFirst | libraries/chain/include/eosio/chain/authority_checker.hpp:148-155 | the order of the factors does not matter to the weighted sum |
| AuthorityChecker.SatMonotone | unittests/misc_tests.cpp:382-566 | more keys or more depth never take satisfaction away |
| AuthorityChecker.CheckMarks | libraries/chain/include/eosio/chain/authority_checker.hpp:124-156 | only provided keys are marked, and a failed evaluation at any level leaves the marks as they were |
| AuthorityMarks.MarksListed | libraries/chain/include/eosio/chain/authority_checker.hpp:175-183 | every new mark is on a provided key that the authority lists, or one below it within the limit |
| AuthorityMarks.MarksOfKeys | libraries/chain/include/eosio/chain/authority_checker.hpp:124-157 | of an authority without accounts exactly those provided keys are marked that stand among the entries it takes to reach the threshold, heaviest first; on failure none |
| AuthorityChecker.CheckSound | libraries/chain/include/eosio/chain/authority_checker.hpp:124-219 | with any sound cache, what is accepted is satisfied by the provided keys at some depth, and the cache stays sound |
| AuthorityExact.TotalFits | libraries/chain/include/eosio/chain/authority_checker.hpp:164-184 | the 32-bit tally of an authority with at most 2^16 entries cannot wrap |
| AuthorityExact.CheckOnce | libraries/chain/include/eosio/chain/authority_checker.hpp:124-219 | when no permission is met twice the verdict is the weighted sum at the remaining depth, and the marked keys alone reach the threshold |
| AuthorityExact.DepthEnough | libraries/chain/include/eosio/chain/authority_checker.hpp:186-213 | beyond the height of its nesting an authority gains nothing from more depth |
| AuthorityExact.CheckExact | libraries/chain/include/eosio/chain/authority_checker.hpp:124-219 | when nesting is bounded, a cache filled at any depth gives the verdict of the weighted sum |
| AuthorityResults.Sound | libraries/chain/include/eosio/chain/authority_checker.hpp:79-87 | no authority is accepted that the provided keys do not satisfy; marked keys are provided keys |
| AuthorityResults.ExactWhenBounded | libraries/chain/include/eosio/chain/authority_checker.hpp:79-87 | if nesting ends within the limit, early stopping with cached verdicts decides exactly whether all holding factors reach the threshold |
| AuthorityResults.ExactWhenDistinct | unittests/misc_tests.cpp:472-498 | if no permission is met twice the verdict is exact even where the limit cuts nesting off, and the used keys alone are accepted again |
| AuthorityLeast.SatisfiedIffForced | libraries/chain/include/eosio/chain/authority_checker.hpp:124-215 | satisfaction without levels: an authority is satisfied at some depth exactly when its keys and accounts reach the threshold in every set of permissions that holds the granted ones and is closed under the authorities on chain |
| AuthorityLeast.LeastIsClosed | libraries/chain/include/eosio/chain/authority_checker.hpp:124-215 | the permissions that count at some depth are the least such set |
| AuthorityLeast.CheckForced | libraries/chain/include/eosio/chain/authority_checker.hpp:80-88 | whatever keys were marked before, nothing is accepted that is not forced so, and what is forced is accepted when nesting ends within the limit |
| AuthorityResults.VerdictMonotone | unittests/misc_tests.cpp:382-566 | more keys or a higher limit never turn an acceptance into a refusal if at the higher limit nesting ends within it or no permission is met twice |
| AuthorityResults.DeeperThanTheLimit | libraries/chain/include/eosio/chain/authority_checker.hpp:186-213 | an authority accepted through a cached verdict although one of its ways is deeper than the limit |
| AuthorityResults.CycleRefused | libraries/chain/include/eosio/chain/authority_checker.hpp:186-213 | an authority refused at every limit from 2 on because of a verdict cached inside a cycle, although its factors reach the threshold |
| AuthorityResults.MarksTakenBack | libraries/chain/include/eosio/chain/authority_checker.hpp:124-156 | an authority accepted with no key marked that no key at all does not satisfy |
| AuthorityResults.HigherLimitRefuses | libraries/chain/include/eosio/chain/authority_checker.hpp:186-213 | an authority accepted at limit 1 and refused at limit 2 |
| AuthorityResults.MoreKeysRefuse | libraries/chain/include/eosio/chain/authority_checker.hpp:186-213 | an authority accepted with one key and refused with a second one added |
| AuthorityResults.HarmlessLoop | libraries/chain/include/eosio/chain/authority_checker.hpp:186-213 | a cycle with a permission met twice and no end of nesting where the verdict is right all the same: the conditions are not necessary |
| AuthorityObjects.Checker.constructor | libraries/chain/include/eosio/chain/authority_checker.hpp:45-59 | no key is used yet |
| AuthorityObjects.Checker.Satisfied | libraries/chain/include/eosio/chain/authority_checker.hpp:79-87 | the verdict and marks of the recursive definition; never accepted without being forced by grants, keys and authorities, and accepted exactly then when nesting ends within the limit |
| AuthorityObjects.Checker.SatisfiedPermission | libraries/chain/include/eosio/chain/authority_checker.hpp:69-77 | the same for a single permission |
| AuthorityObjects.Checker.CheckAt | libraries/chain/include/eosio/chain/authority_checker.hpp:124-156 | one level of the evaluation, with the marks put back on failure |
| AuthorityObjects.Checker.VisitFactor | libraries/chain/include/eosio/chain/authority_checker.hpp:172-218 | one factor: tally, marks and cache after it |
| AuthorityObjects.Arrange | libraries/chain/include/eosio/chain/authority_checker.hpp:130-146 | filling the ordered map one by one gives all factors, heaviest first |
| AuthorityObjects.Validate | libraries/chain/include/eosio/chain/authority.hpp:273-318 | accepts exactly the authorities with strictly ascending entries whose weights reach a positive threshold, without wrap-around |
| AuthorityObjects.SatisfiableIff | libraries/chain/include/eosio/chain/authority_checker.hpp:172-174 | waits count in validation and never in the checker: a validated authority can be satisfied exactly when keys and accounts alone reach the threshold |
| AuthorityObjects.KeysSatisfyAndRelevant | libraries/chain/include/eosio/chain/producer_schedule.hpp:113-128 | accumulation that stops at the 32-bit maximum meets the threshold exactly when the true sum does; the count is that of the presented keys |
| AuthorityObjects.PlainSum | unittests/producer_schedule_tests.cpp:628-668 | a plain 32-bit sum is the true sum modulo 2^32 only |
| ActionOrder.WalkFrame | libraries/chain/transaction_context.cpp:576-587 | actions scheduled elsewhere do not change the order below an action |
| ActionOrder.RanSnoc | libraries/chain/apply_context.cpp:221-245 | running one more action after a list extends the walk by that action's own |
| ActionOrder.RanPart | libraries/chain/apply_context.cpp:221-245 | a failure in the middle of a list is a cut of the whole walk |
| ActionReplay.ReplaysMeans | libraries/chain/apply_context.cpp:86-208 | in a run explained by the code of the receivers all that ran succeeded, and the action that stopped it did not |
| ActionReplay.EveryTraceIsACall | libraries/chain/apply_context.cpp:414-432 | every action beyond the first ones was scheduled by a call of its creator, which ran |
| ActionReplay.EveryCallAnswered | libraries/chain/apply_context.cpp:286-412 | every call of an action that ran has its trace, or the account to be notified knew already |
| Scheduler.TransactionContext.constructor | libraries/chain/transaction_context.cpp:265-268 | nothing scheduled or executed yet |
| Scheduler.TransactionContext.MakeCall | libraries/chain/apply_context.cpp:286-293 | a notification is scheduled once per account and action, an inline action always, with creator and nearest unnotified ancestor recorded |
| Scheduler.TransactionContext.Schedule | libraries/chain/apply_context.cpp:414-432 | the new ordinal is one more than the number of traces, and is listed under its kind |
| Scheduler.TransactionContext.ExecOne | libraries/chain/apply_context.cpp:86-208 | exactly the calls of the receiver's code are scheduled, in order; the action counts as executed exactly when the account exists and its code does not fail |
| Scheduler.TransactionContext.MakeCalls | libraries/chain/apply_context.cpp:286-432 | all calls of one receiver add their traces in order |
| Scheduler.TransactionContext.NotifyAll | libraries/chain/apply_context.cpp:221-230 | the receiver and everyone notified meanwhile run in order of notification, each as its code says, up to the first that is missing or fails; the loop ends |
| Scheduler.TransactionContext.ExecuteAction | libraries/chain/apply_context.cpp:221-245 | what ran is the walk below the action: itself, its notifications, then context-free and inline actions depth first, or that walk up to where it stopped; all of it is explained by the code of the receivers and the limit on nesting |
| Scheduler.TransactionContext.RunSent | libraries/chain/apply_context.cpp:232-244 | context-free actions run, then inline ones, as the walks below them one after the other |
| Scheduler.TransactionContext.RunLists | libraries/chain/apply_context.cpp:237-243 | the context-free list, then the inline one, the second only when the first is done |
| Scheduler.TransactionContext.ExecuteList | libraries/chain/apply_context.cpp:237-243 | a list of actions runs as the walks below them one after the other, as the code of the receivers says |
| Scheduler.TransactionContext.ScheduleRoots | libraries/chain/transaction_context.cpp:269-277 | the actions of the transaction come first, in order, without creator |
| Scheduler.TransactionContext.ExecuteRoots | libraries/chain/transaction_context.cpp:279-283 | all of them are run, none of what they schedule is run twice, and every step is explained by the code of the receivers |
| Scheduler.TransactionContext.Exec | libraries/chain/transaction_context.cpp:265-284 | the executed actions follow the tree walk over all that was scheduled, every creator ordinal is smaller; each step is what the receiver's code does; without failure each scheduled action ran exactly once, otherwise a cut of that order |
| Scheduler.DoneIff | libraries/chain/transaction_context.cpp:265-284 | a transaction is done exactly when every receiver on the walk exists and does not fail and nothing is nested too deep |
| Scheduler.StopNamed | libraries/chain/apply_context.cpp:86-245 | a run that stops names the next action of the walk, whose receiver is missing or fails, or which is nested too deep; all before it succeeded |
| Scheduler.TracesAreCalls | libraries/chain/apply_context.cpp:414-432 | every action of a finished or stopped transaction besides its own was called for by code that ran |
| Scheduler.CallsHaveTraces | libraries/chain/apply_context.cpp:286-432 | every call made by code that ran was scheduled, unless the account knew already |
| ActionSequence.ExecutionOrder | libraries/chain/apply_context.cpp:221-245 | told from the fields of the traces: of two actions with one ancestor everything below the one is executed before everything below the other, notifications before sent actions, context-free before others, otherwise in order of scheduling |
| ActionSequence.TopDown | libraries/chain/apply_context.cpp:221-245 | no action is executed before the one it was sent or notified by way of |
| ActionSequence.ScheduledInOrder | libraries/chain/apply_context.cpp:286-432 | the traces beyond the first are cut into one piece for each action that ran, in order of execution, each made by the calls of its code one after the other |
| ActionSequence.EndsWhere | libraries/chain/apply_context.cpp:86-208 | each executed action had an account for receiver and code that ended well, the one a run fails at had not, and a run that is done executed every trace |
| ActionSequence.DepthOfPath | libraries/chain/apply_context.cpp:414-432 | an action is nested as deep as there are sent actions on the way to it |
| TrxQueue.DrainOrder | unittests/unapplied_transaction_queue_tests.cpp:25-33 | a queue kept by class is persisted, forked, aborted, incoming persisted, incoming, each in order of arrival |
| QueueOrder.KeptOrder | libraries/chain/include/eosio/chain/unapplied_transaction_queue.hpp:22-68 | of two entries of a kept queue the first is not of a later class, and their ids differ |
| TrxQueue.KeptInsert | libraries/chain/include/eosio/chain/unapplied_transaction_queue.hpp:60-68 | inserting a new id keeps classes sorted and ids distinct and changes counts by that entry |
| QueueOrder.InsertedAt | libraries/chain/include/eosio/chain/unapplied_transaction_queue.hpp:60-68 | a new entry stands behind all of its class and before all later ones; the others stay where they are |
| TrxQueue.KeptDrop | libraries/chain/include/eosio/chain/unapplied_transaction_queue.hpp:213-216 | erasing an entry keeps order and distinctness and takes exactly that id |
| TrxQueue.KeptClasses | libraries/chain/include/eosio/chain/unapplied_transaction_queue.hpp:60-68 | an insertion appends to its own class and leaves the others |
| QueueOrder.ClassAt | libraries/chain/include/eosio/chain/unapplied_transaction_queue.hpp:60-68 | a class are the entries of that kind, in the order in which they stand |
| TrxQueue.FirstSeenAppend | libraries/chain/include/eosio/chain/unapplied_transaction_queue.hpp:145-156 | dropping repeats block by block is dropping repeats of the whole branch |
| QueueOrder.FirstSeenAt | libraries/chain/include/eosio/chain/unapplied_transaction_queue.hpp:145-164 | of several transactions with one id the first is added, unless the id was there before; those added keep their order |
| QueueOrder.OldestFirst | libraries/chain/include/eosio/chain/unapplied_transaction_queue.hpp:145-156 | of a branch given newest block first the oldest block comes first, each in its own order |
| TrxQueue.Queue.constructor | libraries/chain/include/eosio/chain/unapplied_transaction_queue.hpp:70-73 | empty, counters right |
| QueueOrder.CountMeaning | libraries/chain/include/eosio/chain/unapplied_transaction_queue.hpp:218-239 | the right incoming count is the number of entries that are incoming, persisted or not |
| QueueOrder.BytesMeaning | libraries/chain/include/eosio/chain/unapplied_transaction_queue.hpp:218-239 | the right size is the sum of the sizes of the transactions |
| TrxQueue.Queue.Push | libraries/chain/include/eosio/chain/unapplied_transaction_queue.hpp:218-231 | an entry goes behind its class; past the limit an incoming one is refused after being inserted and counted but not sized |
| TrxQueue.Queue.Erase | libraries/chain/include/eosio/chain/unapplied_transaction_queue.hpp:213-239 | takes out one entry and keeps the counters as right as they were |
| TrxQueue.Queue.AddPersisted | libraries/chain/include/eosio/chain/unapplied_transaction_queue.hpp:166-179 | adds, leaves, or moves an entry behind the persisted ones, with the counters kept |
| TrxQueue.Queue.Convert | libraries/chain/include/eosio/chain/unapplied_transaction_queue.hpp:172-178 | an entry of another class becomes persisted and leaves the incoming count if it was in it |
| TrxQueue.Queue.AddIncoming | libraries/chain/include/eosio/chain/unapplied_transaction_queue.hpp:181-195 | which of added, already there, duplicate or refused, and the queue and counters after each |
| TrxQueue.Queue.AddAll | libraries/chain/include/eosio/chain/unapplied_transaction_queue.hpp:158-164 | only transactions with new ids are added, each once, in order |
| TrxQueue.Queue.AddAborted | libraries/chain/include/eosio/chain/unapplied_transaction_queue.hpp:158-164 | the same as aborted, other classes untouched |
| TrxQueue.Queue.AddForked | libraries/chain/include/eosio/chain/unapplied_transaction_queue.hpp:145-156 | a branch given newest block first adds its distinct transactions in the order they were applied |
| TrxQueue.Queue.EraseId | libraries/chain/include/eosio/chain/unapplied_transaction_queue.hpp:132-140 | removes the entry with that id if there is one |
| TrxQueue.Queue.ClearApplied | libraries/chain/include/eosio/chain/unapplied_transaction_queue.hpp:126-143 | removes exactly the entries whose ids are in the block |
| QueueOrder.KeptWithout | libraries/chain/include/eosio/chain/unapplied_transaction_queue.hpp:126-143 | what is left are exactly the entries with other ids, in order |
| TrxQueue.Queue.ClearExpired | libraries/chain/include/eosio/chain/unapplied_transaction_queue.hpp:101-124 | keeps every unexpired entry; all expired ones are gone unless the deadline came first |
| QueueOrder.KeptUnexpired | libraries/chain/include/eosio/chain/unapplied_transaction_queue.hpp:101-124 | the unexpired entries are exactly those that expire later, in order |
| TrxQueue.Queue.Clear | libraries/chain/include/eosio/chain/unapplied_transaction_queue.hpp:87-89 | empties the queue; the counters are right afterwards exactly when they were zero |
| TrxQueue.ClearedButCounted | libraries/chain/include/eosio/chain/unapplied_transaction_queue.hpp:87-89 | one incoming transaction, then a cleared queue: both counters are wrong |
| TrxQueue.RefusedButKept | libraries/chain/include/eosio/chain/unapplied_transaction_queue.hpp:218-231 | a transaction refused for its size stays in the queue without its size being counted |
| TrxQueue.Queue.Next | unittests/unapplied_transaction_queue_tests.cpp:25-33 | takes the first entry |
| TrxQueue.Queue.DrainAll | unittests/unapplied_transaction_queue_tests.cpp:109-187 | draining gives the classes one after the other, each in order of arrival |
| TrxQueue.Queue.MoveToEnd | unittests/unapplied_transaction_queue_tests.cpp:347-373 | erasing an incoming entry and adding it again puts it last and keeps the counters |
| TrxQueue.Queue.RotateIncoming | unittests/unapplied_transaction_queue_tests.cpp:470-495 | doing so as often as there are incoming entries restores the queue, for any length |
| TrxQueue.RotatedFull | unittests/unapplied_transaction_queue_tests.cpp:470-495 | moving the first of k entries to the end k times is the identity |
| TrxQueue.DrainedTrxs | unittests/unapplied_transaction_queue_tests.cpp:109-187 | the transactions of a kept queue are its classes in order |
| ForkTree.BranchesUnique | unittests/fork_database_tests.cpp:126-134 | there is only one pair of disjoint branches down to where two chains meet |
| ForkTree.SameParent | unittests/fork_database_tests.cpp:126-134 | two non-empty branches end at blocks with the same predecessor |
| ForkTree.EmptyBranch | libraries/chain/fork_database.cpp:401-458 | a branch is empty exactly when its block is an ancestor of the other |
| ForkDb.WithoutForkLinked | libraries/chain/fork_database.cpp:461-482 | removing a block with all its descendants leaves no loose end |
| ForkDb.LooseEnds | libraries/chain/fork_database.cpp:488-501 | taking one block out leaves a tree exactly when nothing was built on it |
| ForkDb.ForkDatabase.constructor | libraries/chain/fork_database.cpp:249-255 | a root without blocks |
| ForkDb.ForkDatabase.Reset | libraries/chain/fork_database.cpp:249-255 | forgets all blocks and takes a new root |
| ForkDb.ForkDatabase.RollbackHeadToRoot | libraries/chain/fork_database.cpp:257-267 | no block is validated and the head is the root |
| ForkDb.FirstMeaning | libraries/chain/fork_database.cpp:33-60 | the order of preference on the fields of two blocks: validated, irreversible block, number, id |
| ForkDb.ForkDatabase.First | libraries/chain/fork_database.cpp:316-351 | the entry before all others: a validated one if there is one, of the highest irreversible block, then of the highest number, then of the smallest id |
| ForkDb.ForkDatabase.HeadFromFirst | libraries/chain/fork_database.cpp:347-350 | no validated block has a higher irreversible block than the head, nor a higher number at the same one |
| ForkDb.ForkDatabase.Add | libraries/chain/fork_database.cpp:316-351 | refuses exactly unlinkable blocks and unwanted duplicates without a change; otherwise the tree grows and no validated block has a higher irreversible block than the head, nor a higher number at the same one; the head goes back to a lower irreversible block exactly when it was the root, some block is validated, and every validated block has a lower one |
| ForkDb.AddLowersHead | libraries/chain/fork_database.cpp:316-351 | a root whose irreversible block is higher than that of its validated successor, and a block whose adding takes the head down |
| ForkDb.ForkDatabase.MarkValid | libraries/chain/fork_database.cpp:503-521 | the block joins the validated ones; no validated block has a higher irreversible block than the head afterwards, nor a higher number at the same one, and the head never goes back to a lower irreversible block |
| ForkDb.ForkDatabase.PendingHead | libraries/chain/fork_database.cpp:366-376 | no block at all has a higher irreversible block than the result, nor a higher number at the same one; it is the head unless strictly better |
| ForkDb.ForkDatabase.Collect | libraries/chain/fork_database.cpp:461-476 | the worklist ends and holds the block and exactly its descendants, unless the head is among them |
| ForkDb.ForkDatabase.RemoveFork | libraries/chain/fork_database.cpp:461-482 | removes exactly the block's descendants and itself; refused exactly when the head is among them |
| ForkDb.ForkDatabase.RemoveHead | libraries/chain/fork_database.cpp:488-501 | takes out the head alone and finds the next best; the tree is kept exactly when nothing was built on it |
| ForkDb.HeadWithChild | libraries/chain/fork_database.cpp:488-501 | a head with a block on it, whose removal leaves no tree |
| ForkDb.ForkDatabase.AdvanceRoot | libraries/chain/fork_database.cpp:269-300 | succeeds exactly for a validated block below the head, and then keeps exactly its proper descendants |
| ForkDb.ForkDatabase.FetchBranch | libraries/chain/fork_database.cpp:378-386 | the blocks down from one, newest first, exactly those with at most that number |
| ForkDb.ForkDatabase.SearchOnBranch | libraries/chain/fork_database.cpp:388-395 | the one block of that number on the branch, exactly when it has one |
| ForkDb.ForkDatabase.FetchBranchFrom | libraries/chain/fork_database.cpp:401-458 | for any two known blocks both branches down to where they meet: disjoint, newest first, contiguous; its internal tests fail only for unknown blocks |
| ForkDb.ForkDatabase.DownTo | libraries/chain/fork_database.cpp:410-430 | walks down to the height of the other branch |
| ForkSwitch.RemoveBad | libraries/chain/controller.cpp:1629-1632 | removing a block that does not apply takes no validated block away |
| ForkSwitch.Controller.constructor | libraries/chain/controller.cpp:1580-1586 | nothing applied above the root |
| ForkSwitch.Controller.ApplyBlock | libraries/chain/controller.cpp:1332-1447 | the block is applied and validated exactly when its whole chain applies; otherwise nothing changed |
| ForkSwitch.Controller.PopBlock | libraries/chain/controller.cpp:203-222 | the applied chain is again that of the block below |
| ForkSwitch.Controller.PopAll | libraries/chain/controller.cpp:1600-1605 | popping the old branch ends where the branches meet |
| ForkSwitch.Controller.ApplyAll | libraries/chain/controller.cpp:1610-1628 | applies the branch oldest first, all of it exactly when its top is good, otherwise up to the first bad block |
| ForkSwitch.Controller.ApplyNext | libraries/chain/controller.cpp:1610-1628 | one block of the branch: either it is applied and the rest of the branch is left, or neither it nor the top of the branch is good and nothing changed |
| ForkSwitch.Controller.RemoveBadFork | libraries/chain/controller.cpp:1629-1632 | takes the bad block and its descendants out and keeps the database valid |
| ForkSwitch.Controller.AddToTree | libraries/chain/fork_database.cpp:316-351 | a block from outside joins the tree, refused exactly when unlinked or known already |
| ForkSwitch.Controller.MaybeSwitchForks | libraries/chain/controller.cpp:1580-1660 | the new head is applied exactly when its chain applies; otherwise head and applied chain are as before and only the bad fork is gone, or the outcome is undefined, exactly as below |
| ForkSwitch.Controller.Switch | libraries/chain/controller.cpp:1593-1652 | the same across branches; undefined exactly when the new head descends from the head and its chain does not apply |
| ForkSwitch.Controller.SwitchBack | libraries/chain/controller.cpp:1629-1648 | restores the chain that was applied before |
| ForkSwitch.Controller.AddBlock | libraries/chain/fork_database.cpp:316-351 | a block from outside joins the tree and changes no applied or validated chain |
| ForkSwitch.Controller.PendingHead | libraries/chain/fork_database.cpp:366-376 | a block that no other beats in irreversible block and number, validated or not |
| ForkSwitch.Controller.PushBlock | libraries/chain/controller.cpp:1484-1520 | refused exactly when unlinked or known already; otherwise a block that no other beats in irreversible block and number becomes the head exactly when its chain applies, and the controller is in order again unless the outcome is undefined, with the exact condition |
| ForkSwitch.SwitchUndefined | libraries/chain/controller.cpp:1638-1641 | two pushed blocks after which the outcome is undefined |
| ForkSwitch.AbandonedIsTail | unittests/forked_tests.cpp:710-733 | the abandoned branch is the end of the chain that had been applied |
| ForkSwitch.AppliedIsFlat | unittests/unapplied_transaction_queue_tests.cpp:168-187 | walking a branch backwards is walking its blocks in order of application |
| ForkSwitch.HandBack | unittests/forked_tests.cpp:710-733 | a switch gives the queue the abandoned transactions, once each, in the order in which they had been applied |
| ForkLines.ChainIsLine | libraries/chain/fork_database.cpp:378-386 | the chain of a block is the line from the root to it: each block in the tree, each naming the one before |
| ForkLines.LineIsChain | libraries/chain/fork_database.cpp:378-386 | there is only one such line |
| ForkLines.AppliedIsLine | libraries/chain/controller.cpp:1580-1660 | what a controller has applied, after whatever calls, is the line up to its head |
| ForkLines.GoodIff | libraries/chain/controller.cpp:1332-1447 | a chain applies exactly when every block of the line applies on the blocks before it |
| ForkLines.FailsIff | libraries/chain/controller.cpp:1610-1632 | the block that fails is the lowest of the line that does not apply |
| ForkLines.RemovedIff | libraries/chain/fork_database.cpp:461-482 | taking out a fork takes exactly the blocks whose line runs through it |
| ForkLines.DescendsIff | libraries/chain/fork_database.cpp:461-476 | a block is below another exactly when it is the root or on its line |
| ForkLines.BranchesOfLines | libraries/chain/fork_database.cpp:401-458 | two branches are the parts of two lines above the blocks they share, newest first |
| Dpos.QuorumIsLeast | libraries/chain/block_header_state.cpp:77-78 | the confirmations required are the least number that is more than two thirds of the producers |
| Dpos.NthElement | libraries/chain/block_header_state.cpp:34-36 | selection by counts: enough entries reach the value and too few reach the next |
| Dpos.BlockNums | libraries/chain/block_header_state.cpp:26-29 | one entry per producer, the next producer's counted at the proposed number |
| Dpos.CalcLastIrreversible | libraries/chain/block_header_state.cpp:25-37 | more than two thirds of the producers have reached the result and not more than that the next number, the next producer counted at the proposed one; 0 without producers |
| Dpos.LibMeaning | libraries/chain/block_header_state.cpp:25-37 | the number is at least v exactly when three times the producers that have reached v are more than twice all |
| Dpos.LibRises | libraries/chain/block_header_state.cpp:25-37 | raising entries never lowers it |
| Dpos.LibBound | libraries/chain/block_header_state.cpp:25-37 | some producer has really reached it |
| Dpos.QuorumsMeet | libraries/chain/block_header_state.cpp:77-78 | any two sets of more than two thirds share more than a third of the producers |
| Dpos.CountDown | libraries/chain/block_header_state.cpp:91-115 | each counter a block reaches goes down by one; the newest that runs out becomes proposed irreversible and only later ones stay tracked |
| Dpos.Next | libraries/chain/block_header_state.cpp:39-155 | fails exactly for a slot not in the future, or when the producer's last block is not below the lowest it confirms, a 32-bit difference; otherwise every field of the next header |
| DposResults.StepKeeps | libraries/chain/block_header_state.cpp:39-155 | every block keeps the header invariant, the proposed number never goes back, and irreversibility never overtakes it |
| DposResults.LibNeverDrops | libraries/chain/block_header_state.cpp:117-155 | the last irreversible block never goes back except in the block after a promotion |
| DposResults.LibHolds | libraries/chain/block_header_state.cpp:117-118 | it is at least v exactly when three times the active producers that have reached v are more than twice all, the block's own producer counted at the proposed number |
| DposHistory.RepeatIff | libraries/chain/block_header_state.cpp:50-60 | a block confirms again what its producer had confirmed exactly when it claims to confirm more blocks than there are and the producer has confirmed a tracked one |
| DposHistory.NeverRefused | libraries/chain/block_header_state.cpp:54-58 | the test for double confirmation lets every such block pass |
| DposHistory.ConfirmedByQuorum | libraries/chain/block_header_state.cpp:77-117 | otherwise a block becomes proposed irreversible only when as many different producers have confirmed it as the schedule of its own time required |
| DposHistory.StillAccounted | libraries/chain/block_header_state.cpp:120-155 | a producer dropped by a promotion cannot confirm a tracked block again when it comes back |
| DposHistory.HistoryGoesOn | libraries/chain/block_header_state.cpp:77-155 | the record of who confirmed what goes on over the blocks still tracked, through every promotion |
| DposHistory.RunHistory | libraries/chain/block_header_state.cpp:39-155 | every run from genesis has such a record, made of what its blocks claim |
| DposHistory.IrreversibleByQuorum | libraries/chain/block_header_state.cpp:77-117 | on every run from genesis on which no block claims to confirm more blocks than there are, a block that becomes proposed irreversible was claimed by as many different producers as the schedule of its own time required |
| DposExact.StartsWith | libraries/chain/block_header_state.cpp:77-90 | a new block asks for the least number of confirmations that is more than two thirds of the active producers |
| DposExact.RunTracks | libraries/chain/block_header_state.cpp:77-117 | on every run from genesis the blocks with a counter are those after the proposed one, or the newest 1024 of them |
| DposExact.ProposedIff | libraries/chain/block_header_state.cpp:77-117 | on every run from genesis on which no block claims too much, a block takes the proposed number to b or beyond exactly when b or a later block among the newest 1024 has now been claimed by more than two thirds of the producers of its own time |
| DposExact.EntryMeaning | libraries/chain/block_header_state.cpp:120-155 | each active producer's entry is the number proposed before the last block it produced, or the irreversible one when it came in; likewise its last block |
| DposExact.PromotedIff | libraries/chain/block_header_state.cpp:120-155 | the pending schedule takes over exactly when there is one and the block it became pending in is irreversible |
| DposExact.ProducerOf | libraries/chain/block_header_state.cpp:19-23 | the producers take turns of twelve slots each |
| DposExamples.ConfirmsAlone | libraries/chain/block_header_state.cpp:54-58 | a run from genesis on which two blocks claim more and one producer alone makes a block proposed irreversible that takes three |
| DposExamples.LibGoesBack | libraries/chain/block_header_state.cpp:117-155 | a run from genesis on which the last irreversible block goes back from 5 to 3 |
| Promotion.Chain.constructor | libraries/chain/controller.cpp:408-422 | at genesis the initial schedule is active and pending at once |
| Promotion.Chain.StartBlock | libraries/chain/controller.cpp:1101-1125 | a proposal becomes pending exactly when its block is irreversible and there is room; the version test never fails |
| Promotion.Chain.Promote | libraries/chain/controller.cpp:1101-1125 | proposed schedule taken over and cleared, or both left |
| Promotion.Chain.SetProposedProducers | libraries/chain/controller.cpp:2485-2534 | refused exactly when empty and disallowed, still waiting, or equal to the waiting schedule or without one the active; otherwise proposed for this block one version above that one |
| Promotion.Chain.ProposeProducers | libraries/chain/webassembly/privileged.cpp:87-131 | refused exactly when the list is too long, empty and disallowed, names something that is no account or names one twice; otherwise as above |
| Promotion.UniqueAccounts | libraries/chain/webassembly/privileged.cpp:97-128 | as many names in the set as entries in the list means that no name repeats |
| Promotion.Chain.FinishBlock | libraries/chain/block_header_state.cpp:233-319 | none of the three tests fails; the active schedule is the formerly pending one exactly after a promotion, a new one is pending from this block on; the active version rises by one exactly per activation, the pending version is the active one or one more, and the active schedule is never empty |
| Promotion.Chain.AbortBlock | libraries/chain/controller.cpp:1662-1673 | head and proposal are as before the block was started |
| Promotion.StepBuilds | libraries/chain/block_header_state.cpp:120-155 | a started block keeps the relation between active, pending and proposed versions |
| Promotion.KeepsHeadOk | unittests/producer_schedule_tests.cpp:204-267 | so does a finished block |
| Rotation.FairRound | unittests/producer_schedule_tests.cpp:23-26 | any round of consecutive slots gives every producer exactly its repetitions, from any start |
| Rotation.EveryoneSeen | unittests/fork_test_utilities.cpp:45-54 | within a round every producer has been head |
| Rotation.ProduceUntilBlocksFrom | unittests/fork_test_utilities.cpp:20-54 | succeeds exactly when the expected producers are among the heads of the allowed blocks, hence within one round |
| Rotation.NextRoundFirstBlock | unittests/producer_schedule_tests.cpp:40-47 | the search ends at the least multiple of the round length above the head |
| KvRam.OwedSet | libraries/chain/backing_store/kv_context.cpp:146-174 | what an account owes over all rows changes by exactly the old and the new row |
| KvRam.CostsAgree | libraries/chain/backing_store/kv_context.cpp:220-237 | the size of an update is the true one exactly when key and value together stay below 2^32 |
| KvRam.CreateBooks | libraries/chain/backing_store/kv_context.cpp:163-173 | creating a row charges the payer alone its cost and keeps the books balanced |
| KvRam.EraseBooks | libraries/chain/backing_store/kv_context.cpp:134-144 | erasing a row refunds its cost, which never fails, and keeps the books balanced |
| KvRam.UpdateBooks | libraries/chain/backing_store/kv_context.cpp:155-162 | updating a row keeps the books balanced exactly when its 32-bit sizes are right, or wrong by as much on both sides for one payer |
| KvRam.StepBooks | libraries/chain/backing_store/kv_context.cpp:134-237 | from balanced books an operation with exact sizes succeeds exactly when it is permitted and its payer's usage fits 64 bits, and any that succeeds leaves them balanced exactly when its sizes are exact |
| KvRam.StepsWrite | libraries/chain/backing_store/kv_context.cpp:134-174 | after any operations that succeed a row is what the last one that wrote or erased it left, and as before without one; the same of limits |
| KvRam.CommitsIff | libraries/chain/transaction_context.cpp:299-302 | a transaction with exact sizes takes effect exactly when every operation is admissible in its turn and after the last one every marked account is within its limit, counted from the rows it pays for |
| KvRam.LimitsBindAtTheEnd | libraries/chain/transaction_context.cpp:299-302 | while operations run limits do not matter: going over and back is accepted |
| KvRam.StaysWithin | libraries/chain/resource_limits.cpp:228-241 | no transaction takes an account over its limit, by raising its usage or lowering the limit |
| KvRam.WrapsToNothing | libraries/chain/backing_store/kv_context.cpp:220-237 | a row updated to the longest value: the books are out of balance, and the row cannot be erased any more |
| KvRam.KvDatabase.constructor | libraries/chain/backing_store/kv_context.cpp:130-132 | no rows, usage as given |
| KvRam.KvDatabase.AddRamUsage | libraries/chain/resource_limits.cpp:211-226 | changes one account's usage or fails exactly on an unknown account, overflow or underflow |
| KvRam.KvDatabase.UpdateTableUsage | libraries/chain/backing_store/kv_context.cpp:220-237 | refund and full charge on a change of payer, the difference otherwise, nothing when sizes agree |
| KvRam.KvDatabase.KvSet | libraries/chain/backing_store/kv_context.cpp:146-174 | which error when; on success that row alone has the new payer and value, the size it is billed by changes as in the code, and the accounts whose usage rose are marked |
| KvRam.KvDatabase.KvErase | libraries/chain/backing_store/kv_context.cpp:134-144 | refused exactly for another receiver's row or when the refund fails; on success that row alone is gone, and all its bytes and 112 are refunded; without a row nothing happens |
| KvRam.KvDatabase.SetRamLimit | libraries/chain/webassembly/privileged.cpp:46-54 | one account's limit; an account whose limit is lowered is marked |
| KvRam.KvDatabase.BeginTransaction | libraries/chain/transaction_context.cpp:44-44 | the state to go back to; no account marked |
| KvRam.KvDatabase.Finalize | libraries/chain/transaction_context.cpp:299-302 | passes exactly when all marked accounts are within limits |
| KvRam.KvDatabase.Rollback | libraries/chain/transaction_context.cpp:347-349 | a failed transaction leaves rows, usage and limits as they were |
| KvRam.KvDatabase.Apply | unittests/kv_tests.cpp:475-507 | each operation succeeds exactly when its specification says, with that state |
| KvRam.KvDatabase.RunTransaction | unittests/kv_tests.cpp:567-655 | any list of operations takes effect exactly when every operation succeeds in its turn and all marked accounts are within limits at the end, with the state the operations give: every row and every limit as the last operation on it left it; otherwise nothing changes |
| FixInt.FixTruncates | libraries/builtins/fixdfti.c:16-41 | below exponent 127 the result is the value truncated toward zero, subnormals and zero included |
| FixInt.FixSaturates | libraries/builtins/fixdfti.c:30-32 | from exponent 128 on, infinities and not-a-number patterns included, the extreme of the sign |
| FixInt.FixWraps | libraries/builtins/fixdfti.c:34-39 | with exponent 127 the shift runs into the sign bit: the value modulo 2^128 |
| FixInt.FixExactIff | libraries/builtins/fixdfti.c:16-41 | the result is the truncated value exactly below exponent 127 and for -2^127 |
| FloatWiden.FixInFigures | libraries/builtins/fixdfti.c:16-41 | from the number of the pattern: its sign, exponent field and fraction bits give zero, the quotient or product by a power of two, or the extremes |
| FloatWiden.WidenExact | libraries/builtins/fixsfti.c:16-40 | the widened pattern stands for the same number |
| FloatWiden.FixOfWiden | libraries/builtins/fixsfti.c:16-40 | converting from a smaller format is converting the widened pattern, in every band |
| FloatWiden.SingleByDouble | libraries/builtins/fixsfti.c:16-40 | the binary32 conversion is the binary64 conversion of the same value |
| FloatWiden.FixMonotone | libraries/builtins/fixdfti.c:16-41 | in range the conversion keeps the order of values |
| FloatInt.RoundsToNearest | libraries/builtins/floattidf.c:45-59 | sticky bit, round and dump together round to nearest, ties to even |
| FloatInt.NearestIsNearest | libraries/builtins/floattidf.c:45-59 | no multiple of the last place is nearer |
| FloatInt.FloatRepresents | libraries/builtins/floattidf.c:26-79 | the pattern's significand and exponent are those of the rounded number, carry into the next power included |
| FloatInt.FloatInFigures | libraries/builtins/floattidf.c:26-79 | the number of the pattern made from an integer: sign, biased exponent and significand; short integers exactly, long ones at most half a last place away, and exactly half only where the multiple is even |
| FloatInt.FixOfFloat | libraries/builtins/floattidf.c:26-79 | converting there and back rounds to the format's digits when the rounded number fits, the smallest integer included |
| FloatInt.RoundTrip | libraries/builtins/floattidf.c:68-79 | an integer of the type comes back unchanged exactly when it is not rounded, as when it has no more digits than the format keeps |
| FloatInt.RoundsOutOfRange | libraries/builtins/floattidf.c:56-66 | an integer just below 2^127 that rounds up comes back as -2^127 |
| FloatInt.DoubleThereAndBack | libraries/builtins/floatuntidf.c:26-76 | every integer below 2^53 in size survives both conversions |
| Pkcs1.BytesToString | unittests/rsa_signer.hpp:55-63 | two digits per octet that read as the same number |
| Pkcs1.HexPlaces | unittests/rsa_signer.hpp:55-63 | octet i stands at places 2i and 2i + 1, the high digit first |
| Pkcs1.NumberPlaces | unittests/rsa_signer.hpp:55-63 | the first octet is the most significant |
| Pkcs1.HexInjective | unittests/rsa_signer.hpp:55-63 | different octets give different strings |
| Pkcs1.Encode | unittests/rsa_signer.hpp:85-98 | succeeds exactly when the modulus is long enough, and then is three digits shorter than it |
| Pkcs1.EncodeIsEmsa | unittests/rsa_signer.hpp:85-98 | for a modulus with an even number of digits, read as a number it is the EMSA-PKCS1-v1_5 block of section 9.2 of RFC 8017 |
| Pkcs1.OddIsShorter | unittests/rsa_signer.hpp:85-98 | for an odd number of digits the padding is one digit shorter than that block's, and the number smaller |
| Pkcs1.EncodeInjective | unittests/rsa_signer.hpp:85-98 | different hashes of one length give different numbers, for every modulus |
| Pkcs1.BelowModulus | unittests/rsa_signer.hpp:72-98 | the number is below every modulus of that length that the signer accepts |
| Journal.PermissionVisitor.constructor | unittests/misc_tests.cpp:345-350 | nothing visited or saved |
| Journal.PermissionVisitor.Visit | unittests/misc_tests.cpp:352-354 | appends, and no saved list is touched |
| Journal.PermissionVisitor.PushUndo | unittests/misc_tests.cpp:358-362 | saves the list as it is |
| Journal.PermissionVisitor.PopUndo | unittests/misc_tests.cpp:364-371 | restores the list of the matching push; its test never fails |
| Journal.PermissionVisitor.SquashUndo | unittests/misc_tests.cpp:373-378 | forgets the matching push and keeps the list |
| Journal.Run | unittests/misc_tests.cpp:345-380 | after any well-nested run the list is the old one plus exactly the surviving additions, and the saved lists are the old ones |
| AbiLayout.AcceptedIff | libraries/chain/abi_serializer.cpp:491-603 | which values are written, by a condition on value, type and scopes that does not write anything |
| AbiLayout.ArrayLayout | libraries/chain/abi_serializer.cpp:502-516 | an array is the number of its elements and then the bytes of each, the first element first |
| AbiLayout.OptionalLayout | libraries/chain/abi_serializer.cpp:517-522 | one byte tells whether there is a value |
| AbiLayout.VariantLayout | libraries/chain/abi_serializer.cpp:523-537 | the position of the first alternative with that tag, then its value |
| AbiLayout.ObjectLayout | libraries/chain/abi_serializer.cpp:538-570 | a struct is the bytes of its base and then of its fields in declared order, up to the first that is left out |
| AbiLayout.ListLayout | libraries/chain/abi_serializer.cpp:571-588 | a struct given as a list: the values in order, as many as there are fields |
| AbiLayout.BuiltInLayout | libraries/chain/abi_serializer.cpp:499-501 | built-in types, alone or below one suffix, are left to their packing |
| AbiLayout.ArrayRead | libraries/chain/abi_serializer.cpp:409-429 | an array is read element by element, the first first, as many as the count says |
| AbiLayout.OptionalRead | libraries/chain/abi_serializer.cpp:430-435 | any flag but zero tells that there is a value |
| AbiLayout.VariantRead | libraries/chain/abi_serializer.cpp:437-447 | the alternative at the position read, refused beyond the last |
| AbiLayout.FieldsRead | libraries/chain/abi_serializer.cpp:363-392 | fields are read in declared order, extensions skipped at the end of the stream; of two with one name the later one counts |
| AbiLayout.ObjectRead | libraries/chain/abi_serializer.cpp:352-392 | a struct is read as its base and then its own fields, and may not come out empty |
| AbiLayout.ResolveFollows | libraries/chain/abi_serializer.cpp:340-350 | a type stands for the end of its path of aliases |
| AbiLayout.ResolveStuck | libraries/chain/abi_serializer.cpp:340-350 | and for itself where aliases go round in a circle |
| AbiWhole.BlankIff | libraries/chain/abi_serializer.cpp:491-603 | which accepted values take no bytes, told from the value: structs that have no field, leave every one out or whose fields take none |
| AbiWhole.RoomEnough | libraries/chain/abi_serializer.cpp:661-675 | reading takes less than twice the scopes that writing took |
| AbiRoundTrip.ValueBack | libraries/chain/abi_serializer.cpp:394-463 | from the front of any longer stream a whole value that was accepted decodes to one that encodes to the same bytes, leaving the rest; with extensions left out, from the end of the stream |
| AbiRoundTrip.StructBack | libraries/chain/abi_serializer.cpp:352-392 | a whole struct with all its bases, given as object or positional array, decodes to its fields |
| AbiRoundTrip.StructAgree | libraries/chain/abi_serializer.cpp:546-569 | only entries under a struct's own and inherited names matter to its bytes |
| AbiLost.EndedStreamIff | libraries/chain/abi_serializer.cpp:362-377 | fields decode from an ended stream exactly when all are extensions |
| AbiLost.BlankRefused | libraries/chain/abi_serializer.cpp:458-462 | a struct written as nothing is refused, whatever comes after it |
| AbiLost.ValueLost | libraries/chain/abi_serializer.cpp:352-463 | an accepted value that is not whole is refused when read, or read as one that is refused when written |
| AbiLost.StructUnread | libraries/chain/abi_serializer.cpp:352-392 | the same of a struct with all its bases: own fields cannot mend what a base has lost |
| AbiResults.DecodedNormal | libraries/chain/abi_serializer.cpp:352-463 | whatever decodes is in normal form: structs as objects of their own and inherited fields, variants naming their alternative |
| AbiResults.RoundTrip | unittests/abi_tests.cpp:46-70 | every accepted message that is whole decodes completely to a normal form, and that encodes to the same bytes |
| AbiResults.RoundTripIff | unittests/abi_tests.cpp:46-70 | an accepted message comes back if and only if it is whole: every struct met has something to show, only extensions are missing where the stream ends, and the scopes suffice to read it; otherwise it is refused, now or when written again |
| AbiResults.Shallow | libraries/chain/abi_serializer.cpp:661-675 | a message written within 511 scopes comes back exactly when it is whole, however many scopes reading takes |
| AbiResults.ChainComesBackIff | libraries/chain/include/eosio/chain/abi_serializer.hpp:104-117 | lists of up to 1020 links are accepted and come back exactly up to 509 |
| AbiResults.PrefixFree | unittests/abi_tests.cpp:758-811 | where extensions may not be left out, no whole value's encoding is the beginning of another's |
| AbiResults.EmptyStructLost | libraries/chain/abi_serializer.cpp:458-462 | a struct without fields is accepted and refused again |
| AbiResults.ExtensionInTheMiddle | libraries/chain/abi_serializer.cpp:570-587 | a short positional array is accepted where a required field follows an extension, and what it gives is refused; as an object it is refused at once |
| AbiResults.RepeatedNameIff | libraries/chain/abi_serializer.cpp:570-587 | with two fields of one name a positional array comes back exactly when both packed alike |
| AbiResults.InheritedNameLost | libraries/chain/abi_serializer.cpp:546-569 | with a field named like an inherited one of another type a value is accepted, and nothing that is ever read as this struct can be written |
| AbiResults.ShadowedBaseLost | libraries/chain/abi_serializer.cpp:352-360 | a base that bears the name of a built-in type is written as that type and read as a struct, so no stream is read |

## Left out

- Hashes, signatures and modular exponentiation: Merkle trees take any hash function, `Pkcs1` stops at the padded number; `sign` drops leading zero octets, so nothing is claimed about the length of a signature.
- WASM execution: the code of an account is a function from what ran so far, the receiver and the action to the calls it makes and whether it fails.
- Authorization tests of inline actions, size limits of inline actions and account existence for inline actions; account existence matters for receivers only.
- Deadlines, CPU and network billing, traces of console output and return values.
- Packing of built-in types: `fc` is not part of this model; the codec takes any packing that returns what it was given from the front of a stream and needs at least one byte. `LawfulExists` gives one.
- ABI arrays of fixed size, protobuf types, key-value tables, the time limit, logging form, and the conversion of JSON scalars.
- AbiCodec.Encode: element counts are not cut at 2^32.
- AuthorityResults.ExactWhenBounded: a sufficient condition, as that of `VerdictMonotone`; `HarmlessLoop` shows that neither is necessary, and which verdicts a cycle caches depends on the order of visits, so no exact condition short of the evaluation itself is stated.
- Delays of authorities: the checker of this version never counts waits, so no delay is modelled.
- The fork database before its root is set, its files on disk, and protocol-feature validation when a block is added.
- TrxQueue.Queue.AddPersisted: an entry that changes class is put behind the persisted ones; where the container would put it among equals is not fixed by its use.
- Callbacks of queue entries (`next`) and the failure-trace flag.
- Snapshots, replay, the irreversible read mode and irreversible-block logging after a push, and the block state kept with each header beyond what irreversibility and schedules need.
- Authorization of row payers, key-value iterators, and other uses of RAM, which enter as each account's starting usage.
- Keys and weights of proposed producers; a producer is a name here.
- The undo stack of chain_kv, protocol features, system contracts, HTTP and AMQP plugins, scripts and the block-audit tool.
