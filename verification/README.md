# Verified core of libchrome `base`

A Dafny model of the small stateful components of Chromium's `base` library, with proofs of what
they promise over every input and every run. `dafny verify dfyconfig.toml` checks the project.

| files | component |
|---|---|
| `ObserverReference`, `ObserverSlots`, `ObserverDepiction`, `ObserverList` | `ObserverList`: nested loops whose callbacks change the list |
| `CallbackReference`, `CallbackList` | `CallbackList`: the same for subscriptions and passes |
| `ObserverListThreadSafe` | notifications as posted tasks, over all interleavings of threads |
| `Words`, `Md5Spec`, `Md5Transform`, `Md5`, `Md5Evaluation`, `Md5KnownAnswer` | incremental MD5 against sections 3.1 to 3.5 of RFC 1321, and one of its known answers |
| `LazyProtocol`, `AtExit` | lock-free lazy construction, and destruction at exit |
| `Text`, `CommandLine`, `CommandLineLaws`, `CommandLineReading`, `WindowsQuoting`, `CommandLineString`, `CommandLineLoss` | the command line: parsing, index, quoting, printing |
| `Optional`, `OrderedMap`, `FeatureList`, `FeatureListLaws`, `FeatureListReading` | feature overrides: registration, queries, printing, reading back |
| `Environment` | the packed environment blocks of `AlterEnvironment` |
| `DeferredTaskRunner` | queue until started, forward afterwards |

How the model is built:

- A component that changes its fields is a class whose methods carry its loops and branches. Each
  method is proved against a function of the old state or the input, and the promises are then
  proved of that function.
- What such a function computes is also stated without it: switches, feature entries and quoting by
  the characters of their texts, loops and passes by the calls that one busy callback leads to, MD5
  by the constants as RFC 1321 lists them and by one of its known answers.
- A callback is a finite tree of list operations (`Script`, `Action`): every finite reentrant
  behaviour is one. `ObserverReference` and `CallbackReference` say what the lists do without
  iterators, indices and counts, by who is registered and who is still to be called; the classes
  are proved to make exactly the same calls.
- Threads are interleaved atomic steps. The loads of the lazy protocol may read stale values, and a
  thread's view grows only by acquiring loads.
- Debug assertions (`DCHECK`) are preconditions, except where a property says what happens when
  one fails.
- Integers are unbounded; 32-bit words and bytes are subset types, and wrap-around is written out.

Where a natural property does not hold of the code for all inputs, the exact condition is proved, and
lemmas show inputs that fail:

- the lazy protocol is safe if and only if every creator returns a real pointer (`SafeIffAllReal`),
  and constructs at most once if and only if none returns null (`OneCreationIffNoneNull`);
- quoted arguments read back if and only if none is empty and none has a tab as its only special
  character (`ReadsBackIffAllSurvive`), and the printed arguments of a line read back if and only
  if every token is printable (`ReadsBackIffPrintable`), so that a child process gets the same line
  if and only if its switches are also stable (`SameInChildIff`);
- a parsed line is stable if and only if no switch has an empty value after its `=` and a name that
  is empty or ends in a blank (`ParsedTwiceIffNoneLossy`);
- the switch index agrees with the vector if and only if no appended name holds `=`
  (`AgreesIffNamesHaveNoEquals`);
- printed overrides are restored if and only if every entry is readable (`RestoredIffReadable`);
- environment changes are idempotent if and only if no set key is cut by its own `=` to an unchanged
  key (`AppliedTwiceIffNoneEscapes`);
- on a run, no next task can call an observer off its registered sequence if and only if no observer
  is added while a task of it is pending on another sequence (`AlwaysAtHomeIffAddsSafely`; a failing
  run is `CalledElsewhere`).

## Model

| member | source | states |
|---|---|---|
| `ObserverList.ObserverList.AddObserver` | base/observer_list.h:240-247 | a new observer goes to the end of the vector, a registered one is not added twice, and the list invariant is kept |
| `ObserverList.ObserverList.RemoveObserver` | base/observer_list.h:251-264 | with a live iterator the observer's slot is emptied and every other slot stays where it is; without one the slot is erased and the order of the others kept |
| `ObserverList.ObserverList.Clear` | base/observer_list.h:271-278 | with a live iterator all slots are emptied and the length stays; otherwise the vector is emptied |
| `ObserverList.ObserverList.Compact` | base/observer_list.h:284-287 | exactly the empty slots go, in order |
| `ObserverList.ObserverList.Begin` | base/observer_list.h:113-123 | the iterator starts at the first occupied slot with the policy's limit; an empty list binds no iterator; the count stays the number of bound iterators |
| `ObserverList.ObserverList.CopyIter` | base/observer_list.h:134-140 | a copy has the same position and is counted if the original is live |
| `ObserverList.ObserverList.AssignIter` | base/observer_list.h:142-148 | the target takes the source's position; the list is compacted exactly when the count falls to 0 |
| `ObserverList.ObserverList.EnsureValidIndex` | base/observer_list.h:193-198 | the index moves to the first occupied slot below the limit, or to the limit |
| `ObserverList.ObserverList.Increment` | base/observer_list.h:157-163 | an iterator not at its end moves to the next occupied slot below its limit; that of a destroyed list stays |
| `ObserverList.ObserverList.DestroyIter` | base/observer_list.h:125-132 | the last bound iterator to go compacts the list, any other leaves it as it is |
| `ObserverList.ObserverList.Run` | base/observer_list.h:218-278 | a callback's operations, nested loops included, do to the list what the reference does to its book; iterators around it are unchanged and the vector only evolves |
| `ObserverList.ObserverList.NotifyObservers` | base/observer_list.h:113-223 | for any reentrant callbacks: the calls made are those of the reference; every slot below the bound is come to once, in order, and visited if and only if occupied; the bound is the start size under EXISTING_ONLY and the final size under ALL; destruction ends the loop after the current visit |
| `ObserverList.ObserverList.LoopFrom` | base/observer_list.h:157-204 | the loop ends, and what it saw lies between the vector at its start and at its end |
| `ObserverList.ObserverList.Round` | base/observer_list.h:157-181 | one call, what its callback does and the step to the next observer are one round of the reference loop |
| `ObserverList.ObserverList.Apply` | base/observer_list.h:113-287 | any list operation or iterator copy, assignment, advance or destruction keeps the invariant, and the vector does not shrink or move while an iterator stays live |
| `ObserverList.ObserverList.ApplyAll` | base/observer_list.h:113-287 | in every state of every run the count equals the number of bound iterators, held slots are distinct, a list without iterators has no empty slot, and no iterator is past its end |
| `ObserverList.RunProgram` | base/observer_list.h:96-287 | any program from a new list on makes the calls of the reference, in order, and leaves the reference's registrations |
| `ObserverSlots.StayingIsVisitedOnce` | base/observer_list.h:113-204 | an observer present at both ends of a loop was visited at exactly one place in the order |
| `ObserverSlots.AddedIsVisitedUnderAll` | base/observer_list.h:119-123 | under ALL, an observer added during the loop and still there at its end was visited |
| `ObserverSlots.OnlyExistingVisited` | base/observer_list.h:119-123 | under EXISTING_ONLY, visits are of slots that existed at the start, so at most that many |
| `ObserverSlots.VisitAndStep` | base/observer_list.h:157-163 | visits strictly increase and skip exactly the slots found empty |
| `ObserverReference.QuietLoop` | base/observer_list.h:218-223 | a loop during which nothing happens calls everyone registered, in order, and changes nothing |
| `ObserverReference.BusyVisit` | base/observer_list.h:157-223 | a loop in which only the callback of the k-th visit does anything: the observers up to the k-th are called, the callback acts on a list whose loop has the others before it, and whoever is then left is called |
| `ObserverReference.RemovalInVisit` | base/observer_list.h:251-264 | an observer removed by the k-th callback is left out of the rest of the loop and nobody else is |
| `ObserverReference.AdditionInVisit` | base/observer_list.h:119-123 | an observer added by the k-th callback is called last by the same loop under ALL, and not by it under EXISTING_ONLY |
| `ObserverReference.EndInVisit` | base/observer_list.h:204-278 | after the k-th callback has cleared or destroyed the list nobody is called |
| `ObserverReference.LoopInVisit` | base/observer_list.h:157-181 | a loop inside the k-th callback calls everyone and leaves the outer loop where it was |
| `ObserverReference.RanInOrder` | base/observer_list.h:218-278 | what a callback does happens one operation after the other |
| `ObserverReference.MinusKeepsOrder` | base/observer_list.h:251-264 | removal takes out the one observer and keeps the others in their order |
| `ObserverReference.RemovedIsNotCalled` | base/observer_list.h:251-278 | once removed, alone or with all others, an observer is called by no loop at any nesting depth, whatever is done later short of adding it |
| `ObserverDepiction.AddDepicts` | base/observer_list.h:240-247 | appending a slot puts the observer within reach of every loop under way under ALL and of none under EXISTING_ONLY |
| `ObserverDepiction.RemoveDepicts` | base/observer_list.h:251-264 | emptying a slot takes the observer out of reach of every loop that has not come to it, and of nothing else |
| `ObserverDepiction.CompactDepicts` | base/observer_list.h:284-287 | compaction without bound iterators changes neither who is registered nor who is to be called |
| `ObserverDepiction.StepDepicts` | base/observer_list.h:157-163 | after a step a loop still has exactly the same observers before it |
| `CallbackList.CallbackList.Add` | base/callback_list.h:103-107 | a new callback goes to the end and no iterator loses its place |
| `CallbackList.CallbackList.Forget` | base/callback_list.h:83-87 | during a pass the callback is nulled in place; otherwise exactly its node is erased; no live iterator is left at an erased node |
| `CallbackList.CallbackList.Unsubscribe` | base/callback_list.h:83-91 | destroying a subscription does what the reference does, with everything the removal callback does when it is due |
| `CallbackList.CallbackList.RemovalCallback` | base/callback_list.h:88-90 | the removal callback may register, unsubscribe and notify; it does to the list what the reference does |
| `CallbackList.CallbackList.Compact` | base/callback_list.h:175-189 | exactly the null callbacks go, in order, and the result says if there were any, so that the removal callback is due |
| `CallbackList.CallbackList.GetIterator` | base/callback_list.h:125-129 | the iterator starts at the first node and is counted |
| `CallbackList.CallbackList.GetNext` | base/callback_list.h:143-153 | returns the first live callback from the position on and is then past it |
| `CallbackList.CallbackList.DestroyIterator` | base/callback_list.h:137-141 | the last iterator to go compacts the list |
| `CallbackList.CallbackList.Run` | base/callback_list.h:83-218 | a callback's registrations, unsubscriptions and nested passes do what the reference does; iterators around it keep their places |
| `CallbackList.CallbackList.NotifyAll` | base/callback_list.h:212-218 | the callbacks run, those of the removal callback after the pass included, are those of the reference: every node there at the start is come to once, in order, and runs if and only if still live |
| `CallbackList.RegisteredRunsIffStillThere` | base/callback_list.h:212-218 | a callback registered before a pass runs in it if and only if it is still there when its turn comes, once and in registration order |
| `CallbackList.AtRest` | base/callback_list.h:175-189 | without iterators the list holds exactly the subscribed callbacks, in registration order |
| `CallbackList.LiveIdsAre` | base/callback_list.h:143-153 | what ran is exactly what was live when reached, in strictly increasing registration order |
| `CallbackList.RunProgram` | base/callback_list.h:71-218 | any program with any removal callback, from a new list on, runs the callbacks of the reference, in order, and ends with exactly the subscribed callbacks listed |
| `CallbackList.RegisterDepicts` | base/callback_list.h:103-107 | a new callback comes into reach of exactly the passes that have a node, live or null, before them |
| `CallbackList.NextDepicts` | base/callback_list.h:143-153 | GetNext finds what the pass has next before it, and what lies after it stays before it |
| `CallbackReference.QuietPass` | base/callback_list.h:212-218 | a pass during which nothing happens runs every callback in order and changes nothing |
| `CallbackReference.BusyRun` | base/callback_list.h:143-218 | a pass in which only the k-th callback does anything: those up to the k-th run, the callback acts on a list whose pass has the others before it, and those then live among what is left run |
| `CallbackReference.UnsubscribeAtRest` | base/callback_list.h:83-91 | with no pass under way a destroyed subscription's node is erased at once, the others keep their order, and the removal callback runs once, whatever it does |
| `CallbackReference.UnsubscribeInRun` | base/callback_list.h:83-189 | a subscription destroyed by the k-th callback: a callback not yet come to does not run, all others do, and at the end of the pass the node is erased and the removal callback runs once |
| `CallbackReference.UnsubscribeInPass` | base/callback_list.h:83-91 | during a pass the removal callback does not run |
| `CallbackReference.RegisterInRun` | base/callback_list.h:103-153 | a callback registered by the k-th callback is run last by the same pass, unless it was the last callback that registered it |
| `CallbackReference.PassInRun` | base/callback_list.h:212-218 | a pass inside the k-th callback runs everything and leaves the outer one where it was |
| `CallbackReference.RanInOrder` | base/callback_list.h:83-218 | what a callback does happens one operation after the other |
| `CallbackReference.UnsubscribedIsNotRun` | base/callback_list.h:83-91 | once its subscription is destroyed a callback runs in no pass at any nesting depth, whatever the removal callback and everything later do |
| `ObserverListThreadSafe.StepKeepsInv` | base/observer_list_threadsafe.h:106-220 | every step keeps the thread-local notification a stack and the callbacks those of the delivered tasks |
| `ObserverListThreadSafe.TasksSettleOnce` | base/observer_list_threadsafe.h:191-215 | a posted task never changes, and once delivered or dropped it stays so in every run |
| `ObserverListThreadSafe.OneCallbackPerDelivery` | base/observer_list_threadsafe.h:191-215 | in every reachable state a task has one callback if delivered and none otherwise |
| `ObserverListThreadSafe.PostNotifications` | base/observer_list_threadsafe.h:167-173 | the loop posts one pending task per observer, to the sequence it registered on |
| `ObserverListThreadSafe.NotifyPostsOnePerObserver` | base/observer_list_threadsafe.h:162-174 | Notify posts exactly one task for each observer registered then, and none for any other |
| `ObserverListThreadSafe.AbsentIsNotCalled` | base/observer_list_threadsafe.h:144-201 | from a state where an observer is not registered no run calls it before it is added again, whatever was posted to it |
| `ObserverListThreadSafe.RemovedIsNotCalled` | base/observer_list_threadsafe.h:144-201 | from its removal on no run calls an observer before it is added again, whatever was posted to it |
| `ObserverListThreadSafe.RegistrationStays` | base/observer_list_threadsafe.h:106-153 | in every run an observer that nobody removes stays registered on the sequence that added it |
| `ObserverListThreadSafe.PendingIsDelivered` | base/observer_list_threadsafe.h:191-215 | in every run a task posted for an observer that nobody removes is never dropped, and running it calls the observer on the sequence it was posted to |
| `ObserverListThreadSafe.RunKeepsBelow` | base/observer_list_threadsafe.h:203-219 | while a thread stays above a nesting depth no step of any thread touches its frames below |
| `ObserverListThreadSafe.DispatchRestores` | base/observer_list_threadsafe.h:203-219 | for every run that goes on inside a dispatch, with any dispatches nested in it: back at the dispatch the thread's notification is its own, and returning from it leaves the thread as it was before |
| `ObserverListThreadSafe.AddReplaysIffDispatching` | base/observer_list_threadsafe.h:106-137 | AddObserver posts one replay if and only if the policy is ALL and the innermost dispatch on the thread is of the same list |
| `ObserverListThreadSafe.AddKeepsCleanIff` | base/observer_list_threadsafe.h:112-118 | registering keeps every pending task on its observer's sequence if and only if none of its tasks is pending elsewhere |
| `ObserverListThreadSafe.OtherStepsKeepClean` | base/observer_list_threadsafe.h:144-220 | no other step can put a pending task on a wrong sequence |
| `ObserverListThreadSafe.NextAtHomeIffClean` | base/observer_list_threadsafe.h:197-200 | the next task calls its observer on the registered sequence if and only if that holds of all pending tasks |
| `ObserverListThreadSafe.AlwaysAtHomeIffAddsSafely` | base/observer_list_threadsafe.h:106-220 | over whole runs: nowhere can the next task call an observer off its registered sequence if and only if no observer is added while a task of it is pending on another sequence, and then every callback made was on its observer's sequence |
| `ObserverListThreadSafe.CalledElsewhere` | base/observer_list_threadsafe.h:157-158 | the run that breaks the promise: an observer removed with a task pending and added again on another sequence is called on the first one |
| `ObserverListThreadSafe.OneSequenceForEach` | base/observer_list_threadsafe.h:106-220 | observers always registered on one sequence of their own are called only there, in every interleaving |
| `Words.SelectionBySaving` | base/md5.cc:52-54 | the three-operation form of the selection function equals the four-operation one, bit by bit |
| `Md5Transform.F1` | base/md5.cc:50-53 | equals F of RFC 1321 for all words |
| `Md5Transform.F2` | base/md5.cc:54 | equals G of RFC 1321 for all words |
| `Md5Transform.Step` | base/md5.cc:58-60 | one macro step with its constants is the table-driven step of the same round |
| `Md5Transform.Round1A` | base/md5.cc:75-82 | the unrolled steps are steps 1 to 8 of round 1 |
| `Md5Transform.Round1B` | base/md5.cc:83-90 | the unrolled steps are steps 9 to 16 of round 1 |
| `Md5Transform.Round2A` | base/md5.cc:92-99 | the unrolled steps are steps 1 to 8 of round 2 |
| `Md5Transform.Round2B` | base/md5.cc:100-107 | the unrolled steps are steps 9 to 16 of round 2 |
| `Md5Transform.Round3A` | base/md5.cc:109-116 | the unrolled steps are steps 1 to 8 of round 3 |
| `Md5Transform.Round3B` | base/md5.cc:117-124 | the unrolled steps are steps 9 to 16 of round 3 |
| `Md5Transform.Round4A` | base/md5.cc:126-133 | the unrolled steps are steps 1 to 8 of round 4 |
| `Md5Transform.Round4B` | base/md5.cc:134-141 | the unrolled steps are steps 9 to 16 of round 4 |
| `Md5Transform.TransformBlock` | base/md5.cc:67-147 | the unrolled transform equals the table-driven transform of RFC 1321, section 3.4, for all states and blocks |
| `Md5Spec.AbsorbPieces` | base/md5.cc:171-215 | processing whole blocks piece by piece is processing them at once |
| `Md5Spec.InitialBytes` | base/md5.cc:157-165 | the initial chaining words, byte by byte, count up by 0x22 from 0x01 to 0xef and down again from 0xfe to 0x10, as section 3.3 of RFC 1321 lists them |
| `Md5Spec.SecondRoundWords` | base/md5.cc:75-107 | the words of the block in the order of the steps of rounds 1 and 2, as section 3.4 of RFC 1321 lists them |
| `Md5Spec.ThirdRoundWords` | base/md5.cc:109-124 | the same for round 3 |
| `Md5Spec.FourthRoundWords` | base/md5.cc:126-141 | the same for round 4 |
| `Md5Spec.LengthInBits` | base/md5.cc:250-258 | the two words at the end of the padding hold the number of bits modulo 2^64, low-order word first |
| `Md5KnownAnswer.AlphabetTransform` | base/md5.cc:67-147 | all sixty-four steps on the padded message of the next row, worked out to the four resulting words |
| `Md5KnownAnswer.AlphabetDigest` | base/md5_unittest.cc:170-174 | the digest of the twenty-six letters is c3fcd3d76192e4007dfb496cca67e13b, as section A.5 of RFC 1321 gives it |
| `Md5Spec.PaddedToBlocks` | base/md5.cc:217-249 | the padding of sections 3.1 and 3.2 of RFC 1321 fills whole blocks for every length |
| `Md5Spec.LoadAfterStore` | base/md5.cc:39-48 | storing a word low-order byte first and loading it gives the word |
| `Md5.ByteReverse` | base/md5.cc:39-48 | each of the first words is turned from low-order-first to the machine's order, in either byte order, and nothing else changes |
| `Md5.ReversedBlock` | base/md5.cc:195-207 | a reversed block reads natively as the specification's sixteen words, so the transform does not depend on byte order |
| `Md5.ReversedLastBlock` | base/md5.cc:250-258 | fourteen reversed words and the bit count copied natively read as the specification's last block |
| `Md5.ReversedWord` | base/md5.cc:259-260 | byteReverse on a stored chaining word leaves it low-order byte first, in either byte order |
| `Md5.BitCountAdds` | base/md5.cc:176-181 | two 32-bit words with the carry by hand hold the bit count modulo 2^64 after any addition |
| `Md5.HeldFromBitCount` | base/md5.cc:183 | the bytes held over are read off the low word correctly despite its wrap-around |
| `Md5.AbsorbShort` | base/md5.cc:187-194 | input that does not fill the buffer changes no chaining word |
| `Md5.AbsorbTopUp` | base/md5.cc:195-199 | topping up the buffer processes exactly the held bytes followed by the new ones |
| `Md5.PaddedInOneBlock` | base/md5.cc:229-249 | with room for the length field, padding in place is the specification's padding in one block |
| `Md5.PaddedInTwoBlocks` | base/md5.cc:235-242 | without room, padding in place is the specification's padding in two blocks |
| `Md5.Context.constructor` | base/md5.cc:157-165 | a new context stands for the empty message |
| `Md5.Context.Init` | base/md5.cc:157-165 | a context used before stands for the empty message again |
| `Md5.Context.Update` | base/md5.cc:171-215 | the context stands for the old message followed by the data, for any length of either |
| `Md5.Context.TakeBlocks` | base/md5.cc:204-214 | the block loop absorbs every whole block and holds over exactly the rest |
| `Md5.Context.PadInput` | base/md5.cc:224-249 | after padding in place one more transform with the length field completes the padded message |
| `Md5.Context.Final` | base/md5.cc:221-262 | gives the MD5 of the whole message and wipes the context |
| `Md5.Context.WriteDigest` | base/md5.cc:259-260 | the digest is the chaining words low-order byte first, in either byte order |
| `Md5.Context.Copy` | base/md5.cc:264-270 | the copy stands for the same message and shares no buffer |
| `Md5.Context.IntermediateFinal` | base/md5.cc:264-270 | gives the MD5 of the message so far and leaves the context unchanged |
| `Md5.DigestPieces` | base/md5.cc:171-270 | for every way of cutting a message into updates the digest is that of the whole, and every digest on the way that of the pieces so far |
| `Md5.Sum` | base/md5.cc:286-291 | the one-shot sum is the same MD5 |
| `Md5.DigestToBase16` | base/md5.cc:272-284 | the lower-case hexadecimal text of the digest |
| `Md5.Base16RoundTrip` | base/md5.cc:272-284 | the text identifies the digest: it is read back exactly |
| `Md5.Base16At` | base/md5.cc:272-284 | the text has two digits for every byte, in the order of the bytes, the high one first |
| `Md5.HexDigitIs` | base/md5.cc:273 | the digits are 0 to 9 and then a to f |
| `LazyProtocol.StepKeepsInv` | base/lazy_instance_helpers.h:58-95 | with real creators every step of every thread, stale loads included, keeps the word on its way 0, creating, pointer |
| `LazyProtocol.RunKeepsInv` | base/lazy_instance_helpers.cc:14-61 | so does every interleaving of any number of threads and calls |
| `LazyProtocol.CreatedOnce` | base/lazy_instance_helpers.cc:14-24 | at most one thread is ever creating, and the creator runs at most once |
| `LazyProtocol.ReturnsTheInstance` | base/lazy_instance_helpers.h:71-95 | every call that has returned gave the pointer of the one creation, never 0 or 1, and its thread sees all the constructor's writes |
| `LazyProtocol.RegisteredOnce` | base/lazy_instance_helpers.cc:49-61 | at most one destructor is registered, and by the time the winner's call returns it is, if there is one |
| `LazyProtocol.PointerIsReturned` | base/lazy_instance_helpers.h:71-95 | once the word holds a pointer a new caller has returned it after one load of the newest value and a spinning thread after two, and every other call that is not creating finishes as soon |
| `LazyProtocol.NobodyIsStuck` | base/lazy_instance_helpers.cc:14-61 | from every reachable state, with real creators, every thread can still come to its return: a waiting thread needs only the creating one to go on |
| `LazyProtocol.CallAlone` | base/lazy_instance_helpers.h:78-94 | a thread calling alone while the word is 0 creates, gets whatever its creator returns, null included, and leaves that in the word |
| `LazyProtocol.SafeIffAllReal` | base/lazy_instance_helpers.cc:53-60 | the guarantee holds in all interleavings if and only if no creator returns null or the creating mark |
| `LazyProtocol.NullCreatesTwice` | base/lazy_instance_helpers.cc:53-56 | the run that constructs twice: a null result resets the word and the next call creates again |
| `LazyProtocol.OneCreationIffNoneNull` | base/lazy_instance_helpers.cc:14-61 | in all interleavings there is at most one construction if and only if no creator returns null |
| `AtExit.Process.Pointer` | base/lazy_instance.h:151-160 | a call, with every creation it causes, completes the constructions in depth-first order, or spins exactly when a constructor asks for an instance it is part of |
| `AtExit.Process.RunConstructor` | base/lazy_instance_helpers.h:79-85 | the calls of a constructor complete in order before the instance itself does |
| `AtExit.Process.CompleteLazyInstance` | base/lazy_instance_helpers.cc:49-61 | the instance is published and its destructor registered, in order of completion |
| `AtExit.Process.ProcessCallbacksNow` | base/at_exit.cc:68-96 | every registered destructor runs once, last registered first, and resets its word; no other word changes |
| `AtExit.NestedFinishes` | base/lazy_instance_helpers.h:78-94 | without self-dependent constructors no call spins |
| `AtExit.OwnInstanceSpins` | base/lazy_instance_helpers.cc:14-47 | a constructor that first asks for its own instance, or for one whose construction it is part of, spins |
| `AtExit.LeavesInOrder` | base/lazy_instance_helpers.h:78-94 | calls for new instances complete in the order of the calls |
| `AtExit.CompletesAfterItsBody` | base/lazy_instance_helpers.h:79-85 | an instance completes after every instance its constructor called for |
| `AtExit.UsedCompletesFirst` | base/lazy_instance_helpers.h:79-85 | at any nesting depth, what a constructor called for completed before the instance did |
| `AtExit.ChainCompletesFirst` | base/lazy_instance_helpers.h:79-85 | what was called for through other constructors, however many and whether or not they register, completed first as well |
| `AtExit.CallUses` | base/lazy_instance_helpers.h:79-85 | the uses of a program hold, for every call that constructs its instance, everything its constructor calls for |
| `AtExit.DestroyedBeforeWhatItUses` | base/at_exit.cc:88-92 | of two registering instances the one that completed later is destroyed first |
| `AtExit.RunAndExit` | base/at_exit.cc:56-96 | for every nesting of creations: destructors run in reverse order of completion, each constructed registering instance is destroyed once and its word returns to 0, and every instance goes before whatever its constructor created or used, directly or through others, leaky ones included |
| `Text.TrimFacts` | base/strings/string_util.cc:281-315 | trimming gives a trimmed part of the text, is the identity on trimmed text, and removes something from any other |
| `CommandLine.FindPrefix` | base/command_line.cc:47-54 | the length of the longest switch prefix that the platform knows, or 0 |
| `CommandLine.CommandLine.AppendSwitchNative` | base/command_line.cc:327-348 | the switch is indexed under its folded name without prefix, and its entry goes just before the arguments |
| `CommandLine.CommandLine.AppendSwitchesAndArguments` | base/command_line.cc:75-102 | the trimmed tokens are taken in order, as switches up to the terminator |
| `CommandLine.CommandLine.InitFromArgv` | base/command_line.cc:261-267 | whatever the line held before, it becomes the parse of the given vector |
| `CommandLine.CommandLine.GetArgs` | base/command_line.cc:370-379 | the arguments in order without the first terminator |
| `CommandLine.CommandLine.GetArgumentsString` | base/command_line.cc:456-485 | the tokens printed one by one with single spaces, switch values and arguments quoted |
| `CommandLine.WithoutFirstAt` | base/command_line.cc:370-379 | erasing at the first position found is dropping the first terminator |
| `CommandLineLaws.TokensPartitioned` | base/command_line.cc:75-102 | parsing is a stable partition: switches in order before the divider, all other tokens in order after it |
| `CommandLineReading.IsSwitchIff` | base/command_line.cc:58-72 | a token is a switch if and only if something follows a dash, or a slash where that starts switches, and it is not the terminator `--` |
| `CommandLineReading.TokensRead` | base/command_line.cc:75-102 | from the first `--` on every token is an argument, and before it exactly those that do not look like a switch are, in order |
| `CommandLineReading.LineByCharacters` | base/command_line.cc:261-267 | the parsed vector is the program, the stored switches before the first `--`, the other tokens before it, and then everything from it on |
| `CommandLineReading.SwitchRead` | base/command_line.cc:58-102 | a switch of any prefix with a name and a value after the first `=` is indexed under the name alone with exactly that value, and stored with its prefix, its name folded and an empty value left out |
| `CommandLineReading.BareNameAppended` | base/command_line.cc:327-348 | a switch appended under a bare name is stored with two dashes and indexed under the name |
| `CommandLineReading.FoldIsCase` | base/command_line.cc:328-336 | on Windows folded names hold no capital letter and are alike if and only if the names differ in case only; elsewhere names are kept as they are |
| `CommandLineReading.OneKeyForEveryCase` | base/command_line.cc:328-341 | on Windows names that differ in case only have one key |
| `CommandLineReading.KeysAreLower` | base/command_line.cc:328-341 | on Windows no key of a parsed line holds a capital letter |
| `Text.BlanksAre` | base/strings/string_util_constants.cc:9-53 | the blanks of the two platforms, listed |
| `Text.TrimAround` | base/strings/string_util.cc:282-313 | trimming takes off the blanks at both ends and nothing else |
| `CommandLineLaws.NoTokenLost` | base/command_line.cc:75-102 | every token goes to one side, none is lost or doubled |
| `CommandLineLaws.FromArgvPartition` | base/command_line.cc:261-267 | the vector is the program, the stored switches and the arguments, with the divider between |
| `CommandLineLaws.StableUnlessLossy` | base/command_line.cc:327-348 | a stored switch that is not lossy is read again as the same switch with the same key and value |
| `CommandLineLaws.LossyIsReadDifferently` | base/command_line.cc:342-347 | a lossy one is read as something else |
| `CommandLineLaws.ParsedTwiceIffNoneLossy` | base/command_line.cc:58-102 | parsing a parsed vector again gives the same vector, index and divider if and only if no switch token has an empty value after its `=` and a name that is empty or ends in a blank |
| `CommandLineLaws.LossyLine` | base/command_line.cc:342-347 | the input that fails: a line with `--x =` parses to a vector that parses to another line |
| `CommandLineLaws.ScanIsLast` | base/command_line.cc:58-72 | a scan of the entries holds a key if and only if some entry has it, with the value of the last such entry |
| `CommandLineLaws.FromArgvAgrees` | base/command_line.cc:261-267 | after parsing, the index is what a scan of the switch entries gives |
| `CommandLineLaws.SwitchAgrees` | base/command_line.cc:327-348 | appending a switch keeps that if and only if its name holds no `=` |
| `CommandLineLaws.ArgAgrees` | base/command_line.cc:396-398 | appending an argument never changes whether the index agrees with the vector |
| `CommandLineLaws.AgreesIffNamesHaveNoEquals` | base/command_line.cc:327-398 | after parsing and any appending calls the index agrees with the vector if and only if no appended name holds `=` |
| `CommandLineLaws.DisagreeingLine` | base/command_line.cc:327-348 | the input that fails: a switch appended under the name `a=b` is indexed under a key that no entry has |
| `WindowsQuoting.HasQuotable` | base/command_line.cc:110-118 | found exactly when the argument holds a space, backslash, quote or, if asked for, a percent sign |
| `WindowsQuoting.QuoteArgument` | base/command_line.cc:106-151 | the index loop computes the recursive quoting |
| `WindowsQuoting.SplitEscaped` | base/command_line.cc:120-148 | reading an escaped text and its closing quote by the documented rules gives the text, whatever backslashes and quotes it holds |
| `WindowsQuoting.QuotesUnmarked` | base/command_line.cc:106-118 | without backslashes and quotes an argument is written as it is, between quotes exactly if it holds a space or, where placeholders are quoted, a percent sign |
| `WindowsQuoting.QuotesRun` | base/command_line.cc:120-148 | a run of backslashes is doubled before a quote or at the end and kept elsewhere, and a quote gets a backslash |
| `WindowsQuoting.ReadsLiteralRun` | base/command_line.cc:106-151 | the reader that quoting is for takes backslashes that no quote follows literally |
| `WindowsQuoting.ReadsEvenRun` | base/command_line.cc:106-151 | it takes an even run before a quote for half as many backslashes, and the quote opens text in which blanks do not separate |
| `WindowsQuoting.ReadsOddRun` | base/command_line.cc:106-151 | it takes an odd run before a quote for half as many backslashes and the quote itself |
| `WindowsQuoting.ReadsBlank` | base/command_line.cc:106-151 | outside quotes it separates arguments at spaces and tabs |
| `WindowsQuoting.SurvivorsReadBack` | base/command_line.cc:106-151 | surviving arguments quoted and joined with spaces are read back exactly |
| `WindowsQuoting.OnlySurvivorsAreRead` | base/command_line.cc:110-118 | nothing else is ever read from a joined line |
| `WindowsQuoting.ReadsBackIffAllSurvive` | base/command_line.cc:106-151 | for every list of arguments, with or without placeholder quoting: read back exactly if and only if all survive |
| `WindowsQuoting.LostArguments` | base/command_line.cc:110-118 | the inputs that fail: an empty argument is lost, and one with a tab alone is cut |
| `WindowsQuoting.TabFreeReadsBack` | base/command_line.cc:106-151 | in particular for every list of non-empty, tab-free arguments |
| `CommandLineString.SplitToken` | base/command_line.cc:470-482 | a printable token, switch or argument, is read back as one argument |
| `CommandLineString.PrintedReadsBack` | base/command_line.cc:456-485 | printable tokens are read back exactly from the printed line |
| `CommandLineLoss.ReadYields` | base/command_line.cc:106-151 | whatever quotes are open, reading yields no more text than the backslash rules leave |
| `CommandLineLoss.YieldToken` | base/command_line.cc:470-482 | a printed token yields at most itself, and less if its name, printed as it stands, holds a quote |
| `CommandLineLoss.LineRead` | base/command_line.cc:456-485 | without such names, text and number of arguments are both kept only if every token is printable |
| `CommandLineLoss.ReadsBackIffPrintable` | base/command_line.cc:456-485 | the printed arguments of a line are read back exactly if and only if every token is printable |
| `CommandLineLoss.ParsedWeight` | base/command_line.cc:75-102 | parsing adds no text and drops no token |
| `CommandLineLoss.SameInChildIff` | base/command_line.cc:456-485 | a line printed for a child process is the same line in the child if and only if none of its switches is lossy and all its tokens are printable |
| `OrderedMap.Find` | base/feature_list.cc:121-127 | the entry of a key, or the size when there is none |
| `OrderedMap.LessAt` | base/feature_list.h:290 | keys are ordered by their first difference: the smaller character, or the earlier end, comes first |
| `OrderedMap.InsertedIsInsert` | base/feature_list.cc:371-376 | insertion keeps the order and does not overwrite |
| `OrderedMap.SortedIsCanonical` | base/feature_list.cc:378-417 | the order of printing is determined by the mapping alone |
| `FeatureList.FeatureList.RegisterOverride` | base/feature_list.cc:358-376 | an override is stored under the unstarred name, unless there is one already |
| `FeatureList.FeatureList.SplitFeatureListString` | base/strings/string_split.cc:72-103 | the index loop gives the comma-separated pieces, trimmed and without the empty ones |
| `FeatureList.FeatureList.RegisterOverridesFromCommandLine` | base/feature_list.cc:339-356 | each piece is registered in order, with the trial after its `<` if the registry knows it |
| `FeatureList.FeatureList.InitializeFromCommandLine` | base/feature_list.cc:88-99 | the disable list is registered before the enable list |
| `FeatureList.FeatureList.RegisterFieldTrialOverride` | base/feature_list.cc:149-161 | a trial's override is registered unless the name has one |
| `FeatureList.FeatureList.IsFeatureOverriddenFromCommandLine` | base/feature_list.cc:121-127 | true exactly for a stored override with that state that no trial made |
| `FeatureList.FeatureList.AssociateReportingFieldTrial` | base/feature_list.cc:129-147 | only the trial of that entry changes, and only if it had none |
| `FeatureList.FeatureList.IsFeatureEnabled` | base/feature_list.cc:302-323 | the stored state decides, and the default where there is none or it says so; a stored trial is activated whatever the state |
| `FeatureList.FeatureList.GetFeatureOverrides` | base/feature_list.cc:378-417 | both strings hold their entries in name order, marked and with their trials |
| `FeatureListLaws.FirstRegistrationStays` | base/feature_list.cc:371-376 | of any registrations exactly the first of each name is stored |
| `FeatureListLaws.AssociatedKeepsStates` | base/feature_list.cc:129-147 | associating a trial changes no state |
| `FeatureListLaws.FirstRegistrationDecides` | base/feature_list.cc:339-376 | after any trial registrations and associations a state is that of the first registration: disable list, enable list, trials |
| `FeatureListLaws.StoredStateStays` | base/feature_list.cc:129-161 | a stored state is never changed by later steps |
| `FeatureListLaws.ConfigureAndQuery` | base/feature_list.cc:88-323 | from the two strings through any steps to a query: the first registration of the name decides, or the default |
| `FeatureListReading.FeaturesConcat` | base/feature_list.cc:217-220 | a comma separates the entries of a list |
| `FeatureListReading.OneFeature` | base/feature_list.cc:217-220 | between commas blanks at the ends do not matter, and nothing else is no entry |
| `FeatureListReading.EntrySays` | base/feature_list.cc:339-376 | an entry is about a feature if and only if it is its name, perhaps after a star and perhaps with a trial after `<`; a star stands for the default |
| `FeatureListReading.TrialsSay` | base/feature_list.cc:148-161 | among the field trials the first one registered for a feature decides |
| `FeatureListReading.StateByCharacters` | base/feature_list.cc:88-99 | the first entry about a feature in the disable list decides, then the first in the enable list, then the first trial |
| `FeatureListReading.DisabledIsOff` | base/feature_list.cc:93-96 | a feature named in the disable list is off whatever the enable list, the trials and the default say, unless the disable list stars it |
| `FeatureListReading.EnabledIsOn` | base/feature_list.cc:88-99 | a feature named in the enable list is on whatever the trials and the default say, unless the disable list is about it or the enable list stars it |
| `FeatureListReading.OthersFollowTrials` | base/feature_list.cc:302-323 | a feature that neither list is about is as its first field trial says, and as by default without one |
| `FeatureListReading.CommandLineNames` | base/feature_list.cc:192-196 | the command-line overrides are printed as bare names, those switched on in one list and those switched off in the other, without those of trials and defaults |
| `FeatureListReading.AssociatedTrials` | base/feature_list.cc:129-145 | a reporting trial is given to the one feature, if it has none |
| `FeatureListLaws.FeaturesOfJoin` | base/feature_list.cc:378-417 | joined items without commas are split into the same items, up to trimming |
| `FeatureListLaws.ReadPrinted` | base/feature_list.cc:339-376 | a readable entry is read back with its name, state and trial |
| `FeatureListLaws.RestoredNames` | base/feature_list.cc:339-356 | only names without `,` and `<` can come back |
| `FeatureListLaws.RestoredItems` | base/feature_list.cc:217-220 | if everything comes back, every printed item was non-empty and trimmed |
| `FeatureListLaws.RestoredIffReadable` | base/feature_list.cc:339-417 | printing and reading into a new list restores every name with state and trial if and only if every entry is readable |
| `FeatureListLaws.LostName` | base/feature_list.cc:345-351 | the input that fails: a feature named `a<b` is not restored |
| `FeatureListLaws.PlainNamesAreRestored` | base/feature_list.cc:339-417 | in particular for non-empty, trimmed names free of `,`, `<` and `*` |
| `FeatureListLaws.PassToChild` | base/feature_list.cc:378-417 | a child given a parent's strings holds what the round trip restores |
| `Environment.ParseEnvLine` | base/environment.cc:107-119 | the key before the first `=`, or the whole line, and the length with the null |
| `Environment.CollectLines` | base/environment.cc:188-215 | the storage is the unchanged lines then the set changes, packed, with the offset of each |
| `Environment.StorageFits` | base/environment.cc:217-226 | the allocated slots hold all pointers, the null pointer and all bytes, for any pointer size |
| `Environment.AlterEnvironment` | base/environment.cc:186-234 | every pointer and byte lies in the block, and reading it gives exactly the altered lines |
| `Environment.ReadsAltered` | base/environment.cc:222-231 | a reader of the pointers finds the lines in order and stops at the null pointer |
| `Environment.CopyUnchanged` | base/environment.cc:150-163 | the scan copies exactly the lines whose key is not changed |
| `Environment.AlterWindowsEnvironment` | base/environment.cc:146-182 | the result is the block of the altered lines, with the two nulls of an empty block, and is read back as exactly those lines |
| `Environment.WindowsBlockReads` | base/environment.cc:146-182 | a block is read back as the lines it was made of |
| `Environment.AlteredLookup` | base/environment.h:56-60 | a changed variable has its new value, or none if that is empty, and any other is as it was |
| `Environment.OneVariable` | base/environment_unittest.cc:140-171 | a variable set, changed or removed: its line is the name, `=` and the new value, or none if that is empty |
| `Environment.OtherVariable` | base/environment.cc:188-204 | a line of any other variable stays, and comes before the new ones |
| `Environment.SmallBlocks` | base/environment_unittest.cc:104-135 | the blocks of no, one and two lines, null by null |
| `Environment.AppliedTwiceIffNoneEscapes` | base/environment.cc:186-234 | applying the changes twice equals applying them once if and only if no set change has a key whose part before `=` is unchanged |
| `Environment.AddedTwice` | base/environment.cc:194-215 | the input that fails: setting the key `a=b` twice adds its line twice |
| `Environment.NoEqualsNoneEscapes` | base/environment.cc:107-119 | in particular when no changed key holds `=` |
| `DeferredTaskRunner.Runner.PostDelayedTask` | base/deferred_sequenced_task_runner.cc:37-50 | the task joins the posted sequence unchanged; before the start it is accepted, afterwards the target answers |
| `DeferredTaskRunner.Runner.PostNonNestableDelayedTask` | base/deferred_sequenced_task_runner.cc:60-73 | the same, marked as not nestable |
| `DeferredTaskRunner.Runner.QueueDeferredTask` | base/deferred_sequenced_task_runner.cc:91-107 | the task with its delay and mark goes to the end of what the target is still to receive |
| `DeferredTaskRunner.Runner.StartImpl` | base/deferred_sequenced_task_runner.cc:109-127 | the target has then received everything posted, in order, by the right call, and the queue is empty |
| `DeferredTaskRunner.Runner.StartWithTaskRunner` | base/deferred_sequenced_task_runner.cc:80-87 | the same once the target is known |
| `DeferredTaskRunner.RunCalls` | base/deferred_sequenced_task_runner.cc:37-127 | in every interleaving of posts and one start, after each call the target has received all posts so far from the start on and nothing before it |
| `DeferredTaskRunner.PostsInOrder` | base/deferred_sequenced_task_runner.cc:91-107 | posts come in the order of the calls, each as it was made, and a start posts nothing |

## Left out

- base/observer_list.h: the emptiness check of the destructor, iterator comparison and post-increment, and iterators assigned between two lists.
- ObserverList.ObserverList.Perform: a callback's actions on a list that has been destroyed are skipped, since the code allows none.
- base/callback_list.h: copies of iterators, and replacing the removal callback while the list is in use.
- base/observer_list_threadsafe.h: reference counting of the list. An observer is added only when it is not registered, as the debug check demands.
- ObserverListThreadSafe: modelled as a state machine on values, one locked section a step; the order in which a sequence runs its tasks is left open.
- base/lazy_instance_helpers.cc: the timing of the spin, fairness towards the creating thread, and memory-model effects beyond release and acquire on the one word.
- base/at_exit.cc: shadowing managers, disabling them, and destructors that register destructors or touch lazy instances.
- base/command_line.cc: `PrependWrapper`, `ParseFromString`, `CopySwitchesFrom`, the program's own parsing rule on Windows, and conversions between UTF-16 and ASCII.
- base/feature_list.cc: the shared-memory paths, the identity check of features, and the process-wide instance.
- FeatureListLaws.RestoredIffReadable: does not restore whether a trial made the override or was associated for reporting, because that is not printed.
- base/environment.cc: reading and setting variables of the process, which are system calls.
- base/deferred_sequenced_task_runner.cc: `RunsTasksInCurrentSequence`, and posts from inside the target while the runner starts.
- base/bind.h, base/callback.h, base/optional.h: type machinery for bound functions and for a value that may be missing.
- base/base64.cc, base/hash.cc, base/bits.h: fixed computations on bytes and words, the first two of them in code outside this directory.
- base/logging.cc, base/native_library.cc, base/base_paths.cc and their like: output, and calls of the operating system.
- base/big_endian.cc, base/guid.cc, base/barrier_closure.cc, base/atomic_ref_count.h: one fixed-width conversion or one counter each.
