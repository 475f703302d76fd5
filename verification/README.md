# riotsensors in Dafny

riotsensors lets a RIOT board register sensor lambdas that a Linux machine on the other end of a serial line can call.
This project models the three parts of it that carry the logic, and proves what they promise.

**The lambda protocol** (`LambdaRegistry`, `Board`, `Connector`, `Replay`, `Session*`, `WholeCalls`). Both sides keep a
registry. A registration packet carries no id: Linux finds the id by replaying registrations in order, and everything
else - which lambda a call reaches, which member of an untagged union is read - rests on the two sides agreeing. The
board and the Linux client are classes whose methods are proved equal to functions on tables of values; `Session` puts these functions
together as a step system with a FIFO channel each way and any number of calling threads. `SessionTheorems` states what
holds at the end of every run; `SessionExact` decides from the registrations alone, in both directions, in which
sessions something goes wrong; `WholeCalls` says what a whole call of the client comes to. The packet handler takes no
lock, so it may come between any two steps of a call, also between a cache check and the send that follows it.

**The floating point codec** (`Powers`, `Ieee754`, `DoublePacket`). `pack754`/`unpack754` over exact reals, and the
double result packet, which stores the packed 64-bit word back into a double.

**The query splitter** (`CoapQuery`). A strtok loop that builds a linked list, against a recursive specification.

Two conventions of the model. Everything the board has ever sent is one sequence, `wire`, and Linux has handled a prefix
of it; so Linux's table is a function of that prefix. Numbers in packets are reals for doubles and integers otherwise;
shifts and masks are written with powers of two.

## Where the code does not do what it seems to be meant to do

Each of these is shown by a lemma that exhibits it, and decided by one that says exactly when it happens.

- `unregister_lambda` puts the type byte of a registration on its packet (riotmodule/rs.c:244). Linux then drops it for
  its length. The tag is a parameter, `Coded` or `Intended`; each theorem says which it needs.
- Linux does not compare the kind of a result with the type of the lambda. With the coded tag and a repeated name it can
  take an integer for a string: `TypeConfusion` for two given registrations; `UnionTypeExactly` says which member of the
  union is written, `TypeConfusionExactly` for which registrations it can be the wrong one.
- Only RS_CACHE_ONLY lambdas may have a null function, and Linux calls no lambda that it knows to be RS_CACHE_ONLY. The
  board invokes a null function all the same when a call takes one registration for another (`NullCallById`,
  `NullCallByName`). `NullCallExactly` says for which registrations, and which calls.
- Ids are returned as a signed byte, so a board does not announce registrations from the 129th on
  (protocol/lambda_registry.c:95, riotmodule/rs.c:41). This is modelled as coded; the registries are equal exactly while
  there are at most 128 registrations (`MirrorByReplay`), and `TooManyToAnnounce` is a run with 129. The ids 251, 253 and
  254 come out as the codes of refusals (`CodesClashExactly`).
- `last_call_error` is looked at only after a timeout (linuxconnector/rs_connector.c:220-226), so a call that an error
  packet woke reports success, with nothing stored (`SuccessWithoutResult`) or with an old value, also of an
  RS_CACHE_NO_CACHE lambda (`StaleSuccess`); and an error that was not looked at is reported by a later call
  (`StaleError`, decided by `ErrorFromWait`). `ValueFromWait` says when success comes with a value and when with a new
  one, `MisleadsExactly` for which registrations it can come without a new one.
- A result that arrives between a thread's send and its wait (`ResultBeforeWait`) wakes nobody, and the call reports
  RS_CALL_TIMEOUT. `WaitEndsExactly` says when a wait times out, and where a result must have come that it missed.
- A result that arrives between a thread's cache check and its send (`ResultAfterCheck`) does not stop the send: an
  RS_CACHE_CALL_ONCE lambda can be called once more after its first cached result. `CallOnceExactly` says exactly when,
  and `CalledAtMostOnceMore` that it is once.
- `(1LL << s) + 0.5f` is 2^s only from s = 23 on; below, a significand can overflow into the exponent (`OverflowIsLost`).
  `KeepsOrderExactly`, `CutsTowardsZeroExactly` and `StaysNearExactly` say for which s order and error bounds hold,
  `NearExactly` for which numbers. Both formats in use have s >= 23.
- A word that rounds up past the largest exponent reads back as 2^1024: this happens to the largest doubles
  (`LargestOverflows`), and `StaysFiniteExactly` says to which.
- The smallest positive number with biased exponent 0 is encoded as the word 0 and read back as zero (`SmallestVanishes`,
  `VanishesExactly`).

## Model

| member | source | states |
|---|---|---|
| LambdaRegistry.Registry.Init | protocol/lambda_registry.c:27-31 | every slot becomes empty, the counter keeps its value; the 8-bit index never wraps |
| LambdaRegistry.Registry.Free | protocol/lambda_registry.c:33-41 | the table becomes empty and ids start again |
| LambdaRegistry.Registry.GetById | protocol/lambda_registry.c:43-49 | finds what the table holds under the id, nothing for an id beyond the counter |
| LambdaRegistry.Registry.GetByName | protocol/lambda_registry.c:51-60 | the scan finds the first live lambda of the name |
| LambdaRegistry.ByName | protocol/lambda_registry.c:51-60 | a lambda found is in the table under that name; if none is found, no live lambda has it |
| LambdaRegistry.Registry.Register | protocol/lambda_registry.c:62-96 | refuses in the code's order with the code's errors, else appends under the next id, returned as a signed byte |
| LambdaRegistry.Registry.Unregister | protocol/lambda_registry.c:98-108 | empties the slot of a live lambda, else reports that there is none |
| LambdaRegistry.RegisterExactly | protocol/lambda_registry.c:62-96 | refused exactly if all 255 ids are given, the name is empty, longer than 12 or not alphanumeric, or a live lambda has it, with the code of the first of these; else the lambda is found under the next id, and the code stands for that id |
| LambdaRegistry.UnregisterExactly | protocol/lambda_registry.c:98-108 | succeeds exactly for a live lambda, and empties its slot alone |
| LambdaRegistry.CodesStandForIds | protocol/lambda_registry.c:62-96 | over any operations, each accepted registration returns a code for the id that it was given |
| LambdaRegistry.RegistryInvariant | protocol/lambda_registry.c:27-108 | after any operations: at most 255 ids, live lambdas sit under their own id, and their names differ |
| LambdaRegistry.IdsAreGivenInOrder | protocol/lambda_registry.c:81-94 | between two frees the k-th successful registration gets the k-th id, so no id is given twice |
| LambdaRegistry.LookupsAreInverse | protocol/lambda_registry.c:43-60 | a lookup by name finds exactly the lambda that a lookup by its id finds |
| LambdaRegistry.ParallelRegistering | protocol/lambda_registry.c:62-96 | two registries with the same lambdas accept or refuse alike and give the same id, whatever is attached |
| Board.Node.Start | riotmodule/rs.c:358-367 | starting empties the slots but not the counter |
| Board.Node.RegisterLambda | riotmodule/rs.c:32-58 | a null function needs RS_CACHE_ONLY; a registration packet goes out only if the result is not negative |
| Board.Node.CallLambda | riotmodule/rs.c:69-80 | not found, wrong type, a call of the function, or a call of a null function |
| SessionInvariant.NullFunctionFound | riotmodule/rs.c:34-80 | a null function is met only under a live RS_CACHE_ONLY registration of the type called for, the last one of its name |
| Board.Node.SendResult | riotmodule/rs.c:140-160 | sends a result packet only for a live lambda of the value's type, under its id and name |
| Board.Node.UnregisterLambda | riotmodule/rs.c:236-255 | frees a live lambda and sends a packet with the tag's type byte |
| Board.Node.GetLambdaIdFromName | riotmodule/rs.c:257-263 | the id of the live lambda of that name, 255 if there is none, and never 255 otherwise |
| Board.RegisterOutcomeExactly | riotmodule/rs.c:32-58 | every return code exactly with its cause; an accepted lambda is found with its function under the id that the code stands for, and announced exactly if that is below 128 |
| Board.CodesClashExactly | protocol/lambda_registry.c:95-95 | an accepted registration returns the code of a refusal exactly for the ids 251, 253 and 254 |
| Board.UnregisterOutcomeExactly | riotmodule/rs.c:236-255 | succeeds exactly for a live lambda, of which it empties the slot and announces id and name; Linux takes that for an unregistration exactly with the intended tag |
| Board.SendOutcomeExactly | riotmodule/rs.c:140-234 | not found exactly if the lambda is not live, wrong type exactly if it is live with another type, else the value is sent under its id and name |
| Board.Node.HandleCallLambda | riotmodule/rs.c:265-306 | calls and sends the result, or sends an error, or ignores an unknown type |
| Board.Node.HandleReceivedPacket | riotmodule/rs.c:308-356 | handles a call by id or by name; an unknown name is ignored |
| Board.OneReplyPerCall | riotmodule/rs.c:265-356 | each call with a known type and lambda gets exactly one reply, for that id: the answer if the lambda is live with that type, not found exactly if it is not live, wrong type exactly if it has another |
| Board.CrashExactly | riotmodule/rs.c:69-80 | a null function is invoked exactly by a call for a live lambda of its type that has none |
| Board.AddresseeExactly | riotmodule/rs.c:257-349 | a call of one of the three types is for the id in it, or for the live lambda of the name in it |
| Connector.Client.HandleReceivedPacket | linuxconnector/rs_connector.c:23-191 | dispatch on type byte and length; table, errors and the broadcast after each packet |
| Connector.Client.HandleRegistered | linuxconnector/rs_connector.c:39-56 | registers with a new object that caches nothing |
| Connector.Client.HandleUnregistered | linuxconnector/rs_connector.c:63-80 | frees the lambda of that id if there is one |
| Connector.Client.HandleResult | linuxconnector/rs_connector.c:88-157 | writes the union member, clears the error, marks it cached and wakes the waiters, without a look at the type |
| Connector.Client.HandleError | linuxconnector/rs_connector.c:165-180 | stores the error code and wakes the waiters |
| Replay.CacheDecision | linuxconnector/rs_connector.c:256-287 | what the four policies decide in terms of packets: an answer from the cache exactly if a result came since the registration and the policy is RS_CACHE_CALL_ONCE or RS_CACHE_ONLY, and then the latest; without one RS_CACHE_ONLY fails and every other calls |
| Replay.NotFoundExactly | linuxconnector/rs_connector.c:292-296 | a call is refused as not found exactly if no live lambda has the id or name |
| Replay.CheckExactly | linuxconnector/rs_connector.c:256-305 | for a live lambda: wrong type exactly if it has another one, whatever is cached; else the policies decide, in terms of packets, between the latest value, RS_CALL_CACHE_EMPTY and a call of this lambda |
| Replay.EndDecision | linuxconnector/rs_connector.c:220-253 | what is returned when a wait has ended: success exactly without a timeout; after one the pending error, taken back; else, exactly with RS_CACHE_ON_TIMEOUT, the latest result since the registration or RS_CALL_CACHE_TIMEOUT_EMPTY, and RS_CALL_TIMEOUT with every other policy |
| Connector.Client.CallLambdaById | linuxconnector/rs_connector.c:289-319 | the whole call: its code and result, the packet sent exactly if it has to be, the table and errors after the packets handled meanwhile; on each of its ways out the mutex is free and has been unlocked as often as locked |
| Connector.Client.CallLambdaByName | linuxconnector/rs_connector.c:320-349 | the same for a call by name |
| Connector.Client.CondTimedWait | linuxconnector/rs_connector.c:217-219 | the mutex is free while packets are handled, up to the first that wakes this lambda's waiters; without one the wait times out |
| Connector.Client.WaitLambdaResult | linuxconnector/rs_connector.c:215-254 | code, stored result and remaining error after the wait; each of the five ways out unlocks once |
| WholeCalls.AwaitExactly | linuxconnector/rs_connector.c:217-220 | the wait of a call handles packets up to the first reply for its lambda, and times out exactly if there is none |
| WholeCalls.CompleteExactly | linuxconnector/rs_connector.c:289-349 | a whole call for a live lambda sends its packet exactly if it has to; it returns RS_CALL_SUCCESS exactly if it does and a reply for its lambda comes, then with the value of that reply; without a reply it returns what `EndDecision` says |
| WholeCalls.CompleteNotFound | linuxconnector/rs_connector.c:292-296 | a whole call for no live lambda sends and changes nothing |
| Replay.HandleByKind | linuxconnector/rs_connector.c:33-181 | the length checks leave of each packet what its name says; an unregistration with the coded tag is dropped |
| Replay.HandleStep | linuxconnector/rs_connector.c:33-181 | no packet shortens the table, refills a freed slot or changes what an id stands for |
| Replay.FoldContinuesReplay | linuxconnector/rs_connector.c:23-191 | handling what is under way from the present table equals replaying everything |
| Replay.MirrorAfterRegister | riotmodule/rs.c:33-58 | a registration on the board, announced or not, keeps the replayed table equal to the expected one |
| Replay.MirrorAfterUnregister | riotmodule/rs.c:236-255 | so does an unregistration, with either tag |
| Replay.RegisterAllDistinct | protocol/lambda_registry.c:62-96 | without a repeated name, replaying a log gives each entry the id of its place |
| Replay.RegisterAllRepeated | protocol/lambda_registry.c:78-80 | a repeated name leaves the replayed table short for good |
| Replay.RegisterAllIsFirstUses | protocol/lambda_registry.c:62-96 | where nothing is removed, the table holds exactly the registrations that repeat no name, in order |
| Replay.LinuxInfoIsKnown | linuxconnector/rs_connector.c:33-80 | what Linux has, or had, under each id, computed from the board's registrations, with either tag |
| Replay.AgreementAfterRegister | linuxconnector/rs_connector.c:33-56 | an announced registration gets its board id on Linux when its turn comes |
| Replay.AgreementAfterPacket | linuxconnector/rs_connector.c:57-180 | no other packet that a board sends breaks the agreement on ids and types |
| Replay.RegistrationOfId | protocol/lambda_registry.c:81-95 | an id of Linux stands for good for one registration packet |
| Replay.Provenance | linuxconnector/rs_connector.c:81-157 | what is cached is the payload of the latest result packet for the id, which came after the registration; nothing is cached exactly if there was none |
| SessionInvariant.NullCallFound | riotmodule/rs.c:308-349 | if a call that Linux sent reaches a null function, Linux means a registration that is not RS_CACHE_ONLY and the board takes it for one that is, of the same type and the same id or name |
| SessionInvariant.CallIsSafe | riotmodule/rs.c:308-349 | so it does not, by id where ids agree, by name where names are also distinct |
| SessionInvariant.ClearedFits | linuxconnector/rs_connector.c:289-305 | a call that passes the checks is for a live lambda of the right type that is not RS_CACHE_ONLY |
| SessionInvariant.ThreadFitsLater | linuxconnector/rs_connector.c:81-180 | a packet leaves waiting threads with a live lambda, and ends a wait exactly if it is a reply for its lambda |
| SessionInvariant.InvNext | linuxconnector/rs_connector.c:23-349 | every step of board, Linux and threads keeps the invariant |
| SessionInvariant.InvAlways | linuxconnector/rs_connector.c:23-349 | the invariant holds at the end of every run |
| SessionTheorems.MirrorByReplay | riotmodule/rs.c:33-58 | intended tag, every run: what Linux will have once it has handled all packets is the board's table, cut at 128 ids; the whole of it exactly up to 128 registrations |
| SessionTheorems.MirrorWithCodedTag | riotmodule/rs.c:242-253 | coded tag, every run: the two counters agree exactly while there are at most 128 registrations and no name is repeated; without a repeated name each registration sits under its own id, and the surplus is what the board unregistered |
| SessionTheorems.LinuxKnows | linuxconnector/rs_connector.c:33-80 | every run, either tag: each live lambda of Linux is the registration that the board's log says |
| SessionTheorems.UnionTypeExactly | linuxconnector/rs_connector.c:81-157 | every run, either tag: the union member last written is that of the board's registration with the id, so it is of the lambda's type exactly if the two sides' registrations of the id have the same type |
| SessionTheorems.UnionTypeSafety | linuxconnector/rs_connector.c:81-157 | so it always is where ids agree, and the lambda has the board's id, name and policy |
| SessionTheorems.CachedIsGenuine | linuxconnector/rs_connector.c:96-126 | a cached value is from the latest result packet since the registration, and equals the value the board sent, whichever of those with that encoding it was, for doubles up to 2^-42 of it |
| SessionTheorems.ValueFromCheck | linuxconnector/rs_connector.c:256-305 | a call answered with RS_CALL_CACHE returns such a value of the lambda asked for, which has the type asked for; where ids agree the value has it too |
| SessionTheorems.WaitEndsExactly | linuxconnector/rs_connector.c:215-219 | every run: a wait times out exactly if no reply for the lambda is handled while it lasts, and else ends with the first; after a timeout a result since the call came before the wait or after it |
| SessionTheorems.ValueFromWait | linuxconnector/rs_connector.c:215-254 | RS_CALL_CACHE_TIMEOUT returns such a value; RS_CALL_SUCCESS does exactly if one is cached, so always if a result ended the wait; with either code it is newer than the call exactly if a result was handled since; a negative code stores nothing, and RS_CALL_CACHE_TIMEOUT_EMPTY means that no result was |
| SessionTheorems.TimeoutExactly | linuxconnector/rs_connector.c:220-247 | every run: what a call returns after a timeout, in each case exactly, from the pending error, the policy and the packets handled |
| SessionTheorems.ResultIsForTheLambda | riotmodule/rs.c:60-63 | where ids agree, that packet bears the lambda's name and type |
| SessionTheorems.ErrorFromWait | linuxconnector/rs_connector.c:220-226 | an error reported after a timeout is that of the latest reply for the lambda, and is reported once; it is newer than the call exactly if an error for the lambda was handled since |
| SessionTheorems.ErrorLifetime | linuxconnector/rs_connector.c:158-226 | every step: `last_call_error` of a live lambda is set by a reply for it and by nothing else, and taken back by a timed-out call for it and by nothing else |
| SessionTheorems.FreshHasNoError | linuxconnector/rs_connector.c:39-56 | a lambda just registered has no error pending; the code leaves the field as malloc finds it |
| SessionTheorems.ErrorCause | riotmodule/rs.c:265-356 | an error packet that finds a lambda on Linux answers a call of one that is not RS_CACHE_ONLY; with the intended tag it is for a later registration of the same name and another type |
| SessionTheorems.ErrorInvAlways | linuxconnector/rs_connector.c:158-180 | every run: each error packet that finds a lambda, and each thread that one woke, has such a cause among the registrations |
| SessionTheorems.ErrorFreeAlways | linuxconnector/rs_connector.c:158-180 | intended tag and distinct names: no error packet ever finds a lambda or ends a wait |
| SessionTheorems.SuccessIsGenuine | linuxconnector/rs_connector.c:249-253 | then RS_CALL_SUCCESS always comes with a genuine value that is newer than the call |
| SessionTheorems.NullCallNeedsPair | riotmodule/rs.c:34-80 | every run, either tag, any names: a null function was invoked only if the log has two such registrations |
| SessionTheorems.NoNullCallback | riotmodule/rs.c:34-80 | so no call by id invokes one where ids agree, and no call at all where no name is repeated |
| SessionTheorems.NoCallForCacheOnly | linuxconnector/rs_connector.c:271-305 | every call packet ever sent is for a lambda that is not RS_CACHE_ONLY, and bears its id or name and its type |
| SessionTheorems.SilentRun | linuxconnector/rs_connector.c:261-270 | from a state with a cached RS_CACHE_CALL_ONCE lambda and no thread cleared for it, no run sends a call for it while it stays registered |
| SessionTheorems.CallOnceExactly | linuxconnector/rs_connector.c:261-317 | such a lambda can be called again exactly if a thread is between its check and its send |
| SessionTheorems.CalledAtMostOnceMore | linuxconnector/rs_connector.c:261-317 | in any continuation in which it stays registered, at most one more call for it is sent, and none without such a thread |
| SessionTheorems.CachedStays | linuxconnector/rs_connector.c:81-157 | data_cached never goes back to false for a lambda that stays registered |
| SessionTheorems.ReplyConservation | riotmodule/rs.c:140-356 | over any run, the replies sent are as many as the calls with a known type and lambda plus the successful manual sends |
| SessionTheorems.MutualExclusion | linuxconnector/rs_connector.c:215-349 | at most one thread owns the mutex, and it is free exactly if no thread is in a critical section |
| SessionTheorems.LocksBalance | linuxconnector/rs_connector.c:215-349 | over any run of the step system each thread has released the mutex as often as it has acquired it, once less while it owns it; `Connector.Client` counts on the program's own return paths |
| SessionRuns.WholeCall | linuxconnector/rs_connector.c:289-349 | what a method of the client does in one go, a thread of the session does in steps, with the same code, result, packet, table and errors |
| SessionRuns.SuccessWithoutResult | linuxconnector/rs_connector.c:220-253 | a run in which an error packet makes a call return RS_CALL_SUCCESS with nothing stored |
| SessionRuns.StaleSuccess | linuxconnector/rs_connector.c:220-253 | a run in which it returns a value older than the call, of an RS_CACHE_NO_CACHE lambda |
| SessionRuns.StaleError | linuxconnector/rs_connector.c:220-226 | a run in which a call reports an error older than itself |
| SessionRuns.ResultBeforeWait | linuxconnector/rs_connector.c:289-318 | intended tag, one lambda: a run in which a call returns RS_CALL_TIMEOUT although its result was handled since it was sent |
| SessionRuns.ResultAfterCheck | linuxconnector/rs_connector.c:261-317 | a run that reaches a cached RS_CACHE_CALL_ONCE lambda with a thread cleared to call it |
| SessionRuns.TooManyToAnnounce | protocol/lambda_registry.c:95-95 | a run with 129 registrations, after which the settled tables differ even with the intended tag |
| SessionExact.LogsExactly | riotmodule/rs.c:32-58 | the sequences of registrations that some run has are exactly those of at most 255 valid names with room for the terminator |
| SessionExact.TypeConfusionExactly | linuxconnector/rs_connector.c:81-157 | for any registrations: some run with them caches a value of another type than the lambda's exactly with the coded tag, if the registration that Linux has under an id is a later one of another type, before which the first one's name was not announced again |
| SessionExact.TypeConfusion | riotmodule/rs.c:244-244 | coded tag, a name registered again and another lambda after it: a wrong member can be read exactly if the last two have different types |
| SessionExact.NullCallExactly | riotmodule/rs.c:34-80 | for any registrations and any call: some run with them invokes a null function for that call exactly if Linux knows a lambda that is not RS_CACHE_ONLY and the board has an RS_CACHE_ONLY one of the same type, the last of its name, which the call takes for the other |
| SessionExact.NullCallById | riotmodule/rs.c:244-244 | coded tag, a name registered again and another lambda after it: exactly which calls by id of the second registration can reach a null function |
| SessionExact.NullCallByName | riotmodule/rs.c:330-349 | intended tag, two registrations of one name: exactly which calls by name can |
| SessionExact.MisleadsExactly | linuxconnector/rs_connector.c:220-253 | for any registrations: some run with them returns RS_CALL_SUCCESS without a new value exactly if, with the coded tag, there is a lambda to call, and with the intended tag, a name is announced again with another type |
| Ieee754.Significand | protocol/ieee754_network.c:33-33 | the fraction times the scale, cut down; it fits its field from s = 23 on |
| Ieee754.Pack754 | protocol/ieee754_network.c:3-40 | the normalising loops compute sign, biased exponent and cut fraction of the number |
| Ieee754.Unpack754 | protocol/ieee754_network.c:42-71 | the denormalising loops compute the number that the fields stand for |
| Ieee754.UnpackByStandard | protocol/ieee754_network.c:42-71 | a word is read as section 3.4 of IEEE 754-2008 reads a normal number: sign bit, biased exponent, significand digits, in this order |
| Ieee754.PackInvertsUnpack | protocol/ieee754_network.c:3-71 | every word of any admissible format survives decoding and encoding |
| Ieee754.UnpackInjective | protocol/ieee754_network.c:42-71 | different words stand for different numbers |
| Ieee754.TruncationBound | protocol/ieee754_network.c:9-70 | encoding and decoding keeps the sign, cuts towards zero by less than 2^-s of the number, and is exact exactly if its digits fit |
| Ieee754.VanishesExactly | protocol/ieee754_network.c:36-48 | the numbers other than zero that are encoded as the word 0 |
| Ieee754.SmallestVanishes | protocol/ieee754_network.c:36-48 | every format has one, which is read back as zero |
| Ieee754.PackMono | protocol/ieee754_network.c:20-39 | with s >= 23 the words of positive numbers are ordered as the numbers, across exponents |
| Ieee754.OverflowIsLost | protocol/ieee754_network.c:33-39 | with s < 23 there are two numbers whose words are in the wrong order |
| Ieee754.KeepsOrderExactly | protocol/ieee754_network.c:20-39 | so encoding keeps the order exactly if s >= 23 |
| Ieee754.NearExactly | protocol/ieee754_network.c:33-70 | for any format, exactly the numbers whose error after encoding and decoding is below 2^-s of them: those whose significand does not overflow, or does with an even biased exponent, or any with s <= 1 |
| Ieee754.StaysNearExactly | protocol/ieee754_network.c:33-70 | so the error is bounded for all numbers exactly if s <= 1 or s >= 23 |
| Ieee754.CutsTowardsZeroExactly | protocol/ieee754_network.c:33-70 | and they are cut towards zero within that bound exactly if s >= 23 |
| DoublePacket.ResultDoublePacket.Hton | protocol/rs_packets.c:42-45 | the number in the packet becomes the nearest double to its packed word, which fits 64 bits |
| DoublePacket.ResultDoublePacket.Ntoh | protocol/rs_packets.c:88-91 | the double in the packet is unpacked as a word |
| DoublePacket.RoundToDoubleIsNearest | protocol/rs_packets.c:44-44 | no integer that a double can hold is nearer to the word than the one stored |
| DoublePacket.RoundToDoubleIsDouble | protocol/rs_packets.c:44-44 | and the one stored is one that a double can hold |
| DoublePacket.RoundToDoubleTies | protocol/rs_packets.c:44-44 | halfway between two doubles it is the one with the even significand |
| DoublePacket.WireableExactly | protocol/rs_packets.c:42-45 | the doubles covered are zero and all that a 64-bit word with exponent field 1 to 2046 stands for |
| DoublePacket.WireBound | protocol/rs_packets.c:42-91 | every normal double arrives with its sign and a relative error of at most 2^-42, in exact arithmetic |
| DoublePacket.StaysFiniteExactly | protocol/rs_packets.c:88-91 | what arrives is below 2^1024, so a finite double, exactly unless it is among the last 512 positive or 1024 negative ones |
| DoublePacket.LargestOverflows | protocol/rs_packets.c:88-91 | the largest double is one that arrives as 2^1024 or more |
| DoublePacket.WireExactly | protocol/rs_packets.c:42-91 | it arrives unchanged exactly if its word is a multiple of the distance between doubles around it |
| DoublePacket.WireOfInteger | protocol/rs_packets.c:42-91 | every whole number below 2^42 in magnitude arrives unchanged |
| Protocol.NtohOfHton | protocol/rs_packets.c:38-96 | integers and strings arrive unchanged, doubles within the bound, and types are kept |
| CoapQuery.Tokenizer.Next | riotmodule/rs_coap_utils.c:38-66 | strtok finds the first nonempty piece between '&' and leaves the rest to be tokenized |
| CoapQuery.IndexOf | riotmodule/rs_coap_utils.c:11-19 | the place of the first match, or -1 |
| CoapQuery.NewNode | riotmodule/rs_coap_utils.c:43-58 | a piece is cut at its first '='; without one it is all key |
| CoapQuery.Append | riotmodule/rs_coap_utils.c:59-65 | linking through the last pointer appends one node and leaves the others as they are |
| CoapQuery.SplitQuery | riotmodule/rs_coap_utils.c:32-68 | the list is acyclic and holds what the recursive specification says, in order; its length is counted modulo 256 |
| CoapQuery.FreeCoapQuery | riotmodule/rs_coap_utils.c:21-30 | reaches every node of the list, once each |
| CoapQuery.CutExactly | riotmodule/rs_coap_utils.c:45-58 | the cut of a piece is the one parameter it stands for: key and value around its first '=', or the key alone and an empty value |
| CoapQuery.SplitAtDelimiter | riotmodule/rs_coap_utils.c:35-66 | splitting at any '&' first and the parts then gives the same; a NUL ends the query, and the empty query has no parameters |
| CoapQuery.SplitOfPieces | riotmodule/rs_coap_utils.c:32-68 | splitting joined pieces, with or without '=', gives exactly the parameters they stand for, in order |
| CoapQuery.SplitOfJoin | riotmodule/rs_coap_utils.c:32-68 | splitting what was written with '=' and joined gives the same parameters exactly if none contains a delimiter |
| CoapQuery.SplitJoinSplit | riotmodule/rs_coap_utils.c:32-68 | for any query, writing, joining and splitting again changes nothing |

## Left out

- LambdaRegistry.Registry.Register: requires a name that is not exactly 12 characters long; the code accepts one, but the
  field has no room for its terminator, and what a lookup then reads depends on the memory behind it.
- Board.Node.RegisterLambda: has the same restriction on the name.
- Connector.Client.HandleReceivedPacket: has the same restriction on the name in a registration packet.
- Connector.Client.HandleRegistered: has the same restriction on the name in a registration packet.
- Connector.Client.CallLambdaById: is for one thread that finds the mutex free, with packets handled only while it waits,
  none of which frees its lambda; other interleavings are runs of `Session`.
- Connector.Client.CallLambdaByName: has the same restriction.
- Connector.Client.CondTimedWait: has the same restriction on the packets handled meanwhile.
- Connector.Client.WaitLambdaResult: has the same restriction on the packets handled meanwhile.
- Board.Node.SendResult: covers the results that `Payload` holds, that is, what `Protocol.NtohOfHton` covers.
- Board.Node.HandleCallLambda: covers user functions that return such results.
- Board.Node.HandleReceivedPacket: covers user functions that return such results.
- DoublePacket.ResultDoublePacket.Hton: requires zero or a normal double; subnormal ones, NaN and infinities are not
  modelled.
- Ieee754.Pack754: requires zero or a number whose biased exponent fits its field; for others the code mixes exponent and
  sign bits. NaN, infinities, subnormal numbers and the negative zero are not modelled, and `long double`
  arithmetic is exact.
- DoublePacket.WireBound: covers zero and all normal doubles; a number of 2^1024, which `ntoh` would turn into infinity,
  is left a number.
- Protocol.NtohOfHton: covers doubles that arrive finite (`StaysFinite`), and strings whose packet length fits its
  16-bit field, with a packet buffer large enough for them; the byte order of the length field, swapped and swapped
  back, does not appear.
- SessionInvariant.InvAlways: sessions start with both registries empty and the connection up; registrations before
  `rs_start`, `rs_stop`, and a restart of one side only are not part of a session.
- Replay.MirrorAfterRegister: has the same restriction on the name as `LambdaRegistry.Registry.Register`.
- SessionInvariant.ThreadFitsLater: has the same restriction on what is freed as `SessionInvariant.InvNext`.
- Ieee754.TruncationBound: is for s >= 23; `Ieee754.NearExactly` says what holds below.
- SessionInvariant.InvNext: in a session Linux frees no lambda that a thread still has a pointer to, and `last_call_error`,
  which the code does not initialise, starts at 0.
- SessionTheorems.ReplyConservation: user functions return a value and do not themselves register, unregister or send.
- The registry holds its entries as values; that they are allocated and freed one by one is not modelled, nor is a
  failing malloc. The objects that Linux attaches to its entries are modelled as objects.
- The handler of one packet is one atomic step, and a condition variable wakes a thread only by a broadcast or a timeout.
  A broadcast before the wait is lost, as in the program.
- A function pointer on the board is reduced to whether it is null, and time to the possibility of a timeout.
- The serial line, sockets, threads, logging, the REST, HTTP and CoAP servers, and the tables that print constants.
- `get_lambda_type_from_string`, a numeric parse followed by three comparisons.
