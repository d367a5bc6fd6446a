# Verified models of the plugin helpers

The helpers directory of the repository holds a few self-contained protocols and text algorithms that most plugins
rely on. This project models them in Dafny and proves what they keep and what they compute, over every input, every
run or every interleaving. `dafny verify dfyconfig.toml` checks everything.

Each component has one module, or a few where a specification, its consequences and the objects proved against it
are kept apart.

| component | modules |
|---|---|
| JSON-RPC request/response correlation | `JsonRpcMessages`, `JsonRpcProtocol`, `JsonRpcPeer`, `JsonRpcInterface` |
| locked-API discipline | `LockedApi`, `LockedApiGuards`, `LockedApiDiscipline`, `LockedApiObjects` |
| base64 encoder | `Base64` |
| string splitting | `StringSplit` |
| wildcard search | `GlobPattern`, `GlobWholeName` |
| property files and variable expansion | `PropertyFile`, `PropertyExpansion` |
| settings store | `Settings`, `SettingsStore` |
| front panel: blinking and LED shadows | `FrontPanelSpec`, `FrontPanelBlink`, `FrontPanel` |
| file move | `MoveFile` |
| ping/pong keepalive | `PingPong`, `PingPongEndpoint` |
| timer | `TpTimer` |

The code that changes objects step by step is a class whose methods are proved equal to the steps of a state machine
(`JsonRpcInterface.Interface`, `LockedApiObjects.Process` with its mutex objects, `FrontPanel.CFrontPanel`,
`PingPongEndpoint.Endpoint` with its connection objects, `TpTimer.TpTimer`, `SettingsStore.CSettings`); the theorems
about runs are then proved of the machine. Loops over text and buffers are methods with invariants, proved equal to a
recursive definition whose own meaning is proved separately.

## What came out

Where a promise does not hold of the code as it is, the exact condition under which it holds is proved.

- **A late response can reach the wrong request, and exactly when.** With a peer that answers each request it has
  received under its own id, the answer to a request that was sent and timed out can reach another request exactly
  when the two were created a multiple of 2^32 apart (`JsonRpcPeer.LateAnswerMisdeliveredIff`).
- **The receiver fails on a further response**, exactly when a call for its id is still registered and has had a
  response (`JsonRpcProtocol.FaultExactly`). A peer that answers every request it is sent once can bring that about
  exactly if the same request is sent twice (`JsonRpcPeer.ResendFaultsExactly`).
- **`UnlockApiGuard` is not always safe, and exactly when it is.** A guard must give up only a lock that its thread
  holds, and no locked method may be entered inside it. A run in which every thread has come out of all its scopes went
  without an undefined unlock exactly if every guard was of that kind (`LockedApiGuards.SafeExactly`). That is so unless
  a `LockApiGuard` is unlocked by hand under a guard that has given up its lock, which can fail by itself
  (`LockedApiDiscipline.UnlockByHandBreaks`). To use guards only for the class of the innermost locked method, and never
  one inside the other, is enough for that (`LockedApiDiscipline.DisciplinedIsSafe`), and more than is needed
  (`LockedApiDiscipline.UndisciplinedMayBeSafe`). But the guard is meant for calls that may come back into the plugin,
  and when such a call comes back on the same thread, it clears the thread's flag on its way out, the guard does not
  take its lock back, and two threads end up in the body at once (`LockedApiDiscipline.ReentrantCallBreaks`). A lock is
  lost only in that way (`LockedApi.GuardTakesBackExactly`), and a thread that lost one can never finish
  (`LockedApi.LostLockIsFatal`). Until a lock is lost or something faults, mutual exclusion holds in every run
  (`LockedApi.ExclusionUnlessLost`).
- **The wildcard search is unanchored, and dots are wildcards.** It accepts a name when a part of it matches, where no
  wildcard takes a newline, and a dot in the pattern stands for any one character that ends no line
  (`GlobPattern.AcceptedExactly`). On names without newlines that is the same as matching the whole name exactly for
  patterns that have no dot and whose wildcards at both ends include a `*` (`GlobWholeName.SearchIsGlobExactly`).
- **Only the last variable is expanded.** The documentation of `ExpandPropertiesInString` says that variables,
  delimited by a space or a slash, are replaced by their values. The loop starts its output over at each variable, and
  drops the `$` of a variable with no delimiter after it. So the result is the documented one exactly for inputs with
  one variable, which is delimited (`PropertyExpansion.ExpandedIsFullExactly`); with none, the output parameter is
  left as it was.
- **A property lookup recurses for ever** exactly when it comes back to a name it is already looking up
  (`PropertyFile.FiniteExactly`); a property that refers to itself is enough (`PropertyFile.SelfReferenceIsEndless`).
- **Settings survive a reload** exactly if no key has a newline or NUL and no value has a newline or `=`
  (`Settings.ReadBackExactly`). It is enough that the last change returned true, whatever the earlier ones did
  (`SettingsStore.RunAndReopen`).
- **`MoveFile` takes a failed read for the end of the file**: it then reports success and removes the source, and the
  rest of the contents is lost. In every other case it is all or nothing (`MoveFile.MoveFile`).
- **Ping chains survive reconnecting.** A timer left over from an earlier connection pings the current one, so the
  pings that can be in flight on one connection number up to the connections opened so far, even if each of these was
  gone before the next one opened, and every pong nobody asked for adds one (`PingPong.PingsInFlightExactly`). A pong timeout closes the current connection,
  not the one that was silent; so it can close a sound one exactly when more than one was opened, again even if each
  was gone before the next one opened (`PingPong.TimeoutClosesOtherExactly`).
- **The first `start()` cuts a running blink pattern.** It resets the counters, so that, whatever the repeat
  count was, the pattern's steps from the second on follow once and the blinking ends
  (`FrontPanelBlink.FirstStartCuts`). A pattern is shown N + 1
  times exactly if no first start comes before it is over, or if that comes just when its last repetition has begun
  (`FrontPanelBlink.ShownInFullExactly`); an endless one stays endless exactly if none comes
  (`FrontPanelBlink.EndlessExactly`).
- **Switching all LEDs off and on again** restores Message and Record, but not Remote and RfByPass
  (`FrontPanelSpec.AllOffThenOnRestores`).
- **A single-shot timer cannot be restarted from its own callback** (`TpTimer.TickExactly`).

## Model

| member | source | states |
|---|---|---|
| JsonRpcMessages.ProcessResponseMeaning | helpers/WebSockets/CommunicationInterface/JsonRpcInterface.h:227-264 | a response counts as success exactly if it is a response object of section 5 of the JSON-RPC 2.0 Specification with the request's id, holds a result, and the result's `success` reads true |
| JsonRpcProtocol.ReceiveIs | helpers/WebSockets/CommunicationInterface/JsonRpcInterface.h:111-146 | for every message and state: only a message with a number for an id and no `method` is handed on, under the lower 32 bits of that number; any other changes nothing |
| JsonRpcProtocol.InvStep | helpers/WebSockets/CommunicationInterface/JsonRpcInterface.h:72-103 | ownership is inductive: in-flight calls and map entries correspond one to one, and no step of any thread breaks that |
| JsonRpcProtocol.MapHoldsExactlyTheOwners | helpers/WebSockets/CommunicationInterface/JsonRpcInterface.h:148-193 | in every interleaving an id is in the map exactly when an in-flight call that won its emplace owns it, and there is only one such call |
| JsonRpcProtocol.EraseTakesOwnPromiseOnly | helpers/WebSockets/CommunicationInterface/JsonRpcInterface.h:181-186 | an erase finds the caller's own promise and removes that and nothing else |
| JsonRpcProtocol.QuietMapIsEmpty | helpers/WebSockets/CommunicationInterface/JsonRpcInterface.h:72-103 | with every call finished the map is empty |
| JsonRpcProtocol.TracedAlways | helpers/WebSockets/CommunicationInterface/JsonRpcInterface.h:72-103 | every call's phase, future and result agree with what an observer reads off the trace of events |
| JsonRpcProtocol.FirstResponseIs | helpers/WebSockets/CommunicationInterface/JsonRpcInterface.h:214-225 | the response a call is judged by is the first message in its registration that has no `method` and a numeric id congruent to the call's modulo 2^32, and there is one if any such message came |
| JsonRpcProtocol.FutureHoldsFirstResponse | helpers/WebSockets/CommunicationInterface/JsonRpcInterface.h:214-225 | over whole runs, a call's future holds exactly the first response to its id that came while its promise was in the map |
| JsonRpcProtocol.ResultMeaning | helpers/WebSockets/CommunicationInterface/JsonRpcInterface.h:148-166 | `sendRequest` returns true exactly when it was sent, was woken, and the first response to its id is a valid success answer; a response between timeout and erase changes nothing |
| JsonRpcProtocol.EntryExactly | helpers/WebSockets/CommunicationInterface/JsonRpcInterface.h:75-87 | a call passes the check, and wins its emplace, if and only if no other call with its id is in flight; else it returns false |
| JsonRpcProtocol.WaitExactly | helpers/WebSockets/CommunicationInterface/JsonRpcInterface.h:148-166 | a waiting call wakes if and only if a response came in its registration, and times out only if none did |
| JsonRpcProtocol.EraseExactly | helpers/WebSockets/CommunicationInterface/JsonRpcInterface.h:88-166 | every call that won its emplace comes to its erase, and then returns false at once exactly if it was not woken |
| JsonRpcProtocol.ReturnExactly | helpers/WebSockets/CommunicationInterface/JsonRpcInterface.h:227-264 | a woken call returns true or false exactly as the first response in its registration is or is not its success |
| JsonRpcProtocol.FaultExactly | helpers/WebSockets/CommunicationInterface/JsonRpcInterface.h:214-225 | a message makes `set_value` throw exactly when a call for its id is registered and already has its first response |
| JsonRpcProtocol.NoFaultWithOneResponsePerId | helpers/WebSockets/CommunicationInterface/JsonRpcInterface.h:214-225 | a peer that sends at most one response per id never makes the receiver fault |
| JsonRpcPeer.FaultNeedsResend | helpers/WebSockets/CommunicationInterface/JsonRpcInterface.h:214-225 | if the peer sends no more responses under an id than requests with that id were sent to it, a fault means that some id was sent twice |
| JsonRpcPeer.ResendFaultsExactly | helpers/WebSockets/CommunicationInterface/JsonRpcInterface.h:72-103 | such a peer can make the receiver fault if and only if an id may be sent twice: a request that times out and is sent again suffices |
| JsonRpcPeer.AnswersStayWithTheirRequest | helpers/WebSockets/JsonRpc/Request.cpp:38-66 | with a peer that answers only requests it has received, an answer reaches only calls for requests whose serial agrees modulo 2^32; below 2^32 generated ids, only its own request |
| JsonRpcPeer.CollidingIdsMisdeliver | helpers/WebSockets/JsonRpc/Request.cpp:38-41 | for any two serials that agree modulo 2^32 there is a run in which one request is sent and times out, and its answer, arriving after that, is what the other request is handed |
| JsonRpcPeer.LateAnswerMisdeliveredIff | helpers/WebSockets/JsonRpc/Request.cpp:38-66 | such a run exists if and only if the serials agree modulo 2^32 |
| JsonRpcInterface.Interface.IsRequestProcessingOngoing | helpers/WebSockets/CommunicationInterface/JsonRpcInterface.h:188-193 | true exactly if the id is in the map |
| JsonRpcInterface.Interface.CreateFutureResponse | helpers/WebSockets/CommunicationInterface/JsonRpcInterface.h:168-179 | a future, with a fresh promise under the id, exactly if the id was not there; else nothing changes |
| JsonRpcInterface.Interface.RemovePromise | helpers/WebSockets/CommunicationInterface/JsonRpcInterface.h:181-186 | takes out the id and no other entry |
| JsonRpcInterface.Interface.HandleResponse | helpers/WebSockets/CommunicationInterface/JsonRpcInterface.h:214-225 | sets the id's promise if there is one without a value; one that has a value is the fault |
| JsonRpcInterface.Interface.OnMessage | helpers/WebSockets/CommunicationInterface/JsonRpcInterface.h:111-146 | a message with a number for an id and no `method` sets the promise under the lower 32 bits of the number, if there is one without a value; any other message, the peer's own requests included, changes nothing |
| JsonRpcInterface.Interface.WaitFor | helpers/WebSockets/CommunicationInterface/JsonRpcInterface.h:148-166 | the future ends up with the first arrival that responds to the id, or with nothing if none does; a fault exactly if, before that, an arrival is a further response for another pending request |
| JsonRpcInterface.Interface.SendRequest | helpers/WebSockets/CommunicationInterface/JsonRpcInterface.h:72-103 | one call against a script of arrivals: the map is given back as found; true means not pending, sent, and the first arrival that responds to the id is its success; and exactly when it faults |
| JsonRpcInterface.IdSequence.GenerateId | helpers/WebSockets/JsonRpc/Request.cpp:38-41 | the n-th generated id is n modulo 2^32 |
| LockedApi.InvStep | helpers/UtilsSynchro.hpp:45-63 | every step of every thread keeps mutexes, flags and scopes consistent, disciplined or not |
| LockedApi.DepthLaw | helpers/UtilsSynchro.hpp:45-113 | over all runs, disciplined or not: a thread's lock depth is its locked frames plus held `LockApiGuard`s minus effective `UnlockApiGuard`s minus the locks its guards failed to take back |
| LockedApi.GuardTakesBackExactly | helpers/UtilsSynchro.hpp:96-100 | a guard that gave up its lock takes it back exactly if no locked frame was entered since it opened |
| LockedApi.FaultExactly | helpers/UtilsSynchro.hpp:89-113 | a step faults exactly if it unlocks a mutex on which the thread's balance is zero |
| LockedApi.LocksExactly | helpers/UtilsSynchro.hpp:39-51 | the mutex is recursive: in every run, a thread that comes to lock it, in whatever scope, goes on if and only if no other thread holds it, and then holds it once more |
| LockedApi.WaitsExactly | helpers/UtilsSynchro.hpp:45-113 | in every run a thread takes the step it has come to, and waits only to lock a mutex that another thread holds |
| LockedApi.LostLockIsFatal | helpers/UtilsSynchro.hpp:96-100 | a thread that left all its scopes without a fault never lost a lock |
| LockedApi.ExclusionUnlessLost | helpers/UtilsSynchro.hpp:45-101 | in every run without a fault, disciplined or not, two threads in a body of a class outside guard scopes are the same thread, unless one of them lost a lock to its guard |
| LockedApiGuards.UnlockIsOwned | helpers/UtilsSynchro.hpp:89-113 | in safe runs every unlock, by whatever scope, is by the owner |
| LockedApiGuards.SafeKeepsSound | helpers/UtilsSynchro.hpp:84-101 | a safe run never faults and never loses a lock, and every scope can close |
| LockedApiGuards.SafeBalance | helpers/UtilsSynchro.hpp:45-113 | in a safe run lock depth equals locked frames plus held guards minus effective guards |
| LockedApiGuards.SafeExclusion | helpers/UtilsSynchro.hpp:45-101 | in a safe run at most one thread is in a class's body outside guard scopes |
| LockedApiGuards.SafeExactly | helpers/UtilsSynchro.hpp:84-101 | a run that all threads finish is without a fault only if every guard gave up only a lock that was held and had no locked frame entered inside it; where no lock is unlocked by hand under a guard that relies on it, if and only if |
| LockedApiDiscipline.DisciplinedIsSafe | helpers/UtilsSynchro.hpp:84-101 | guards for the innermost locked class only, not nested and with no locked frame entered inside, make a run safe |
| LockedApiDiscipline.DisciplinedBalance | helpers/UtilsSynchroIarm.hpp:49-62 | in such a run nothing faults, no lock is lost, and lock depth equals locked frames plus held guards minus effective guards |
| LockedApiDiscipline.MutualExclusion | helpers/UtilsSynchro.hpp:45-63 | in such a run at most one thread is in a class's body outside guard scopes |
| LockedApiDiscipline.GuardFreesMutexExactly | helpers/UtilsSynchro.hpp:84-95 | a disciplined guard sets its mutex free exactly if the thread had one frame and no held guard for the class |
| LockedApiDiscipline.ReentrantCallBreaks | helpers/UtilsSynchro.hpp:84-101 | a run that is not safe, a call that comes back into the class on the same thread: a lock is lost, two threads are in the body at once, then a fault |
| LockedApiDiscipline.UndisciplinedMayBeSafe | helpers/UtilsSynchro.hpp:89-113 | a guard for a lock that a `LockApiGuard` holds, inside a locked method of another class, breaks the discipline and is safe |
| LockedApiDiscipline.UnlockByHandBreaks | helpers/UtilsSynchro.hpp:104-113 | safe guards alone are not enough: a run that unlocks a `LockApiGuard` by hand under a guard for its lock, and faults |
| LockedApiDiscipline.NestedCallsLockAgain | helpers/UtilsSynchro.hpp:45-63 | locked methods that call locked methods of their class, n deep: the thread holds the mutex n times |
| LockedApiDiscipline.NestedReturnsUnlock | helpers/UtilsSynchro.hpp:45-63 | after the inner of two such calls has returned the outer one still holds the mutex, and after both it is free |
| LockedApiObjects.RecursiveMutex.Lock | helpers/UtilsSynchro.hpp:39-42 | open to a thread exactly if nobody holds it or this thread does; the owner then holds it once more |
| LockedApiObjects.RecursiveMutex.Unlock | helpers/UtilsSynchro.hpp:39-42 | the mutex object counts one less and is free at none; undefined, and unchanged, for a thread that does not own it |
| LockedApiObjects.Process.Enter | helpers/UtilsSynchro.hpp:49-49 | sets the thread's flag: the entering step of the machine |
| LockedApiObjects.Process.Acquire | helpers/UtilsSynchro.hpp:51-51 | locks the class's mutex object and no other; a thread that holds it already may, one does wait only for another thread |
| LockedApiObjects.Process.Leave | helpers/UtilsSynchro.hpp:56-60 | clears the thread's flag before the mutex is given back, with or without an exception |
| LockedApiObjects.Process.Release | helpers/UtilsSynchroIarm.hpp:53-62 | gives the mutex back, after the flag was cleared |
| LockedApiObjects.Process.OpenGuard | helpers/UtilsSynchro.hpp:91-95 | unlocks exactly if the thread's flag is set |
| LockedApiObjects.Process.CloseGuard | helpers/UtilsSynchro.hpp:96-100 | locks exactly if the thread's flag is set then |
| LockedApiObjects.Process.OpenLock | helpers/UtilsSynchro.hpp:104-106 | locks whatever the flag says |
| LockedApiObjects.Process.UnlockHeld | helpers/UtilsSynchro.hpp:107-109 | gives the held lock up early |
| LockedApiObjects.Process.LockHeld | helpers/UtilsSynchro.hpp:110-112 | takes it again |
| LockedApiObjects.Process.CloseLock | helpers/UtilsSynchro.hpp:104-113 | unlocks only if the guard holds its lock |
| LockedApiObjects.RunAll | helpers/UtilsSynchro.hpp:45-113 | any interleaving run on the objects ends in the machine's state; where it is safe, no unlock was undefined and every mutex is held exactly as often as the scopes say; a run that all threads finish without an undefined unlock is safe |
| Base64.TableIsAlphabet | helpers/UtilsString.h:157-159 | the code's table is Table 1 of RFC 4648 |
| Base64.OutputStep | helpers/UtilsString.h:168-183 | one more byte adds the characters the loop emits in its state, and the carried bits follow |
| Base64.OutputEnd | helpers/UtilsString.h:184-194 | what the loop emitted plus the ending is the encoding of section 4 of RFC 4648 |
| Base64.EncodeByte | helpers/UtilsString.h:169-181 | the loop's body: state, carried bits and output after one more byte |
| Base64.Finish | helpers/UtilsString.h:184-194 | the carried character and the padding complete the encoding |
| Base64.ImageEncoder | helpers/UtilsString.h:162-196 | appends exactly the encoding of section 4 of RFC 4648, padded or not, for every byte array |
| Base64.RoundTrip | helpers/UtilsString.h:162-196 | a reference decoder gives the bytes back, padded or not |
| Base64.DecodedIsEncoded | helpers/UtilsString.h:162-196 | whatever the decoder accepts is one of the two encodings of what it decodes to |
| Base64.DecodeExactly | helpers/UtilsString.h:162-196 | the decoder accepts a text for a byte sequence if and only if it is one of its two encodings |
| Base64.EncodedLength | helpers/UtilsString.h:184-194 | padded length is four times the number of started groups; unpadded length is what the bits need |
| Base64.Section9Illustrations | helpers/UtilsString.h:162-196 | the encoding gives the illustrations of section 9 of RFC 4648 |
| StringSplit.Split | helpers/UtilsString.h:143-155 | terminates despite the start at npos, and appends exactly the pieces |
| StringSplit.FindFirstOf | helpers/UtilsString.h:150-150 | the first delimiter from a position on, or npos |
| StringSplit.SplitCuts | helpers/UtilsString.h:143-155 | one more piece than delimiters, no delimiter in a piece, and the pieces interleaved with the delimiters rebuild the input |
| StringSplit.SplitExactly | helpers/UtilsString.h:143-155 | the pieces are the only ones with these properties |
| StringSplit.WalkedPathIsInput | helpers/UtilsgetFileContent.h:261-268 | the path `searchFilesRec` builds from the pieces is the input path if and only if that is absolute |
| GlobPattern.Find | helpers/UtilsgetFileContent.h:180-180 | the first occurrence from a position on, or npos |
| GlobPattern.ReplaceLoop | helpers/UtilsgetFileContent.h:179-184 | each in-place loop terminates and replaces every occurrence in the original pattern, and nothing it inserted itself |
| GlobPattern.TwoPasses | helpers/UtilsgetFileContent.h:178-191 | the two replacements after one another are one character-by-character translation |
| GlobPattern.TranslatePattern | helpers/UtilsgetFileContent.h:178-191 | both loops with their skips of 6 and 8 compute that translation |
| GlobPattern.TranslationReads | helpers/UtilsgetFileContent.h:193-193 | the translated text parses as the regular expression meant, one term per pattern character |
| GlobPattern.TermsMatchGlob | helpers/UtilsgetFileContent.h:206-206 | that expression matches any string exactly if the glob does in which no wildcard takes a newline and a dot stands for one character that is no line terminator |
| GlobPattern.AcceptedExactly | helpers/UtilsgetFileContent.h:206-206 | any name is accepted exactly when a part of it matches that glob |
| GlobPattern.AcceptedWithoutDots | helpers/UtilsgetFileContent.h:206-206 | a newline-free name, for a pattern without dots: exactly when a part of it matches the plain glob |
| GlobWholeName.SearchIsGlobExactly | helpers/UtilsgetFileContent.h:178-206 | for every pattern with no other special character: the search accepts, over all newline-free names, just those that match as a whole if and only if the pattern has no dot and its wildcards at both ends include a `*` (or it has a newline in it, and neither ever matches) |
| PropertyFile.ReadPropertyFromFile | helpers/UtilsgetFileContent.h:37-100 | the recursive loop computes the reference evaluation: what it returns is what the first line for the name gives that gives a value; a false return means that no line gives one, and leaves the value empty |
| PropertyFile.FiniteExactly | helpers/UtilsgetFileContent.h:57-68 | the recursion is finite exactly when the lookup never meets a name it is already looking up; one level per name referred to is then enough |
| PropertyFile.SelfReferenceIsEndless | helpers/UtilsgetFileContent.h:57-68 | a file whose one property refers to itself makes the lookup endless, for every name without `=` that does not start a comment, and no depth of recursion is enough |
| PropertyFile.AcyclicIsFinite | helpers/UtilsgetFileContent.h:57-68 | on files without cyclic references every lookup is finite |
| PropertyFile.EvalIsDenote | helpers/UtilsgetFileContent.h:37-100 | the result of a finite call does not depend on how its recursion is bounded |
| PropertyFile.LookupExactly | helpers/UtilsgetFileContent.h:45-86 | the value found is that of the first non-comment line that starts with the name and a space or `=` and gives one: what follows its first `=`, without one line end, or what the property it refers to is; nothing is found exactly if every such line is a failing reference |
| PropertyFile.EvalExactly | helpers/UtilsgetFileContent.h:45-86 | the same of what any call returns, however its recursion is bounded |
| PropertyFile.PlainLineIsRead | helpers/UtilsgetFileContent.h:49-83 | `name=v` or `name =v`, with or without a carriage return at the end, after any comments and lines for other names: the lookup gives exactly v, if that is no reference and ends in no line end |
| PropertyFile.ReferenceLineIsRead | helpers/UtilsgetFileContent.h:53-68 | `name=$other` in such a place: the lookup gives what the lookup of the other name gives, unless that finds nothing |
| PropertyFile.FoundIsNoReference | helpers/UtilsgetFileContent.h:56-84 | a value that was found never starts with `$` |
| PropertyExpansion.ExpandAt | helpers/UtilsgetFileContent.h:284-309 | one variable: exactly its value up to the delimiter, or a dropped `$` if there is none; fails exactly if the name has no value |
| PropertyExpansion.VariablesExactly | helpers/UtilsgetFileContent.h:280-310 | the variables the loop comes to are, in order, the `$` that are not in the name of another variable |
| PropertyExpansion.ReturnsExactly | helpers/UtilsgetFileContent.h:280-304 | a call returns unless the first variable without a value has none because its lookup recurses for ever |
| PropertyExpansion.ExpandPropertiesInString | helpers/UtilsgetFileContent.h:278-322 | for every call that returns, the scanning loop computes the specified outcome, including what is left behind on failure |
| PropertyExpansion.OutcomeExactly | helpers/UtilsgetFileContent.h:278-322 | true exactly if every variable scanned has a value; the output is then the input with only the last one replaced by its value; on failure it is what stands before the first variable without one |
| PropertyExpansion.OneVariableIsReplaced | helpers/UtilsgetFileContent.h:283-310 | text, one delimited variable, more text: the result is exactly the text with the value the lookup gives in its place, or failure and the text before it |
| PropertyExpansion.UndelimitedIsDropped | helpers/UtilsgetFileContent.h:306-320 | a `$` that no delimiter comes after is dropped; without any the output parameter keeps what it held |
| PropertyExpansion.OnlyLastIsNotFull | helpers/UtilsgetFileContent.h:283-283 | with two or more variables that have values the result is never the documented expansion |
| PropertyExpansion.ExpandedIsFullExactly | helpers/UtilsgetFileContent.h:270-310 | on success every delimited variable is replaced and nothing else changed, as documented, if and only if there is one variable and it is delimited, or none and the output already held the input |
| Settings.PrintedParses | helpers/cSettings.h:160-210 | parsing a printed file on top of any entries adds exactly the printed ones, in whatever order they were printed |
| Settings.LineParses | helpers/cSettings.h:200-205 | a line without `=` changes nothing; any other sets the entry under what stands before its last `=`, cut at a NUL, to what follows, which may be nothing |
| Settings.CStrCuts | helpers/cSettings.h:79-83 | a key is cut before its first NUL, and only there |
| Settings.ParsedExactly | helpers/cSettings.h:198-207 | after a file is read, a key has the value of the last line for it, and what it had before if there is none |
| Settings.ParsedIsClean | helpers/cSettings.h:198-205 | nothing that was parsed has a newline in a key or a newline or `=` in a value |
| Settings.ReadBackExactly | helpers/cSettings.h:160-210 | re-reading a printed file gives the non-empty entries if and only if they are clean |
| SettingsStore.CSettings.constructor | helpers/cSettings.h:41-55 | a fresh object holds what the file parses to; an absent file is created empty |
| SettingsStore.CSettings.ReadFromFile | helpers/cSettings.h:189-210 | the getline loop is the parse of the whole file on top of the entries there were |
| SettingsStore.CSettings.WriteToFile | helpers/cSettings.h:160-183 | on success the file is a print of the entries, in step with them exactly if they are clean; on failure it is unchanged |
| SettingsStore.CSettings.SetValue | helpers/cSettings.h:79-107 | the entry is set in memory in any case; on true the file is in step |
| SettingsStore.CSettings.Contains | helpers/cSettings.h:114-127 | true exactly for keys with a non-empty text |
| SettingsStore.CSettings.Remove | helpers/cSettings.h:134-154 | the entry is gone from view whether or not the container really removes it; on true the file is in step |
| SettingsStore.ReplayExactly | helpers/cSettings.h:79-154 | the entries the calls say: each key has what the last call for it gave it, nothing after a removal or an empty value, and what it had before if no call was for it |
| SettingsStore.RunAndReopen | helpers/cSettings.h:79-210 | after any run of calls on an object in any state, the last of which returned true, a new object on the file holds exactly the entries the calls say, if and only if these are clean; the last call returns true exactly if the file is there and can be written |
| FrontPanelBlink.FiniteBlink | helpers/frontpanel.cpp:540-617 | a call of `setBlink` with a repeat count, whatever was done before: after every run of ticks and calls that do not cancel, what was shown and what is still to come are the two parts of the repeated pattern |
| FrontPanelBlink.RepeatIsCyclic | helpers/frontpanel.cpp:594-617 | n repetitions are the pattern gone round step by step, n times its length |
| FrontPanelBlink.PatternShownExactly | helpers/frontpanel.cpp:540-617 | after a call of `setBlink` with repeat count N, whatever was done before, ticks and calls that do not cancel in any order show the pattern N + 1 times, step by step, and then nothing, unless one of the calls is the panel's first start |
| FrontPanelBlink.EmptyPatternShowsNothing | helpers/frontpanel.cpp:540-555 | `setBlink` with an empty pattern ends the pattern before it and shows nothing |
| FrontPanelBlink.LastStepStays | helpers/frontpanel.cpp:594-617 | what stays on is the last step of the pattern |
| FrontPanelBlink.EndlessPatternShown | helpers/frontpanel.cpp:594-617 | after a call of `setBlink` with a negative repeat count, whatever was done before, every such run shows a beginning of the pattern repeated for ever: k + 1 steps after k ticks |
| FrontPanelBlink.FirstStartCuts | helpers/frontpanel.cpp:249-255 | a first start under a pattern set by `setBlink`: what was shown by then is followed by the pattern from its second step on, once, whatever the repeat count was |
| FrontPanelBlink.ShownInFullExactly | helpers/frontpanel.cpp:249-255 | a pattern that is over was shown N + 1 times if and only if no first start came before it was over, or it came just when the last repetition had begun |
| FrontPanelBlink.EndlessExactly | helpers/frontpanel.cpp:249-255 | a pattern with a negative repeat count goes on for ever if and only if no first start comes |
| FrontPanelBlink.CancelForgets | helpers/frontpanel.cpp:557-561 | a run after a call that goes through `stopBlinkTimer` does not depend on the pattern before it |
| FrontPanelBlink.ShownAfterCancel | helpers/frontpanel.cpp:289-561 | in any run, every step shown after a call that goes through `stopBlinkTimer`, `setBlink` included, belongs to a pattern set by that call or later |
| FrontPanelBlink.NothingShownAfterCancel | helpers/frontpanel.cpp:557-561 | with no pattern set by that call or later, nothing more is shown |
| FrontPanelSpec.ShadowsTrack | helpers/frontpanel.cpp:325-415 | after any run the shadow flag of the Message and the Record LED is the last effective command for that LED, and a lit one was last commanded on |
| FrontPanelSpec.LedExactly | helpers/frontpanel.cpp:227-415 | after any run, for every LED: it is on exactly if the last call that switched it switched it on, with the power status and the shadow flags as they were then |
| FrontPanelSpec.AllOffThenOnRestores | helpers/frontpanel.cpp:325-415 | after any run, all off and all on again lights Message and Record exactly as last commanded; Remote and RfByPass are not restored |
| FrontPanel.TickedAt | helpers/frontpanel.cpp:594-617 | the position and repeat counters describe the steps still to come, before and after a tick |
| FrontPanel.CFrontPanel.Start | helpers/frontpanel.cpp:227-257 | lights Power if there is power, and the first time resets the counters under a running pattern |
| FrontPanel.CFrontPanel.Stop | helpers/frontpanel.cpp:259-263 | cancels the pattern and nothing else |
| FrontPanel.CFrontPanel.StopBlinkTimer | helpers/frontpanel.cpp:557-561 | leaves no pending tick |
| FrontPanel.CFrontPanel.SetBlink | helpers/frontpanel.cpp:491-538 | the new pattern replaces the old one altogether: its first step is shown at once, a tick is pending, and the repeat count is the one given |
| FrontPanel.CFrontPanel.StartBlinkTimer | helpers/frontpanel.cpp:540-555 | shows the first step and plans the rest; exactly one tick is pending if there is a pattern, else none |
| FrontPanel.BlinkFor | helpers/frontpanel.cpp:491-617 | `setBlink` and k ticks on the object in any state: exactly the first k + 1 steps of the repeated pattern have been shown, up to N + 1 times round, or without end if N is negative |
| FrontPanel.CFrontPanel.OnBlinkTimer | helpers/frontpanel.cpp:594-617 | the counters do what the plan says, and never more than one tick is pending, with the position in range |
| FrontPanel.CFrontPanel.Advance | helpers/frontpanel.cpp:596-607 | moves to the next position, or to the next repeat, and says whether there is one left |
| FrontPanel.CFrontPanel.SetPowerStatus | helpers/frontpanel.cpp:265-268 | changes the power status only |
| FrontPanel.CFrontPanel.SetLed | helpers/frontpanel.cpp:430-489 | cancels the pattern |
| FrontPanel.CFrontPanel.SetBrightness | helpers/frontpanel.cpp:289-308 | cancels the pattern and, if there is power, lights Power, and Message and Record as their shadow flags say |
| FrontPanel.CFrontPanel.PowerOnLed | helpers/frontpanel.cpp:325-370 | cancels the pattern even without power; with power lights the LED and sets its shadow flag |
| FrontPanel.CFrontPanel.PowerOffLed | helpers/frontpanel.cpp:372-415 | cancels the pattern; all-off leaves the shadow flags alone |
| FrontPanel.RunAll | helpers/frontpanel.cpp:227-617 | any run of calls and ticks on the object does what the specification says of that run |
| MoveFile.WriteChunk | helpers/UtilsFile.h:59-71 | however the writes are split up, the whole chunk is appended, or a write was refused |
| MoveFile.MoveFile | helpers/UtilsFile.h:31-84 | true exactly if there was a source and no destination and nothing was refused; then the destination holds the source's bytes and the source is gone, but for a failed read; false changes no file |
| MoveFile.File.Read | helpers/UtilsFile.h:54-57 | reads between nothing and what is asked; nothing before the end means the read failed |
| MoveFile.File.Write | helpers/UtilsFile.h:62-66 | appends between nothing and what is asked |
| PingPong.TokensConserved | helpers/WebSockets/PingPong/PingPongEnabled.h:56-130 | pending timers, outstanding pings and ended chains add up to opens plus unsolicited pongs in every run |
| PingPong.SingleChain | helpers/WebSockets/PingPong/PingPongEnabled.h:56-130 | one open and no unsolicited pong: at most one timer or ping, and none exactly if the chain has ended |
| PingPong.NoChainNoPing | helpers/WebSockets/PingPong/PingPongEnabled.h:89-122 | with no chain, no ping is sent until one starts |
| PingPong.NoPingAfterEnd | helpers/WebSockets/PingPong/PingPongEnabled.h:89-130 | after a failed ping, a connection that is not open, or a pong timeout, no further ping |
| PingPong.ConnectionsTracked | helpers/WebSockets/WSEndpoint.cpp:78-98 | in every run the current handle is the one last opened, and each connection is in the state the calls say |
| PingPong.PingSentExactly | helpers/WebSockets/PingPong/PingPongEnabled.h:89-115 | in every run, a ping timer sends a ping if and only if the connection last opened is still there, open, and takes it; else the chain ends |
| PingPong.PingsInFlightExactly | helpers/WebSockets/WSEndpoint.cpp:201-207 | with k connections opened and u unsolicited pongs, the pings that can be in flight on one connection are exactly the numbers up to k + u, over all runs and also over those where each connection was gone before the next one opened |
| PingPong.TimeoutClosesOtherExactly | helpers/WebSockets/WSEndpoint.cpp:78-98 | a run with k connections opened in which a pong timeout on one connection closes another, open one exists if and only if k is at least two, and also one where each connection was gone before the next one opened |
| PingPongEndpoint.Endpoint.StartPing | helpers/WebSockets/PingPong/PingPongEnabled.h:56-74 | starts a chain exactly if the handle gives a connection |
| PingPongEndpoint.Endpoint.HandleOpen | helpers/WebSockets/WSEndpoint.cpp:201-207 | the handle becomes the current one and a chain starts |
| PingPongEndpoint.Endpoint.HandlePing | helpers/WebSockets/PingPong/PingPongEnabled.h:89-115 | pings the current connection if there is one, it is open and takes the ping, whichever chain the timer belongs to; else ends the chain |
| PingPongEndpoint.Endpoint.HandlePong | helpers/WebSockets/PingPong/PingPongEnabled.h:117-122 | schedules the next ping for every pong, asked for or not |
| PingPongEndpoint.Endpoint.CloseConnection | helpers/WebSockets/WSEndpoint.cpp:78-98 | closes the connection object the current handle gives, if it is open, and touches no other |
| PingPongEndpoint.Endpoint.HandlePongTimeout | helpers/WebSockets/PingPong/PingPongEnabled.h:124-130 | ends the chain and closes the current connection |
| PingPongEndpoint.RunAll | helpers/WebSockets/PingPong/PingPongEnabled.h:56-130 | over any run of handlers the endpoint's timers and outstanding pings never outnumber the connections opened and the unsolicited pongs |
| TpTimer.TpTimer.Stop | helpers/tptimer.h:83-87 | inactive with no pending job, also from inside a callback |
| TpTimer.TpTimer.Start | helpers/tptimer.h:88-93 | active with exactly one pending job, at the interval in force |
| TpTimer.TpTimer.StartWith | helpers/tptimer.h:94-98 | the same at a new interval |
| TpTimer.TpTimer.Timed | helpers/tptimer.h:114-127 | whatever the callback did to the timer, afterwards it is active exactly if one job is pending, and in the state the specification gives |
| TpTimer.ActAllIs | helpers/tptimer.h:83-106 | after any calls, activity, mode, interval and the delay of the pending job are what the last call of each kind said |
| TpTimer.TickExactly | helpers/tptimer.h:114-127 | after a tick the timer is active exactly if the callback left it started and the mode it left is not single-shot; the next tick then comes after the interval the callback left |
| TpTimer.RunConsistent | helpers/tptimer.h:83-127 | after any run of calls and ticks the timer is active exactly if a job is pending |
| TpTimer.StartedExactly | helpers/tptimer.h:83-127 | whatever was done before, a timer started with an interval and left alone comes round at that interval for ever, or just once if it is single-shot |
| TpTimer.RunAll | helpers/tptimer.h:83-127 | over any run of calls and ticks the flag says whether a job is pending, never more than one is, and the run does what the specification says |

## Left out

Of the modelled components:

- JsonRpcInterface.Interface.SendRequest: one thread only, with the arrivals given as a script; the interleavings are
  in `JsonRpcProtocol`, whose steps the methods are.
- JSON parsing: a message is what the code can see of it. The id that `onMessage` inspects and the id that the
  response object reads from the same text are separate fields, as two parsers read them. A response object is taken
  to be cleared before it is filled, and the protocol version is "2.0".
- The branch for a deferred future, which the code's own comment says cannot happen, notifications, and the parts of a
  response handed back to the caller beside the result flag.
- After `set_value` throws nothing runs: the exception leaves the event loop thread.
- The thread-local flag of the locked API is declared in a header's unnamed namespace, so a program has one for each
  translation unit; the model has one for each thread, as if all locked classes were in one unit.
- The IARM handler map itself: registering and removing a handler are held lock sections like any other. Locking a
  `LockApiGuard` that holds its lock, or unlocking one that does not, throws in the C++ library and is no step here.
- The value of `length` beyond the array in `imageEncoder`: the length is that of the array.
- Directory walking, exclusions and the cap of ten results in `searchFilesRec`; patterns with other special
  characters of regular expressions than the two wildcards and the dot.
- PropertyExpansion.ExpandPropertiesInString: says nothing of a call whose recursion does not end, since it leaves no
  result; which calls those are is `PropertyExpansion.ReturnsExactly`, with `PropertyFile.FiniteExactly`.
- How an int or bool is rendered as text by the JSON container of the settings store, and stream errors in the middle
  of a write.
- FrontPanel: exceptions of the device library, the JSON of blink patterns, brightness and colour. LEDs are taken to
  be dark at first. The repeat counter is unbounded, and a tick is atomic with respect to the public calls.
- MoveFile.MoveFile: `CreatePath` is not modelled, and removing a file is taken to succeed.
- Races between the timer library's revoke and a job that is already running, in all timers.
- The websocket library's own promise that a pong timeout is reported only for a ping that was sent.

Of the repository:

- Motion detection, the user-input validators, and the JSON-RPC and BIT macros: thin wrappers or short predicates.
- `CommandInterface`: its wait has no condition, so there is little to state.
- `trim`, `removeExtraWhitespaces`, `find_substr_ci`, `readFileContent`: they would add only easy members.
- Thunder, websocketpp, TLS, IARM bus and the device settings library; clocks and time spans; logging.
