# jacuzzi util core, modelled in Dafny

This project models six classes of the `albertoanguita/util` Java library
(packages `jacz.util` and `org.aanguita.jacuzzi`) and proves properties of the
model:

- `Range` (`range.dfy`, module `Ranges`): discrete intervals
  with optional bounds, their comparison, intersection and subtraction. Pure
  functions over a `Range` value; every operation is related to the set of
  integers the range holds (`Member`).
- `FragmentedArray` (`fragmented_array.dfy`, module `FragmentedArrays`): a
  virtual array kept as a list of fragments with their index ranges. A class
  whose fields are the fragment list and the index list; appends, prepends and
  slice reads are proved against the concatenation of the fragments.
- `Element` (`element.dfy`, module `Xml`): a mutable XML node. A class with the
  parent link, attribute map, child list and text; the "text or children, never
  both" rule is its invariant, and every child query is proved against a
  filter function on the child list.
- `NotificationReceiverHandler` (`notification.dfy`, module `Notification`): the
  batching buffer between an event emitter and a receiver. A class whose
  invariant says no event is lost or duplicated between the events received,
  the batches handed to the executor and the events still buffered.
- `Monitor` (`monitor.dfy`, module `Monitors`): the coalescing scheduler of a
  single worker task. The protocol is a set of functions over the flags, with a
  ghost count of submitted and finished workers; the `Monitor` class follows
  those functions step by step, and the worker loop is a method over the
  rounds it runs.
- `DynamicState` (`dynamic_state.dfy`, module `DynamicStates`): a state driven
  toward a goal by an abstract transition lookup. Its decision logic is pure
  (`Solve`, `Apply`); goal updates, signals to the daemon, hook calls and
  sleeps are fields of a class.

`optional.dfy` holds `Option` (Java `null`) and `Result` (a Java exception);
`sequences.dfy` holds the concatenation of a list of lists shared by
`FragmentedArray` and `NotificationReceiverHandler`.

Java integers are modelled as unbounded integers, `equals` on goals, names and
attribute values as Dafny equality, and each thread, timer, executor or
callback the classes talk to as a parameter, a flag or a log of calls.

## Model

| member | source | states |
|---|---|---|
| Ranges.IsEmpty | src/main/java/jacz/util/numeric/newrange/Range.java:122-124 | `isEmpty`: the minimum exceeds the maximum; see `EmptyIffNoMember` for its meaning |
| Ranges.EmptyIffNoMember | src/main/java/jacz/util/numeric/newrange/Range.java:122-124 | `isEmpty` (min above max) holds exactly when the range has no member |
| Ranges.Next | src/main/java/jacz/util/numeric/newrange/Range.java:157-169 | the least integer above a bound, with nothing in between; a missing bound throws a null pointer exception |
| Ranges.Previous | src/main/java/jacz/util/numeric/newrange/Range.java:143-155 | the greatest integer below a bound, with nothing in between; a missing bound throws a null pointer exception |
| Ranges.GenerateEmptyRange | src/main/java/jacz/util/numeric/newrange/Range.java:199-201 | the range [1, 0] is empty and holds no value |
| Ranges.Size | src/main/java/jacz/util/numeric/newrange/Range.java:104-112 | an empty range has size 0; otherwise the size is known exactly when both bounds are, and is never negative |
| Ranges.IntervalCardinality | src/main/java/jacz/util/numeric/newrange/Range.java:104-112 | the bounded interval [lo, hi] holds hi - lo + 1 integers, or none |
| Ranges.SizeCountsMembers | src/main/java/jacz/util/numeric/newrange/Range.java:104-112 | for a bounded range, `size` is the number of its members |
| Ranges.RangeEquals | src/main/java/jacz/util/numeric/newrange/Range.java:63-84 | `equals`: both empty, or the same bounds; see `EqualsIffSameMembers` for its meaning |
| Ranges.EqualsIffSameMembers | src/main/java/jacz/util/numeric/newrange/Range.java:63-84 | `equals` (both empty, or same bounds) holds exactly when the two ranges hold the same values |
| Ranges.CompareToValue | src/main/java/jacz/util/numeric/newrange/Range.java:207-219 | ANY_EMPTY iff the value is null or the range empty; CONTAINS iff the value is a member; RIGHT and LEFT mean the value lies below the minimum or above the maximum |
| Ranges.ContainsValue | src/main/java/jacz/util/numeric/newrange/Range.java:203-205 | `contains` holds exactly for a non-null member |
| Ranges.CompareTo | src/main/java/jacz/util/numeric/newrange/Range.java:231-304 | the final `return null` is never reached; ANY_EMPTY iff either is empty; EQUALS iff same bounds; each contact and no-contact answer iff its exact bound condition |
| Ranges.CompareToMeaning | src/main/java/jacz/util/numeric/newrange/Range.java:231-304 | INSIDE and CONTAINS mean inclusion of member sets; the overlaps share a member and differ, LEFT_OVERLAP with part of this range below the other and part of the other above this one, RIGHT_OVERLAP the mirror image; contact and no-contact answers mean disjoint ranges |
| Ranges.Intersection | src/main/java/jacz/util/numeric/newrange/Range.java:312-334 | the members of the intersection are exactly the common members; disjoint ranges give the empty range [1, 0] |
| Ranges.Subtract | src/main/java/jacz/util/numeric/newrange/Range.java:375-402 | as written: fails exactly in the CONTAINS case with a missing bound on the subtracted range; otherwise one or two pieces |
| Ranges.SubtractMembers | src/main/java/jacz/util/numeric/newrange/Range.java:375-402 | when `subtract` succeeds, its pieces hold exactly the members of this range that are not in the other |
| Ranges.SubtractCorrected | src/main/java/jacz/util/numeric/newrange/Range.java:393-396 | the CONTAINS case without the piece on an unbounded side; agrees with `subtract` wherever that succeeds |
| Ranges.SubtractCorrectedMembers | src/main/java/jacz/util/numeric/newrange/Range.java:375-402 | the corrected pieces always hold exactly the set difference of the two ranges |
| Ranges.SubtractSharedInfinityThrows | src/main/java/jacz/util/numeric/newrange/Range.java:393-396 | subtracting (-inf, 5] from (-inf, 10] throws as written; corrected it gives [6, 10] |
| FragmentedArrays.FragmentAt | src/main/java/jacz/util/lists/FragmentedArray.java:37-64 | in a well-indexed fragment list, fragment j covers indexes min..min+length-1 and that slice of the virtual array is the fragment |
| FragmentedArrays.IndexedAppend | src/main/java/jacz/util/lists/FragmentedArray.java:37-47 | appending a fragment with the range (max + 1, max + length) keeps the list well indexed |
| FragmentedArrays.IndexedPrepend | src/main/java/jacz/util/lists/FragmentedArray.java:54-64 | prepending a fragment with the range (min - length, min - 1) keeps the list well indexed |
| FragmentedArrays.FragmentedArray.constructor | src/main/java/jacz/util/lists/FragmentedArray.java:32-35 | a new array is empty and well indexed |
| FragmentedArrays.FragmentedArray.Size | src/main/java/jacz/util/lists/FragmentedArray.java:81-87 | `size` is the length of the virtual array |
| FragmentedArrays.FragmentedArray.GenerateBaseArray | src/main/java/jacz/util/lists/FragmentedArray.java:71-79 | the search for a non-empty fragment stays in bounds, and finds one exactly when the size is not zero |
| FragmentedArrays.FragmentedArray.Add | src/main/java/jacz/util/lists/FragmentedArray.java:37-47 | the fragment is appended with the next free index range; the virtual array becomes the old one followed by the fragment |
| FragmentedArrays.FragmentedArray.AddLeft | src/main/java/jacz/util/lists/FragmentedArray.java:54-64 | the fragment is prepended with the index range before the old minimum; the virtual array becomes the fragment followed by the old one |
| FragmentedArrays.FragmentedArray.GetArray | src/main/java/jacz/util/lists/FragmentedArray.java:89-91 | the whole virtual array in a new array, or null when it is empty |
| FragmentedArrays.FragmentedArray.GetArrayRange | src/main/java/jacz/util/lists/FragmentedArray.java:93-136 | out-of-range requests throw ArrayIndexOutOfBounds, a zero length gives null, a negative length throws as `Arrays.copyOfRange` does, and otherwise the result is a new array holding exactly that slice of the virtual array |
| FragmentedArrays.FindFragment | src/main/java/jacz/util/lists/FragmentedArray.java:107-113 | the fragment found is the one whose range holds the offset |
| FragmentedArrays.CopyWithin | src/main/java/jacz/util/lists/FragmentedArray.java:115-116 | a slice inside one fragment is copied out exactly, into a new array |
| FragmentedArrays.CopyAcross | src/main/java/jacz/util/lists/FragmentedArray.java:117-135 | a slice spanning several fragments is copied out exactly |
| FragmentedArrays.CopyRest | src/main/java/jacz/util/lists/FragmentedArray.java:123-134 | the middle fragments and the head of the last one extend the copy with exactly the following elements |
| FragmentedArrays.ArrayCopy | src/main/java/jacz/util/lists/FragmentedArray.java:116-133 | `System.arraycopy`: the destination prefix is kept and followed by the source slice |
| Xml.NamedExactly | src/main/java/jacz/util/io/xml/Element.java:67-75 | `getChildren(name)` returns the children with that name, in order, each as often as in the child list |
| Xml.NamedFirst | src/main/java/jacz/util/io/xml/Element.java:101-104 | the first child with a name is the first of `getChildren(name)` |
| Xml.SelectedExactly | src/main/java/jacz/util/io/xml/Element.java:77-85 | `getChildren(name, attributes)` returns the children with that name whose attributes include the given ones, in order, each as often as in the child list |
| Xml.SelectedFirst | src/main/java/jacz/util/io/xml/Element.java:106-109 | the first child matching name and attributes is the first of that selection |
| Xml.Element.constructor | src/main/java/jacz/util/io/xml/Element.java:20-22 | a new element has its name, no parent, no attributes, no children and no text |
| Xml.Element.NewWithParent | src/main/java/jacz/util/io/xml/Element.java:24-33 | a new element is added as the last child of its parent, and fails when the parent holds text |
| Xml.Element.GetAttributeValue | src/main/java/jacz/util/io/xml/Element.java:47-49 | the value stored for the attribute, or null |
| Xml.Element.PutAttribute | src/main/java/jacz/util/io/xml/Element.java:51-53 | the attribute map gains or replaces that one entry |
| Xml.Element.GetChildren | src/main/java/jacz/util/io/xml/Element.java:63-65 | a copy of the child list |
| Xml.Element.GetChildrenNamed | src/main/java/jacz/util/io/xml/Element.java:67-75 | the children with that name, in order |
| Xml.Element.CompareAttributes | src/main/java/jacz/util/io/xml/Element.java:87-99 | true exactly when every wanted attribute is present with an equal value |
| Xml.Element.GetChildrenMatching | src/main/java/jacz/util/io/xml/Element.java:77-85 | the children with that name and those attributes, in order |
| Xml.Element.GetChild | src/main/java/jacz/util/io/xml/Element.java:101-104 | the first child with that name, or null when there is none |
| Xml.Element.GetChildMatching | src/main/java/jacz/util/io/xml/Element.java:106-109 | the first child with that name and those attributes, or null |
| Xml.Element.SetChildren | src/main/java/jacz/util/io/xml/Element.java:111-119 | replaces the child list (null clears it); a non-empty list fails, changing nothing, when the element holds text |
| Xml.Element.AddChild | src/main/java/jacz/util/io/xml/Element.java:121-125 | appends the child and makes this element its parent; fails when the element holds text |
| Xml.Element.ClearChildren | src/main/java/jacz/util/io/xml/Element.java:127-129 | the child list becomes empty |
| Xml.Element.SetText | src/main/java/jacz/util/io/xml/Element.java:135-138 | sets the text; fails, changing nothing, when the element has children |
| Xml.Element.ClearText | src/main/java/jacz/util/io/xml/Element.java:140-142 | the text becomes null |
| Notification.NormalizeDelay | src/main/java/org/aanguita/jacuzzi/event/notification/NotificationReceiverHandler.java:60 | a delay below 1 ms means no delay; any other is kept |
| Notification.NormalizeLimit | src/main/java/org/aanguita/jacuzzi/event/notification/NotificationReceiverHandler.java:67 | the limit is at least 1, and a limit of at least 1 is kept |
| Notification.NormalizeFactor | src/main/java/org/aanguita/jacuzzi/event/notification/NotificationReceiverHandler.java:66 | the time factor is clamped to [0, 1] |
| Notification.Trunc | src/main/java/org/aanguita/jacuzzi/event/notification/NotificationReceiverHandler.java:90 | the `(long)` cast truncates toward zero: the result is within 1 of the argument, on the side of zero |
| Notification.ResetDelayAsWritten | src/main/java/org/aanguita/jacuzzi/event/notification/NotificationReceiverHandler.java:90 | the reset delay as written, the cast applied to the factor alone; see `ResetDelayAsWrittenCollapses` |
| Notification.ResetDelay | src/main/java/org/aanguita/jacuzzi/event/notification/NotificationReceiverHandler.java:90 | the reset delay with the cast applied to the product (corrected, see ## Findings); see `ResetDelayScaled` |
| Notification.ResetDelayAsWrittenCollapses | src/main/java/org/aanguita/jacuzzi/event/notification/NotificationReceiverHandler.java:90 | as written, any factor below 1 resets a running timer to a zero delay |
| Notification.ResetDelayHalfSecond | src/main/java/org/aanguita/jacuzzi/event/notification/NotificationReceiverHandler.java:90 | a factor of 0.5 on 1000 ms gives 0 as written and 500 corrected |
| Notification.ResetDelayScaled | src/main/java/org/aanguita/jacuzzi/event/notification/NotificationReceiverHandler.java:86-92 | the corrected delay lies between 0 and the full delay, and a factor of 1 keeps the full delay |
| Notification.MessagesAreFlatEvents | src/main/java/org/aanguita/jacuzzi/event/notification/NotificationReceiverHandler.java:100-108 | the grouped lists of the batches, concatenated, are the messages of their events, in order |
| Notification.HandedOver | src/main/java/org/aanguita/jacuzzi/event/notification/NotificationReceiverHandler.java:74-114 | the messages handed over followed by those buffered are all messages received, in order; every batch holds between 1 and `limit` events |
| Notification.NotificationReceiverHandler.constructor | src/main/java/org/aanguita/jacuzzi/event/notification/NotificationReceiverHandler.java:57-72 | delay, factor and limit are normalised; buffers empty; timer stopped; nothing submitted |
| Notification.NotificationReceiverHandler.NewEvent | src/main/java/org/aanguita/jacuzzi/event/notification/NotificationReceiverHandler.java:74-84 | the event is buffered in both lists; the event that reaches the limit flushes one batch with all buffered events and stops the timer; any other restarts the timer when there is one, a running timer with the scaled delay (corrected, see ## Findings); fewer than `limit` events stay buffered and none is lost |
| Notification.NotificationReceiverHandler.SetTimer | src/main/java/org/aanguita/jacuzzi/event/notification/NotificationReceiverHandler.java:86-92 | a stopped timer restarts with the full delay, a running one with the delay scaled by the factor (corrected, see ## Findings) |
| Notification.NotificationReceiverHandler.StopTimer | src/main/java/org/aanguita/jacuzzi/event/notification/NotificationReceiverHandler.java:94-98 | the timer, when there is one, is stopped |
| Notification.NotificationReceiverHandler.NotifyReceiver | src/main/java/org/aanguita/jacuzzi/event/notification/NotificationReceiverHandler.java:100-108 | with events buffered, one batch with the count and both lists is submitted and the buffers emptied; with none, nothing happens |
| Notification.NotificationReceiverHandler.Reset | src/main/java/org/aanguita/jacuzzi/event/notification/NotificationReceiverHandler.java:110-114 | both lists empty and the count zero |
| Notification.NotificationReceiverHandler.WakeUp | src/main/java/org/aanguita/jacuzzi/event/notification/NotificationReceiverHandler.java:116-123 | flushes only when the timer is running, and always returns 0 |
| Monitors.OnStateChange | src/main/java/org/aanguita/jacuzzi/concurrency/monitor/Monitor.java:95-106 | no effect once stopped; with no worker, submits exactly one and leaves no change pending; with a worker, submits nothing and marks the change pending; the gate closes; the invariant is kept |
| Monitors.OnRequestKill | src/main/java/org/aanguita/jacuzzi/concurrency/monitor/Monitor.java:134-148 | the worker may finish exactly when no change is pending or the monitor is stopped, and then its flag, the future and the gate are cleared; otherwise only the pending change is consumed |
| Monitors.StateSolved | src/main/java/org/aanguita/jacuzzi/concurrency/monitor/Monitor.java:108-110 | `isStateSolved`: no pending change and no active worker; see `SolvedIffGateOpen` |
| Monitors.SolvedIffGateOpen | src/main/java/org/aanguita/jacuzzi/concurrency/monitor/Monitor.java:108-110 | while alive, `isStateSolved` holds exactly when the gate lets clients through |
| Monitors.OnStop | src/main/java/org/aanguita/jacuzzi/concurrency/monitor/Monitor.java:116-127 | only the call that finds the monitor alive acts, switching it off, and it then waits on the future exactly when a worker exists |
| Monitors.StopOnce | src/main/java/org/aanguita/jacuzzi/concurrency/monitor/Monitor.java:116-127 | a second `stop` is a no-op |
| Monitors.ChangesWhileActive | src/main/java/org/aanguita/jacuzzi/concurrency/monitor/Monitor.java:95-106 | while a worker runs, any number of changes leave one pending change and submit nothing |
| Monitors.ChangesWhileIdle | src/main/java/org/aanguita/jacuzzi/concurrency/monitor/Monitor.java:95-106 | with no worker, a burst of changes submits exactly one worker, with a change pending when the burst had more than one |
| Monitors.ChangesKeepWorker | src/main/java/org/aanguita/jacuzzi/concurrency/monitor/Monitor.java:95-106 | changes during a round keep the worker and the invariant, and submit nothing |
| Monitors.OnRound | src/main/java/org/aanguita/jacuzzi/concurrency/monitor/Monitor.java:28-42 | one loop iteration keeps the invariant and submits nothing; the worker finishes exactly when its flag is cleared; a fault finishes it and stops the monitor without waiting (corrected, see ## Findings) |
| Monitors.Coalescing | src/main/java/org/aanguita/jacuzzi/concurrency/monitor/Monitor.java:28-42 | after a solved round the worker finishes exactly when no change arrived during it; any number of changes cause exactly one more round |
| Monitors.WorkerRun | src/main/java/org/aanguita/jacuzzi/concurrency/monitor/Monitor.java:28-42 | a worker run keeps the invariant, submits nothing, and when it finishes it has cleared its flag and opened the gate |
| Monitors.QuietRoundEndsRun | src/main/java/org/aanguita/jacuzzi/concurrency/monitor/Monitor.java:28-42 | a worker whose rounds are solved finishes, at the latest, in the first round without a change |
| Monitors.ExecuteActionAsWritten | src/main/java/org/aanguita/jacuzzi/concurrency/monitor/Monitor.java:150-159 | without a fault, `executeAction` returns the solver's answer and changes nothing |
| Monitors.FaultAsWrittenAwaitsOwnFuture | src/main/java/org/aanguita/jacuzzi/concurrency/monitor/Monitor.java:116-127 | as written, a fault in a live worker makes it wait on its own future while its flag and the gate stay set |
| Monitors.FaultEndsWorker | src/main/java/org/aanguita/jacuzzi/concurrency/monitor/Monitor.java:150-159 | corrected, a fault stops the monitor and the worker finishes, clearing its flag and opening the gate |
| Monitors.Run | src/main/java/org/aanguita/jacuzzi/concurrency/monitor/Monitor.java:95-148 | a history of `stateChange`, `stop` and worker rounds applied one after the other; see `RunKeepsInv` and `AtMostOneWorker` |
| Monitors.RunKeepsInv | src/main/java/org/aanguita/jacuzzi/concurrency/monitor/Monitor.java:95-148 | any history of calls keeps the invariant |
| Monitors.AtMostOneWorker | src/main/java/org/aanguita/jacuzzi/concurrency/monitor/Monitor.java:95-106 | from a new monitor, at most one worker task exists at any time, and one exists exactly when the worker flag is set |
| Monitors.Monitor.constructor | src/main/java/org/aanguita/jacuzzi/concurrency/monitor/Monitor.java:81-90 | a new monitor is alive with every flag clear and no future |
| Monitors.Monitor.StateChange | src/main/java/org/aanguita/jacuzzi/concurrency/monitor/Monitor.java:95-106 | performs `OnStateChange` on the fields |
| Monitors.Monitor.IsStateSolved | src/main/java/org/aanguita/jacuzzi/concurrency/monitor/Monitor.java:108-110 | neither a pending change nor an active worker |
| Monitors.Monitor.Stop | src/main/java/org/aanguita/jacuzzi/concurrency/monitor/Monitor.java:116-127 | performs `OnStop` and reports whether the caller waits for the worker |
| Monitors.Monitor.RequestKillDaemonThread | src/main/java/org/aanguita/jacuzzi/concurrency/monitor/Monitor.java:134-148 | performs `OnRequestKill` and returns whether the worker may finish |
| Monitors.Monitor.ExecuteAction | src/main/java/org/aanguita/jacuzzi/concurrency/monitor/Monitor.java:150-159 | one solver call with the changes reported meanwhile, as `OnRound` prescribes; a fault stops the monitor without waiting (corrected, see ## Findings) |
| Monitors.Monitor.Run | src/main/java/org/aanguita/jacuzzi/concurrency/monitor/Monitor.java:28-42 | the worker loop ends in the state and with the answer `WorkerRun` prescribes |
| DynamicStates.Apply | src/main/java/jacz/util/AI/search/DynamicState.java:50-56 | the act's result is returned unchanged; with events the `before` hook sees the old state and the `after` hook the state the act left |
| DynamicStates.Solve | src/main/java/jacz/util/AI/search/DynamicState.java:103-125 | solved exactly when no transition is left, and then nothing changes; otherwise the transition runs once |
| DynamicStates.ReachedAsWritten | src/main/java/jacz/util/AI/search/DynamicState.java:99-101 | `hasReachedGoal` as written: a transition exists; see `ReachedAsWrittenIsInverted` |
| DynamicStates.Reached | src/main/java/jacz/util/AI/search/DynamicState.java:99-101 | the goal is reached when no transition is left (corrected, see ## Findings); see `ReachedAgreesWithSolve` |
| DynamicStates.ReachedAsWrittenIsInverted | src/main/java/jacz/util/AI/search/DynamicState.java:99-101 | as written, `hasReachedGoal` is true exactly when `solveState` would report not solved |
| DynamicStates.NothingLeftToDo | src/main/java/jacz/util/AI/search/DynamicState.java:99-101 | with no transition for any state, the goal is reached yet `hasReachedGoal` answers false |
| DynamicStates.ReachedAgreesWithSolve | src/main/java/jacz/util/AI/search/DynamicState.java:99-125 | corrected, the goal is reached exactly when `solveState` reports solved, and then the state is left alone |
| DynamicStates.DynamicState.constructor | src/main/java/jacz/util/AI/search/DynamicState.java:71-78 | holds the initial state, goal and transitions, and is alive |
| DynamicStates.DynamicState.SetGoal | src/main/java/jacz/util/AI/search/DynamicState.java:92-97 | an equal goal changes nothing and sends no signal; a different one replaces the goal and signals the daemon exactly once |
| DynamicStates.DynamicState.HasReachedGoalAsWritten | src/main/java/jacz/util/AI/search/DynamicState.java:99-101 | as written: true exactly when a transition is still to be applied, that is, exactly when `solveState` would report not solved |
| DynamicStates.DynamicState.HasReachedGoal | src/main/java/jacz/util/AI/search/DynamicState.java:99-101 | true exactly when `solveState` would report solved |
| DynamicStates.DynamicState.SolveState | src/main/java/jacz/util/AI/search/DynamicState.java:103-125 | while alive, does what `Solve` prescribes and sleeps for the wait it asked for; the `!alive` branch (commented "stopped" in the source) reports solved and changes nothing, but is unreachable, because nothing clears `alive`, not even `stop` |
| DynamicStates.DynamicState.ActOnState | src/main/java/jacz/util/AI/search/DynamicState.java:50-56 | runs the act on this instance through its hooks, as `Apply` prescribes |
| DynamicStates.DynamicState.WakeUp | src/main/java/jacz/util/AI/search/DynamicState.java:127-132 | signals the daemon once and returns null |
| DynamicStates.DynamicState.Stop | src/main/java/jacz/util/AI/search/DynamicState.java:138-141 | records the stop and leaves `alive` set |

## Left out

- `RangeList` and the `Range` methods that take or build one beyond a single `subtract` (`union`, `intersection` and `subtract` of a list): `RangeList` is not part of this model. The pieces `Ranges.Subtract` returns are the ranges handed to `RangeList.add`, which may merge them or drop empty ones.
- `Range` over `Byte` and `Short`: `next` and `previous` (Range.java:145, 147, 159, 161) box the `int` result of `byteValue() - 1` or `shortValue() + 1` as an `Integer` and then cast it to `Byte` or `Short`, which always throws ClassCastException. So every path through them throws for those types: `generateEmptyRange`, the disjoint answers of `compareTo(Range)`, the empty results of `intersection` and every `subtract` piece. `Ranges.Next`, `Ranges.Previous`, `Ranges.GenerateEmptyRange`, `Ranges.CompareTo`, `Ranges.Intersection` and `Ranges.Subtract` describe `Integer` and `Long` ranges only.
- `Range` over `Integer` and `Long`: bounds are unbounded integers, so the fixed-width wrap-around of `next`/`previous` at the type limits is not modelled; `toString`, `hashCode` and `buildInstance` reflection are left out.
- `FragmentedArray`: fragments are never null here; `FragmentedArrays.FragmentedArray.Add` and `FragmentedArrays.FragmentedArray.AddLeft` take a non-null fragment. In Java, `add(null)` and `addLeft(null)` store the null in `arrays` first (FragmentedArray.java:38, 55) and only then throw NullPointerException on `array.length` (lines 45, 62), leaving `arrays` one entry longer than `indexes`. From then on, fragments and index ranges are paired off by one. After `addLeft(null)`, any later `add` or `addLeft` that leaves the size non-zero throws in `generateBaseArray` (line 74), which reads the length of the null at position 0. After `add(null)`, a later `getArray` that reaches the null throws as well. None of these corrupted states is modelled.
- `FragmentedArray`: fragments are values, so a caller mutating an array after `add` is not modelled; `GenerateBaseArray` returns the index its scan stops at; the base array it then copies from the first fragment only supplies the element type of later results and is not modelled.
- `Element`: attribute values, element names and children are never null here. In Java, `addChild(null)` first appends `null` (Element.java:123) and only then throws NullPointerException (line 124), leaving a null child behind, on which every later `getChildren(name)` throws (line 70). An element with a null name makes `getChildren(name)` and `getChild(name)` throw as well, because they call `getName().equals(name)`. None of these null paths is modelled: `Xml.Element.AddChild` takes a non-null child and element names are strings.
- `Element`: `setChildren` keeps the caller's list object itself; the child list is a value here, so later changes made through the caller's reference are not modelled.
- `NotificationReceiverHandler`: the `Timer` is its running flag and last delay; how it reacts to the value `wakeUp` returns, and when it fires, are not modelled. The receiver callback runs on the executor, which is the list of submitted batches; `stop` (timer kill and executor shutdown) is left out. The time factor is a real number, not a double.
- `Monitor`: threads, `future.get()`, `ThreadExecutor` client registration and shutdown, `ErrorLog` and `blockUntilStateIsSolved` blocking are not modelled; the gate is a flag, the stop caller's wait is the answer `Stop` returns, and the `stateChange` calls other threads make while the solver runs are the `changes` of each round. `Monitors.Monitor.Run` runs the rounds it is given, so it models a finite prefix of the worker loop.
- `DynamicState`: `ThreadUtil.safeSleep` is a log of the sleeps, the daemon is a count of signals, the hook executor and `stop` beyond the flag are left out, and `setGeneralTimer` has an empty body. A transition is a function of state and goal, so an act that calls back into `setGoal` is not modelled.
- `DynamicStates.DynamicState.Stop`: does not model `daemon.stop()` and `hookExecutor.stopAndWaitForFinalization()`, because the daemon and the executor are not part of this model.

## Findings

| source | as written | input that shows it | evidently intended | confidence | as-written member | corrected member |
|---|---|---|---|---|---|---|
| src/main/java/jacz/util/numeric/newrange/Range.java:393-396 | the CONTAINS case of `subtract` calls `previous(range.min)` and `next(range.max)` even when that bound is missing | (-inf, 10] minus (-inf, 5] throws NullPointerException | only the piece on the bounded side, [6, 10] | high, not executed | Ranges.SubtractSharedInfinityThrows | Ranges.SubtractCorrectedMembers |
| src/main/java/org/aanguita/jacuzzi/event/notification/NotificationReceiverHandler.java:90 | `(long) timeFactorAtEachEvent * millis` casts the factor alone | factor 0.5, delay 1000 ms: a running timer is reset to 0 ms | the delay scaled by the factor, 500 ms | high, not executed | Notification.ResetDelayAsWrittenCollapses | Notification.ResetDelayScaled |
| src/main/java/jacz/util/AI/search/DynamicState.java:99-101 | `hasReachedGoal` returns `getTransition(...) != null` | a lookup with no transition left: the goal is reached, the answer is false | true exactly when no transition is left | high, not executed | DynamicStates.ReachedAsWrittenIsInverted | DynamicStates.ReachedAgreesWithSolve |
| src/main/java/org/aanguita/jacuzzi/concurrency/monitor/Monitor.java:150-159 | a solver exception makes the worker call `stop`, which waits on `future.get()` for the worker's own task | a live monitor whose solver throws while its worker runs | switch the monitor off without waiting, and let the worker finish | medium, not executed | Monitors.FaultAsWrittenAwaitsOwnFuture | Monitors.FaultEndsWorker |
