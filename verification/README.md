# Verification of lomiri-api

A Dafny model of five parts of lomiri-api, with proofs of what they promise. `dafny verify dfyconfig.toml` checks
all of it.

- **Exception reports** (`src/lomiri/Exception.cpp`). `Report.dfy` says what a report is: a list of lines, each
  with a depth, built from an exception's history and causes. `Exceptions.dfy` has the exceptions as heap objects
  and the helpers that append to a string and pass a generation count by reference; every helper is proved to
  append exactly the text of its lines, whatever is in the string already, and the mutual recursion to terminate
  on the finite unfolding of an acyclic graph. `ReportProperties.dfy` proves what every report satisfies, and
  `ExceptionGraphs.dfy` when a graph has a report at all and what `remember` does to graphs.
- **ResourcePtr** (`include/lomiri/util/ResourcePtr.h`). `Resources.dfy` gives the effect of each member on the
  instances it works on; the class in `ResourcePtr.dfy` is proved against it. `ResourceRuns.dfy` proves ownership
  over whole runs, `ResourceThreads.dfy` and `ThreadRuns.dfy` thread safety: every interleaving of the members'
  single statements is equivalent to the calls made one after the other, in an order that respects real time.
  `ResourceOrder.dfy` is about the comparison operators.
- **daemonize_me** (`src/lomiri/util/internal/DaemonImpl.cpp`). `Process.dfy` is an abstract process with its
  system calls, `Daemon.dfy` the code, its outcome on success and after every failure, and what a second call does.
- **D-Bus names** (`src/lomiri/util/Dbus.cpp`). `Dbus.dfy`, for signed and for unsigned `char`.
- **The notification list with a confirmation slot**
  (`test/qmltest/mocks/plugins/Lomiri/Notifications/Mocks/MockModel.cpp`). `Notifications.dfy`.

Conventions. Memory exhaustion and the overflow of `int` levels and counts are not modelled. What the outside world
decides (whether a system call fails, whether a deleter throws, what a directory listing contains) is a parameter or
an arbitrary choice. An exception that is remembered is always a Lomiri exception, as `remember` asks of its callers
(`src/lomiri/Exception.cpp:298-299`); the code catches nothing else when it follows a history.

Where the code and its documentation or comments differ, the model follows the code:

- `operator<=` and `operator>` of ResourcePtr compare the resource fields without looking whether they are in use;
  the promise about empty instances holds only as stated by `LessOrEqualNeedsBoth`.
- Move assignment does not keep its promise for a self-move, nor when the old resource's deleter throws
  (`MovePromiseHoldsExactly`).
- `daemonize_me` leaves a process that is not a session leader, while its class comment speaks of a session leader.
- `close_open_files` means to skip directory entries that are not numbers, but `std::stoi` throws on them inside a
  `noexcept` function. So with `close_fds` a listing that contains "." ends the process (`DaemonizeMe` says when).
- If the listing of descriptors cannot be opened, `close_fds` leaves the other descriptors open
  (`DescriptorsAfterSuccess`).
- Calling `daemonize_me` again is promised to be safe. Provided listings hold only numbers, it succeeds again and
  changes nothing exactly with an absolute directory or none (`RepeatableExactly`, `RelativeDirectoryMayFail`).
- Below level 0, `to_string` is not always the "prepended level times" layout its comment describes (`FlatExactly`).
- A notification that is added after the confirmation slot has been dismissed while empty is announced at row 1 but
  listed at row 0 (`MirroredExactly`, `LosingTheMirror`).
- A confirmation that is dismissed below row 0 changes its type while the signal names row 0
  (`TypesAreReportedExactly`, `HidingATypeChange`).

## Model

| member | source | states |
|---|---|---|
| `Exceptions.GetMargin` | src/lomiri/Exception.cpp:32-40 | the margin is the indent level times over, read from either end, and empty for levels below 1 |
| `Exceptions.PrintNameAndReason` | src/lomiri/Exception.cpp:46-78 | appends the name and, behind ": ", a reason that is not empty; what() and a note; or the text for a bare std::nested_exception |
| `Exceptions.FollowNested` | src/lomiri/Exception.cpp:80-116 | whatever the string holds, appends nothing, or a colon, a newline and the rendered lines of the cause |
| `Exceptions.PrintCaught` | src/lomiri/Exception.cpp:87-114 | the catch clauses tell the five kinds apart and append the lines of that kind |
| `Exceptions.FollowHistory` | src/lomiri/Exception.cpp:122-152 | appends the rendered history, oldest first, and sets the count, which it never reads before, to the length of the chain |
| `Exceptions.ToString` | src/lomiri/Exception.cpp:262-293 | for every exception whose graph unfolds, every level and every indent, the result is the rendered report |
| `Exceptions.ExceptionObject.Self` | src/lomiri/LomiriExceptions.cpp:42-45 | a fresh copy with the same contents and history |
| `Exceptions.ExceptionObject.Remember` | src/lomiri/Exception.cpp:307-316 | links to the argument, changes nothing else, and returns a fresh copy of the result |
| `Report.RenderAttach` | src/lomiri/Exception.cpp:80-86 | a cause may be appended after any lines: the colon goes to whatever line comes before it |
| `ReportProperties.TitleComesFirst` | src/lomiri/Exception.cpp:264-270 | the first line is the name and, behind ": ", the reason if there is one, flush; a colon ends it exactly if a cause follows at once |
| `ReportProperties.HistoryComesSecond` | src/lomiri/Exception.cpp:272-286 | then the heading and the history two levels deeper, unchanged but for a colon at its end if a cause follows |
| `ReportProperties.CauseComesLast` | src/lomiri/Exception.cpp:288-290 | then the lines of the cause at their own depth, and nothing else |
| `ReportProperties.CauseLayout` | src/lomiri/Exception.cpp:87-114 | a Lomiri cause is its report one level deeper; any other cause a line with its text, and its own cause one level deeper |
| `ReportProperties.EntryLayout` | src/lomiri/Exception.cpp:146-151 | an entry is its number, and one level deeper the name and reason and then the cause |
| `ReportProperties.LineLayout` | src/lomiri/Exception.cpp:262-293 | what is printed for a line: level + depth indents if that is not negative, the extra one, and the text |
| `ReportProperties.TextHasTheLines` | src/lomiri/Exception.cpp:262-293 | cutting the text at its newlines gives back the lines exactly if none of them has a newline in it |
| `ReportProperties.FlatExactly` | src/lomiri/Exception.cpp:247-256 | for each exception there is one list of (depth, text) rows with every row behind level + depth indents, exactly if indents are empty or no line has an extra indent behind a margin below level 0 |
| `ReportProperties.FlatForAllExactly` | src/lomiri/Exception.cpp:247-256 | so all reports are laid out like that exactly at the levels that are not negative |
| `ReportProperties.RaiseLevel` | src/lomiri/Exception.cpp:252-255 | raising the level by k puts k more indents in front of every line and changes nothing else |
| `ReportProperties.ReportLength` | src/lomiri/Exception.cpp:262-293 | nothing is dropped: the number of lines, over all kinds of exceptions, histories and causes |
| `ReportProperties.HistoryLength` | src/lomiri/Exception.cpp:122-152 | two lines for each remembered exception and the lines of its causes |
| `ReportProperties.EveryExceptionIsShown` | src/lomiri/Exception.cpp:229-233 | every exception reachable by causes and histories has a line that consists of its name and reason (or what() and note, or one of the fixed texts), but for a colon, at the depth of its nesting |
| `ReportProperties.EveryRememberedIsShown` | src/lomiri/Exception.cpp:147-151 | the same for everything reachable from a history entry |
| `ReportProperties.HistoryIsNumbered` | src/lomiri/Exception.cpp:134-151 | the history is exactly the entries numbered 1 to n of the chain, oldest first, one after the other |
| `ReportProperties.ChainIsLinked` | src/lomiri/Exception.cpp:122-145 | the chain leads from an exception that remembers nothing, link by link, to the last one remembered |
| `ReportProperties.DecimalIsPlain` | src/lomiri/Exception.cpp:148-148 | numbers are in decimal without leading zeros |
| `ReportProperties.HeadingsDiffer` | src/lomiri/Exception.cpp:147-148 | entries with different numbers have different headings |
| `ExceptionGraphs.UnfoldingIsUnique` | src/lomiri/Exception.cpp:80-152 | a graph has at most one unfolding, so one report |
| `ExceptionGraphs.RenderableIffAcyclic` | src/lomiri/Exception.cpp:80-152 | the recursion has something finite to follow from every exception of a closed graph exactly if the graph has no cycle over both kinds of edges |
| `ExceptionGraphs.CycleHasNoUnfolding` | src/lomiri/Exception.cpp:309-309 | an exception on a cycle has no finite report |
| `ExceptionGraphs.RememberKeepsHistoriesFinite` | src/lomiri/Exception.cpp:307-316 | after remember() all chains are finite, exactly if the argument is null or does not lead back to the exception |
| `ExceptionGraphs.RememberExtendsHistory` | src/lomiri/Exception.cpp:295-305 | the history of the remembering exception is the argument's followed by itself, one longer |
| `ExceptionGraphs.RememberAll` | include/lomiri/Exception.h:52-96 | threading the returned copies through any series of calls links each copy to the one before and keeps name, reason and cause; the last one has a report exactly if every cause has one, and then one entry for each call |
| `ExceptionGraphs.ThreadedIsFinite` | src/lomiri/Exception.cpp:298-304 | an exception threaded that way has a report exactly if all the causes kept on the way have one |
| `ExceptionGraphs.ThreadedHistory` | src/lomiri/Exception.cpp:298-304 | its history then has one entry for each call, in call order |
| `ExceptionGraphs.ToStringFromTop` | src/lomiri/Exception.cpp:241-244 | on every acyclic graph the result is the rows of the one report, each behind as many indents as it is deep |
| `ResourcePtrs.ResourcePtr.Holding` | include/lomiri/util/ResourcePtr.h:236-240 | holds the resource with its deleter, which is recorded as an acquisition |
| `ResourcePtrs.ResourcePtr.Moved` | include/lomiri/util/ResourcePtr.h:250-255 | takes over resource and deleter; the source is empty |
| `ResourcePtrs.ResourcePtr.MoveAssign` | include/lomiri/util/ResourcePtr.h:264-283 | self-move included: deletes the old resource, then transfers unless the deleter throws; the mutex is free on both exits |
| `ResourcePtrs.ResourcePtr.Destroy` | include/lomiri/util/ResourcePtr.h:289-299 | empties the instance, calling its deleter at most once, and swallows the exception |
| `ResourcePtrs.ResourcePtr.Swap` | include/lomiri/util/ResourcePtr.h:310-326 | exchanges the contents, self-swap included; both mutexes are free afterwards |
| `ResourcePtrs.ResourcePtr.Reset` | include/lomiri/util/ResourcePtr.h:356-374 | the new resource is held whether or not the deleter of the old one throws, and that one is not deleted again |
| `ResourcePtrs.ResourcePtr.Release` | include/lomiri/util/ResourcePtr.h:382-394 | gives up the resource without deleting it, or logic_error |
| `ResourcePtrs.ResourcePtr.Dealloc` | include/lomiri/util/ResourcePtr.h:403-414 | empty afterwards, also if the deleter throws; the mutex is free on every exit |
| `ResourcePtrs.ResourcePtr.Get` | include/lomiri/util/ResourcePtr.h:425-436 | the resource, or logic_error |
| `ResourcePtrs.ResourcePtr.HasResource` | include/lomiri/util/ResourcePtr.h:442-448 | whether a resource is held |
| `ResourcePtrs.ResourcePtr.Equals` | include/lomiri/util/ResourcePtr.h:496-520 | equality of the held resources, empty instances being equal; consistent with the same-object shortcut |
| `ResourcePtrs.ResourcePtr.Less` | include/lomiri/util/ResourcePtr.h:547-571 | the order with empty instances below all others; consistent with the same-object shortcut |
| `ResourcePtrs.ResourcePtr.LessOrEqual` | include/lomiri/util/ResourcePtr.h:586-606 | compares the resource fields whether or not they are in use |
| `ResourcePtrs.ResourcePtr.GreaterOrEqual` | include/lomiri/util/ResourcePtr.h:638-643 | the negation of the order |
| `ResourceOrder.LiftedOrderIsTotal` | include/lomiri/util/ResourcePtr.h:484-643 | ==, !=, < and >= realise one total order if the resources have one: trichotomy, transitivity, empty below everything |
| `ResourceOrder.LessOrEqualNeedsBoth` | include/lomiri/util/ResourcePtr.h:573-606 | <= (and >) agree with that order for all field contents exactly if both sides hold a resource |
| `Resources.MovePromiseHoldsExactly` | include/lomiri/util/ResourcePtr.h:257-283 | when the promise about has_resource() after a move is kept, and when not |
| `Resources.MoveAssignOnFields` | include/lomiri/util/ResourcePtr.h:264-283 | final fields of both instances, deleter call and outcome, for every input; no other instance changes |
| `Resources.SwapOnFields` | include/lomiri/util/ResourcePtr.h:310-326 | the contents change places, nothing is deleted, no other instance changes |
| `Resources.ResetOnFields` | include/lomiri/util/ResourcePtr.h:356-374 | the new resource is held with the deleter unchanged; the old one, if any, is deleted by it, and only that may throw |
| `Resources.ReleaseOnFields` | include/lomiri/util/ResourcePtr.h:382-394 | the resource comes out undeleted and the instance is empty, or logic_error and no effect |
| `Resources.DeallocOnFields` | include/lomiri/util/ResourcePtr.h:403-414 | empty in any case; the resource, if any, is deleted once, and only that may throw |
| `Resources.LookingOnFields` | include/lomiri/util/ResourcePtr.h:425-643 | get, has_resource and the comparisons change nothing and answer from the fields |
| `ResourceRuns.CallIsBalanced` | include/lomiri/util/ResourcePtr.h:264-414 | no member creates, loses or duplicates a resource or gives it another deleter, whether or not deleters throw |
| `ResourceRuns.StepsOnFields` | include/lomiri/util/ResourcePtr.h:193-299 | construction, move construction and destruction: the fields, the living instances and the events; destruction deletes, it does not release |
| `ResourceRuns.RunConserves` | include/lomiri/util/ResourcePtr.h:236-414 | in every run, over any number of instances, each resource with its deleter is held, deleted and released as often as it was acquired |
| `ResourceRuns.ExactlyOnePlace` | include/lomiri/util/ResourcePtr.h:236-414 | a resource acquired once is held by one living instance, or was passed once to the deleter it came with, or was released once |
| `ResourceRuns.NothingLeaks` | include/lomiri/util/ResourcePtr.h:52-57 | when all instances are destroyed every resource has been deleted by its deleter or released |
| `ResourceThreads.StepsAreTheCall` | include/lomiri/util/ResourcePtr.h:264-606 | run without interruption, the single statements of each member, and the single field reads of a comparison, have the effect of the whole call |
| `ThreadRuns.InterleavingIsSequential` | include/lomiri/util/ResourcePtr.h:264-520 | at every point of every interleaving, deleter calls and each thread's results are those of the calls made one after the other, in the order in which they take effect |
| `ThreadRuns.Linearizable` | include/lomiri/util/ResourcePtr.h:64-64 | with no call in progress the instances are as after that sequential execution and all mutexes are free, also after throwing deleters |
| `ThreadRuns.RespectsRealTime` | include/lomiri/util/ResourcePtr.h:64-64 | real time: however a run goes on, a call that had returned at some point comes before every call that had not been started then, also of a thread with another call in progress |
| `ThreadRuns.ResultAt` | include/lomiri/util/ResourcePtr.h:264-520 | the k-th result of a thread is exactly what its k-th call in that order returns or throws, when executed on what the calls before it in the order leave |
| `ThreadRuns.MutualExclusion` | include/lomiri/util/ResourcePtr.h:264-520 | calls in progress never work on the same instance |
| `ThreadRuns.HoldersOfMutexes` | include/lomiri/util/ResourcePtr.h:264-520 | at every point a thread has a mutex exactly if it is in a call on that instance, or in a swap or comparison of that and a different one |
| `ThreadRuns.ClientRule` | include/lomiri/util/ResourcePtr.h:279-279 | all that is asked of clients: no two calls in progress use what one of them moves from another instance |
| `ThreadRuns.NobodyIsStuck` | include/lomiri/util/ResourcePtr.h:313-320 | a call in progress can go on, and a call that cannot start waits for a mutex of such a call |
| `ThreadRuns.EveryRunCanFinish` | include/lomiri/util/ResourcePtr.h:313-320 | no deadlock: every run can be continued until all calls have returned and all mutexes are free |
| `ThreadRuns.CallsEndSoon` | include/lomiri/util/ResourcePtr.h:313-320 | whatever the scheduler does, without new calls at most 8 further steps are possible for each thread, and the steps end only with all calls returned and all mutexes free |
| `ThreadRuns.OwnershipAtEveryPoint` | include/lomiri/util/ResourcePtr.h:236-414 | at every point of every interleaving, with calls in progress: what is held by instances at rest, deleted by its deleter or released never exceeds what was there or acquired, and the calls that have taken effect account for all of it |
| `ThreadRuns.ThreadsConserve` | include/lomiri/util/ResourcePtr.h:236-414 | and with no call in progress the two are equal |
| `Daemon.DaemonImpl.CloseOpenFiles` | src/lomiri/util/internal/DaemonImpl.cpp:230-279 | 0, 1, 2 closed, or everything; terminates exactly if the listing has an entry on which stoi throws; the late closedir closes nothing that is in use |
| `Daemon.DaemonImpl.Collect` | src/lomiri/util/internal/DaemonImpl.cpp:255-271 | the numbers of the listing, or that stoi threw |
| `Daemon.DaemonImpl.ResetAllSignals` | src/lomiri/util/internal/DaemonImpl.cpp:206-213 | every signal that can be set has its default action, the others are unchanged |
| `Daemon.DaemonImpl.OpenNull` | src/lomiri/util/internal/DaemonImpl.cpp:220-225 | the three assertions hold: the null device is on 0, 1 and 2 and nothing else changes |
| `Daemon.DaemonImpl.RestoreDirectory` | src/lomiri/util/internal/DaemonImpl.cpp:89-99 | what the deleter of the saved directory does to the process |
| `Daemon.DaemonImpl.DaemonizeMe` | src/lomiri/util/internal/DaemonImpl.cpp:83-226 | when it succeeds, throws or ends abnormally, the whole process state after success and after every failure, and that of the two forks of this call SIGHUP is ignored from before the second until dispositions are set again |
| `Daemon.DaemonImpl.SetUmask` | src/lomiri/util/internal/DaemonImpl.cpp:68-72 | the umask is set and nothing else |
| `Daemon.DaemonImpl.SetWorkingDirectory` | src/lomiri/util/internal/DaemonImpl.cpp:74-77 | the directory is set and nothing else |
| `Daemon.DaemonImpl.CloseFds` | src/lomiri/util/internal/DaemonImpl.cpp:56-59 | only that setting changes |
| `Daemon.DaemonImpl.ResetSignals` | src/lomiri/util/internal/DaemonImpl.cpp:63-66 | only that setting changes |
| `Daemon.RollbackIsComplete` | src/lomiri/util/internal/DaemonImpl.cpp:118-122 | the strong exception guarantee holds (up to the session) exactly if the directory is not changed, or was saved and could be restored |
| `Daemon.FailsExactly` | src/lomiri/util/internal/DaemonImpl.cpp:101-189 | it throws exactly if a directory was given and does not resolve, or one of the forks fails |
| `Daemon.SucceedsExactly` | src/lomiri/util/internal/DaemonImpl.cpp:83-226 | it succeeds exactly if none of that happens, the null device opens and, where descriptors are closed by a listing, that has numbers only |
| `Daemon.PlaceAfterSuccess` | include/lomiri/util/Daemon.h:40-66 | the directory is the one that was set, or the old one; so is the umask; the process leads no session or group and has no terminal |
| `Daemon.StateAfterFailure` | src/lomiri/util/internal/DaemonImpl.cpp:83-189 | after an exception everything is as before, but for a directory that could not be saved or gone back to, and a session of its own after the first fork |
| `Daemon.DescriptorsAfterSuccess` | include/lomiri/util/Daemon.h:44-50 | 0, 1, 2 on the null device; the others unchanged or, if that was asked for, closed: nothing above 2 is open exactly if the listing could be opened or nothing was |
| `Daemon.SignalsAfterSuccess` | include/lomiri/util/Daemon.h:52-53 | handlers unchanged, or the default for every signal that can be set |
| `Daemon.ActionsRestoredExactly` | src/lomiri/util/internal/DaemonImpl.cpp:199-202 | complete dispositions come back exactly if SIGHUP was not ignored with a mask or flags |
| `Daemon.CallingAgainIsSafe` | include/lomiri/util/Daemon.h:114-118 | with an absolute directory or none a second call leaves the same state and throws only if the first does; after a success it succeeds exactly if no descriptors are to be closed or listed, or the listing with only itself open holds numbers only |
| `Daemon.RepeatableExactly` | include/lomiri/util/Daemon.h:114-118 | for every configuration: in all well-behaved environments in which a first call succeeds a second one succeeds too and changes nothing, exactly with an absolute directory or none |
| `Daemon.RelativeDirectoryMayFail` | include/lomiri/util/Daemon.h:114-118 | for every configuration with a relative directory there is a well-behaved environment in which the first call succeeds and the second fails |
| `Dbus.DbusSanitizeStr` | src/lomiri/util/Dbus.cpp:27-41 | the loop concatenates the escapes of the bytes |
| `Dbus.UnchangedExactly` | src/lomiri/util/Dbus.cpp:31-32 | a string comes out as it is exactly if it has only letters A to Z, a to z and digits 0 to 9 |
| `Dbus.EscapeIsPrinted` | src/lomiri/util/Dbus.cpp:34-36 | any other byte becomes '_' and its two lower-case hexadecimal digits, with six times 'f' before them for a signed char above 0x7f |
| `Dbus.DecodeInvertsSanitize` | src/lomiri/util/Dbus.cpp:27-41 | a decoder recovers every string, for both kinds of char, and accepts nothing else |
| `Dbus.SanitizeInjective` | src/lomiri/util/Dbus.cpp:27-41 | different strings have different names |
| `Dbus.SanitizeConcat` | src/lomiri/util/Dbus.cpp:30-38 | escaping distributes over concatenation |
| `Dbus.SanitizeAlphabetAndLength` | src/lomiri/util/Dbus.cpp:27-41 | letters, digits and underscores only; at most 9 or 3 bytes for each byte |
| `Dbus.PlatformsAgree` | src/lomiri/util/Dbus.cpp:35-35 | signed and unsigned char give the same name exactly for 7-bit strings |
| `Dbus.DbusSanitizedPath` | src/lomiri/util/Dbus.cpp:43-54 | the base with a slash at both ends, and the name |
| `Dbus.PathLayout` | src/lomiri/util/Dbus.cpp:43-54 | where slash, base, slash and name stand in the result, and that there is nothing else |
| `Dbus.LeadingSlashIsOptional` | src/lomiri/util/Dbus.cpp:46-47 | a slash in front of the base makes no difference exactly if there is none yet |
| `Dbus.TrailingSlashIsOptional` | src/lomiri/util/Dbus.cpp:49-50 | the same for a slash at the end |
| `Dbus.PathIsValid` | src/lomiri/util/Dbus.cpp:43-54 | a valid object path exactly if the base's components are valid and the name is not empty, or it is the root |
| `Dbus.PathIsInjective` | src/lomiri/util/Dbus.cpp:43-54 | equal paths have equal names and bases equal up to the optional slashes |
| `Notifications.MockModel.SetConfirmationPlaceholder` | test/qmltest/mocks/plugins/Lomiri/Notifications/Mocks/MockModel.cpp:129-163 | takes the step of the model and emits its signals |
| `Notifications.MockModel.Add` | test/qmltest/mocks/plugins/Lomiri/Notifications/Mocks/MockModel.cpp:165-193 | takes the step of the model and emits its signals |
| `Notifications.MockModel.OnDismissed` | test/qmltest/mocks/plugins/Lomiri/Notifications/Mocks/MockModel.cpp:195-216 | takes the step of the model and emits its signals |
| `Notifications.EnableOnList` | test/qmltest/mocks/plugins/Lomiri/Notifications/Mocks/MockModel.cpp:133-145 | the slot goes in front as an empty place, once, and nothing else changes |
| `Notifications.DisableOnList` | test/qmltest/mocks/plugins/Lomiri/Notifications/Mocks/MockModel.cpp:147-158 | an empty slot in front is taken away, and nothing else |
| `Notifications.AddOnList` | test/qmltest/mocks/plugins/Lomiri/Notifications/Mocks/MockModel.cpp:165-193 | an addition goes in front, or directly behind the slot, and the rest keeps its order; a confirmation turns the slot's type instead |
| `Notifications.DismissOnList` | test/qmltest/mocks/plugins/Lomiri/Notifications/Mocks/MockModel.cpp:195-216 | exactly that notification is taken out and the rest keeps its order, or a confirmation becomes an empty slot again |
| `Notifications.NewestFirst` | test/qmltest/mocks/plugins/Lomiri/Notifications/Mocks/MockModel.cpp:165-193 | in every run of admissible events, of two listed notifications that were added the one added later stands first |
| `Notifications.StepKeepsGood` | include/lomiri/shell/notifications/ModelInterface.h:51-56 | slot on top and no duplicates survive an event exactly if it lists nothing twice and does not dismiss an empty slot |
| `Notifications.StepIsMirrored` | test/qmltest/mocks/plugins/Lomiri/Notifications/Mocks/MockModel.cpp:165-193 | the row signals of an event reproduce its effect on the list, and cannot be replayed exactly if a notification is added below a slot that has been removed and nothing else |
| `Notifications.MirroredExactly` | test/qmltest/mocks/plugins/Lomiri/Notifications/Mocks/MockModel.cpp:129-216 | in every run at all, replaying the row signals reproduces the list exactly if that never happens |
| `Notifications.LosingTheMirror` | test/qmltest/mocks/plugins/Lomiri/Notifications/Mocks/MockModel.cpp:165-193 | it can happen: enable, dismiss the empty slot, add |
| `Notifications.EveryRunIsFaithful` | test/qmltest/mocks/plugins/Lomiri/Notifications/Mocks/MockModel.cpp:129-216 | in every run of admissible events row 0 is the slot of the last enabling, nothing is listed twice, and replaying the row signals reproduces the list |
| `Notifications.TypesAreReportedExactly` | test/qmltest/mocks/plugins/Lomiri/Notifications/Mocks/MockModel.cpp:202-208 | a type change of a listed notification is reported, except for a confirmation dismissed below row 0 |
| `Notifications.HidingATypeChange` | test/qmltest/mocks/plugins/Lomiri/Notifications/Mocks/MockModel.cpp:195-216 | that case comes up in a run of admissible events: add a confirmation, enable, dismiss the confirmation |

## Left out

- Exception::what and its fallback: it caches to_string; memory exhaustion is not modelled.
- Exceptions.ToString: levels and counts are unbounded integers, so their overflow is not modelled; nor is a remembered exception of a foreign type, which would escape.
- Assignment of exceptions: name, reason and cause are fixed at construction in the model.
- ResourcePtrs.ResourcePtr.LessOrEqual: no order law for empty instances, because the code reads the unused field.
- ResourcePtrs.ResourcePtr.Moved: the value left behind in a moved-from resource field, and exceptions thrown by copying or swapping resources, are not modelled.
- ThreadRuns.Linearizable: constructors and destructors are not interleaved, since an instance is not shared before the one or after the other; deleters do not re-enter their instance and moved-from sources are not shared.
- get_deleter: clients that replace a deleter through the reference are not modelled.
- ResourceThreads.BodyStep: exchanging one field of two instances (one std::swap) is a single step.
- std::lock: taken as acquiring both mutexes or waiting, without its try-and-back-off inside.
- Daemon.DaemonImpl.CloseOpenFiles: directory entries are classified by what stoi makes of them; the parsing of the text is not modelled.
- Daemon.DaemonImpl.DaemonizeMe: errno and messages, the exit of the parents and the arrival of signals are not modelled; descriptor limits below 20 are not considered.
- Notifications.MockModel.Add: of a notification's data only the "type" entry is modelled; deferred deletion of objects and Qt's debug assertions are not.
- IniParser, FileIO, SnapPath, Version and the GLib memory helpers: mostly I/O or thin wrappers over libraries.
- Shell interface headers, QML tests and other mocks: declarations and constant data.
