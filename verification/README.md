# pyNetX notification path: a verified model

This project models the concurrent core of the pyNetX C++ extension in Dafny and proves what it promises
about it. `dafny verify dfyconfig.toml` checks everything.

The main part is the NETCONF notification path of a client. Bytes from an SSH channel go through a persistent
receive buffer and a parser that cuts end-of-message frames (section 4.3 of RFC 6242), drops orphan prefixes,
recovers notifications that lack a marker and abandons unfinished ones. The pieces go to a bounded queue with
drop accounting and health events; a guard loop bounds what may stay in the buffer and for how long.

| file | what it holds |
|---|---|
| `wrappers.dfy`, `byte_strings.dfy` | optional values; searching and trimming byte strings |
| `notification_scan.dfy` | the start-tag scan, its specification without a scan, close tags, benign prefixes |
| `tag_names.dfy` | what the scanners do on tags as they are written: names, attributes, close tags, declarations |
| `notification_parser.dfy` | the parser as a function of the buffer: conservation, normal form, shape of the pieces |
| `clean_frames.dfy` | clean frames: a condition on a frame's text, and what it means for the parser |
| `frame_streams.dfy` | streams of frames: the exact condition under which fragmentation does not matter |
| `clean_streams.dfy` | what that means for clean frames, alone and in streams |
| `clean_examples.dfy` | a clean frame, and inputs that show what the conditions shut out |
| `recovery.dfy` | notifications without marker: when they are recovered, alone and in front of a frame |
| `notification_stream.dfy` | the state under the queue mutex and every critical section as a function; runs |
| `stream_books.dfy` | the invariant of all critical sections |
| `event_books.dfy` | what the health events say, and where every byte went |
| `stream_theorems.dfy` | what the books mean for every run |
| `clean_runs.dfy` | clean streams end to end: exactly when the guards leave them alone, and when the queue takes all |
| `guard_loop.dfy` | the whole reactor callback, with other threads in between |
| `notification_client.dfy` | the client class: in-place code, proved equal to those functions |
| `event_bus.dfy` | the process-wide drop-oldest event bus |
| `least_loaded.dfy`, `reactor_manager.dfy` | greedy assignment of sockets to reactors, rebuild |
| `thread_pool.dfy` | the pool as an interleaving of workers and enqueuing threads |
| `async_dispatcher.dfy` | the future dispatcher, with pollers added during a round |
| `rpc_framing.dfy` | the RPC write loop and the finite-timeout read loop |

How the outside is modelled:

- A byte is a `char`; no result depends on how large a character code is.
- The clock is an integer number of nanoseconds passed in at every reading. Nothing needs it to be monotone.
- A run is any sequence of critical sections of any threads. The mutex makes each of them atomic.
- What the channel delivers, how a poll ends and what throws are parameters, so every theorem holds for all of them.
- The XML parser's verdict on a trimmed payload is an arbitrary function (`Config.parses`).
- `Stream.log` records what happened; no operation reads it.

Where the code and its own documentation differ, the model follows the code:

- `docs/source/notifications.rst` says that EOM-delimited data that is no notification is queued. If it contains no
  start tag and a notification follows in the same read, the orphan check takes it first and drops it, marker
  and all (`CleanStreams.FragmentationMattersWithoutStartTag`).
- `docs/source/notifications.rst` says that a partial notification completed by a later read is reassembled. A
  well-formed `<notification><notificationId/></notification>` whose first read ends behind the second
  `<notification` is not: that name, still running, passes for a notification of its own, and the parser cuts
  `<notification>` as abandoned and the rest as a frame (`CleanStreams.NestedNotificationIsNotClean`).
- `docs/source/notifications.rst` says that complete notification XML followed by another notification, without an EOM
  in between, is recovered. Two `<notification/>` are not: an empty element has no close tag, so the first
  one counts as incomplete and is abandoned (`Recovery.EmptyElementIsAbandoned`). A text is recovered exactly when
  it ends with the close tag of its notification and what follows shows a start tag
  (`Recovery.RecoveredExactlyWhenClosed`). Nor is one recovered if the frame behind it is complete in the same read:
  the marker takes in everything before it (`Recovery.MarkerTakesAll`; `RecoveredInFrontOfFrame` has two reads).
- Independence of fragmentation is therefore proved for clean frames. Clean is a condition on the text of a frame:
  its EOM comes first at its end, a benign prefix precedes its first start tag, and no other tag, outside the
  names of earlier tags, has a name some prefix of which has the local name `notification`
  (`CleanFrames.CleanExactlyWhenQuietUntilComplete`).
- The exact condition for a list of frames is `FrameStreams.Harmless`. Each frame is clean, or has no start tag and
  nothing to cut before its last byte is there; and frames without start tag, read together with the beginning of
  a later frame that shows a start tag, are a benign prefix of it. "First clean frames, then frames without start
  tag" is neither enough nor necessary. An empty frame in front of `<notificationId/></notification>` is cut as an
  orphan if a read ends behind `<notification` (`CleanExamples.TaglessNeedNotSurvive`). A frame `<?xml` survives
  in front of `<?xml?><notification/>`, because the two read as one declaration
  (`CleanExamples.TaglessMaySurvive`).
- `docs/source/health_events.rst` says that `notification_queue_full` is raised when a queue first becomes
  full, and that summaries are about a queue that remained full. A session death empties the queue but keeps
  the full-state. `StaleFullStateIsReachable` is such a run, and `NoQueueFullBeforeAPop` says what follows
  for every run: until an entry is popped no overflow is announced as queue-full. Helper lemmas beside it give the
  single steps: `DeathLeavesStaleFullState` (when a death makes the full-state stale), `RefuseInFullState` (a summary or
  nothing), `PopInFullState` (when a pop reports a recovery) and `StaleRecovery` (the first pop after the death does).
  Between deaths the full-state means a queue exactly at its maximum.
- `find_notification_start_tag` skips whole tag names, so it does not look at every `<`. Its specification
  (`NotificationScan.StartTagAt`) says which ones count.
- A socket registered twice leaves the device counts wrong; `ReactorManager.AddKeepsConsistentExactlyWhenFresh`
  gives the exact condition.

## Model

| member | source | states |
|---|---|---|
| `ByteStrings.TrimCopySplits` | src/netconf_client_non_blocking.cpp:29-43 | trimming removes exactly a blank prefix and a blank suffix, and stops at non-space characters |
| `ByteStrings.TrimCopyIs` | src/netconf_client_non_blocking.cpp:29-43 | any split into blanks around a core that begins and ends with non-space has the trimmed string as its core |
| `ByteStrings.TrimsToNothing` | src/netconf_client_non_blocking.cpp:29-43 | a string trims to nothing if and only if it is blank |
| `TagNames.SixSpaces` | src/netconf_client_non_blocking.cpp:29-35 | the spaces are exactly space, tab, line feed, vertical tab, form feed and return |
| `NotificationScan.FindNotificationStartTag` | src/netconf_client_non_blocking.cpp:77-125 | the jumping scan returns the least `<` that opens a tag with local name `notification` and does not lie inside the name of an earlier tag; none if there is none |
| `TagNames.FoundExactlyWhenNamedSo` | src/netconf_client_non_blocking.cpp:77-125 | the first tag, with any prefix, ended by a space, `>` or `/` and followed by anything (attributes), is found if and only if its local name is `notification`; otherwise the result is that of a scan behind its name |
| `TagNames.FoundWhileRunning` | src/netconf_client_non_blocking.cpp:77-125 | at the end of the data a tag is found if and only if what is there of its name reads `notification` |
| `TagNames.NoStartTagOpens` | src/netconf_client_non_blocking.cpp:94-98 | close tags, comments, declarations and instructions are no start tags, whatever they are called |
| `NotificationScan.StartTagShape` | src/netconf_client_non_blocking.cpp:77-125 | a result is at or after `from`, points at `<`, and the local name there is `notification` |
| `NotificationScan.StartTagStable` | src/netconf_client_non_blocking.cpp:77-125 | once the name found is terminated inside the data, appending any bytes leaves the result as it is |
| `NotificationScan.StartTagInPrefix` | src/netconf_client_non_blocking.cpp:77-125 | conversely, a prefix that still terminates the name found has the same first start tag |
| `NotificationScan.BenignExactlyWhenBlankOrDeclaration` | src/netconf_client_non_blocking.cpp:127-141 | a prefix is benign if and only if it is blank or a single XML declaration between blanks |
| `TagNames.BenignExactlyWhenWrittenSo` | src/netconf_client_non_blocking.cpp:127-141 | a prefix is benign if and only if it is made of spaces, or runs between spaces from `<?xml` to the first `?>` |
| `NotificationScan.NotificationEndAfterStart` | src/netconf_client_non_blocking.cpp:143-175 | the end is behind the first close tag spelled like the opened name; none for an empty name or a missing close tag |
| `NotificationScan.NotificationEndInPrefix` | src/netconf_client_non_blocking.cpp:143-175 | cut right behind its close tag, a notification still ends there |
| `TagNames.EndsBehindCloseTag` | src/netconf_client_non_blocking.cpp:143-175 | a notification written as start tag, body and close tag ends behind the close tag, if that does not occur earlier |
| `NotificationParser.ParseConserves` | src/netconf_client_non_blocking.cpp:911-1008 | the pieces as they were on the wire, in order, followed by the rest are the buffer |
| `NotificationParser.ParseLeavesQuiet` | src/netconf_client_non_blocking.cpp:911-1008 | what the parser leaves has no EOM, only a benign prefix before a first start tag, and no second start tag after the end of a closed or the start of an open notification |
| `NotificationParser.ParseIdleExactlyWhenQuiet` | src/netconf_client_non_blocking.cpp:911-1008 | the parser leaves a buffer alone if and only if it is in that normal form, so a second pass is a no-op |
| `NotificationParser.ParseCutsWell` | src/netconf_client_non_blocking.cpp:924-1005 | orphans are non-empty and not benign; a frame with its marker contains EOM once, at its end; other pieces contain none; a recovered notification ends with its close tag |
| `CleanStreams.CleanParse` | src/netconf_client_non_blocking.cpp:911-1016 | clean frames followed by anything in normal form parse into exactly those frames |
| `CleanStreams.FragmentationDoesNotMatter` | src/netconf_client_non_blocking.cpp:911-1016 | however a clean stream is split into reads, exactly its frames are cut, in order, and the buffer ends empty |
| `FrameStreams.HarmlessExactlyWhenFragmentationDoesNotMatter` | src/netconf_client_non_blocking.cpp:911-1016 | every split of a list of frames into reads is cut into exactly these frames, in order, with an empty buffer at the end, if and only if the list is harmless |
| `CleanStreams.AloneExactlyWhenCleanOrTagless` | src/netconf_client_non_blocking.cpp:911-1016 | one frame alone survives every split if and only if it is clean, or has no start tag and quiet truncations |
| `CleanStreams.CleanThenSilentIsHarmless` | src/netconf_client_non_blocking.cpp:911-1016 | clean frames, one without start tag, and others behind it that never show one survive every split |
| `CleanExamples.TaglessNeedNotSurvive` | src/netconf_client_non_blocking.cpp:922-953 | two frames without start tag, each quiet until complete, that a split cuts as an orphan and a frame |
| `CleanExamples.TaglessMaySurvive` | src/netconf_client_non_blocking.cpp:127-141 | an unfinished declaration as a frame survives in front of a notification with a declaration |
| `CleanStreams.CleanExactlyWhenFragmentationDoesNotMatter` | src/netconf_client_non_blocking.cpp:911-1016 | a frame is cut as itself under every split in front of a clean notification if and only if its text is clean |
| `CleanFrames.CleanExactlyWhenQuietUntilComplete` | src/netconf_client_non_blocking.cpp:911-1008 | with a first EOM at the end and a benign prefix before the start tag, no other tag shows a notification if and only if no truncation gives the parser anything to cut |
| `CleanStreams.CutEarlyExactlyWhenNotClean` | src/netconf_client_non_blocking.cpp:911-1016 | such a frame read at once is always one frame; some first read makes the parser cut early if and only if it is not clean |
| `CleanExamples.NestedNotificationIsNotClean` | src/netconf_client_non_blocking.cpp:985-1007 | a well-formed notification with a child `notificationId` is one frame in one read, and an abandoned notification and a stray frame in two |
| `CleanExamples.SampleIsClean` | src/netconf_client_non_blocking.cpp:911-1016 | clean frames exist: an empty notification is one |
| `Recovery.RecoveredExactlyWhenClosed` | src/netconf_client_non_blocking.cpp:959-983 | a text at the front of an EOM-free buffer is recovered if and only if it ends with the close tag of its first notification and what follows has a start tag |
| `Recovery.RecoversAll` | src/netconf_client_non_blocking.cpp:911-1008 | closed notifications in front of a quiet rest are all recovered, in order, if the rest shows a start tag, and all but the last, which stays with the rest, if not |
| `Recovery.MarkerTakesAll` | src/netconf_client_non_blocking.cpp:941-953 | closed notifications and a marked frame in one read are one frame |
| `Recovery.RecoveredInFrontOfFrame` | src/netconf_client_non_blocking.cpp:911-1016 | closed notifications and a clean frame in two reads: all recovered and the frame cut as itself if and only if the first read shows the start tag of the frame; otherwise the last one becomes part of the frame |
| `Recovery.EmptyElementIsAbandoned` | src/netconf_client_non_blocking.cpp:985-1007 | two empty-element notifications without marker: the first is abandoned, the second stays |
| `CleanStreams.FragmentationMattersWithoutStartTag` | src/netconf_client_non_blocking.cpp:922-953 | a frame without start tag is a frame alone but an orphan when a notification follows in the same read |
| `StreamBooks.CutFollowsTables` | src/netconf_client_non_blocking.cpp:866-1061 | every piece is diagnosed and offered exactly as the tables `DiagnosisOf`, `EntryOf` and `DiagnosedBytes` say, and no empty entry is ever offered |
| `StreamBooks.DiagnosedExactlyWhenRejected` | src/netconf_client_non_blocking.cpp:57-75 | a frame made of a core between spaces is diagnosed, with its size, if and only if the core is empty or the XML parser does not accept it |
| `StreamBooks.StepKeepsInv` | src/netconf_client_non_blocking.cpp:751-1265 | every critical section, whatever network and clock do, keeps conservation, normal form, timer, size bound, queue, counter, event and piece accounts |
| `StreamBooks.RunKeepsInv` | src/netconf_client_non_blocking.cpp:751-1265 | so they hold after every interleaving of critical sections |
| `StreamTheorems.BytesConserved` | src/netconf_client_non_blocking.cpp:911-1098 | the bytes read in a run are, in order, the pieces cut (or thrown away with a session) and the live buffer |
| `StreamTheorems.QueueIsAFifo` | src/netconf_client_non_blocking.cpp:813-864 | accepted entries are those that left followed by the queue; entries offered are those of the pieces, verbatim; enqueued and dropped count them; the watermark is the peak length; both stay within the maximum |
| `StreamTheorems.TakesEverythingExactlyWhenNothingDropped` | src/netconf_client_non_blocking.cpp:813-864 | the queue is offered every entry in stream order, and what left it followed by what it holds are all of them if and only if none was dropped |
| `StreamTheorems.UnboundedTakesEverything` | src/netconf_client_non_blocking.cpp:813-864 | an unbounded queue takes every entry in stream order |
| `StreamTheorems.DropReportsTelescope` | src/netconf_client_non_blocking.cpp:819-855 | the reported deltas add up to the drops reported, fewer than a threshold are outstanding; every summary stands for exactly a threshold; full events show the queue at its maximum |
| `EventBooks.EventsTellTheTruth` | src/netconf_client_non_blocking.cpp:1298-1327 | in every run every event carries the counts of entries accepted, refused and waiting, the peak and the incomplete notifications up to its generation; drop events the delta that accounts for all drops up to then; and the size of the piece it is about |
| `EventBooks.EventsNameTheirSocket` | src/netconf_client_non_blocking.cpp:798-845 | the events of a section of the reactor name its socket, a recovery names none |
| `EventBooks.BytesAreReported` | src/netconf_client_non_blocking.cpp:866-1061 | in every run each byte received is buffered, or counted by exactly one parser diagnostic, or part of an accepted frame, a marker or what a session left behind |
| `StreamTheorems.FullAfterMeansAlternates` | src/netconf_client_non_blocking.cpp:819-855 | the full-state inferred from events exists if and only if they alternate |
| `StreamTheorems.FullAndRecoveredAlternate` | src/netconf_client_non_blocking.cpp:819-1252 | full and recovered events strictly alternate, full first, summaries only in between, and the full-state is what they say |
| `StreamTheorems.EomIsUnambiguous` | src/netconf_client_non_blocking.cpp:941-1060 | an entry ever queued is a piece as received, not empty; it has EOM once at its end and was a frame, or none and was recovered, abandoned or guarded |
| `StreamTheorems.PiecesAreNotEmpty` | src/netconf_client_non_blocking.cpp:911-1008 | every piece takes at least one byte off the buffer |
| `StreamTheorems.FullMeansAtMaxBetweenDeaths` | src/netconf_client_non_blocking.cpp:819-1252 | without a session death the full-state keeps meaning that the queue is exactly at its maximum |
| `StreamTheorems.StaleFullStateIsReachable` | src/netconf_client_non_blocking.cpp:763-768 | a two-section run that does so |
| `StreamTheorems.NoQueueFullBeforeAPop` | src/netconf_client_non_blocking.cpp:763-1184 | with the full-state set, stale or not, no sections raise queue-full or reset it before a pop, deaths and subscriptions included |
| `StreamTheorems.BufferIsBounded` | src/netconf_client_non_blocking.cpp:1010-1061 | at every release of the mutex the buffer is in normal form, below the size guard, and timed exactly when not empty |
| `StreamTheorems.ParsingAgainIsIdle` | src/netconf_client_non_blocking.cpp:1107 | the repeated parse in the guard loop changes nothing |
| `StreamTheorems.LoopTopSettles` | src/netconf_client_non_blocking.cpp:1104-1147 | when the loop ends the buffer is empty (timeout guard) or below the size limit; when it waits the partial is not overdue |
| `StreamTheorems.TrickleKeepsDeadline` | src/netconf_client_non_blocking.cpp:1010-1038 | as long as nothing is cut, no number of sections moves the deadline of a partial |
| `CleanRuns.CalmExactlyWhenNoneForced` | src/netconf_client_non_blocking.cpp:1018-1162 | on a clean stream no guard fires and no session begins or ends on a partial if and only if the inputs are calm: sizes below the limit after every read, no guard's clock at or past the deadline counted from the read that opened the partial |
| `CleanRuns.FittingFramesAreCalm` | src/netconf_client_non_blocking.cpp:1018-1038 | the size guard never fires on frames that fit the limit with their marker, nor the timeout guard in a stretch shorter than the timeout |
| `CleanRuns.CleanRunCutsFrames` | src/netconf_client_non_blocking.cpp:911-1098 | in any calm run that read a prefix of a clean stream exactly the complete frames are cut and the rest is buffered |
| `CleanRuns.NothingDroppedExactlyWhenBacklogFits` | src/netconf_client_non_blocking.cpp:813-864 | on a clean stream read calmly the queue refuses nothing if and only if the backlog (complete frames read, less those popped or cleared by a death) never exceeds its maximum, and then it holds the backlog |
| `CleanRuns.CleanStreamArrives` | src/netconf_client_non_blocking.cpp:775-1191 | a clean stream read completely and calmly is offered to the queue frame by frame with markers; all of it is taken or queued if and only if the backlog fits; nothing left over; the diagnostics are those of the frames whose trimmed text the XML parser does not accept, in order, with their sizes |
| `CleanRuns.CleanStreamArrivesWithRoom` | src/netconf_client_non_blocking.cpp:775-1191 | so a queue that is unbounded or has room for all frames has taken all of them |
| `NotificationStream.WaitMs` | src/netconf_client_non_blocking.cpp:1130-1141 | a wait is between 1 and 1000 ms, passes the deadline only if it is the minimal one, and if shorter than a second ends within a millisecond of it |
| `GuardLoop.LoopSettles` | src/netconf_client_non_blocking.cpp:1100-1184 | the guard loop, with other threads in between, keeps the books, never waits past the deadline of its partial beyond the minimal millisecond nor longer than a second, and settles the buffer when it returns |
| `GuardLoop.CallbackSettles` | src/netconf_client_non_blocking.cpp:775-1191 | the same for the whole callback |
| `GuardLoop.OverdueLoopReturns` | src/netconf_client_non_blocking.cpp:1100-1184 | a loop that has cut nothing returns in the first round whose clock has reached the deadline of the partial it began with, whatever trickled in |
| `GuardLoop.CallbackReads` | src/netconf_client_non_blocking.cpp:1074-1184 | a callback reads the bytes of its first read and of its waits, in order and nothing else; it throws if and only if the first read or the last wait failed, and otherwise returns or uses up the rounds; one wait a round, at the last clock reading of its top section; sections of other threads keep their places |
| `NetconfNotifications.NotificationClient.Create` | src/netconf_client_common.cpp:72-97 | a client exists if and only if the queue size is at least -1, each guard is -1 or positive, not both guards are -1, and the drop threshold is positive |
| `NetconfNotifications.NotificationClient.PushEvent` | src/netconf_client_non_blocking.cpp:1298-1327 | an event carries kind, socket, delta and size as given and queue size, maximum, peak, enqueued, dropped and incomplete counts as they are |
| `NetconfNotifications.NotificationClient.AddDiagnosticEvent` | src/netconf_client_non_blocking.cpp:792-811 | one diagnostic, counted first if it is about an incomplete notification |
| `NetconfNotifications.NotificationClient.EnqueueOrDrop` | src/netconf_client_non_blocking.cpp:813-864 | admission, drop counting and the full or summary event |
| `NetconfNotifications.NotificationClient.ProcessEomFrame` | src/netconf_client_non_blocking.cpp:866-894 | blank frames are dropped, frames the XML parser rejects diagnosed and queued, others queued; exactly the first two raise a malformed event, with the size of the frame |
| `NetconfNotifications.NotificationClient.ProcessRecovered` | src/netconf_client_non_blocking.cpp:896-909 | recovered notifications are diagnosed and queued as received |
| `NetconfNotifications.NotificationClient.CutOrphan` | src/netconf_client_non_blocking.cpp:919-939 | drops a non-benign prefix of the first start tag, and nothing else |
| `NetconfNotifications.NotificationClient.CutEomFrames` | src/netconf_client_non_blocking.cpp:941-953 | cuts and processes all frames the buffer holds, in order |
| `NetconfNotifications.NotificationClient.CutBrokenNotification` | src/netconf_client_non_blocking.cpp:959-1008 | cuts a closed or unclosed notification exactly when another one starts behind it |
| `NetconfNotifications.NotificationClient.ProcessRxBuffer` | src/netconf_client_non_blocking.cpp:911-1016 | the loop in place cuts exactly the pieces of `Parse`, ends, and leaves buffer and timer as specified |
| `NetconfNotifications.NotificationClient.FinalizeIncomplete` | src/netconf_client_non_blocking.cpp:1040-1061 | the whole buffer becomes one guarded piece; an empty one only stops the timer |
| `NetconfNotifications.NotificationClient.AfterRead` | src/netconf_client_non_blocking.cpp:1082-1096 | append, parse, size guard; keeps the invariant |
| `NetconfNotifications.NotificationClient.AtLoopTop` | src/netconf_client_non_blocking.cpp:1104-1147 | parse, one guard, deadline check, wait; keeps the invariant |
| `NetconfNotifications.NotificationClient.AfterSilence` | src/netconf_client_non_blocking.cpp:1154-1162 | the timeout guard after a poll without data; keeps the invariant |
| `NetconfNotifications.NotificationClient.NextNotification` | src/netconf_client_non_blocking.cpp:1193-1265 | fails on a missing subscription or negative timeout without touching anything, pops the oldest entry otherwise, raises the recovery event with the counters as they are; the empty string means that there was none |
| `NetconfNotifications.NotificationClient.PeekNotifications` | src/netconf_client_non_blocking.cpp:1267-1291 | a prefix of the queue, nothing changed; rejects limits below -1 |
| `NetconfNotifications.NotificationClient.MarkNotificationDead` | src/netconf_client_non_blocking.cpp:763-768 | queue and buffer go, counters and full-state stay; keeps the invariant |
| `NetconfNotifications.NotificationClient.ResetForSubscription` | src/netconf_client_non_blocking.cpp:1489-1493 | the buffer goes before a new subscription |
| `NetconfNotifications.NotificationClient.OnNotificationReady` | src/netconf_client_non_blocking.cpp:775-1191 | the callback runs exactly the critical sections of `GuardLoop.OnReady`, reads what its first read and its waits bring in, throws exactly if one of them failed, keeps the invariant, settles the buffer when it returns, and on every way out has handed every event to the bus once and its own in order |
| `EventBus.RunIsIndexed` | src/notification_event_bus.cpp:44-131 | pending events are the last emitted, at most the maximum; dropped, popped and pending add up; a popped event was emitted as number (earlier pops) + (drop count it carries) |
| `EventBus.GapIsDropDifference` | src/notification_event_bus.cpp:105-108 | between two pops exactly as many events were lost as their drop counts differ by |
| `EventBus.NotificationEventBus.EmitEvent` | src/notification_event_bus.cpp:44-60 | appends; on 10000 events it drops the oldest, counts that and stamps the new one with the count |
| `EventBus.NotificationEventBus.NextEvent` | src/notification_event_bus.cpp:70-109 | pops the oldest event, valid as it was, or makes an invalid one if there is none; both carry the drop count; rejects timeouts below -1 |
| `EventBus.NotificationEventBus.Clear` | src/notification_event_bus.cpp:127-131 | empties the bus and its drop count |
| `LeastLoaded.Least` | src/notification_reactor_manager.cpp:69-73 | the first of the least counts |
| `ReactorManager.RebuildBalances` | src/notification_reactor_manager.cpp:21-79 | after a rebuild each of n reactors holds floor(m/n) or ceil(m/n) of m sockets, and the sockets are those of the surviving clients |
| `ReactorManager.BalancedIsFloorOrCeiling` | src/notification_reactor_manager.cpp:63-78 | counts that differ by at most one are the floor or the ceiling of the average |
| `ReactorManager.AddKeepsConsistentExactlyWhenFresh` | src/notification_reactor_manager.cpp:81-113 | adding keeps the device counts right if and only if the reactor threw or the socket was not registered |
| `ReactorManager.RemoveKeepsConsistent` | src/notification_reactor_manager.cpp:115-135 | removing keeps the counts right and forgets exactly that socket |
| `ReactorManager.RunsStayConsistent` | src/notification_reactor_manager.cpp:21-135 | in every run both maps know the same sockets and each count is the number of sockets on its reactor |
| `ReactorManager.RunsKeepClients` | src/notification_reactor_manager.cpp:21-135 | in every run a registered socket has the client with which it was last added, rebuilds or not |
| `ReactorManager.RebuildStops` | src/notification_reactor_manager.cpp:57-78 | a rebuild in which a reactor throws has registered exactly the surviving sockets walked before the first refused one |
| `ReactorManager.NotificationReactorManager.SetReactorCount` | src/notification_reactor_manager.cpp:21-79 | collects and places in place as specified; zero is rejected; balanced, consistent and with the clients as before even if a reactor throws midway; says which sockets are registered in both cases |
| `ReactorManager.NotificationReactorManager.AddFd` | src/notification_reactor_manager.cpp:81-113 | makes a first reactor if needed; an accepted socket is registered with its client on the first of the least loaded reactors and nothing else changes; a refused one changes neither map |
| `ReactorManager.NotificationReactorManager.RemoveFd` | src/notification_reactor_manager.cpp:115-135 | unregisters exactly that socket from both maps, unknown ones are ignored |
| `ThreadPool.ActKeepsInv` | include/thread_pool.hpp:26-94 | every step of every thread keeps the load counters and histories right |
| `ThreadPool.InflightCountsTheQueue` | include/thread_pool.hpp:39-92 | outside the mutex a load counter is the queue length, plus one between pop and decrement; it never underflows |
| `ThreadPool.TasksRunInOrder` | include/thread_pool.hpp:26-50 | what a worker ran, has in hand and has queued is what was enqueued on it, in order |
| `ThreadPool.ExitLeavesNothing` | include/thread_pool.hpp:36-37 | a worker that exits has run everything enqueued on it so far |
| `ThreadPool.ChoosesLeastLoaded` | include/thread_pool.hpp:71-81 | in every run a thread inside `enqueue` holds the task it came with, and the worker it has chosen was the first of the least loaded by the load counters it read one after the other since |
| `ThreadPool.TaskGoesToChosen` | include/thread_pool.hpp:83-91 | the chosen worker gets that task behind all it had, and no other worker changes |
| `ThreadPool.StopsExactlyWhenTold` | include/thread_pool.hpp:34-37 | the stop flag is set if and only if the destructor set it, and no worker exits before |
| `ThreadPool.CallersGoOn` | include/thread_pool.hpp:62-94 | in every run a thread inside `enqueue` can take its next step, or waits for a mutex whose holder can |
| `ThreadPool.WorkersGoOn` | include/thread_pool.hpp:26-50 | in every run a worker can take its next step, unless it waits for work or for its mutex |
| `ThreadPool.PickWorker` | include/thread_pool.hpp:72-81 | the scan picks the first of the least counts it read |
| `AsyncDispatcher.EveryPollerHasOnePlace` | src/bindings.cpp:103-167 | at every step each poller added is exactly one of pending, to be polled, carried over or finished |
| `AsyncDispatcher.NeverPolledTwiceInARound` | src/bindings.cpp:120-167 | a poller is polled again only in a later round and never after it was done or threw |
| `AsyncDispatcher.RoundPollsItsBatch` | src/bindings.cpp:137-167 | a round that ends has polled every poller it took |
| `AsyncDispatcher.AsyncFutureDispatcher.AddPoller` | src/bindings.cpp:103-109 | a new poller joins the pending ones at the end; between rounds that is the action `Add`, and the invariant stays |
| `AsyncDispatcher.AsyncFutureDispatcher.RunRound` | src/bindings.cpp:120-167 | a round polls what was pending once and in order, with additions in between, and leaves the new pollers followed by those not done |
| `RpcFraming.SendFramed` | src/netconf_client_helpers.cpp:569-602 | under any partial writes and retries the wire holds a prefix of the request followed by newline, EOM and newline, all of it exactly when the loop completes |
| `RpcFraming.MarkerBehindRequest` | src/netconf_client_helpers.cpp:569 | the first EOM of a framed request stands right behind it and a newline, if the request and the newline hold none |
| `RpcFraming.ReadUntilEom` | src/netconf_client_helpers.cpp:278-372 | the loop in place computes `ReadFrom`: timeout, error, wait and data branches |
| `RpcFraming.ReplyIsShortest` | src/netconf_client_helpers.cpp:278-372 | a reply is the concatenation of reads up to the first that completes an EOM, and no turn up to then fails |
| `RpcFraming.ThrowHasACause` | src/netconf_client_helpers.cpp:278-372 | a read throws only on an error or when no data came for the whole timeout, in the first turn where that is so, and before any EOM was complete |
| `RpcFraming.ReadsOnExactlyWhen` | src/netconf_client_helpers.cpp:278-372 | the loop is still reading if and only if no turn failed and the data hold no EOM |
| `RpcFraming.RepliesExactlyWhen` | src/netconf_client_helpers.cpp:278-372 | a read replies if and only if the data of some first turns, none of which fails, hold an EOM |
| `RpcFraming.FragmentationsAgree` | src/netconf_client_helpers.cpp:278-372 | any two fragmentations of one stream that reply agree up to and including its first EOM |

## Left out

- SSH, TCP, DNS, authentication, hello exchange and socket ownership: the channel is a source of chunks.
- XML validity and the check for RPC errors: an arbitrary function of the trimmed payload, and nothing, respectively.
- Constructor checks on host, port, user and connection timeouts.
- Health-event fields that identify the client (label, host, port, time, message text) and log output.
- Condition variables: a consumer is modelled from the moment its wait is over.
- Order between the events of different threads on the bus: only that each reaches it once, and the callback's own in order.
- Widths of counters (64 bits) and of the payload sizes in events: they are unbounded numbers here.
- `clear_notification_queue`: private and never called.
- Bytes read before an error inside one read call: that call throws and delivers nothing.
- Handler tables and epoll sets inside a reactor, and `init`: whether a reactor accepts a socket is a parameter.
- Liveness and deadlock freedom of shutdown and rebuild.
- Thread pools with no worker, and exceptions of tasks, which the worker swallows.
- The infinite-wait branch of `read_until_eom_non_blocking`, which the constructor makes unreachable for RPCs, and the deprecated blocking reader.
- RPC string builders, synchronous and asynchronous wrappers, Python bindings other than the dispatcher.
