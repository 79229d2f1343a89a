# A verified model of the collab-vm server's core

The server shares virtual machines between many viewers. This project models its algorithmic cores in Dafny and
proves what they promise: that the screen a viewer sees is the screen the server holds, that turns and votes are
administered fairly and consistently whatever the users do, that the protocol's printers and readers are inverse to
each other, and that the small data structures underneath do what their users take for granted.

Code that updates fields, arrays and linked nodes in place is modelled by classes and methods that do the same; each
is proved against a specification on values, and the laws are proved about that specification. `dafny verify
dfyconfig.toml` checks everything.

## What is modelled

- **Drawing surfaces** (`Geometry`, `Pixels`, `PixelLoops`, `Flushing`, `Client`, `Surface`, `Session`). `Flushing` has
  the flush as a function from deferred rectangles to the rectangles sent. A surface has a pixel buffer, one dirty
  rectangle and a queue of up to 256 rectangles. Every client attached to the socket is modelled as
  a function from layers to canvases that executes the instructions sent. The invariant is that each pixel of a buffer
  that is neither in the dirty rectangle nor in a queued one has its colour on every client. A session is a socket
  with any number of surfaces: however they are allocated, drawn on, copied between, transferred between, resized,
  clipped and flushed, and whoever joins in between, every surface keeps its invariant, and once all are flushed every
  client shows every buffer.
- **Turns** (`Turns`, `UserLists`, `Broadcast`, `Controllers`, `TurnServer`). `Turns` is the scheduler as a value,
  with the laws of waiting over whole runs, and how long a waiter really waits compared with what was announced.
  `Controllers` has the controllers, users and intrusive lists on the heap, each operation tied to a step of `Turns`;
  `Broadcast` has the instructions sent on each change; `TurnServer` runs any sequence of actions over many VMs, which
  can be added on the way, and keeps the invariant on all of them.
- **Votes, connections, names** (`Registry`). The same server seen from its counters and maps: IP records, vote
  counters, connection counters, the map of user names. `Registry.Server.Run` keeps them consistent over any sequence
  of actions.
- **Protocol text** (`Wire`, `InstructionParser`, `Utf8`, `Framing`, `Appending`, `Reading`, `ReadingInStep`,
  `GuacParser`, `Resumption`, `TimeOutExamples`, `Printer`, `Base64`). `Appending` is the incremental parser's
  `guac_parser_append`, `Reading` its `guac_parser_read` with a socket that delivers as many bytes at a time as it likes
  and times out when it likes; `ReadingInStep` has the runs that read an instruction, `Resumption` what the next call
  makes of one that timed out.
- **Structures** (`Palette`, `Pool`, `ChatHistory`, `DotSegments`, `PathSegments`), with `Collections` and `Numbers`
  for what several modules use.

## Modelling decisions

- A char stands for a byte. Integers are unbounded except where the width matters: the cost arithmetic of rectangles
  (`int32`), the vote counters, announced waits and generated numbers (modulo 2^32), connection counters and chat
  indices (8 bits), the base64 accumulator (modulo 2^32), the length of an element read so far (`int`, wrapping).
- A pixel is an alpha byte and three colour bytes; the bitwise transfer functions act on each byte. A buffer is a
  two-dimensional array, the stride being four times the width. Clients start black on layers with index 0 or more.
- Queue entries that `qsort` takes for equal are equal, so there is one sorted queue (`Flushing.AnySort`). The clipping
  code does nothing while no clip is set, so areas in bounds are then a precondition. An unchanged area of one pixel is
  reported as changed, as in the code.
- Each action of the processing thread is one atomic step. The clock, random numbers, settings and the outcome of
  checks on times are parameters. Controllers have identities that are never used again.
- `DecodeInstruction` looks at the last character before it asks whether there is one; the model gives the empty list
  for the empty input. Its loop body is the method `ReadElement`.
- `guac_parser_read` stores the bounds of the unparsed bytes only when it succeeds, although the parse state has moved
  on. So after a time-out bytes are parsed twice or lost, where parser.h says that further calls will do. Until the
  first period, `Resumption.AfterTimeOut` says exactly when the next call still reads the instruction. After it, that
  depends on what happens to stand where earlier elements were: `Resumption.NextCallCompletes` says what is right in
  any case, `TimeOutExamples` has an input for each outcome. An error of the socket has the effect of its closing.
- A length is compared with the limit only after all digits at hand are read, so it can wrap around in between and be
  accepted; `Appending.AgreesWithExact` says exactly when the code does what it would do without overflow.
- An IP record is identified by its address. A record is dropped only when no user refers to it, so no user can be
  left with a record that was dropped and created again.
- After a trailing ".." with something kept before it the last path segment has no usable back link: it is null in a
  new segment and refers to a freed one in a segment that is used again. `PathSegments.Uri.RemoveDotSegments` says when
  exactly. After a failed allocation the tail of the path refers to a freed segment.
- A transfer between two surfaces that is not deferred first updates the buffer, then flushes it, then has the clients
  apply the operation once more. Pixels the flush has sent are so operated on twice. Clients agree afterwards if and
  only if that changes none of them: always for the nine operations that may be repeated, always when nothing was
  pending, and not for XOR on a pixel that was (`Surfaces.ExclusiveOr`).
- A user name is shared between the user and the chat history, so a rename shows in the history.

## Model

| member | source | states |
|---|---|---|
| `Geometry.Extend` | src/guacamole/guac_rect.cpp:33-56 | holds every pixel of both rectangles and stays within any bounds that both are in |
| `Geometry.ExtendIsLeast` | src/guacamole/guac_rect.cpp:33-56 | no rectangle that holds both is smaller |
| `Geometry.Constrain` | src/guacamole/guac_rect.cpp:58-80 | holds exactly the pixels common to both rectangles |
| `Geometry.CombinedCostBounded` | src/guacamole/guac_surface.cpp:144-189 | by whichever of the five routes updates are combined, the result costs at most three times the parts |
| `Geometry.ShouldCombine32` | src/guacamole/guac_surface.cpp:144-189 | for surfaces of up to 715823787 pixels no intermediate result overflows 32 bits and the decision is the one of exact arithmetic |
| `Geometry.OnePixelMore` | src/guacamole/guac_surface.cpp:144-189 | with one pixel more there are rectangles for which the last product overflows |
| `Geometry.StackedFit` | src/guacamole/guac_surface.cpp:178-182 | stacked rectangles share no pixel, which bounds the product of the last route |
| `Pixels.NoteTracks` | src/guacamole/guac_surface.cpp:361-410 | the loop variables bound the changed pixels and touch them on all four sides |
| `Pixels.LogReports` | src/guacamole/guac_surface.cpp:638-648 | the rectangle reported is the bounding box of the changed pixels |
| `Pixels.ReversedNote` | src/guacamole/guac_surface.cpp:624-636 | counting from the far corner and translating is counting from the near one |
| `Pixels.BoxIsUnique` | src/guacamole/guac_surface.cpp:561-654 | a set of pixels has one bounding box |
| `Pixels.IdempotentIs` | src/guacamole/guac_surface.cpp:257-338 | exactly nine operations change nothing when applied a second time, whatever the bytes |
| `PixelLoops.Walk` | src/guacamole/guac_surface.cpp:561-654 | in either direction the loop stores what it would compute from a snapshot, and reports the exact bounding box of what changed |
| `PixelLoops.FillRect` | src/guacamole/guac_surface.cpp:351-410 | fills the rectangle and reports the bounding box of the pixels that changed |
| `PixelLoops.Put` | src/guacamole/guac_surface.cpp:423-497 | stores the visible source pixels as opaque ones, with the box reported and the source moved along |
| `PixelLoops.FillMask` | src/guacamole/guac_surface.cpp:510-545 | colours exactly the pixels under the mask |
| `PixelLoops.Transfer` | src/guacamole/guac_surface.cpp:561-654 | in place, overlapping or not, equals applying the operation to a snapshot of the old pixels; the returned rectangle is the bounding box of the changed pixels |
| `Surfaces.Surface.constructor` | src/guacamole/guac_surface.cpp:656-679 | a new surface agrees with clients that show black |
| `Surfaces.Surface.MarkDirty` | src/guacamole/guac_surface.cpp:198-215 | the dirty rectangle grows to hold the update |
| `Surfaces.Surface.FlushToQueue` | src/guacamole/guac_surface.cpp:223-239 | the dirty rectangle becomes the last queue entry |
| `Surfaces.Surface.FlushToPng` | src/guacamole/guac_surface.cpp:941-971 | every client shows the buffer in the dirty rectangle, and what it did elsewhere |
| `Surfaces.Surface.QSort` | src/guacamole/guac_surface.cpp:973-988 | the queue is sorted, and so permuted |
| `Flushing.AnySort` | src/guacamole/guac_surface.cpp:973-988 | whatever sorts the queue by this order gives the same queue |
| `Flushing.BuiltTakes` | src/guacamole/guac_surface.cpp:1013-1035 | no pixel owed is lost while a rectangle is built up, and its first entry is done with |
| `Flushing.PlanCovers` | src/guacamole/guac_surface.cpp:990-1058 | every pixel owed is in a rectangle that is sent |
| `Surfaces.Surface.BuildUp` | src/guacamole/guac_surface.cpp:1013-1035 | the entries that combine are merged into the dirty rectangle and marked, as the specification says |
| `Surfaces.Surface.FlushPlanned` | src/guacamole/guac_surface.cpp:990-1058 | clients show the buffer exactly in the rectangles of the plan, and what they did elsewhere |
| `Surfaces.Surface.Flush` | src/guacamole/guac_surface.cpp:990-1058 | ends although it appends to the queue it scans, within 256 entries, with nothing pending and every client equal to the buffer wherever it was or was owed |
| `Surfaces.Surface.FlushDeferred` | src/guacamole/guac_surface.cpp:241-255 | keeps one queue entry free and every owed pixel owed |
| `Surfaces.Surface.ClippedTo` | src/guacamole/guac_surface.cpp:114-130 | clipping stays inside the rectangle and, with a clip set, inside the surface |
| `Surfaces.Surface.Clip` | src/guacamole/guac_surface.cpp:915-928 | the clip is the intersection with the former one, or with the surface |
| `Surfaces.Surface.ResetClip` | src/guacamole/guac_surface.cpp:930-932 | keeps the invariant |
| `Surfaces.Surface.Draw` | src/guacamole/guac_surface.cpp:736-767 | the buffer is drawn on, what changed is pending, and what is not pending is on every client |
| `Surfaces.Surface.Paint` | src/guacamole/guac_surface.cpp:769-798 | the mask is painted, and what is not pending is on every client |
| `Surfaces.Surface.DrawRect` | src/guacamole/guac_surface.cpp:881-913 | the rectangle is filled, here and, at once or later, on every client |
| `Surfaces.Surface.TransferWithin` | src/guacamole/guac_surface.cpp:841-879 | inside one surface, after clipping, every operation keeps buffer and clients in agreement |
| `Surfaces.Surface.TransferFrom` | src/guacamole/guac_surface.cpp:800-879 | between two surfaces: what the buffer holds, when the update is deferred, and that clients agree if and only if it is deferred, there are none, or operating again changes none of the pixels a flush sends |
| `Surfaces.Surface.TransferBetween` | src/guacamole/guac_surface.cpp:841-879 | the same with an empty area too; and no agreement if operating again changes any pixel of the area that was pending |
| `Surfaces.Surface.CopyArea` | src/guacamole/guac_surface.cpp:800-839 | copies as from a snapshot, also when the areas overlap in one surface, and keeps the invariant |
| `Surfaces.Surface.TransferArea` | src/guacamole/guac_surface.cpp:841-879 | with the clip applied: the operation on a snapshot of the source; inside one surface the invariant is kept, between two if and only if as in `TransferFrom` |
| `Surfaces.OperateTwice` | src/guacamole/guac_surface.cpp:841-879 | clients disagree after any operation that, repeated, changes a queued pixel |
| `Surfaces.ExclusiveOr` | src/guacamole/guac_surface.cpp:841-879 | a run that shows it: two white pixels, one of them queued, and XOR |
| `Surfaces.Surface.Resize` | src/guacamole/guac_surface.cpp:692-734 | the common part stays, the rest is black, on the clients as in the buffer |
| `Surfaces.Surface.Dup` | src/guacamole/guac_surface.cpp:1060-1078 | a late joiner agrees everywhere on this layer, whatever it showed before, and keeps what it shows on others |
| `Sessions.Session.constructor` | src/guacamole/guac_surface.cpp:656-679 | a session without surfaces is in order |
| `Sessions.Session.Alloc` | src/guacamole/guac_surface.cpp:656-679 | one more surface, and all surfaces of the socket keep their invariant |
| `Sessions.Session.Do` | src/guacamole/guac_surface.cpp:692-1058 | whatever is done to one surface, all the others keep their invariant |
| `Sessions.Session.Copy` | src/guacamole/guac_surface.cpp:800-839 | a copy between any two surfaces keeps the invariant of all |
| `Sessions.Session.Transfer` | src/guacamole/guac_surface.cpp:841-879 | so does a transfer of an operation that may be repeated, and of any operation to a surface with nothing pending |
| `Sessions.Session.DupAll` | src/guacamole/guac_surface.cpp:1060-1078 | a client that is sent every surface in turn agrees with all of them in the end |
| `Sessions.Session.Join` | src/guacamole/guac_surface.cpp:1060-1078 | a joiner that is sent all surfaces before it listens is one more client for which every invariant holds |
| `Sessions.Session.FlushAll` | src/guacamole/guac_surface.cpp:990-1058 | every client equals every buffer everywhere |
| `Sessions.Session.Run` | src/guacamole/guac_surface.cpp:656-1078 | over any sequence of allocations, drawing, copies, transfers, resizing, clipping, flushes and joins every surface keeps its invariant, and flushing all then makes every client equal to every buffer |
| `Turns.StepOk` | src/VMControllers/VMController.cpp:196-345 | every operation keeps the queue free of duplicates and of the holder, and empty without a holder |
| `Turns.RunOk` | src/VMControllers/VMController.cpp:196-345 | so does every run |
| `Turns.BoundedWaiting` | src/VMControllers/VMController.cpp:196-260 | a waiter at index k is, after n turns passed on and m turn-jacks, at index k - n + m or before |
| `Turns.Served` | src/VMControllers/VMController.cpp:196-260 | once more turns were passed on than users and turn-jacks were ahead, the waiter has left the queue |
| `Turns.Departure` | src/VMControllers/VMController.cpp:196-345 | exactly how a waiter leaves the queue, and exactly when into control |
| `Turns.NoOvertaking` | src/VMControllers/VMController.cpp:196-260 | while both wait, the one ahead stays ahead, and the other gets control only by turn-jack |
| `Turns.Stranger` | src/CollabVM.cpp:2146-2158 | ending the turn of a user of another VM changes nothing |
| `Turns.PromiseKept` | src/CollabVM.cpp:1096-1121 | in any run without turn-jack the moment a waiter was promised control moves only by the time others save by leaving |
| `Turns.AnnouncedWait` | src/CollabVM.cpp:1096-1121 | a waiter gets control within the announced wait, and after exactly that time if and only if nobody ahead left early |
| `Turns.SavedIsEarly` | src/VMControllers/VMController.cpp:312-350 | time is saved exactly when the holder leaves before the timer or a waiter ahead leaves |
| `UserLists.UserList.AddUser` | src/UserList.h:13-29 | the user becomes the head of a list whose links agree in both directions |
| `UserLists.UserList.RemoveUser` | src/UserList.h:31-48 | the user leaves the list, all others keep their order, and the links agree in both directions |
| `Broadcast.TurnInstruction` | src/CollabVM.cpp:1055-1092 | the string is the printed list of time, number of users, holder and waiters |
| `Broadcast.VoteInstruction` | src/CollabVM.cpp:1194-1216 | the string is the printed list of the time left and the two counts |
| `Broadcast.Server.SendToWaiters` | src/CollabVM.cpp:1098-1121 | the edits in place give each waiter the list with its own wait, in 32 bits, and restore the string |
| `Broadcast.Server.SendToSpectators` | src/UserList.h:50-59 | the walk along the list reaches exactly the viewers that neither hold the turn nor wait |
| `Broadcast.Server.BroadcastTurnInfo` | src/CollabVM.cpp:1046-1130 | sends the messages of the specification and keeps the turn invariant |
| `Broadcast.EachViewerOnce` | src/CollabVM.cpp:1046-1130 | every viewer is sent exactly one instruction, and nobody else any |
| `Broadcast.EachMessageProper` | src/CollabVM.cpp:1046-1130 | each viewer's instruction is the one meant for it, with the personal wait for waiters only |
| `Broadcast.ProperReads` | src/CollabVM.cpp:1046-1130 | it decodes to time, count, holder, waiters in order and the wait |
| `Broadcast.AnnouncedExactly` | src/CollabVM.cpp:1102-1106 | where it fits in 32 bits the wait announced is the time left and a full turn for each user ahead |
| `Controllers.VMController.constructor` | src/VMControllers/VMController.cpp:6-21 | a new controller has neither holder nor queue |
| `Controllers.VMController.Erase` | src/VMControllers/VMController.cpp:203-211 | the user's entry is erased and its flag cleared; a user of another VM is not found |
| `Controllers.VMController.TurnRequest` | src/VMControllers/VMController.cpp:196-240 | one timed step of the scheduler, or none when refused; timer, flags and broadcast follow |
| `Controllers.VMController.NextTurn` | src/VMControllers/VMController.cpp:242-260 | one timed step: the turn is passed on with a full turn's time, and announced |
| `Controllers.VMController.ClearTurnQueue` | src/VMControllers/VMController.cpp:262-270 | nobody holds the turn or waits, and no flag stays set |
| `Controllers.VMController.EndTurn` | src/VMControllers/VMController.cpp:312-350 | one timed step of the scheduler for any user; announced exactly when something changed |
| `Controllers.VMController.AddUser` | src/VMControllers/VMController.cpp:352-367 | the user is a viewer, and is told of the present turn and of the vote that is on |
| `Controllers.VMController.RemoveUser` | src/VMControllers/VMController.cpp:369-386 | the user is no viewer, holds no turn and does not wait; all viewers are told exactly when the turns changed |
| `TurnServer.CollabVMServer.TurnChange` | src/CollabVM.cpp:778-782 | keeps the invariant of every VM and leaves the others alone |
| `TurnServer.CollabVMServer.ClearTurnQueue` | src/CollabVM.cpp:2159-2166 | the same |
| `TurnServer.CollabVMServer.EndTurn` | src/CollabVM.cpp:2146-2158 | the same, and no effect on the VM if the user views another one |
| `TurnServer.CollabVMServer.TurnRequest` | src/CollabVM.cpp:2375-2384 | the same |
| `TurnServer.CollabVMServer.Connect` | src/CollabVM.cpp:1803-1854 | the same |
| `TurnServer.CollabVMServer.RemoveConnection` | src/CollabVM.cpp:764-777 | the VM left has ended the user's turn and lost this viewer, all other VMs are as they were, and the user views no VM |
| `TurnServer.CollabVMServer.Run` | src/CollabVM.cpp:722-1030 | any sequence of actions of any users, with VMs added on the way, keeps the turn invariant on every VM at once |
| `Registry.CounterMoves` | src/VMControllers/VMController.cpp:120-146 | when one IP's vote changes, the 32-bit counters follow the numbers of votes and do not underflow |
| `Registry.VoteMoves` | src/VMControllers/VMController.cpp:120-146 | moving a vote keeps every VM's tally |
| `Registry.VoteStarts` | src/VMControllers/VMController.cpp:102-115 | a new vote starts with one yes vote in one IP record |
| `Registry.VoteEnds` | src/CollabVM.cpp:1255-1275 | clearing the votes for a VM keeps the tallies of all others |
| `Registry.SameVotesSameTally` | src/CollabVM.cpp:597-647 | records without votes can come and go |
| `Registry.Joins` | src/CollabVM.cpp:447-456 | one more connection for an IP, counted in 8 bits |
| `Registry.Leaves` | src/CollabVM.cpp:692-693 | a connection counted off was counted |
| `Registry.Dropped` | src/CollabVM.cpp:692-693 | a record at zero has no user |
| `Registry.NamesDiffer` | src/CollabVM.cpp:1549-1563 | generated names differ for 2^32 numbers, whatever their case |
| `Registry.AllTaken` | src/CollabVM.cpp:1549-1563 | n taken names need n users |
| `Registry.Server.OnValidate` | src/CollabVM.cpp:417-458 | accepts up to the maximum of connections per IP and counts them |
| `Registry.Server.AddConnection` | src/CollabVM.cpp:745-763 | the user is connected |
| `Registry.Server.Vote` | src/VMControllers/VMController.cpp:84-152 | records a vote exactly when it counts, and keeps all counters equal to the numbers of votes |
| `Registry.Server.CastVote` | src/VMControllers/VMController.cpp:116-146 | while a vote is on: the IP's vote changes exactly when it is counted, which counts once against the user, or twice if it had been cast otherwise; after five the user is at the limit |
| `Registry.Server.ClearVotes` | src/CollabVM.cpp:1270-1274 | no IP record holds a vote for the VM, and nothing else changes |
| `Registry.Server.ResetVoters` | src/CollabVM.cpp:1258-1268 | every viewer's count of votes is reset |
| `Registry.Server.EndVote` | src/VMControllers/VMController.cpp:161-166 | passes when at least as many IP records are for it as against it, and leaves no vote behind |
| `Registry.Server.SkipVote` | src/VMControllers/VMController.cpp:168-173 | decides a vote that is on, clears its votes and resets its viewers; without one nothing changes |
| `Registry.Server.CooldownOver` | src/VMControllers/VMController.cpp:184-187 | the VM is idle, with no votes |
| `Registry.Server.ConnectTo` | src/CollabVM.cpp:1803-1854 | only a named user who views no VM, and whose IP is not held to its name, becomes a viewer |
| `Registry.Server.RemoveUser` | src/VMControllers/VMController.cpp:369-386 | takes back the IP's vote while there is time, and keeps the tally either way |
| `Registry.Server.ShouldCleanUp` | src/CollabVM.cpp:597-647 | a record that holds a vote for any VM is kept |
| `Registry.Server.RemoveConnection` | src/CollabVM.cpp:651-705 | the IP's vote is taken back while there is time, name and connection are given back, other records are untouched, and the record is dropped only without connections and votes |
| `Registry.Server.OnClose` | src/CollabVM.cpp:764-777 | a second removal does nothing |
| `Registry.Server.KeepAlive` | src/CollabVM.cpp:916-947 | exactly the silent connections are removed |
| `Registry.Server.CleanUp` | src/CollabVM.cpp:551-595 | drops exactly the records that are stale, hold no vote and have no connection; asks for another round exactly when some record has none |
| `Registry.Server.ChangeUsername` | src/CollabVM.cpp:1449-1547 | names and users still match one to one |
| `Registry.Server.GenerateUsername` | src/CollabVM.cpp:1549-1563 | ends with the first free name, counting in 32 bits |
| `Registry.Server.OnRename` | src/CollabVM.cpp:1685-1758 | a free name that is asked for is given, a taken one never; who gets a generated name instead, and who keeps the old one |
| `Registry.Server.Run` | src/CollabVM.cpp:722-1030 | over any sequence of actions, vote counters equal the votes in the IP records, connection counters the users, and names match users one to one |
| `Wire.DecimalValue` | src/guacamole/protocol.cpp:87-100 | printed numbers are read back |
| `Wire.ElementsSnoc` | src/CollabVM.cpp:1072-1080 | appending an element prints the longer list |
| `Wire.ExtractDecimal` | src/GuacInstructionParser.cpp:59-63 | a printed number in front of a period is extracted |
| `InstructionParser.ReadElement` | src/GuacInstructionParser.cpp:58-92 | one turn of the loop gives the next element or finds it malformed |
| `InstructionParser.DecodeInstruction` | src/GuacInstructionParser.cpp:47-96 | terminates with the elements of a well-formed instruction, and with none for any other |
| `InstructionParser.ElementsPrinted` | src/GuacInstructionParser.cpp:47-96 | a printed list is read back from wherever it stands |
| `InstructionParser.DecodeInvertsEncode` | src/GuacInstructionParser.cpp:47-96 | inverts the printer within the limits on elements and instruction |
| `InstructionParser.DecodeInvertsExactly` | src/GuacInstructionParser.cpp:47-96 | and only within them |
| `InstructionParser.ElementsBounded` | src/GuacInstructionParser.cpp:66-67 | no element decoded is as long as the limit |
| `Utf8.Strlen` | src/guacamole/unicode.cpp:42-72 | counts characters |
| `Utf8.WholeCountIsCharCount` | src/guacamole/unicode.cpp:42-72 | a text of whole characters has as many as its initial bytes announce |
| `Utf8.Write` | src/guacamole/unicode.cpp:74-126 | stores the bytes of a code point, or nothing without room |
| `Utf8.Read` | src/guacamole/unicode.cpp:128-184 | size and code point of the first character |
| `Utf8.ReadInvertsWrite` | src/guacamole/unicode.cpp:74-184 | what is written is read back, whatever follows |
| `Appending.AppendStays` | src/guacamole/parser.cpp:61-167 | wherever the text is cut, a call leaves the parser at the right place in it, and takes something if all of it is there |
| `Appending.ScanWraps` | src/guacamole/parser.cpp:76-100 | the length read is the exact one modulo 2^32, in however many pieces its digits come |
| `Appending.AgreesWithExact` | src/guacamole/parser.cpp:73-111 | a call does what it would do without overflow if and only if the length does not wrap, or wraps from one too long to another |
| `Appending.PrintedLength` | src/guacamole/parser.cpp:73-111 | a printed number that arrives in one piece is taken modulo 2^32 |
| `Appending.WrappedLength` | src/guacamole/parser.cpp:73-111 | "4294967301." is taken for a length of 5 |
| `Appending.LastOfMany` | src/guacamole/parser.cpp:66-71 | an instruction of 64 elements is accepted if and only if all from its last period to the semicolon is in the data of one call; otherwise every further call refuses it |
| `Reading.Turn` | src/guacamole/parser.cpp:183-255 | a turn that does not stop parses or receives something, so the loop ends, and bounds and counts stay in range |
| `ReadingInStep.TakenInStep` | src/guacamole/parser.cpp:183-184 | parse state, buffer and element pointers stay in step with the text |
| `ReadingInStep.TakenNothing` | src/guacamole/parser.cpp:186-187 | an append that takes nothing changes nothing, and happens only when part of the text is still to come |
| `ReadingInStep.ShiftedAlike` | src/guacamole/parser.cpp:194-211 | moving the instruction to the start of the buffer keeps bytes and pointers together |
| `ReadingInStep.CompleteInStep` | src/guacamole/parser.cpp:129-141 | at the end every pointer of this call is to a NUL-terminated element of the list |
| `ReadingInStep.RunsInStep` | src/guacamole/parser.cpp:180-257 | a run in step completes the instruction or stops for a time-out, with at most part of a character left |
| `GuacParser.Parser.Append` | src/guacamole/parser.cpp:61-167 | on any bytes in any state, what the specification says, errors and wrapped lengths included |
| `GuacParser.Parser.Shift` | src/guacamole/parser.cpp:194-211 | the bytes and the pointers move together |
| `GuacParser.Parser.Read` | src/guacamole/parser.cpp:169-270 | on any parser and any socket, time-outs and all failures included, what the specification says |
| `Resumption.ReadDelivers` | src/guacamole/parser.cpp:169-270 | any printed list of at most 63 strings that fits is read back unchanged, however it arrives, and what follows it is kept, unless a read times out |
| `Resumption.TimeOutLeaves` | src/guacamole/parser.cpp:224-227 | exactly what a time-out leaves: the old bounds, the new parse position, and a stream that is past it by part of a character at most |
| `Resumption.AfterTimeOut` | src/guacamole/parser.cpp:169-270 | after a time-out before the first period the next call reads the list if and only if nothing was unread before, or the first element is empty |
| `Resumption.NextCallCompletes` | src/guacamole/parser.cpp:169-270 | with nothing unread before and nothing lost, the next call completes the instruction, and the elements it finds itself are right |
| `Resumption.ElementSurvives` | src/guacamole/parser.cpp:169-270 | an element found before a time-out that came between elements is still right if the next call's bytes end before it |
| `Resumption.RunsAstray` | src/guacamole/parser.cpp:113-163 | a length read too large takes the separator into the first element, for good |
| `TimeOutExamples.LengthReadTwice` | src/guacamole/parser.cpp:169-270 | "3" unread, a time-out, then ".abc;": 33 characters are expected |
| `TimeOutExamples.ElementLost` | src/guacamole/parser.cpp:169-270 | "1." received, a time-out, then "a;": success is reported and the element is not found |
| `TimeOutExamples.ElementFoundByChance` | src/guacamole/parser.cpp:169-270 | "1.a," received, a time-out, then "1.a;": both elements are found, in the same place |
| `Printer.WriteLengthString` | src/guacamole/protocol.cpp:87-93 | prints the length in characters and the string |
| `Printer.SendArgs` | src/guacamole/protocol.cpp:424-440 | prints the list that starts with "args" |
| `Printer.ReadersAgree` | src/guacamole/parser.cpp:61-167 | on ASCII lists both printers print the same, the one-shot reader reads it back, and it is within what the incremental one reads |
| `Printer.ReadAgrees` | src/guacamole/parser.cpp:169-270 | unless a read times out, the incremental reader delivers what the one-shot reader decodes |
| `Base64.QuadIsGroup` | src/Base64.h:69-89 | four characters stand for the 24 bits of three bytes |
| `Base64.EncodedLength` | src/guacamole/protocol.cpp:177-183 | the announced length is the length of the data |
| `Base64.Encoder.WriteBytes` | src/Base64.h:38-52 | the bytes are added to those written since the last flush |
| `Base64.Encoder.Flush` | src/Base64.h:54-66 | the stream ends with the encoding of all bytes written, and the ready buffer is empty |
| `Base64.EncodeChunks` | src/Base64.h:19-66 | the result does not depend on how the writes are chunked |
| `Base64.Round` | src/guacamole/protocol.cpp:1398-1408 | only the last two values of the accumulator matter to a byte |
| `Base64.DecodeInPlace` | src/guacamole/protocol.cpp:1381-1413 | overwrites only what was read, with every whole byte up to '=' or NUL |
| `Base64.DecodeInvertsEncode` | src/guacamole/protocol.cpp:1381-1413 | decoding an encoding gives the bytes back |
| `Palette.TriedFew` | src/guacamole/palette.cpp:58-95 | a probe meets at most as many taken entries as there are colours, so it ends |
| `Palette.Absent` | src/guacamole/palette.cpp:119-121 | a free entry ends a probe only for a colour that is not stored |
| `Palette.Added` | src/guacamole/palette.cpp:64-86 | storing a colour keeps every colour reachable from its hash |
| `Palette.Palette.Search` | src/guacamole/palette.cpp:58-95 | the wrap-around probe ends at the colour or at a free entry |
| `Palette.Palette.Find` | src/guacamole/palette.cpp:107-132 | the index of a stored colour, and -1 for every other |
| `Palette.Palette.Add` | src/guacamole/palette.cpp:50-95 | stores a new colour unless there are 256 |
| `Palette.Alloc` | src/guacamole/palette.cpp:34-105 | fails exactly for more than 256 distinct colours; otherwise holds exactly the image's colours |
| `Palette.IndexFits` | src/guacamole/protocol.cpp:296-300 | every index fits the bits per pixel chosen |
| `Palette.Rows` | src/guacamole/protocol.cpp:334-354 | the indexed rows, looked up, give the image back |
| `Pool.AllLive` | src/guacamole/pool.cpp:65-75 | with nothing free as many integers are live as were drawn |
| `Pool.IntPool.NextInt` | src/guacamole/pool.cpp:65-94 | an integer that is not live; live and free ones partition those drawn, and the count of active ones is right |
| `Pool.IntPool.FreeInt` | src/guacamole/pool.cpp:96-115 | the integer is free, last in the list |
| `Pool.GuacUser.AllocStream` | src/GuacUser.cpp:24-44 | refused only with 64 streams open; otherwise a closed slot below 64 |
| `Pool.GuacUser.FreeStream` | src/GuacUser.cpp:46-52 | the slot is closed and its index free |
| `Pool.GuacClient.AllocBuffer` | src/GuacClient.cpp:135-141 | a negative index no live buffer has |
| `Pool.GuacClient.FreeBuffer` | src/GuacClient.cpp:143-149 | only that buffer's index is given back |
| `ChatHistory.CircleGrows` | src/CollabVM.cpp:2312-2336 | writing at the end of a circle with room adds a message |
| `ChatHistory.CircleTurns` | src/CollabVM.cpp:2312-2336 | writing at the end of a full circle drops the first message |
| `ChatHistory.ChatHistory.Insert` | src/CollabVM.cpp:2312-2336 | three bytes suffice to keep the most recent messages, for any size up to 255 |
| `ChatHistory.ChatHistory.SendChatHistory` | src/CollabVM.cpp:1370-1389 | lists exactly the last min(n, size) messages in order |
| `DotSegments.RemovedTwice` | src/uriparser/UriCommon.c:125-332 | no "." or ".." is left, and removing again changes nothing |
| `DotSegments.StandardIsRemoveDots` | src/uriparser/UriCommon.c:125-332 | on segments, the string algorithm of section 5.2.4 of RFC 3986 is a stack algorithm |
| `DotSegments.MatchesStandard` | src/uriparser/UriCommon.c:125-332 | the result is the RFC's exactly when something is kept in front of a last ".." or, without a host, a last "." |
| `DotSegments.LostSlash` | src/uriparser/UriCommon.c:180-191 | the smallest paths on which the trailing slash is lost |
| `PathSegments.Uri.DropPair` | src/uriparser/UriCommon.c:224-290 | a ".." that is not last goes with the segment before it, both freed |
| `PathSegments.Uri.Cut` | src/uriparser/UriCommon.c:158-173 | segments leave the list and the links close over them |
| `PathSegments.Uri.LastDot` | src/uriparser/UriCommon.c:174-197 | a last "." becomes "" or, alone and without a host, goes |
| `PathSegments.Uri.ReplacePair` | src/uriparser/UriCommon.c:228-266 | a last ".." and the segment before it give way to ""; without memory the tail is left dangling |
| `PathSegments.Uri.Visit` | src/uriparser/UriCommon.c:134-329 | a round that is not the last is one step of the specification, and what leaves the list is freed |
| `PathSegments.Uri.Finish` | src/uriparser/UriCommon.c:134-329 | the last round: exactly when it fails, and exactly when the last back link is right |
| `PathSegments.Uri.RemoveDotSegments` | src/uriparser/UriCommon.c:125-332 | the list holds the segments of the specification and each segment taken out is freed; it fails if and only if a new segment is needed and there is no memory, leaving the kept segments but one; all links agree if and only if no last ".." follows something kept |
| `PathSegments.LostBackLinks` | src/uriparser/UriCommon.c:228-290 | the smallest paths whose last back link is lost, one for each kind |

## Left out

- Sockets, timers, the database, JSON settings, process control, VNC, cairo, PNG and JPEG encoding: foreign code;
  only its effect appears, as abstract steps. With lossy JPEG updates enabled clients do not agree with the buffer.
- `QEMUController`, `QMPClient` and `GuacVNCClient`, and data races between threads: every step is atomic here.
- Buffers with deferred realization (negative layer indices): clients agree on layers only.
- Sessions.Session.Run: a joiner starts black; of transfers between two surfaces it has those that are safe whatever the
  pixels are.
- Layer indices: freed without the adjustment made when they were allocated, so they can repeat.
- Resumption.NextCallCompletes: whether elements found before the time-out are still right is not decided by the
  position alone, but by the bytes that happen to stand where they were; `ElementSurvives` has a case in which they
  are, `TimeOutExamples` both outcomes. With unread bytes in the buffer and the first period parsed, only what the
  time-out leaves is stated.
- Signals and other errors of `select` and `read`: they end a call as a time-out or the end of the stream does.
- Relative mode of `RemoveDotSegmentsEx`, and the ownership of segment texts.
- The times in an IP record (chat, names, turns, logins, uploads): they enter as one condition `stale` or `limited`.
- Controllers.VMController.RemoveUser: the broadcast of a vote taken back is not modelled with the turns.
- Registry.Server.OnRename: validity of a name and the blacklist are parameters; an administrator's renaming is not
  modelled.
- Registry.Server.Run: stops at 2^32 IP records or names, where the counters would wrap.
- That a vote ends: stopping a VM cancels the timer and leaves the vote on.
- The file-upload path, opcode dispatch, HTML escaping, logging, iconv, clipboard: easy or unused.
- Sending failures only post a later removal, which is an action of its own.
