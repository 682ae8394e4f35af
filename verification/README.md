# The bot platform's protocols in Dafny

This project models the parts of the platform whose correctness depends on
interleavings, repetitions and order, and proves what they promise:

- **Draw-and-guess canvas** (`CanvasReplay`, `CanvasMeaning`, `EchoedTrace`,
  `CanvasConvergence`, `CanvasOverlap`, `CanvasBoard`, `CanvasDelivery`, `CanvasRoom`,
  `StrokeSender`). A picture is a stroke map with a paint order, made by replaying the
  operation log. `Board` is the drawing board with its queue, timer and event filter. The
  proofs compare the drawer's optimistic replica with the echoed log, from an empty board
  and from one restored or cleared with operations under way, a viewer's board with the room
  log behind an at-least-once stream and a compacted snapshot, the board of a page that
  repaints from the canvas it kept, and the batches a client sends with those the server
  applies.
- **Employee numbers and names** (`Decimal`, `NameRepair`). The renaming loop ends,
  and what it does to whom.
- **Answering messages** (`ClaimStore`, `JsonText`, `MessageSource`, `BotService`,
  `BotFleet`). The claim tables under any interleaving of workers, the in-memory store they
  refine, the ids given to chat rows, the end-to-end result that a row gets one answer over
  either store, and several services over one database.
- **Admin requests** (`AdminControl`, `AdminRuns`, `RateLimiter`). Idempotent requests,
  versioned configuration changes, and the sliding window of the integration key.
- **Event streams** (`SseFraming`, `RoomView`). Splitting a stream into packets
  (section 9.2.5 of the WHATWG HTML Living Standard), and the newest-state rule of the
  Mistrealm client.
- **Migrations and shutdown** (`HonorNames`, `TwinReleases`, `RowMerge`,
  `DesktopShutdown`). One change released on two branches, a merge that keeps totals,
  and the stopping of process groups.

Code that updates state is a class whose methods have the loops of the source. Their
contracts equate the new state with a function of the old one; the theorems are about
those functions and about runs of steps. Clocks, tokens, network outcomes, the results
of sending, and what a process does are parameters or left open.

`dafny verify dfyconfig.toml` checks the whole project.

## What the code does not do

Some properties fail in general. Each has a lemma or a method with a concrete run, and a
theorem that says for which runs the property holds.

- A point added to a stroke after its `begin` has been echoed is applied twice on the
  drawer's own board (`LateInkDoublesPoints`). The replica equals the log's replay
  exactly when there is no such late ink (`EchoConvergence`).
- Drawing while a `clear` is still on its way can leave the drawer's strokes in another
  paint order (`BusyClearReorders`), and so can drawing after a snapshot that came while
  operations were under way, and undoing a stroke with the pen still on it
  (`UndoUnderPenReorders`). Whatever the log, once all of it has been echoed strokes and
  styles have converged; the order has exactly when the drawer never adds to a stroke while
  an earlier one of the log is not on the picture for good (`OverlapConvergence`,
  `RestoreConverges`, `ClearConverges`).
- A board painted from a snapshot older than the stream's position loses what is between
  them (`StaleSnapshotLosesStrokes`). It is right, for every stream from there on, exactly
  when the turn shows at that position what the snapshot shows (`StaleSnapshotIff`); each
  stroke keeps what it lost until the turn draws it anew (`StrokeBehindIff`).
- The page does this whenever it renders the room again from the canvas it kept, for
  instance after a refused chat message, or paints an answer that came late
  (`RefusedChatLosesInk`). It is right all along exactly when no repainting finds the canvas
  out of date (`RightIff`); entering a room and a snapshot from the stream are always safe.
  The drawer's own board behind its stream converges under the same condition
  (`RestoreBehindConvergesIff`, `RestoreBehindStrokes`).
- The board does not wait for one batch before sending the next, so batches that overlap
  can be applied in the opposite order (`OverlapReorders`), and so can batches that do not,
  if the server handles a request after the client has timed it out (`LateBatchOvertaken`).
  It happens from exactly those states in which the earlier batch is not applied but tried
  or in transit (`OvertakesIff`). Sends that wait for that keep the order
  (`WaitingKeepsOrder`).
- `claim` reads the clock before its transaction begins, so a slow caller can be granted
  a message inside another worker's lease (`LateTransactionBreaksLease`): exactly when a
  claim call in between, on whatever unseen message, came after the lease
  (`NextClaimGrantedIff`).
- An operation that takes longer than its reservation lives can complete beside a
  duplicate (`SlowOperationCompletesTwice`). A key is worked on by one request at a time
  exactly as long as no purge takes the reservation of a request at work (`OneAtATimeIff`),
  and such a purge lets a duplicate in (`TakenAdmitsDuplicate`).
- An update whose text contains `event: unavailable`, such as a chat message, stops a
  client (`ChatTextStopsClient`); without it all updates arrive (`UpdatesArrive`).
- Normalising line ends chunk by chunk changes the stream (`CutLineEndStays`), exactly when
  a cut falls between CR and LF (`NormalizingIsChunkIndependent`).
- A process whose group cannot be looked up during startup is in no list, and the cleanup
  misses it (`LookupFailureLeaksProcess`); every other new group is dead when the cleanup
  of a failed start returns (`Desktop.Start`).
- A client that leaves a room and comes back can show an older state (`ReturningGoesBack`).
  Versions go down only after another room's snapshot was accepted
  (`DownOnlyThroughAnother`), and then to any version (`AnyVersionAfterAnother`).
- A send that raises leaves its claim in the in-memory store, and the message is not
  answered (`RaisedLosesMessage`). A message is answered exactly when the first of its sends
  that is reached and not declined is delivered (`FirstSettles`, `AnsweredOnce`), whatever
  raises elsewhere.
- Of several services over one database, one that is slow to mark its answer lets another
  answer again (`SlowServiceAnswersTwice`), and so does a send that raises after it has
  delivered. They exclude each other on a message exactly as long as no purge takes the
  lease that guards it (`ExclusiveIff`), and then it is answered at most once
  (`FleetAnswersOnce`); once a lease has been taken, a second answer can follow
  (`TakenCanRepeat`).

## Model

| member | source | states |
|---|---|---|
| CanvasReplay.AppliedWellFormed | gamefy/drawguess/publish/canvas.js:41-53 | every operation keeps the paint order a listing of the stroke map without repetition |
| CanvasReplay.ReplayWellFormed | gamefy/drawguess/publish/canvas.js:81-84 | the same for every replay |
| CanvasReplay.ReplayAppend | gamefy/drawguess/publish/canvas.js:77-80 | replaying two logs one after the other is replaying their concatenation |
| CanvasReplay.CompactedIsSurviving | src/dzmm_bot/core/drawguess_repository.py:212-227 | the server's scan keeps exactly the drawings that no later clear or undo removes, in log order |
| CanvasReplay.ServerCanvas | src/dzmm_bot/core/drawguess_repository.py:212-227 | the canvas of a snapshot is the surviving drawings of the turn's rows |
| CanvasReplay.DropStroke | src/dzmm_bot/core/drawguess_repository.py:222-224 | an undo removes the stroke's events and keeps the order of the others |
| CanvasReplay.ReplayByCompaction | src/dzmm_bot/core/drawguess_repository.py:212-227 | on any picture, a log means its surviving drawings replayed on what its removals leave of that picture |
| CanvasReplay.SnapshotFaithful | src/dzmm_bot/core/drawguess_repository.py:212-227 | a board restored from a compacted canvas shows what the whole log shows |
| CanvasReplay.RemnantTwice | gamefy/drawguess/publish/canvas.js:42-44 | applying a log's removals a second time changes nothing |
| CanvasReplay.RemnantForm | gamefy/drawguess/publish/canvas.js:42-44 | a log's removals either wipe the picture or erase exactly the strokes it undoes |
| CanvasReplay.PresentIffSurviving | gamefy/drawguess/publish/canvas.js:41-53 | a stroke is on the canvas if and only if some drawing of it survives |
| CanvasMeaning.OrderOfDrawings | gamefy/drawguess/publish/canvas.js:47-49 | strokes are painted in the order of their first drawing |
| CanvasMeaning.StrokesOfDrawings | gamefy/drawguess/publish/canvas.js:46-51 | a stroke holds the points drawn from its last begin on, in order, and the style of its last drawing |
| CanvasMeaning.CanvasShows | gamefy/drawguess/publish/canvas.js:41-53 | for any log: which strokes the canvas shows, in which order, with which points and style, said without replaying |
| EchoedTrace.StepOf | gamefy/drawguess/publish/canvas.js:77-80 | in a run that starts with some operations under way, every local edit performs the next operation of the log, and every echo repeats the next one emitted |
| EchoedTrace.FollowsOn | gamefy/drawguess/publish/canvas.js:41-80 | the rest of a run is a run of its own, with what was emitted and not yet echoed under way |
| EchoedTrace.AfterEcho | gamefy/drawguess/publish/canvas.js:77-80 | the same from an echo on, with the log behind it |
| EchoedTrace.EditsThenEchoesCausal | gamefy/drawguess/publish/canvas.js:54-67 | all edits first and the echoed log after is a causal, complete run |
| CanvasConvergence.DrawnStays | gamefy/drawguess/publish/canvas.js:46-51 | a drawn stroke that is never removed is in the replay |
| CanvasConvergence.UndoneAbsent | gamefy/drawguess/publish/canvas.js:43-44 | an undone stroke of a log that draws none after its undo is absent from its replay |
| CanvasConvergence.UndoneAbsentInTrace | gamefy/drawguess/publish/canvas.js:43-44 | in a log that draws none after its undo, a stroke stays off the replica once its undo has been echoed, whatever was under way at the start and is edited and echoed around it |
| CanvasConvergence.SurvivorOrder | gamefy/drawguess/publish/canvas.js:41-66 | at every moment of a run the replica paints the strokes never undone in the order of a replay of the edits so far |
| CanvasConvergence.OrderConverges | gamefy/drawguess/publish/canvas.js:41-66 | for every interleaving of edits and echoes of an orderly log, the final strokes and paint order are those of one replay |
| CanvasConvergence.StyleInTrace | gamefy/drawguess/publish/canvas.js:51 | once no drawing and no removal of a stroke is left to be echoed, replica and log agree on its style, also with operations under way at the start |
| CanvasConvergence.PointsInTrace | gamefy/drawguess/publish/canvas.js:46-51 | once no begin and no removal of a stroke is left to be echoed, the replica has exactly the late ink too many points, and the log's points when there is none, also with operations under way at the start |
| CanvasConvergence.StrokesConverge | gamefy/drawguess/publish/canvas.js:41-84 | whatever the log and whatever was under way at the start, after all echoes every stroke is present or absent as in the log, with its style, and exceeds it by its late ink |
| CanvasConvergence.StylesMeet | gamefy/drawguess/publish/canvas.js:41-53 | one log on two pictures gives a stroke the same style if and only if it draws or removes the stroke, or the styles agreed |
| CanvasConvergence.PointsMeet | gamefy/drawguess/publish/canvas.js:46-51 | and the same points if and only if it begins or removes the stroke, or the points agreed |
| CanvasConvergence.ConvergesIff | gamefy/drawguess/publish/canvas.js:41-84 | for any log, the replica is the replay if and only if the paint orders agree and no stroke has late ink |
| CanvasConvergence.EchoConvergence | gamefy/drawguess/publish/canvas.js:41-87 | after all echoes strokes, order and styles are the log's; the picture is the replay if and only if no stroke has late ink |
| CanvasConvergence.EarlyEditsNotLate | gamefy/drawguess/publish/canvas.js:54-67 | editing before any echo leaves no late ink on a stroke whose begin is in the log |
| CanvasConvergence.EditsThenEchoesConverge | gamefy/drawguess/publish/canvas.js:41-67 | all local operations, then the whole echoed log, give the replay of the log, points included |
| CanvasConvergence.ReplayIdempotent | gamefy/drawguess/publish/canvas.js:77-80 | replaying a log on its own result changes nothing under the same conditions |
| CanvasConvergence.LateInkDoublesPoints | gamefy/drawguess/publish/canvas.js:51 | a run in which the replica keeps a point twice that the log has once |
| CanvasOverlap.PresentIff | gamefy/drawguess/publish/canvas.js:41-53 | a stroke is on a log's picture if and only if it was there and is never removed, or some drawing of it is not removed later |
| CanvasOverlap.EchoedIsShown | gamefy/drawguess/publish/canvas.js:77-80 | what is echoed and removed no more is on the replica from then on |
| CanvasOverlap.NewInOrder | gamefy/drawguess/publish/canvas.js:47-49 | strokes new to a picture are painted in the order of their first drawings after their last removal in the log |
| CanvasOverlap.InOrderUnlessOvertaken | gamefy/drawguess/publish/canvas.js:41-66 | unless the drawer overtakes, the strokes on the replica that nothing still to be echoed removes are at every moment the first ones of the log's order |
| CanvasOverlap.OvertakingShows | gamefy/drawguess/publish/canvas.js:41-66 | overtaking once makes the final paint order differ from the log's |
| CanvasOverlap.OrderConvergesIff | gamefy/drawguess/publish/canvas.js:41-80 | for any log and any run that starts with operations under way, the final paint order is the log's if and only if no drawing of a stroke that stays was made while an earlier one of the log was not on the picture for good |
| CanvasOverlap.OverlapConvergence | gamefy/drawguess/publish/canvas.js:41-84 | for any such run, strokes and styles are the log's; the picture is the replay if and only if nothing was overtaken and no stroke has late ink |
| CanvasOverlap.QuietNotOvertaken | gamefy/drawguess/publish/canvas.js:41-66 | with nothing under way at the start, a drawer who draws no stroke again after its undo, clears nothing and ends only strokes it drew overtakes nothing |
| CanvasOverlap.RestoreConverges | gamefy/drawguess/publish/game.js:140 | the same for a board restored from a snapshot while its own operations are under way and still to be echoed, the stream being no further than the snapshot |
| CanvasOverlap.RestoreBehindStrokes | gamefy/drawguess/publish/game.js:140-158 | for a board restored behind its own stream, which strokes end right: in style exactly those the snapshot had right or the rest of the log draws or removes, in points, without late ink, those it had right or the rest begins or removes |
| CanvasOverlap.RestoreBehindConvergesIff | gamefy/drawguess/publish/game.js:140-158 | every run after such a restore agrees with the log as above if and only if the operations of the gap leave the snapshot's picture as it is |
| CanvasOverlap.ClearConverges | gamefy/drawguess/publish/canvas.js:42 | the same from the echo of a clear on, with what was drawn while it was under way |
| CanvasOverlap.QuietClearConverges | gamefy/drawguess/publish/canvas.js:42 | when a clear's echo arrives with nothing else under way, order and strokes converge, and the points without late ink |
| CanvasOverlap.BusyClearReorders | gamefy/drawguess/publish/canvas.js:41-53 | a causal and complete run with a clear under way that ends in another paint order than the log's |
| CanvasOverlap.UndoUnderPenReorders | gamefy/drawguess/publish/canvas.js:41-87 | a causal and complete run that undoes a stroke before the pen is lifted and ends in another paint order than the log's, with nothing under way at the start |
| CanvasBoard.AdmittedIncrease | gamefy/drawguess/publish/canvas.js:78-79 | admitted sequence numbers strictly increase from the floor, belong to the turn and come from the batch |
| CanvasBoard.AdmittedIff | gamefy/drawguess/publish/canvas.js:77-80 | an event of a batch is admitted if and only if it is the turn's and its number exceeds the floor and the turn's earlier numbers |
| CanvasBoard.HighIsHighest | gamefy/drawguess/publish/canvas.js:79 | the number remembered is the highest of the turn's in the batch, or the floor |
| CanvasBoard.MaxSeqIsHighest | gamefy/drawguess/publish/canvas.js:83 | the number a canvas leaves behind is the highest on it |
| CanvasBoard.SpliceErases | gamefy/drawguess/publish/canvas.js:44 | cutting out one position of the paint order erases the stroke |
| CanvasBoard.AppliedInks | gamefy/drawguess/publish/canvas.js:46-53 | a drawing paints its stroke last unless it is painted, and adds its points to the stroke's, to none for a begin or a new stroke, in its own style |
| CanvasBoard.AppliedUndoes | gamefy/drawguess/publish/canvas.js:43-45 | an undo removes the stroke and cuts its one place out of the paint order |
| CanvasBoard.EchoesAppend | gamefy/drawguess/publish/canvas.js:79 | echoes at the end of a run are a replay on top of it |
| CanvasBoard.TrackedConverges | gamefy/drawguess/publish/canvas.js:22-84 | a board shows its last snapshot with the log since on top, once all of it has been echoed, if and only if its drawer overtook nothing and left no late ink |
| CanvasBoard.Board.constructor | gamefy/drawguess/publish/canvas.js:11-16 | an empty board that is not editable and has emitted nothing, with a thin dark pen |
| CanvasBoard.Board.Apply | gamefy/drawguess/publish/canvas.js:41-53 | a clear empties map and order, an undo takes the stroke out of both, a drawing paints a new stroke last and adds its points, from the start for a begin, in its style; the same as the operation's meaning |
| CanvasBoard.Board.IndexOf | gamefy/drawguess/publish/canvas.js:44 | the first position of a stroke in the paint order, or -1 if it is not painted |
| CanvasBoard.Board.Emit | gamefy/drawguess/publish/canvas.js:22-25 | the queue grows at its end and the timer runs |
| CanvasBoard.Board.Perform | gamefy/drawguess/publish/canvas.js:57-61 | a local edit is shown at once and queued; the board stays the run since its last restore, and delivered batches followed by the queue stay all that was emitted |
| CanvasBoard.Board.Down | gamefy/drawguess/publish/canvas.js:55-58 | exactly when the board is editable and no stroke is under way, shows and queues a begin with the point and the chosen tool, and otherwise changes nothing |
| CanvasBoard.Board.Move | gamefy/drawguess/publish/canvas.js:59-62 | adds the point to the stroke of the pointer that is down, in the tool chosen now, and queues it; otherwise changes nothing |
| CanvasBoard.Board.Finish | gamefy/drawguess/publish/canvas.js:63-67 | queues the end of the stroke, with the point unless cancelled and the chosen tool, without showing it, also on a board no longer editable |
| CanvasBoard.Board.UndoLast | gamefy/drawguess/publish/canvas.js:85-87 | removes exactly the stroke painted last and queues its undo |
| CanvasBoard.Board.ClearAll | gamefy/drawguess/publish/canvas.js:88 | empties an editable board and queues the clear |
| CanvasBoard.Board.SetEditable | gamefy/drawguess/publish/canvas.js:72 | losing the pen forgets the stroke under way |
| CanvasBoard.Board.SetTool | gamefy/drawguess/publish/canvas.js:73-76 | refuses whatever is not on the palette and keeps the old tool |
| CanvasBoard.Board.Flush | gamefy/drawguess/publish/canvas.js:24 | the whole queue goes out as one batch unless the board is destroyed; the timer is pending exactly while the queue is not empty |
| CanvasBoard.Board.Destroy | gamefy/drawguess/publish/canvas.js:89 | nothing is queued or pending afterwards |
| CanvasBoard.Board.ApplyEvents | gamefy/drawguess/publish/canvas.js:77-80 | the admitted events of a batch are replayed on the picture and appended to the run as echoes, and the floor rises to the turn's highest number; another turn's batch changes nothing |
| CanvasBoard.Board.Restore | gamefy/drawguess/publish/canvas.js:81-84 | the board shows the replay of the canvas and its floor is the canvas's highest number |
| CanvasDelivery.AdmittedIsFresh | gamefy/drawguess/publish/canvas.js:78-79 | on a slice of the numbered log the running test admits exactly the turn's events above the floor |
| CanvasDelivery.SliceAdmits | gamefy/drawguess/publish/canvas.js:77-80 | a slice behind a gapless prefix contributes only what lies beyond the position reached |
| CanvasDelivery.StreamAppliesOnce | gamefy/drawguess/publish/client.js:56-82 | any gapless stream, with redelivery after reconnects, applies each event past its cursor once and in order |
| CanvasDelivery.TailAbsorbed | src/dzmm_bot/core/drawguess_repository.py:212-227 | events newer than everything on a snapshot's canvas left no trace in it and can be applied again without effect |
| CanvasDelivery.RedoneAbsorbed | gamefy/drawguess/publish/game.js:56-69 | redoing a stretch of the log that ends at the snapshot changes nothing |
| CanvasDelivery.BeyondCompletes | gamefy/drawguess/publish/game.js:56-69 | what the filter admits after the snapshot completes it to the turn's events |
| CanvasDelivery.ExactlyOnce | gamefy/drawguess/publish/game.js:56-69 | restored from the snapshot of k events behind a cursor not past k, or past it where the turn shows the same, however the log is cut and redelivered, the board shows exactly the turn's events reached |
| CanvasDelivery.StaleSnapshotIff | gamefy/drawguess/publish/game.js:56-69 | a snapshot of k events behind a cursor past k is right for every gapless stream from there on if and only if the turn's operations between leave its picture as it is |
| CanvasDelivery.StrokeBehindIff | gamefy/drawguess/publish/game.js:56-69 | for every such stream, which strokes are right in style and in points: those that the snapshot had right at the cursor, and those renewed since |
| CanvasDelivery.AppliedNumbersIncrease | gamefy/drawguess/publish/canvas.js:79 | the numbers a stream applies strictly increase above the restored board's |
| CanvasDelivery.SkippedIsLost | gamefy/drawguess/publish/client.js:60-64 | in particular a stroke that the turn draws only between the snapshot and a later cursor, and never removes, is missing from the board for good |
| CanvasDelivery.StaleSnapshotLosesStrokes | gamefy/drawguess/publish/client.js:60-64 | a run in which a snapshot older than the cursor loses a stroke |
| CanvasRoom.Page.constructor | gamefy/drawguess/publish/game.js:56-69 | entering a room paints the board from its canvas and keeps canvas, turn and cursor |
| CanvasRoom.Page.RenderPlay | gamefy/drawguess/publish/game.js:138-141 | paints the board from the canvas kept, whatever the stream has brought since |
| CanvasRoom.Page.SetRoom | gamefy/drawguess/publish/game.js:64 | a snapshot is kept with its cursor and painted |
| CanvasRoom.Page.OnEvents | gamefy/drawguess/publish/game.js:65 | events move the cursor and the board by what the filter admits, and leave the canvas kept as it is |
| CanvasRoom.RoomTracked | gamefy/drawguess/publish/game.js:56-69 | in every run of a page, with slices redelivered, snapshots from the stream, late answers and repaintings, the board is the canvas kept with what the stream brought since it was painted |
| CanvasRoom.RightIff | gamefy/drawguess/publish/game.js:140-158 | in every run, the board shows the turn's events that the stream has reached at all times if and only if no repainting uses a canvas that no longer shows what the turn shows there |
| CanvasRoom.StaleStrokes | gamefy/drawguess/publish/game.js:140-158 | behind an out-of-date canvas, at any later moment, which strokes are right in style and in points |
| CanvasRoom.RefusedChatLosesInk | gamefy/drawguess/publish/game.js:156-159 | a run in which a point followed from the stream is gone after a refused chat message |
| StrokeSender.StrokeServer.Handle | src/dzmm_bot/core/drawguess_repository.py:457-495 | a repeated request id appends nothing and succeeds exactly for the same batch; a new one is applied exactly when the room admits it, and a refusal leaves no receipt |
| StrokeSender.StrokeClient.Strokes | gamefy/drawguess/publish/client.js:47-55 | the batch is applied once if the room admits it at some attempt that reaches the server, and not at all otherwise; three failures block the client |
| StrokeSender.StrokeClient.TryThrice | gamefy/drawguess/publish/client.js:49-53 | three attempts under one request id leave at most one receipt |
| StrokeSender.StrokeClient.Snapshot | gamefy/drawguess/publish/client.js:44 | reading the room again lifts the block |
| StrokeSender.AppliedIsPrefix | gamefy/drawguess/publish/client.js:44-55 | with sends that wait for each other and requests that are handled when sent or never, the applied batches are a prefix of those submitted since the last snapshot, and all of them while nothing failed |
| StrokeSender.OverlapAppliesOnce | gamefy/drawguess/publish/client.js:47-55 | however sends overlap and requests arrive late, no batch is applied twice and every acknowledged one was applied |
| StrokeSender.AloneLikeStrokes | gamefy/drawguess/publish/client.js:47-55 | among overlapping sends, a batch on its own is handled, acknowledged and blocks the client exactly as the client's method does |
| StrokeSender.WaitingKeepsOrder | gamefy/drawguess/publish/client.js:47-55 | if every submission waits until no batch is tried or in transit unapplied, the handled batches are in the order submitted |
| StrokeSender.LaterHandled | gamefy/drawguess/publish/client.js:47-55 | what is applied stays first, and a batch given up with no request in transit is never applied |
| StrokeSender.OvertakesIff | gamefy/drawguess/publish/canvas.js:24 | a batch submitted now can be applied before an earlier one if and only if that one is not applied but tried or in transit |
| StrokeSender.OverlapReorders | gamefy/drawguess/publish/canvas.js:24 | from every state that is not blocked and has a batch under way, a new batch can be submitted, applied first, and both be acknowledged |
| StrokeSender.LateReorders | gamefy/drawguess/publish/client.js:33-41 | from every state that is not blocked and has an unapplied request in transit, a new batch can be applied first |
| StrokeSender.LateBatchOvertaken | gamefy/drawguess/publish/client.js:33-55 | a run without overlapping sends in which a timed-out batch is applied after a later one |
| NameRepair.OneOwner | migrations/versions/20260817_44_random_event_tipping.py:39-40 | a name can end in the own number of at most one employee |
| NameRepair.SuffixReadsBack | migrations/versions/20260817_44_random_event_tipping.py:39 | the suffix reads back as the employee number, in exactly four digits below ten thousand, and without a leading zero from a thousand on |
| NameRepair.SuffixIff | migrations/versions/20260817_44_random_event_tipping.py:39 | the suffix is the only text of a sharp sign and at least four digits with the number's value and no needless zero |
| NameRepair.RenamedBob | migrations/versions/20260817_44_random_event_tipping.py:38-40 | employee 7 of the name Bob becomes Bob#0007 |
| NameRepair.RenamedSettles | migrations/versions/20260817_44_random_event_tipping.py:39-40 | a renamed employee ends in its own number, fits 64 characters, and keeps as much of the old name as fits |
| NameRepair.SharedUnsettled | migrations/versions/20260817_44_random_event_tipping.py:18-26 | of the employees who share a name, one does not end in its own number |
| NameRepair.UnsettledDrops | migrations/versions/20260817_44_random_event_tipping.py:17 | settling one employee and unsettling none lowers the count that bounds the passes |
| NameRepair.NeverBack | migrations/versions/20260817_44_random_event_tipping.py:39-40 | a name renamed any number of times is the old one again exactly when the first renaming left it |
| NameRepair.TreatedChanges | migrations/versions/20260817_44_random_event_tipping.py:29-47 | the row of a treated name changes exactly when the renaming makes another name of it |
| NameRepair.AfterPass | migrations/versions/20260817_44_random_event_tipping.py:29-47 | a pass treats exactly the names shared before it, and whoever had a name treated so far has been renamed |
| NameRepair.Settlement | migrations/versions/20260817_44_random_event_tipping.py:15-47 | over all passes a row changes if and only if its name was treated and is renamed to another; whoever shares a name before no pass keeps it |
| NameRepair.EmployeeTable.MembersOf | migrations/versions/20260817_44_random_event_tipping.py:30-37 | exactly the employees with the name, in order |
| NameRepair.EmployeeTable.DuplicateNames | migrations/versions/20260817_44_random_event_tipping.py:18-26 | exactly the names that more than one employee has |
| NameRepair.EmployeeTable.RenameGroup | migrations/versions/20260817_44_random_event_tipping.py:29-47 | everybody of the name gets the name built from the own number; nobody else changes |
| NameRepair.EmployeeTable.RepairPass | migrations/versions/20260817_44_random_event_tipping.py:29-47 | a pass over duplicated names strictly lowers the number of unsettled employees |
| NameRepair.EmployeeTable.UniqueEmployeeNames | migrations/versions/20260817_44_random_event_tipping.py:15-47 | the loop ends within as many passes as unsettled employees; all names are distinct; the treated names are exactly those shared before some pass, and a row changes if and only if its name was treated and is not already the renamed one; an employee never in a duplicate group keeps the name |
| NameRepair.Numbering.NumberUsers | migrations/versions/20260811_37_employee_numbers.py:26-57 | the n-th user to join gets number n, numbers are distinct, and the counter continues after them |
| NameRepair.Numbering.Highest | src/dzmm_bot/core/repository.py:31937-31942 | the highest number in use, or zero when there is none |
| NameRepair.Numbering.Hire | src/dzmm_bot/core/repository.py:31928-31953 | a new employee gets the counter's number, or one more than the highest in use when the counter row is missing; it is above all others |
| ClaimStore.SqliteStore.Claim | src/dzmm_bot/store.py:23-40 | grants exactly a message neither seen nor under a claim that survives the purge |
| ClaimStore.SqliteStore.MarkSeen | src/dzmm_bot/store.py:42-53 | succeeds exactly for the token that holds the claim, which becomes a seen mark |
| ClaimStore.SqliteStore.ReleaseClaim | src/dzmm_bot/store.py:55-60 | removes the claim of this token and no other |
| ClaimStore.SeenAndClaimedDisjoint | src/dzmm_bot/store.py:23-53 | in every run of any number of workers no message is both seen and claimed |
| ClaimStore.LeaseHasClaim | src/dzmm_bot/store.py:35-39 | every claim in the table was granted to the call whose token and time it carries |
| ClaimStore.OneMarkPerMessage | src/dzmm_bot/store.py:42-53 | at most one mark per message ever succeeds, and no claim after it |
| ClaimStore.SeenIffMarked | src/dzmm_bot/store.py:42-53 | a message is seen if and only if some mark of it succeeded |
| ClaimStore.TokenGoneForGood | src/dzmm_bot/store.py:32-39 | a token whose claim has left the table never holds it again |
| ClaimStore.StaleTokenPowerless | src/dzmm_bot/store.py:42-60 | after a later worker's claim the earlier token can neither mark nor release it |
| ClaimStore.StandsOrSeen | src/dzmm_bot/store.py:32-34 | a claim that is not released stands through a lease, or its message is seen |
| ClaimStore.LeaseExclusion | src/dzmm_bot/store.py:23-40 | two granted claims on a message, the first not released: a claim call between them, on whatever message, came more than the TTL after the first; no assumption on the clock |
| ClaimStore.LeaseExclusionInTime | src/dzmm_bot/store.py:23-40 | with a clock that does not run backwards the second claim itself came that late |
| ClaimStore.NextClaimGrantedIff | src/dzmm_bot/store.py:23-40 | after a granted claim with nothing on the message granted since, the next claim call on it is granted if and only if some claim call since, on whatever unseen message, came more than the TTL later; it breaks the lease exactly when it is not that late itself |
| ClaimStore.ClaimableAgainIff | src/dzmm_bot/store.py:23-53 | after a granted claim and its mark, the mark succeeds if and only if no late claim call came between them, and the message can be claimed again if and only if one did |
| ClaimStore.LateTransactionBreaksLease | src/dzmm_bot/store.py:24-27 | a run in which a time read before the transaction admits a second claim inside the lease |
| ClaimStore.MemoryStore.Claim | src/dzmm_bot/service.py:11-16 | grants exactly a message neither seen nor claimed |
| ClaimStore.MemoryStore.MarkSeen | src/dzmm_bot/service.py:18-23 | succeeds exactly for the token that holds the claim |
| ClaimStore.MemoryStore.ReleaseClaim | src/dzmm_bot/service.py:25-27 | removes the claim of this token and no other |
| ClaimStore.StoreRefinement | src/dzmm_bot/store.py:23-60 | while nothing expires, the database store answers every call as the in-memory store does |
| ClaimStore.RefinementIffNothingExpires | src/dzmm_bot/store.py:32-34 | the two stores stay in step if and only if no claim call finds a claim older than the TTL |
| JsonText.PairTextInjective | src/dzmm_bot/dzmm_source.py:30 | the text of a pair determines sender and text, whatever characters they hold |
| JsonText.TripleTextInjective | src/dzmm_bot/dzmm_source.py:33 | the text of a triple determines sender, text and occurrence |
| JsonText.QuotedReadsBack | src/dzmm_bot/dzmm_source.py:30-33 | a JSON reader gets back a quoted string, whatever characters it holds, and what follows it |
| JsonText.PlainTexts | src/dzmm_bot/dzmm_source.py:30-33 | strings without special characters are written as they are, in brackets and without spaces |
| MessageSource.ReadMessagesScript | src/dzmm_bot/dzmm_source.py:14-37 | every row keeps its fields and gets its sender, its text and how many such rows the page has up to it as its key; the last fifty rows are returned, or all of a shorter page |
| MessageSource.CountIs | src/dzmm_bot/dzmm_source.py:28-34 | rows of one sender and text are counted one by one |
| MessageSource.ReadNew | src/dzmm_bot/dzmm_source.py:46-68 | skips own and blank rows and gives the others platform ids, script keys or occurrence ids |
| MessageSource.MessagesFrom | src/dzmm_bot/dzmm_source.py:46-68 | the messages are exactly the rows that are not the bot's own and not blank, in order, each with its id and its trimmed sender and text |
| MessageSource.MessageIdsDiffer | src/dzmm_bot/dzmm_source.py:57-66 | two platform ids, or two keys of the script, give the same message id only if they are the same, and the kinds never meet |
| MessageSource.BareCountIs | src/dzmm_bot/dzmm_source.py:60-63 | rows without any key are counted one by one |
| MessageSource.TrimIs | src/dzmm_bot/dzmm_source.py:50-56 | trimming takes away white space at both ends and all of it |
| MessageSource.SpacesAre | src/dzmm_bot/dzmm_source.py:50-56 | the white space is that of the service's language |
| MessageSource.KeysDistinct | src/dzmm_bot/dzmm_source.py:28-34 | no two rows of a page have the same key |
| MessageSource.KeyStable | src/dzmm_bot/dzmm_source.py:28-34 | rows appended later do not change a row's key |
| MessageSource.RowIdsDistinct | src/dzmm_bot/dzmm_source.py:66 | different rows have different ids, in whatever state of the growing page each was read |
| MessageSource.StableNotFallback | src/dzmm_bot/dzmm_source.py:57-66 | a platform id never equals a fallback id |
| MessageSource.OfferedIffInWindow | src/dzmm_bot/dzmm_source.py:35-68 | a poll offers a row without a platform id if and only if the row is among the last fifty of the page then |
| BotService.Service.RunOnce | src/dzmm_bot/service.py:36-47 | serves the offers in order until a send raises: delivered ones are answered and seen, declined ones are freed, a raised one keeps its claim and ends the poll; returns the number of answers |
| BotService.AnsweredOnce | src/dzmm_bot/service.py:36-47 | over any polls, whatever is declined or raises, no message is answered twice; a message is answered if and only if it is once reached, neither seen nor left claimed, with a send that succeeds, and left claimed if and only if with one that raises |
| BotService.FirstSettles | src/dzmm_bot/service.py:36-47 | the first send of a message that is reached and not declined decides for good: answered if delivered, left claimed if it raised |
| BotService.AnsweredIffOffered | src/dzmm_bot/service.py:36-47 | if no send raises, the answered are exactly those once offered with a send that succeeded, and no claim is left |
| BotService.RaisedNeverAnswered | src/dzmm_bot/service.py:36-47 | over the in-memory store a message whose send raised is never answered afterwards |
| BotService.RaisedLosesMessage | src/dzmm_bot/service.py:36-47 | a run in which a send raises, its message is offered again and not answered, and the next message is answered by the next poll |
| BotService.DatabaseService.RunOnce | src/dzmm_bot/service.py:36-47 | the same loop over the database store, with its purges |
| BotService.DeskServes | src/dzmm_bot/store.py:23-60 | what serving an offer leaves in the tables: seen when delivered, nothing when declined, its lease when raised, and of other claims those within the lifetime |
| BotService.DatabaseAnswersOnce | src/dzmm_bot/store.py:23-60 | over the database store no message is answered twice, also when the claim of a send that raised expires |
| BotService.DatabaseLikeMemory | src/dzmm_bot/service.py:36-47 | if no send raises, one service answers the same over either store, whatever the clock does |
| BotService.ExactlyOneAnswer | src/dzmm_bot/dzmm_source.py:14-68 | on a growing page with sends that succeed, over either store, a row without platform id that is in some poll's window gets exactly one answer, and another row never takes its id |
| BotService.PollOfOffers | src/dzmm_bot/service.py:36-47 | the offers the loop serves are the ids of the page's messages, in order, with their times and tokens |
| BotFleet.ExclusiveStep | src/dzmm_bot/store.py:23-60 | a step of any service ends the exclusive work on a message if and only if it is a claim call, on whatever unseen message, whose purge takes the lease that guards this one |
| BotFleet.FleetAnswersOnce | src/dzmm_bot/service.py:36-47 | in every run of several services over one database, a message whose lease is kept is answered at most once, by a service that holds its lease |
| BotFleet.ExclusiveIff | src/dzmm_bot/service.py:36-47 | services exclude each other on a message all along a run if and only if no purge takes the lease that guards it |
| BotFleet.TakenCanRepeat | src/dzmm_bot/store.py:32-39 | once a lease has been taken so, the services can answer the message twice |
| BotFleet.AloneServes | src/dzmm_bot/service.py:36-47 | the steps of one service that works alone do what its loop does |
| BotFleet.SlowServiceAnswersTwice | src/dzmm_bot/service.py:36-47 | a run in which a service marks its answer too late and another answers again |
| AdminControl.AdminRepository.ReserveIdempotencyKey | src/dzmm_bot/admin/repository.py:154-192 | a live reservation is refused and leaves the table; otherwise what has expired goes, a stored response is replayed, and anything else is reserved for an hour |
| AdminControl.AdminRepository.CompleteIdempotencyKey | src/dzmm_bot/admin/repository.py:194-213 | stores the response for another hour, or fails if the reservation is gone |
| AdminControl.AdminRepository.ReleaseIdempotencyKey | src/dzmm_bot/admin/repository.py:215-223 | frees a reservation but never a stored response |
| AdminControl.AdminRepository.UpdateConfiguration | src/dzmm_bot/admin/repository.py:234-248 | the operation runs only on the expected version; it increments the version or, raising, leaves it |
| AdminControl.IdempotentResponse | src/dzmm_bot/admin/app.py:183-211 | the operation runs only on a granted key; its response is stored, its failure leaves the key free |
| AdminControl.VersionedConfigurationResponse | src/dzmm_bot/admin/app.py:213-243 | a stale If-Match never runs the operation and leaves the key free; a replay never changes the version |
| AdminRuns.OneAtATime | src/dzmm_bot/admin/app.py:194-199 | while no purge takes the reservation of a request at work on a key, at most one request works on it, holding that reservation, whatever happens on other keys |
| AdminRuns.ExclusiveStep | src/dzmm_bot/admin/repository.py:154-192 | a step ends the exclusive work on a key if and only if it is a reservation, on whatever key, whose purge takes the reservation of a request at work |
| AdminRuns.AloneCompletes | src/dzmm_bot/admin/app.py:183-211 | the steps of a granted request that returns do what the response helper does |
| AdminRuns.AloneReleases | src/dzmm_bot/admin/app.py:203-207 | and those of one that raises or finds another version |
| AdminRuns.AloneCommits | src/dzmm_bot/admin/repository.py:234-248 | a commit on the expected version moves it by one |
| AdminRuns.OneAtATimeIff | src/dzmm_bot/admin/app.py:183-211 | a key is worked on by at most one request all along a run if and only if no step takes its reservation so |
| AdminRuns.TakenAdmitsDuplicate | src/dzmm_bot/admin/repository.py:160-178 | once a reservation is taken so, the request is still at work, and a duplicate is granted by that very call or by the next one at any time |
| AdminRuns.DuplicateRefused | src/dzmm_bot/admin/app.py:198-199 | then a duplicate of a request under way is refused and changes nothing |
| AdminRuns.FailureFreesKey | src/dzmm_bot/admin/app.py:203-207 | after a failure the key is granted to the next request at any time, if it was kept until then |
| AdminRuns.ReplyStays | src/dzmm_bot/admin/app.py:208-210 | a stored reply stays unchanged until a call that is not refused comes after its lifetime, whatever else runs |
| AdminRuns.LaterRequestsReplay | src/dzmm_bot/admin/app.py:200-202 | every later request with the key gets exactly the stored reply while it lives |
| AdminRuns.WorkedAgainOnlyExpired | src/dzmm_bot/admin/repository.py:160-164 | a key is worked on again only after a reservation call, not refused, later than its reply's lifetime |
| AdminRuns.OneCompletionPerLifetime | src/dzmm_bot/admin/app.py:183-211 | two completions for one key are a lifetime apart |
| AdminRuns.StoredRepliesCompleted | src/dzmm_bot/admin/app.py:203-211 | every stored reply is that of a completed operation, never of a failure |
| AdminRuns.VersionLineage | src/dzmm_bot/admin/repository.py:234-248 | commits form a chain without gaps, each on the version just before it |
| AdminRuns.OneCommitPerLifetime | src/dzmm_bot/admin/app.py:213-243 | one key commits one configuration change per lifetime |
| AdminRuns.SlowOperationCompletesTwice | src/dzmm_bot/admin/repository.py:160-178 | a run in which an operation outlives its reservation and a duplicate completes beside it |
| RateLimiter.WindowBound | src/dzmm_bot/admin/app.py:160-167 | no closed minute holds more than sixty accepted calls |
| RateLimiter.CountOne | src/dzmm_bot/admin/app.py:161-163 | a call counts in the closed minute exactly when it is not before its start and not after its end |
| RateLimiter.Limiter.VerifyIntegrationKey | src/dzmm_bot/admin/app.py:150-167 | a call with a good key is refused if and only if sixty were accepted in the minute that ends now |
| RateLimiter.Limiter.Admit | src/dzmm_bot/admin/app.py:160-167 | accepts exactly while the minute ending now has room; the list stays sorted and no longer than sixty |
| RateLimiter.Limiter.DropExpired | src/dzmm_bot/admin/app.py:161-162 | what is left of the list is as long as the count of accepted calls in the minute ending now |
| SseFraming.IndexOfBlank | gamefy/drawguess/publish/client.js:71 | the first blank line, or -1 |
| SseFraming.SplitAppend | gamefy/drawguess/publish/client.js:69-72 | splitting a text is splitting its beginning, then what was left of it with the remainder |
| SseFraming.FramedBack | gamefy/drawguess/publish/client.js:71-72 | packets and rest make up the text: nothing is lost or invented |
| SseFraming.FramingRoundTrip | gamefy/doudizhu/publish/client.js:51-53 | framing then splitting returns the packets if and only if none has a blank line inside or a newline at its end |
| SseFraming.TakePackets | gamefy/doudizhu/publish/client.js:51-57 | a chunk hands on exactly its complete packets, up to the first that says unavailable |
| SseFraming.Follow | gamefy/drawguess/publish/client.js:66-76 | whatever the chunks, the client hears what the whole stream at once would give, and is left with the same rest |
| SseFraming.UpdatesArrive | src/dzmm_bot/core/drawguess_api.py:72 | framed updates arrive complete and in order, however cut, if and only if no packet contains the unavailable mark |
| SseFraming.DataFromIs | gamefy/drawguess/publish/client.js:73-74 | a packet's update is the rest of its first line that begins with the data mark, and a packet without such a line has none |
| SseFraming.ContainsIff | gamefy/drawguess/publish/client.js:72 | a packet contains the unavailable mark if and only if it is the mark with something before and something after |
| SseFraming.HeartbeatSilent | src/dzmm_bot/core/drawguess_api.py:76 | the server's heartbeat is no update and does not stop a client |
| SseFraming.TextStopsClient | gamefy/drawguess/publish/client.js:72 | an update that holds the unavailable mark anywhere in its text keeps the updates from arriving, however the stream is cut |
| SseFraming.ChatTextStopsClient | gamefy/drawguess/publish/client.js:72 | such an update: a JSON text on one line whose message is the mark, which needs no escape |
| SseFraming.NormalizedAppend | gamefy/mistrealm/publish/client.js:84 | normalising both sides of a cut leaves one character too many exactly when the cut is inside a line end |
| SseFraming.NormalizedLength | gamefy/mistrealm/publish/client.js:84 | the surplus characters count the cuts inside line ends |
| SseFraming.NormalizingIsChunkIndependent | gamefy/mistrealm/publish/client.js:82-88 | packets and rest equal those of the whole normalised stream if and only if no cut falls between CR and LF |
| SseFraming.CutLineEndStays | gamefy/mistrealm/publish/client.js:84 | a line end cut in two leaves the carriage return in the rest |
| RoomView.Client.Accept | gamefy/mistrealm/publish/client.js:49-53 | keeps a state exactly when it is the followed room's and not older than the one shown of that room |
| RoomView.ShowsNewest | gamefy/mistrealm/publish/client.js:49-53 | while one room is followed the client shows the highest version offered, the last of equals, in whatever order poll and stream deliver |
| RoomView.NeverDown | gamefy/mistrealm/publish/client.js:49-53 | until a snapshot of another room is accepted, a room stays shown and its version does not go down, whatever rooms are followed and arrive |
| RoomView.DownOnlyThroughAnother | gamefy/mistrealm/publish/client.js:49-53 | in every run the version shown of a room goes down between two positions only if a snapshot of another room was accepted between them |
| RoomView.AnyVersionAfterAnother | gamefy/mistrealm/publish/client.js:51 | after such an acceptance, following the room again, any version of it that arrives is shown |
| RoomView.ReturningGoesBack | gamefy/mistrealm/publish/client.js:51 | a run through another room after which an older version is accepted |
| HonorNames.RenameItems | migrations/versions/20261020_108_rename_charm_honors.py:35-37 | renames the entries about a charm honor and no other; an unhashable key raises |
| HonorNames.RenameSnapshot | migrations/versions/20261020_108_rename_charm_honors.py:26-38 | names of charm honors change in the rules, the entries and the configuration's rules, and nothing else does; None if a key cannot be looked up |
| HonorNames.ReadableIff | migrations/versions/20261020_108_rename_charm_honors.py:26-37 | a snapshot can be renamed if and only if no entry of its rules, its entries and its configuration's rules is keyed by a list or an object |
| HonorNames.OnlyNamesChange | migrations/versions/20261020_108_rename_charm_honors.py:26-38 | every other field, entry and order of a snapshot is kept |
| HonorNames.LastRenameWins | migrations/versions/20261020_108_rename_charm_honors.py:26-38 | of two renamings the later wins, so a renaming is idempotent |
| HonorNames.RenamedIsNamed | migrations/versions/20261020_108_rename_charm_honors.py:26-38 | after a renaming every charm honor of a snapshot has its name |
| HonorNames.SnapshotUnchanged | migrations/versions/20261020_108_rename_charm_honors.py:32-37 | a renaming leaves a snapshot alone if and only if every charm honor in it has its name already |
| HonorNames.DownUndoesUpIff | migrations/versions/20261020_108_rename_charm_honors.py:84-93 | going up and down restores a snapshot if and only if it had the old names everywhere |
| TwinReleases.Migrations.ReplaceAllowanceConstraint | migrations/versions/20261020_107_estrus_dark_market_allowance.py:26-33 | changes what the constraint admits and no row; nothing without the table |
| TwinReleases.Migrations.DeleteDarkMarketRows | migrations/versions/20261020_107_estrus_dark_market_allowance.py:59-64 | deletes the dark-market rows; rows of every other kind survive as often as before |
| TwinReleases.Migrations.UpgradeHeat | migrations/versions/20261020_107_estrus_dark_market_allowance.py:46-52 | does nothing exactly when the other branch's revision is in the version table; otherwise every heat bonus is 20, none is lost, and the new kinds are admitted |
| TwinReleases.Migrations.DowngradeHeat | migrations/versions/20261020_123_estrus_dark_market_allowance.py:55-67 | the same for the way down, with 10, without the dark-market rows, the others kept, and the old kinds admitted |
| TwinReleases.WithoutKindIs | migrations/versions/20261020_107_estrus_dark_market_allowance.py:59-64 | as multisets, the rows without a kind are the rows with that kind's count set to zero |
| TwinReleases.WithoutKindAppend | migrations/versions/20261020_107_estrus_dark_market_allowance.py:59-64 | and they keep their order |
| TwinReleases.RenamedAwardsAre | migrations/versions/20261020_108_rename_charm_honors.py:53-63 | awards of the renamed titles get the names, all others stay |
| TwinReleases.Migrations.RenameRows | migrations/versions/20261020_108_rename_charm_honors.py:64-71 | only names change in every stored snapshot; it raises if and only if one has an entry keyed by a list or an object |
| TwinReleases.ReadableDatabaseIff | migrations/versions/20261020_108_rename_charm_honors.py:32-37 | the renaming runs if and only if no stored snapshot has an entry keyed by a list or an object |
| TwinReleases.Migrations.RenameGuarded | migrations/versions/20261020_124_rename_charm_honors.py:41-93 | renames awards, configurations and periods unless the other branch has; nothing is kept of a renaming that raises |
| TwinReleases.GuardsSeeOtherBranch | migrations/versions/20261020_107_estrus_dark_market_allowance.py:36-43 | the version table answers exactly whether the other branch holds the change |
| TwinReleases.HeadsAre | migrations/versions/20261020_107_estrus_dark_market_allowance.py:36-43 | the version table holds the branches' heads by their revision ids |
| TwinReleases.StepsAreMigrations | migrations/versions/20261020_124_rename_charm_honors.py:41-93 | a step of a run does to the data what the migration does, and moves its branch unless it raises |
| TwinReleases.BodyRunsIffFlips | migrations/versions/20261020_123_estrus_dark_market_allowance.py:36-67 | a body runs if and only if its step changes what the two branches hold together |
| TwinReleases.EditsSurvive | migrations/versions/20261020_124_rename_charm_honors.py:74-93 | a step that flips neither change leaves every row, so an edit made after the first branch applied survives the second |
| TwinReleases.ChangeInForce | migrations/versions/20261020_107_estrus_dark_market_allowance.py:15-67 | in every run with edits between, the constraint is the one of what the branches hold together, and every allowance row satisfies it |
| TwinReleases.HeatInForce | migrations/versions/20261020_107_estrus_dark_market_allowance.py:46-67 | from any step that changes whether the heat change is held until the next edit, every heat bonus has the value of what is held, through all steps of both branches |
| TwinReleases.NamesInForce | migrations/versions/20261020_108_rename_charm_honors.py:41-93 | likewise every award, configuration and period has the names of what is held, from any step that changes whether the renaming is |
| TwinReleases.BodiesAlternate | migrations/versions/20261020_108_rename_charm_honors.py:74-93 | up and down bodies alternate: one more up than down exactly while some branch holds the change |
| RowMerge.MergedMeaning | migrations/versions/20261012_103_estrus_global_state.py:50-73 | the merged row is the earliest of the group, the lowest id among equals, with the latest update, opted out if anybody was, and today's or the latest active date |
| RowMerge.TotalsKept | migrations/versions/20261012_103_estrus_global_state.py:56-58 | a user's heat, chopped count and total climaxes are conserved |
| RowMerge.Totals | migrations/versions/20261012_103_estrus_global_state.py:56-62 | the merged counts are the totals added up row by row, null being zero, today's over the rows active today |
| RowMerge.RowAdds | migrations/versions/20261012_103_estrus_global_state.py:56-62 | what one more row adds to each total |
| RowMerge.SumAppend | migrations/versions/20261012_103_estrus_global_state.py:56-60 | the total of two groups is the sum of their totals |
| RowMerge.SumOfOne | migrations/versions/20261012_103_estrus_global_state.py:56-60 | the total of one row is its own value, null being zero |
| RowMerge.TodayKept | migrations/versions/20261012_103_estrus_global_state.py:50-62 | today's climaxes of the rows active today are conserved |
| RowMerge.EstrusTable.RowsOf | migrations/versions/20261012_103_estrus_global_state.py:40-46 | exactly the user's rows |
| RowMerge.EstrusTable.MergeUser | migrations/versions/20261012_103_estrus_global_state.py:40-79 | the user is left with one merged row, everybody else's rows are kept, a single row is left alone |
| RowMerge.EstrusTable.Upgrade | migrations/versions/20261012_103_estrus_global_state.py:35-79 | one row per user, merged from that user's rows; on such a table a run changes nothing, on any day |
| DesktopShutdown.AimedRunsBackwards | src/dzmm_bot/auth_desktop.py:253 | a signalling loop reaches the groups from the last to the first |
| DesktopShutdown.StartupMembers | src/dzmm_bot/auth_desktop.py:145-164 | every listed group is new and was looked up; the lost one is new, was not, and is not listed |
| DesktopShutdown.StartupOk | src/dzmm_bot/auth_desktop.py:145-164 | a startup comes up exactly when every process starts and is looked up and the display is ready, and then lists all groups in order |
| DesktopShutdown.Desktop.Look | src/dzmm_bot/auth_desktop.py:88-90 | keeps every group alive at the end of the look and none dead at its start |
| DesktopShutdown.Desktop.WaitForGroups | src/dzmm_bot/auth_desktop.py:235-250 | returns groups between those alive when it returns and those alive at the start of its last look, and any group at all only after every attempt |
| DesktopShutdown.Desktop.SignalGroups | src/dzmm_bot/auth_desktop.py:252-257 | signals every group, last first, or stops at a living group that refuses |
| DesktopShutdown.Desktop.Terminate | src/dzmm_bot/auth_desktop.py:223-233 | returns normally only if every given group is dead; a group is killed only after it was found alive in every look of a full wait, and groups reported alive have had both signals |
| DesktopShutdown.Desktop.LaunchAll | src/dzmm_bot/auth_desktop.py:145-164 | lists the groups of the processes that came up and loses exactly one whose lookup failed; a lost group that does not end by itself is alive |
| DesktopShutdown.Desktop.BringUp | src/dzmm_bot/auth_desktop.py:145-172 | starts exactly when all come up, are ready and the file is written; a failure whose cleanup returns leaves no new group alive but the lost one |
| DesktopShutdown.Desktop.Start | src/dzmm_bot/auth_desktop.py:78-172 | never spawns beside a living recorded group; a healthy desktop whose groups all live is left as it is; after a failure whose cleanup returns no new group lives but one that could not be looked up |
| DesktopShutdown.LookupFailureLeaksProcess | src/dzmm_bot/auth_desktop.py:152-172 | a failed start whose cleanup returned, with the group that could not be looked up alive |
| DesktopShutdown.Desktop.Stop | src/dzmm_bot/auth_desktop.py:177-188 | the PID file goes only when every recorded group is dead |

## Left out

- Drawing of pixels, coordinate scaling and clamping, DOM, audio, timers for display, share and key-value saves.
- HTTP, byte decoding, watchdogs, back-off delays and identity checks around the streams; a connection is its list of text chunks.
- The chess client has no check for `event: unavailable`; its loop is the one modelled without that branch.
- JSON parsing of updates: an update is its text.
- CanvasDelivery.ExactlyOnce: slices hold every event of the log, while the server sends those of the current turn; the board's turn test makes both the same. Answers with a snapshot restart the statement at that snapshot.
- StrokeSender.AppliedIsPrefix: in the sequential client an attempt is handled at once or never; a request handled after its time-out is a step of the overlapping sends (`LateBatchOvertaken`, `OvertakesIff`).
- CanvasRoom.RightIff: the turn stays the same; a board painted from a canvas ahead of its stream is judged once the stream has reached it.
- StrokeSender.StrokeServer.Handle: whether the room admits a batch (turn, drawer, the 30000-point limit, well-formed operations) is one choice left open at each attempt; digests are compared as batches.
- CanvasConvergence.EchoConvergence: logs without a clear that draw no stroke again after its undo and end only strokes they drew (`OrderlyLog`); all other logs are met by `OverlapConvergence`.
- JsonText.TripleTextInjective: characters are compared as such; that the page escapes lone surrogates and the service does not is not modelled.
- MessageSource.ReadNew: the DOM queries that make a row are its fields.
- BotService.Service.RunOnce: a send that raises counts as not delivered here; `BotFleet` has both cases, and several services. A store that raises is left out.
- NameRepair.EmployeeTable.DuplicateNames: the order of the names depends on the collation and is left open; a row's position stands for its id.
- Employee numbers are taken to fit the 32-bit column; creating and dropping columns, tables and reply templates is left out.
- AdminControl.AdminRepository.ReserveIdempotencyKey: the second look after an integrity error is part of the one atomic step; the digest of a key is taken to be injective.
- AdminControl.VersionedConfigurationResponse: parsing the If-Match header is the option it yields.
- RateLimiter.Limiter.VerifyIntegrationKey: times are exact numbers, and calls do not overlap.
- TwinReleases.Migrations.RenameGuarded: the rollback of a migration that raises is the database's; the version table is taken to hold the heads of the branches, as Alembic keeps it.
- RowMerge.EstrusTable.Upgrade: the check for the table and the reading of today's date are parameters; the unique constraint made afterwards is what the proof shows can be made.
- DesktopShutdown.Desktop.Start: process ids stand for their groups, group ids are not used again, and the graceful close of the browser and directory creation are left out; a PID file that cannot be written counts as not ready.
- RoomView.Client.Accept: a room's state is its version and an opaque body.
- The game engines, the economy, chat, matchmaking, card and tile labels, and the console relay: easy or unrelated members.
