# Workplace proposal engine of the workplace tracker

The tracker watches a video of a workspace. An external detector and
multi-object tracker turn each frame into confirmed person tracks. The
`VideoProcessor` in `tracker/video_processing.py` keeps, for each track, a
short history of centre positions. From these histories it proposes new
"workplace" squares where a person has stood still. A proposal is made only
if the square clears every existing workplace and the track has not proposed
recently. The processor also keeps a short-lived preview of the latest
proposal.

This project models that engine in Dafny and proves what it guarantees:

- `geometry.dfy` (module `Geometry`): boxes `(x, y, w, h)` and the overlap
  test `_is_overlapping`.
- `config.dfy` (module `Config`): the tuning constants the constructor
  assigns (stay threshold 10 s, 20 samples, 30 px, 100 px squares, 5 s
  preview), plus the 20 s retention window and the 50 s cooldown.
- `trajectory.dfy` (module `Trajectory`): the history dictionary as a value.
  It is a map from track id to samples plus the ids in first-seen order,
  which is the order Python's dictionary iterates in. `Record` and
  `RecordAll` give the update loop of lines 65-81.
- `stability.dfy` (module `Stability`): the gates of lines 84-123 for one
  track (`Evaluate`). It also gives the loop that returns the first track
  passing them (`FirstProposal`), and the lemmas about what a proposal
  guarantees.
- `video_processor.dfy` (module `Processor`): the class `VideoProcessor`. Its
  fields are the workplace snapshot, the history dictionary, the cooldown
  record and the preview. Its methods are the loops of
  `_analyze_tracks_and_draw`, each proved to compute the corresponding
  function above, and `update_workplaces`.

Modelling choices:

- Time is a `real`. Each frame's clock reading (`now`) is a parameter, and so
  is the clock used for preview expiry (`clock`).
- The proposal name, made from a random UUID in the source, is a parameter.
- Pixel coordinates are unbounded integers.
- `(x1 + x2) // 2` is floor division. Dafny's `/` does the same for a
  positive divisor.
- `int(np.mean(...))` is the sum divided by the count, truncated toward zero
  (`TruncDiv`). This matches the source for negative coordinates too.
- `np.sqrt(dx² + dy²) >= 30` is `dx² + dy² >= 900`. The two are equivalent
  because both sides are non-negative.
- The overlap test on boxes with positive width and height means "some pixel
  lies in both boxes". For a degenerate box (zero or negative size) it can
  still report an overlap. The model keeps the source's formula.

What the code does and does not do:

- No rule requires the relevant samples to span the whole stay threshold.
  `BurstAtOneInstantIsProposed` shows that twenty samples taken at one
  instant are enough for a proposal.
- The code has no occupancy start/stop state machine and writes no
  occupancy intervals. The `times` field of the workplace record is never
  written.
- Histories of tracks that leave the picture are never pruned or removed
  (`RecordAllLeavesOtherTracks`).
- Tracks are examined in dictionary insertion order (first sighting), not
  sorted by id.
- The stay threshold is a constant, not a setting that can change during a
  session.

## Model

| member | source | states |
|---|---|---|
| Geometry.OverlapIsSymmetric | tracker/video_processing.py:48-54 | the overlap test gives the same answer with its arguments swapped |
| Geometry.TouchingBoxesDoNotOverlap | tracker/video_processing.py:52 | boxes that only share an edge (`x1 + w1 == x2` or the like on either axis) are not overlapping, because the test uses `>=` |
| Geometry.BoxOverlapsItself | tracker/video_processing.py:52-54 | a box with positive width and height overlaps itself |
| Geometry.ContainedBoxOverlaps | tracker/video_processing.py:51-54 | a box overlaps every box with area inside it, in both argument orders |
| Geometry.SharedPixelOverlaps | tracker/video_processing.py:51-54 | two boxes that share a pixel overlap, and each of them then has positive width and height |
| Geometry.OverlapIffSharedPixel | tracker/video_processing.py:42-54 | for boxes with area, the test holds exactly when some pixel of the half-open boxes lies in both |
| Trajectory.EmptyHistory | tracker/video_processing.py:34 | the processor starts with an empty, well-formed history dictionary |
| Trajectory.Centre | tracker/video_processing.py:78 | the recorded centre is the floor of the midpoint of the box on each axis, stamped with the frame time |
| Trajectory.Window | tracker/video_processing.py:81 | pruning keeps exactly the samples within the window, and nothing new |
| Trajectory.WindowKeepsAppended | tracker/video_processing.py:79-81 | a sample inside the window that is appended survives pruning and stays last |
| Trajectory.WindowKeepsTimeOrder | tracker/video_processing.py:81 | pruning keeps samples in time order |
| Trajectory.Record | tracker/video_processing.py:65-81 | one loop iteration keeps the dictionary well formed and keeps the existing iteration order as a prefix; a confirmed track gets a history; every other track's history is unchanged |
| Trajectory.RecordAll | tracker/video_processing.py:65-81 | the whole update keeps the dictionary well formed and keeps existing ids in their order |
| Trajectory.RecordAppendsCentre | tracker/video_processing.py:78-81 | a confirmed track's new history is its old history pruned to 2 x the stay threshold, followed by its current centre |
| Trajectory.RecordKeepsTimeOrder | tracker/video_processing.py:79-81 | a history in time order with no future samples stays in time order after the update |
| Trajectory.RecordAllKeepsTimeOrder | tracker/video_processing.py:65-81 | the whole frame update keeps every track's history in time order with no sample later than now, when it starts that way |
| Trajectory.RecordMakesFreshHistory | tracker/video_processing.py:79-81 | after one iteration, a confirmed track's history is non-empty, lies within 2 x the stay threshold of now, and ends with a sample from now |
| Trajectory.RecordAllKeepsRecentSamples | tracker/video_processing.py:79-81 | after the update, each track confirmed in the frame has a non-empty history; every sample in it is within 2 x the stay threshold of now; the last sample is from now |
| Trajectory.RecordAllEndsWithLatestCentre | tracker/video_processing.py:78-81 | the last sample of a track's history is the centre of its last confirmed appearance in the frame |
| Trajectory.RecordAllLeavesOtherTracks | tracker/video_processing.py:65-81 | tracks not confirmed in the frame keep their history and their presence in the dictionary unchanged; nothing is pruned or removed for absent tracks |
| Stability.TruncDiv | tracker/video_processing.py:96-97 | the average rounds toward zero: below the exact quotient for a non-negative sum, above it for a negative one |
| Stability.TruncMeanWithinBounds | tracker/video_processing.py:96-97 | the truncated mean of the coordinates lies within any range that holds all of them |
| Stability.Square | tracker/video_processing.py:99 | the candidate is a `WORKPLACE_SIZE_PX` square whose corner is offset by `WORKPLACE_SIZE_PX // 2` from the centre, and it contains the centre |
| Stability.ProposalPassedEveryGate | tracker/video_processing.py:84-123 | a proposal comes from a recorded track with at least `MIN_TRACK_POINTS_FOR_WP_CHECK` relevant samples and no step of `MAX_DISTANCE_FOR_STAY_PX` or more; its box is the square on the truncated mean and overlaps no workplace; the track's cooldown has run out; its start time is the first relevant sample's |
| Stability.EvaluateIffPassesGates | tracker/video_processing.py:85-123 | a track yields a proposal exactly when it has enough relevant samples, no long step, a square clear of every workplace and an expired cooldown; the proposal is then the square on the truncated mean, started at the first relevant sample |
| Stability.FirstQualifierWins | tracker/video_processing.py:84-130 | when track k passes every gate and all tracks before it fail, the proposal is track k's |
| Stability.NoProposalIffNoTrackQualifies | tracker/video_processing.py:84-130 | no proposal is made if and only if every track fails some gate |
| Stability.NoProposalIffNoTrackPassesGates | tracker/video_processing.py:84-130 | no proposal is made if and only if no track in dictionary order passes the sample-count, step, overlap and cooldown gates |
| Stability.FewSamplesNeverProposed | tracker/video_processing.py:85-88 | a track with fewer than `MIN_TRACK_POINTS_FOR_WP_CHECK` samples in the last stay threshold is never proposed |
| Stability.LargeStepNeverProposed | tracker/video_processing.py:90-93 | a track with two consecutive relevant samples at distance `MAX_DISTANCE_FOR_STAY_PX` or more is never proposed |
| Stability.CooldownBlocksRepeat | tracker/video_processing.py:113-115 | a track whose last proposal (0 if none) is less than 5 x the stay threshold ago is not proposed |
| Stability.ProposalCentredAmongSamples | tracker/video_processing.py:95-99 | the proposed square's centre lies within the x and y range of the relevant samples |
| Stability.BurstAtOneInstantIsProposed | tracker/video_processing.py:84-123 | twenty samples at one point, all taken at this instant, yield a proposal centred on that point with start time now: no minimum time span is required |
| Processor.ExpiredPreview | tracker/video_processing.py:138-143 | the preview is kept unchanged while the clock is before its end time and cleared once the clock reaches it |
| Processor.PreviewAfter | tracker/video_processing.py:125-128 | a proposal sets the preview to its box ending `PREVIEW_DURATION_SECONDS` after now; otherwise the preview is untouched |
| Processor.CooldownAfter | tracker/video_processing.py:113-129 | a proposal records now as its track's last creation time and leaves other tracks' times alone; without a proposal the record is unchanged |
| Processor.VideoProcessor.constructor | tracker/video_processing.py:33-36 | the snapshot is the initial workplaces or empty; history, cooldown record and preview start empty |
| Processor.VideoProcessor.UpdateWorkplaces | tracker/video_processing.py:38-40 | the snapshot is replaced wholesale and nothing else changes |
| Processor.VideoProcessor.RecordTrack | tracker/video_processing.py:66-81 | one iteration leaves exactly `Record` of the old history and the track: an unconfirmed track changes nothing; a confirmed one gets its centre appended and its history pruned |
| Processor.VideoProcessor.RecordTracks | tracker/video_processing.py:65-81 | the update loop leaves exactly `RecordAll` of the old history and the frame's tracks |
| Processor.VideoProcessor.OverlapsExisting | tracker/video_processing.py:101-107 | the flag loop returns true exactly when the candidate overlaps some workplace of the snapshot |
| Processor.VideoProcessor.ProposeWorkplace | tracker/video_processing.py:84-130 | the stability loop returns the first qualifying track's proposal, sets that track's cooldown time and the preview; when nothing qualifies it changes nothing |
| Processor.VideoProcessor.ExpirePreview | tracker/video_processing.py:138-143 | the preview field becomes `ExpiredPreview` of its old value |
| Processor.VideoProcessor.AnalyzeTracks | tracker/video_processing.py:56-145 | one frame records the tracks and makes at most one proposal, the first qualifying one; it updates the cooldown record and the preview from it and leaves the workplace snapshot unchanged |
| Processor.NoRepeatWithinCooldown | tracker/video_processing.py:113-129 | across two frames less than 5 x the stay threshold apart, a track that proposed in the first frame is not proposed in the second |

## Left out

- Drawing with `cv2`, frame capture and JPEG encoding, and the endless frame
  generator `process_frames` (lines 74-75, 132-136, 139-141, 147-179): video
  I/O and rendering.
- The YOLO detector, its confidence threshold and the DeepSort tracker
  (lines 6-7, 12-13, 24-30, 161-168): foreign ML libraries. Confirmed tracks
  arrive as a sequence of integer boxes with a confirmation flag. The
  `map(int, ...)` truncation of the tracker's float boxes is not modelled.
- Random UUID proposal names (line 119): the name is a parameter.
- `time.time()` (lines 61, 138, 142): the frame time and the expiry clock
  are parameters.
- Processor.VideoProcessor.ExpirePreview: takes the two clock reads of
  lines 138 and 142 as one instant. In the source, a clock read that moves
  backwards between them would leave an expired preview in place.
- Floating point: `np.mean` and `np.sqrt` rounding and float timestamps
  are replaced by exact integer and real arithmetic.
- Workplace entries without a `bbox` key (a `KeyError` in the source): the
  snapshot is typed, so every entry has a box.
- tracker/consumers.py: the websocket consumer, executor threads, task
  cancellation and database calls. This is concurrency and I/O.
- tracker/views.py, tracker/models.py, tracker/admin.py, tracker/urls.py,
  workplace_project/urls.py, workplace_project/asgi.py: HTTP handlers,
  schema, admin and routing with no analysis logic.
- An occupancy start/stop state machine: the code does not implement one.
