/**
 * The per-session analysis state of VideoProcessor
 * (tracker/video_processing.py:9-145) without detection, tracking and drawing:
 * the workplace snapshot, the history dictionary, the cooldown record and the
 * preview overlay, and the per-frame step that updates them.
 */
module Processor {
  import opened Wrappers
  import opened Config
  import opened Geometry
  import opened Trajectory
  import opened Stability

  /** The highlighted proposal: its box and the time at which the highlight ends. */
  datatype Preview = Preview(bbox: BBox, endTime: real)

  /**
   * The preview after the expiry check at lines 138-143: kept while the clock
   * is before its end time, dropped once the clock reaches it.
   */
  function ExpiredPreview(p: Option<Preview>, clock: real): (r: Option<Preview>)
    ensures r.Some? <==> p.Some? && clock < p.value.endTime
    ensures r.Some? ==> r == p
  {
    if p.Some? && clock >= p.value.endTime then None else p
  }

  /** The preview a step leaves behind before expiry: the new proposal's box, or the old preview. */
  function PreviewAfter(p: Option<Preview>, proposal: Option<Proposal>, now: real): (r: Option<Preview>)
    ensures proposal.Some? ==> r == Some(Preview(proposal.value.bbox, now + PreviewDurationSeconds))
    ensures proposal.None? ==> r == p
  {
    if proposal.Some? then Some(Preview(proposal.value.bbox, now + PreviewDurationSeconds)) else p
  }

  /** The cooldown record after a step: the proposing track's entry set to `now`. */
  function CooldownAfter(last: map<TrackId, real>, proposal: Option<Proposal>, now: real): (r: map<TrackId, real>)
    ensures proposal.Some? ==> r.Keys == last.Keys + {proposal.value.trackId}
    ensures proposal.Some? ==> LastCreationTime(r, proposal.value.trackId) == now
    ensures proposal.Some? ==> forall id :: id != proposal.value.trackId ==> LastCreationTime(r, id) == LastCreationTime(last, id)
    ensures proposal.None? ==> r == last
  {
    if proposal.Some? then last[proposal.value.trackId := now] else last
  }

  class VideoProcessor {
    /** Workplace id to name and box; replaced wholesale by UpdateWorkplaces. */
    var workplaces: map<string, Workplace>
    /** The per-track sample histories, in first-seen order. */
    var trackHistory: History
    /** Per track, the time of its latest proposal. */
    var lastWpCreationTimeForTrack: map<TrackId, real>
    /** The highlighted proposal, if any. */
    var previewWorkplaceProposal: Option<Preview>

    ghost predicate Valid()
      reads this
    {
      trackHistory.WellFormed()
    }

    /** Lines 33-36: the initial snapshot, or an empty one, and empty analysis state. */
    constructor (initialWorkplaces: Option<map<string, Workplace>>)
      ensures Valid()
      ensures workplaces == if initialWorkplaces.Some? then initialWorkplaces.value else map[]
      ensures trackHistory == EmptyHistory()
      ensures lastWpCreationTimeForTrack == map[] && previewWorkplaceProposal == None
    {
      workplaces := if initialWorkplaces.Some? then initialWorkplaces.value else map[];
      trackHistory := EmptyHistory();
      lastWpCreationTimeForTrack := map[];
      previewWorkplaceProposal := None;
    }

    /** update_workplaces: the snapshot is replaced; nothing else changes. */
    method UpdateWorkplaces(newWorkplaces: map<string, Workplace>)
      modifies this`workplaces
      ensures workplaces == newWorkplaces
    {
      workplaces := newWorkplaces;
    }

    /** One iteration of the history update loop (lines 66-81) for `track`. */
    method RecordTrack(now: real, track: Track)
      modifies this`trackHistory
      ensures trackHistory == Record(old(trackHistory), track, now)
    {
      if !track.confirmed {
        return;
      }
      var id := track.id;
      var c := Centre(track, now);
      var order := if id in trackHistory.samples then trackHistory.order else trackHistory.order + [id];
      var appended := SamplesOf(trackHistory, id) + [c];
      var kept := Window(appended, now, HistoryRetentionSeconds);
      trackHistory := History(trackHistory.samples[id := kept], order);
    }

    /** The history update loop (lines 65-81), for the frame's tracks at time `now`. */
    method RecordTracks(now: real, tracks: seq<Track>)
      requires Valid()
      modifies this`trackHistory
      ensures Valid()
      ensures trackHistory == RecordAll(old(trackHistory), tracks, now)
    {
      var i := 0;
      while i < |tracks|
        invariant 0 <= i <= |tracks|
        invariant trackHistory == RecordAll(old(trackHistory), tracks[..i], now)
      {
        RecordTrack(now, tracks[i]);
        assert tracks[..i + 1][..i] == tracks[..i];
        i := i + 1;
      }
      assert tracks[..i] == tracks;
    }

    /** The overlap guard loop (lines 102-107): does `candidate` overlap any workplace of the snapshot? */
    method OverlapsExisting(candidate: BBox) returns (isOverlapping: bool)
      ensures isOverlapping <==> OverlapsAny(candidate, workplaces)
    {
      isOverlapping := false;
      var remaining := workplaces.Values;
      while remaining != {}
        invariant remaining <= workplaces.Values
        invariant forall wp :: wp in workplaces.Values && wp !in remaining ==> !IsOverlapping(candidate, wp.bbox)
        decreases |remaining|
      {
        var wp :| wp in remaining;
        if IsOverlapping(candidate, wp.bbox) {
          isOverlapping := true;
          break;
        }
        remaining := remaining - {wp};
      }
    }

    /**
     * The stability loop (lines 84-130): the first track, in first-seen order,
     * that passes every gate yields the proposal; its cooldown entry and the
     * preview are set.
     */
    method ProposeWorkplace(now: real, name: string) returns (proposal: Option<Proposal>)
      requires Valid()
      modifies this`lastWpCreationTimeForTrack, this`previewWorkplaceProposal
      ensures proposal == FirstProposal(trackHistory.order, trackHistory.samples, workplaces,
                                        old(lastWpCreationTimeForTrack), now, name)
      ensures lastWpCreationTimeForTrack == CooldownAfter(old(lastWpCreationTimeForTrack), proposal, now)
      ensures previewWorkplaceProposal == PreviewAfter(old(previewWorkplaceProposal), proposal, now)
    {
      proposal := None;
      var ids := trackHistory.order;
      var hist := trackHistory.samples;
      var last := lastWpCreationTimeForTrack;
      var i := 0;
      while i < |ids|
        invariant 0 <= i <= |ids|
        invariant AllRecorded(ids[i..], hist)
        invariant FirstProposal(ids, hist, workplaces, last, now, name)
                  == FirstProposal(ids[i..], hist, workplaces, last, now, name)
        invariant proposal == None
        invariant lastWpCreationTimeForTrack == last
        invariant previewWorkplaceProposal == old(previewWorkplaceProposal)
      {
        var trackId := ids[i];
        var history := hist[trackId];
        assert ids[i..][0] == trackId && ids[i..][1..] == ids[i + 1..];
        i := i + 1;

        var relevant := Relevant(history, now);
        if |relevant| < MinTrackPointsForWpCheck {
          continue;
        }
        if |relevant| > 1 && HasLargeStep(relevant) {
          continue;
        }
        var avgX := TruncMean(Xs(relevant));
        var avgY := TruncMean(Ys(relevant));
        var potentialWpBbox := Square(avgX, avgY);
        var isOverlapping := OverlapsExisting(potentialWpBbox);
        if isOverlapping {
          continue;
        }
        var lastCreationTime := LastCreationTime(lastWpCreationTimeForTrack, trackId);
        if now - lastCreationTime < CooldownSeconds {
          continue;
        }
        proposal := Some(Proposal(name, potentialWpBbox, trackId, relevant[0].t));
        previewWorkplaceProposal := Some(Preview(potentialWpBbox, now + PreviewDurationSeconds));
        lastWpCreationTimeForTrack := lastWpCreationTimeForTrack[trackId := now];
        break;
      }
    }

    /** Lines 138-143: the preview is cleared once `clock` reaches its end time. */
    method ExpirePreview(clock: real)
      modifies this`previewWorkplaceProposal
      ensures previewWorkplaceProposal == ExpiredPreview(old(previewWorkplaceProposal), clock)
    {
      if previewWorkplaceProposal.Some? && clock < previewWorkplaceProposal.value.endTime {
        // the preview is still shown
      } else if previewWorkplaceProposal.Some? && clock >= previewWorkplaceProposal.value.endTime {
        previewWorkplaceProposal := None;
      }
    }

    /**
     * _analyze_tracks_and_draw without drawing: record the frame's tracks at
     * time `now`, propose at most one workplace (named `name`), then expire
     * the preview against `clock`.
     */
    method AnalyzeTracks(now: real, clock: real, name: string, tracks: seq<Track>) returns (proposal: Option<Proposal>)
      requires Valid()
      modifies this
      ensures Valid()
      ensures workplaces == old(workplaces)
      ensures trackHistory == RecordAll(old(trackHistory), tracks, now)
      ensures proposal == FirstProposal(trackHistory.order, trackHistory.samples, workplaces,
                                        old(lastWpCreationTimeForTrack), now, name)
      ensures lastWpCreationTimeForTrack == CooldownAfter(old(lastWpCreationTimeForTrack), proposal, now)
      ensures previewWorkplaceProposal
              == ExpiredPreview(PreviewAfter(old(previewWorkplaceProposal), proposal, now), clock)
    {
      RecordTracks(now, tracks);
      proposal := ProposeWorkplace(now, name);
      ExpirePreview(clock);
    }
  }

  /**
   * Two consecutive frames: a track that proposed at `now1` is not proposed
   * again at a `now2` less than `CooldownSeconds` later, whatever the tracks,
   * the snapshot or the names.
   */
  method NoRepeatWithinCooldown(vp: VideoProcessor, now1: real, clock1: real, name1: string, tracks1: seq<Track>,
                                now2: real, clock2: real, name2: string, tracks2: seq<Track>)
      returns (first: Option<Proposal>, second: Option<Proposal>)
    requires vp.Valid()
    requires now2 - now1 < CooldownSeconds
    modifies vp
    ensures first.Some? ==> second.None? || second.value.trackId != first.value.trackId
  {
    first := vp.AnalyzeTracks(now1, clock1, name1, tracks1);
    second := vp.AnalyzeTracks(now2, clock2, name2, tracks2);
    if first.Some? {
      CooldownBlocksRepeat(vp.trackHistory.order, vp.trackHistory.samples, vp.workplaces,
                           old(vp.lastWpCreationTimeForTrack)[first.value.trackId := now1], now2, name2, first.value.trackId);
    }
  }
}
