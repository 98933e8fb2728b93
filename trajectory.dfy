/**
 * The trajectory store: for each confirmed track, a time-windowed history of
 * centre samples (tracker/video_processing.py:65-81). The processor keeps the
 * histories in a dictionary whose iteration order is the order in which track
 * ids were first seen; `History` holds that order explicitly.
 */
module Trajectory {
  import opened Config

  /** Track identifiers as the external tracker assigns them. */
  type TrackId = string

  /** One recorded position: integer centre (cx, cy) at time t (seconds). */
  datatype Sample = Sample(cx: int, cy: int, t: real)

  /** A track reported by the tracker for the current frame: id, confirmation flag and its box (left, top, right, bottom). */
  datatype Track = Track(id: TrackId, confirmed: bool, left: int, top: int, right: int, bottom: int)

  /**
   * The history dictionary: `samples` maps a track id to its samples, oldest
   * first; `order` lists the ids in the order the dictionary was first given them.
   */
  datatype History = History(samples: map<TrackId, seq<Sample>>, order: seq<TrackId>)
  {
    /** `order` lists each key of `samples` exactly once. */
    ghost predicate WellFormed()
    {
      && (forall i :: 0 <= i < |order| ==> order[i] in samples)
      && (forall id :: id in samples ==> id in order)
      && (forall i, j :: 0 <= i < j < |order| ==> order[i] != order[j])
    }
  }

  /** The empty dictionary the processor starts with. */
  function EmptyHistory(): (h: History)
    ensures h.WellFormed() && h.samples == map[] && h.order == []
  {
    History(map[], [])
  }

  /** The samples of `id`, or none for an id never seen (the dictionary defaults to an empty list). */
  function SamplesOf(h: History, id: TrackId): seq<Sample>
  {
    if id in h.samples then h.samples[id] else []
  }

  /** Samples in non-decreasing time order. */
  ghost predicate TimeOrdered(s: seq<Sample>)
  {
    forall i, j :: 0 <= i < j < |s| ==> s[i].t <= s[j].t
  }

  /**
   * The sample recorded for a track at time `now`: the centre of its box,
   * each coordinate rounded down (floor division by 2).
   */
  function Centre(tr: Track, now: real): (s: Sample)
    ensures 2 * s.cx <= tr.left + tr.right < 2 * s.cx + 2
    ensures 2 * s.cy <= tr.top + tr.bottom < 2 * s.cy + 2
    ensures s.t == now
  {
    Sample((tr.left + tr.right) / 2, (tr.top + tr.bottom) / 2, now)
  }

  /**
   * The samples of `h` taken at most `span` seconds before `now`, in their
   * original order (the list comprehensions at lines 81 and 85).
   */
  function Window(h: seq<Sample>, now: real, span: real): (r: seq<Sample>)
    ensures |r| <= |h|
    ensures forall s :: s in r ==> s in h && now - s.t <= span
    ensures forall s :: s in h && now - s.t <= span ==> s in r
  {
    if h == [] then []
    else (if now - h[0].t <= span then [h[0]] else []) + Window(h[1..], now, span)
  }

  /** A sample inside the window survives pruning and stays last. */
  lemma {:induction false} WindowKeepsAppended(h: seq<Sample>, s: Sample, now: real, span: real)
    requires now - s.t <= span
    ensures Window(h + [s], now, span) == Window(h, now, span) + [s]
  {
    if h == [] {
      assert Window([s], now, span) == [s] + Window([], now, span);
    } else {
      assert (h + [s])[0] == h[0];
      assert (h + [s])[1..] == h[1..] + [s];
      WindowKeepsAppended(h[1..], s, now, span);
    }
  }

  /** Pruning keeps samples in time order. */
  lemma {:induction false} WindowKeepsTimeOrder(h: seq<Sample>, now: real, span: real)
    requires TimeOrdered(h)
    ensures TimeOrdered(Window(h, now, span))
  {
    if h != [] {
      assert TimeOrdered(h[1..]);
      WindowKeepsTimeOrder(h[1..], now, span);
      var rest := Window(h[1..], now, span);
      forall s | s in rest ensures h[0].t <= s.t {
        var k :| 0 <= k < |h[1..]| && h[1..][k] == s;
        assert h[k + 1] == s;
      }
    }
  }

  /**
   * One iteration of the update loop (lines 65-81): an unconfirmed track is
   * skipped; a confirmed one has its centre appended to its history (created
   * empty on first sight, at the end of the iteration order) and the history
   * pruned to the retention window.
   */
  function Record(h: History, tr: Track, now: real): (r: History)
    ensures h.WellFormed() ==> r.WellFormed()
    ensures h.order <= r.order
    ensures tr.confirmed ==> tr.id in r.samples
    ensures forall id :: id != tr.id || !tr.confirmed ==>
              (id in r.samples <==> id in h.samples) && SamplesOf(r, id) == SamplesOf(h, id)
  {
    if !tr.confirmed then h
    else
      var appended := SamplesOf(h, tr.id) + [Centre(tr, now)];
      History(h.samples[tr.id := Window(appended, now, HistoryRetentionSeconds)],
              if tr.id in h.samples then h.order else h.order + [tr.id])
  }

  /** The whole update loop: `Record` applied to the frame's tracks in order. */
  function RecordAll(h: History, tracks: seq<Track>, now: real): (r: History)
    ensures h.WellFormed() ==> r.WellFormed()
    ensures h.order <= r.order
    decreases |tracks|
  {
    if tracks == [] then h
    else Record(RecordAll(h, tracks[..|tracks| - 1], now), tracks[|tracks| - 1], now)
  }

  /**
   * A confirmed track's new history is its old history pruned to the
   * retention window, followed by the sample just taken.
   */
  lemma RecordAppendsCentre(h: History, tr: Track, now: real)
    requires tr.confirmed
    ensures Record(h, tr, now).samples[tr.id]
            == Window(SamplesOf(h, tr.id), now, HistoryRetentionSeconds) + [Centre(tr, now)]
  {
    WindowKeepsAppended(SamplesOf(h, tr.id), Centre(tr, now), now, HistoryRetentionSeconds);
  }

  /** A history in time order whose samples are not from the future stays in time order. */
  lemma RecordKeepsTimeOrder(h: History, tr: Track, now: real)
    requires tr.confirmed
    requires TimeOrdered(SamplesOf(h, tr.id))
    requires forall s :: s in SamplesOf(h, tr.id) ==> s.t <= now
    ensures TimeOrdered(Record(h, tr, now).samples[tr.id])
  {
    var previous := SamplesOf(h, tr.id);
    RecordAppendsCentre(h, tr, now);
    WindowKeepsTimeOrder(previous, now, HistoryRetentionSeconds);
    var kept := Window(previous, now, HistoryRetentionSeconds);
    var r := kept + [Centre(tr, now)];
    forall i, j | 0 <= i < j < |r| ensures r[i].t <= r[j].t {
      if j == |r| - 1 {
        assert r[i] in kept;
      } else {
        assert r[i] == kept[i] && r[j] == kept[j];
      }
    }
  }

  /**
   * The whole update loop keeps every track's history in time order, and
   * no sample from the future, when it starts that way.
   */
  lemma {:induction false} RecordAllKeepsTimeOrder(h: History, tracks: seq<Track>, now: real, id: TrackId)
    requires TimeOrdered(SamplesOf(h, id))
    requires forall s :: s in SamplesOf(h, id) ==> s.t <= now
    ensures TimeOrdered(SamplesOf(RecordAll(h, tracks, now), id))
    ensures forall s :: s in SamplesOf(RecordAll(h, tracks, now), id) ==> s.t <= now
  {
    if tracks != [] {
      var n := |tracks|;
      var before := RecordAll(h, tracks[..n - 1], now);
      var last := tracks[n - 1];
      RecordAllKeepsTimeOrder(h, tracks[..n - 1], now, id);
      if last.confirmed && last.id == id {
        RecordKeepsTimeOrder(before, last, now);
        RecordAppendsCentre(before, last, now);
      }
    }
  }

  /**
   * A history as the update leaves it for a track seen now: non-empty, every
   * sample within the retention window, the last one taken now.
   */
  ghost predicate FreshHistory(s: seq<Sample>, now: real)
  {
    && |s| > 0
    && s[|s| - 1].t == now
    && forall x :: x in s ==> now - x.t <= HistoryRetentionSeconds
  }

  lemma RecordMakesFreshHistory(h: History, tr: Track, now: real)
    requires tr.confirmed
    ensures FreshHistory(Record(h, tr, now).samples[tr.id], now)
  {
    RecordAppendsCentre(h, tr, now);
  }

  /**
   * After the update, a track confirmed in this frame has a history, every
   * sample of it lies within the retention window, and its last sample was
   * taken now.
   */
  lemma {:induction false} RecordAllKeepsRecentSamples(h: History, tracks: seq<Track>, now: real, k: int)
    requires 0 <= k < |tracks| && tracks[k].confirmed
    ensures tracks[k].id in RecordAll(h, tracks, now).samples
    ensures FreshHistory(RecordAll(h, tracks, now).samples[tracks[k].id], now)
  {
    var n := |tracks|;
    var before := RecordAll(h, tracks[..n - 1], now);
    var last := tracks[n - 1];
    var id := tracks[k].id;
    assert RecordAll(h, tracks, now) == Record(before, last, now);
    if last.confirmed && last.id == id {
      RecordMakesFreshHistory(before, last, now);
    } else {
      assert tracks[..n - 1][k] == tracks[k];
      RecordAllKeepsRecentSamples(h, tracks[..n - 1], now, k);
      assert SamplesOf(Record(before, last, now), id) == SamplesOf(before, id);
    }
  }

  /**
   * The last sample of a track's history is the centre of its last confirmed
   * appearance in the frame's track list.
   */
  lemma {:induction false} RecordAllEndsWithLatestCentre(h: History, tracks: seq<Track>, now: real, k: int)
    requires 0 <= k < |tracks| && tracks[k].confirmed
    requires forall j :: k < j < |tracks| && tracks[j].confirmed ==> tracks[j].id != tracks[k].id
    ensures var r := RecordAll(h, tracks, now);
            var id := tracks[k].id;
            id in r.samples && |r.samples[id]| > 0 && r.samples[id][|r.samples[id]| - 1] == Centre(tracks[k], now)
  {
    var n := |tracks|;
    var before := RecordAll(h, tracks[..n - 1], now);
    var last := tracks[n - 1];
    if k == n - 1 {
      RecordAppendsCentre(before, last, now);
    } else {
      assert tracks[..n - 1][k] == tracks[k];
      RecordAllEndsWithLatestCentre(h, tracks[..n - 1], now, k);
    }
  }

  /**
   * A track not confirmed in this frame keeps its history exactly: histories
   * of tracks that have left the picture are never pruned or removed.
   */
  lemma {:induction false} RecordAllLeavesOtherTracks(h: History, tracks: seq<Track>, now: real, id: TrackId)
    requires forall k :: 0 <= k < |tracks| && tracks[k].confirmed ==> tracks[k].id != id
    ensures var r := RecordAll(h, tracks, now);
            (id in r.samples <==> id in h.samples) && SamplesOf(r, id) == SamplesOf(h, id)
  {
    if tracks != [] {
      var n := |tracks|;
      var prefix := tracks[..n - 1];
      forall k | 0 <= k < |prefix| && prefix[k].confirmed ensures prefix[k].id != id {
        assert prefix[k] == tracks[k];
      }
      RecordAllLeavesOtherTracks(h, prefix, now, id);
    }
  }
}
