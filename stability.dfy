/**
 * Stability detection, the overlap guard and the cooldown throttle
 * (tracker/video_processing.py:84-130), stated as functions of the history
 * dictionary, the workplace snapshot and the cooldown record. The processor's
 * loop is proved to compute `FirstProposal`.
 */
module Stability {
  import opened Wrappers
  import opened Config
  import opened Geometry
  import opened Trajectory

  /** A workplace of the snapshot the caller supplies (name and box). */
  datatype Workplace = Workplace(name: string, bbox: BBox)

  /** A proposed workplace: its name, box, the track that triggered it and when that track's relevant samples begin. */
  datatype Proposal = Proposal(name: string, bbox: BBox, trackId: TrackId, startTime: real)

  // ---------------------------------------------------------------------------
  // Arithmetic the detector relies on
  // ---------------------------------------------------------------------------

  function Sum(xs: seq<int>): int
  {
    if xs == [] then 0 else xs[0] + Sum(xs[1..])
  }

  /** Division rounding toward zero, as `int(...)` does to the floating-point mean. */
  function TruncDiv(n: int, d: int): (q: int)
    requires d > 0
    ensures n >= 0 ==> 0 <= q && d * q <= n < d * q + d
    ensures n < 0 ==> q <= 0 && d * q - d < n <= d * q
  {
    if n >= 0 then
      DivBounds(n, d);
      n / d
    else
      DivBounds(-n, d);
      -((-n) / d)
  }

  /** Euclidean division of a non-negative number: the quotient brackets it. */
  lemma DivBounds(n: int, d: int)
    requires n >= 0 && d > 0
    ensures 0 <= n / d && d * (n / d) <= n < d * (n / d) + d
    ensures d * -(n / d) == -(d * (n / d))
  {
    assert n == d * (n / d) + n % d && 0 <= n % d < d;
  }

  /** `int(np.mean(xs))`: the mean of the coordinates, truncated toward zero. */
  function TruncMean(xs: seq<int>): int
    requires |xs| > 0
  {
    TruncDiv(Sum(xs), |xs|)
  }

  lemma {:induction false} SumBounds(xs: seq<int>, lo: int, hi: int)
    requires forall i :: 0 <= i < |xs| ==> lo <= xs[i] <= hi
    ensures |xs| * lo <= Sum(xs) <= |xs| * hi
  {
    if xs != [] {
      assert forall i :: 0 <= i < |xs[1..]| ==> xs[1..][i] == xs[i + 1];
      SumBounds(xs[1..], lo, hi);
    }
  }

  lemma MulGrows(d: int, a: int, b: int)
    requires d > 0 && a > b
    ensures d * a >= d * b + d
  {
    var k := a - b - 1;
    assert d * a == d * b + d + d * k;
    assert d * k >= 0;
  }

  lemma ScaleCancels(d: int, a: int, b: int)
    requires d > 0 && d * a < d * b + d
    ensures a <= b
  {
    if a > b {
      MulGrows(d, a, b);
      assert false;
    }
  }

  /** The truncated mean lies within any range that holds every coordinate. */
  lemma TruncMeanWithinBounds(xs: seq<int>, lo: int, hi: int)
    requires |xs| > 0
    requires forall i :: 0 <= i < |xs| ==> lo <= xs[i] <= hi
    ensures lo <= TruncMean(xs) <= hi
  {
    SumBounds(xs, lo, hi);
    var n, s, q := |xs|, Sum(xs), TruncMean(xs);
    ScaleCancels(n, lo, q);
    ScaleCancels(n, q, hi);
  }

  // ---------------------------------------------------------------------------
  // The gates of one track
  // ---------------------------------------------------------------------------

  /** The samples of the last `StayThresholdSeconds` (line 85). */
  function Relevant(h: seq<Sample>, now: real): seq<Sample>
  {
    Window(h, now, StayThresholdSeconds)
  }

  function Xs(s: seq<Sample>): (xs: seq<int>)
    ensures |xs| == |s| && forall i :: 0 <= i < |s| ==> xs[i] == s[i].cx
  {
    seq(|s|, i requires 0 <= i < |s| => s[i].cx)
  }

  function Ys(s: seq<Sample>): (ys: seq<int>)
    ensures |ys| == |s| && forall i :: 0 <= i < |s| ==> ys[i] == s[i].cy
  {
    seq(|s|, i requires 0 <= i < |s| => s[i].cy)
  }

  /**
   * The step from `a` to `b` is at least `MaxDistanceForStayPx` long. The
   * Euclidean length is compared through its square, which is equivalent
   * because both sides are non-negative.
   */
  predicate TooFar(a: Sample, b: Sample)
  {
    (b.cx - a.cx) * (b.cx - a.cx) + (b.cy - a.cy) * (b.cy - a.cy)
      >= MaxDistanceForStayPx * MaxDistanceForStayPx
  }

  /** Some consecutive step is too long: `max(distances) >= MAX_DISTANCE_FOR_STAY_PX` (lines 91-92). */
  predicate HasLargeStep(rel: seq<Sample>)
  {
    exists i :: 1 <= i < |rel| && TooFar(rel[i - 1], rel[i])
  }

  /** The workplace square of side `WorkplaceSizePx` around centre (cx, cy) (line 99). */
  function Square(cx: int, cy: int): (b: BBox)
    ensures HasArea(b) && b.w == WorkplaceSizePx && b.h == WorkplaceSizePx
    ensures ContainsPoint(b, cx, cy)
    ensures b.x + WorkplaceSizePx / 2 == cx && b.y + WorkplaceSizePx / 2 == cy
  {
    BBox(cx - WorkplaceSizePx / 2, cy - WorkplaceSizePx / 2, WorkplaceSizePx, WorkplaceSizePx)
  }

  /** When `id` last proposed a workplace; 0 for a track that never did (line 113). */
  function LastCreationTime(last: map<TrackId, real>, id: TrackId): real
  {
    if id in last then last[id] else 0.0
  }

  /** The candidate box overlaps the box of some workplace of the snapshot (lines 102-107). */
  ghost predicate OverlapsAny(candidate: BBox, workplaces: map<string, Workplace>)
  {
    exists wp :: wp in workplaces.Values && IsOverlapping(candidate, wp.bbox)
  }

  /**
   * One iteration of the analysis loop (lines 85-123): the proposal track `id`
   * with history `h` makes, or None if one of the gates turns it down.
   */
  ghost function Evaluate(id: TrackId, h: seq<Sample>, workplaces: map<string, Workplace>,
                          last: map<TrackId, real>, now: real, name: string): Option<Proposal>
  {
    var rel := Relevant(h, now);
    if |rel| < MinTrackPointsForWpCheck then None
    else if |rel| > 1 && HasLargeStep(rel) then None
    else
      var bbox := Square(TruncMean(Xs(rel)), TruncMean(Ys(rel)));
      if OverlapsAny(bbox, workplaces) then None
      else if now - LastCreationTime(last, id) < CooldownSeconds then None
      else Some(Proposal(name, bbox, id, rel[0].t))
  }

  /**
   * The gates of lines 85-115 in their own terms: at least
   * `MinTrackPointsForWpCheck` relevant samples, no relevant step that is too
   * long, a square on the truncated mean clear of every workplace, and a
   * cooldown that has run out.
   */
  ghost predicate PassesGates(id: TrackId, h: seq<Sample>, workplaces: map<string, Workplace>,
                              last: map<TrackId, real>, now: real)
  {
    var rel := Relevant(h, now);
    && |rel| >= MinTrackPointsForWpCheck
    && (forall i :: 1 <= i < |rel| ==> !TooFar(rel[i - 1], rel[i]))
    && (forall wp :: wp in workplaces.Values ==> !IsOverlapping(Square(TruncMean(Xs(rel)), TruncMean(Ys(rel))), wp.bbox))
    && now - LastCreationTime(last, id) >= CooldownSeconds
  }

  /**
   * A track yields a proposal exactly when it passes every gate, and then the
   * proposal is the square on the truncated mean, started at the first
   * relevant sample.
   */
  lemma EvaluateIffPassesGates(id: TrackId, h: seq<Sample>, workplaces: map<string, Workplace>,
                               last: map<TrackId, real>, now: real, name: string)
    ensures Evaluate(id, h, workplaces, last, now, name).Some? <==> PassesGates(id, h, workplaces, last, now)
    ensures PassesGates(id, h, workplaces, last, now) ==>
              var rel := Relevant(h, now);
              Evaluate(id, h, workplaces, last, now, name)
                == Some(Proposal(name, Square(TruncMean(Xs(rel)), TruncMean(Ys(rel))), id, rel[0].t))
  {
  }

  /** Every id in `ids` has a history. */
  ghost predicate AllRecorded(ids: seq<TrackId>, hist: map<TrackId, seq<Sample>>)
  {
    forall i :: 0 <= i < |ids| ==> ids[i] in hist
  }

  /** The analysis loop: the proposal of the first track in `ids` that passes every gate. */
  ghost function FirstProposal(ids: seq<TrackId>, hist: map<TrackId, seq<Sample>>,
                               workplaces: map<string, Workplace>, last: map<TrackId, real>,
                               now: real, name: string): Option<Proposal>
    requires AllRecorded(ids, hist)
  {
    if ids == [] then None
    else match Evaluate(ids[0], hist[ids[0]], workplaces, last, now, name)
      case Some(p) => Some(p)
      case None => FirstProposal(ids[1..], hist, workplaces, last, now, name)
  }

  // ---------------------------------------------------------------------------
  // What a proposal guarantees
  // ---------------------------------------------------------------------------

  /**
   * A proposal comes from a track in `ids` that passed every gate: enough
   * relevant samples, no long step, a square centred on the truncated mean
   * that overlaps no workplace, a cooldown that has run out; its start time
   * is that of the first relevant sample.
   */
  lemma {:induction false} ProposalPassedEveryGate(ids: seq<TrackId>, hist: map<TrackId, seq<Sample>>,
                                                  workplaces: map<string, Workplace>, last: map<TrackId, real>,
                                                  now: real, name: string)
    requires AllRecorded(ids, hist)
    requires FirstProposal(ids, hist, workplaces, last, now, name).Some?
    ensures var p := FirstProposal(ids, hist, workplaces, last, now, name).value;
            && p.trackId in ids && p.trackId in hist && p.name == name
            && var rel := Relevant(hist[p.trackId], now);
            && |rel| >= MinTrackPointsForWpCheck
            && (forall i :: 1 <= i < |rel| ==> !TooFar(rel[i - 1], rel[i]))
            && p.bbox == Square(TruncMean(Xs(rel)), TruncMean(Ys(rel)))
            && (forall wp :: wp in workplaces.Values ==> !IsOverlapping(p.bbox, wp.bbox))
            && now - LastCreationTime(last, p.trackId) >= CooldownSeconds
            && p.startTime == rel[0].t
  {
    if Evaluate(ids[0], hist[ids[0]], workplaces, last, now, name).None? {
      assert AllRecorded(ids[1..], hist);
      ProposalPassedEveryGate(ids[1..], hist, workplaces, last, now, name);
    }
  }

  /** The first track that passes every gate is the one proposed: earlier tracks all failed. */
  lemma {:induction false} FirstQualifierWins(ids: seq<TrackId>, hist: map<TrackId, seq<Sample>>,
                                             workplaces: map<string, Workplace>, last: map<TrackId, real>,
                                             now: real, name: string, k: int)
    requires AllRecorded(ids, hist)
    requires 0 <= k < |ids|
    requires Evaluate(ids[k], hist[ids[k]], workplaces, last, now, name).Some?
    requires forall j :: 0 <= j < k ==> Evaluate(ids[j], hist[ids[j]], workplaces, last, now, name).None?
    ensures FirstProposal(ids, hist, workplaces, last, now, name)
            == Evaluate(ids[k], hist[ids[k]], workplaces, last, now, name)
  {
    if k > 0 {
      assert AllRecorded(ids[1..], hist);
      assert ids[1..][k - 1] == ids[k];
      forall j | 0 <= j < k - 1
        ensures Evaluate(ids[1..][j], hist[ids[1..][j]], workplaces, last, now, name).None?
      {
        assert ids[1..][j] == ids[j + 1];
      }
      FirstQualifierWins(ids[1..], hist, workplaces, last, now, name, k - 1);
    }
  }

  /** No proposal is made exactly when no track passes every gate. */
  lemma {:induction false} NoProposalIffNoTrackQualifies(ids: seq<TrackId>, hist: map<TrackId, seq<Sample>>,
                                                        workplaces: map<string, Workplace>, last: map<TrackId, real>,
                                                        now: real, name: string)
    requires AllRecorded(ids, hist)
    ensures FirstProposal(ids, hist, workplaces, last, now, name).None?
            <==> forall k :: 0 <= k < |ids| ==> Evaluate(ids[k], hist[ids[k]], workplaces, last, now, name).None?
  {
    if ids != [] {
      assert AllRecorded(ids[1..], hist);
      NoProposalIffNoTrackQualifies(ids[1..], hist, workplaces, last, now, name);
      if Evaluate(ids[0], hist[ids[0]], workplaces, last, now, name).None? {
        forall k | 1 <= k < |ids|
          ensures Evaluate(ids[k], hist[ids[k]], workplaces, last, now, name)
                  == Evaluate(ids[1..][k - 1], hist[ids[1..][k - 1]], workplaces, last, now, name)
        {
          assert ids[1..][k - 1] == ids[k];
        }
      }
    }
  }

  /** No proposal is made exactly when no track of the dictionary passes the gates. */
  lemma NoProposalIffNoTrackPassesGates(ids: seq<TrackId>, hist: map<TrackId, seq<Sample>>,
                                        workplaces: map<string, Workplace>, last: map<TrackId, real>,
                                        now: real, name: string)
    requires AllRecorded(ids, hist)
    ensures FirstProposal(ids, hist, workplaces, last, now, name).None?
            <==> forall k :: 0 <= k < |ids| ==> !PassesGates(ids[k], hist[ids[k]], workplaces, last, now)
  {
    NoProposalIffNoTrackQualifies(ids, hist, workplaces, last, now, name);
    forall k | 0 <= k < |ids|
      ensures Evaluate(ids[k], hist[ids[k]], workplaces, last, now, name).Some?
              <==> PassesGates(ids[k], hist[ids[k]], workplaces, last, now)
    {
      EvaluateIffPassesGates(ids[k], hist[ids[k]], workplaces, last, now, name);
    }
  }

  /** A track with fewer than `MinTrackPointsForWpCheck` relevant samples is never proposed. */
  lemma {:induction false} FewSamplesNeverProposed(ids: seq<TrackId>, hist: map<TrackId, seq<Sample>>,
                                workplaces: map<string, Workplace>, last: map<TrackId, real>,
                                now: real, name: string, id: TrackId)
    requires AllRecorded(ids, hist) && id in hist
    requires |Relevant(hist[id], now)| < MinTrackPointsForWpCheck
    ensures var r := FirstProposal(ids, hist, workplaces, last, now, name);
            r.None? || r.value.trackId != id
  {
    if FirstProposal(ids, hist, workplaces, last, now, name).Some? {
      ProposalPassedEveryGate(ids, hist, workplaces, last, now, name);
    }
  }

  /** A track with a relevant step of at least `MaxDistanceForStayPx` is never proposed. */
  lemma {:induction false} LargeStepNeverProposed(ids: seq<TrackId>, hist: map<TrackId, seq<Sample>>,
                               workplaces: map<string, Workplace>, last: map<TrackId, real>,
                               now: real, name: string, id: TrackId, i: int)
    requires AllRecorded(ids, hist) && id in hist
    requires 1 <= i < |Relevant(hist[id], now)|
    requires TooFar(Relevant(hist[id], now)[i - 1], Relevant(hist[id], now)[i])
    ensures var r := FirstProposal(ids, hist, workplaces, last, now, name);
            r.None? || r.value.trackId != id
  {
    if FirstProposal(ids, hist, workplaces, last, now, name).Some? {
      ProposalPassedEveryGate(ids, hist, workplaces, last, now, name);
    }
  }

  /**
   * A track that proposed less than `CooldownSeconds` ago is not proposed
   * again. A track that never proposed counts from time 0, so before time
   * `CooldownSeconds` it cannot propose either.
   */
  lemma {:induction false} CooldownBlocksRepeat(ids: seq<TrackId>, hist: map<TrackId, seq<Sample>>,
                             workplaces: map<string, Workplace>, last: map<TrackId, real>,
                             now: real, name: string, id: TrackId)
    requires AllRecorded(ids, hist)
    requires now - LastCreationTime(last, id) < CooldownSeconds
    ensures var r := FirstProposal(ids, hist, workplaces, last, now, name);
            r.None? || r.value.trackId != id
  {
    if FirstProposal(ids, hist, workplaces, last, now, name).Some? {
      ProposalPassedEveryGate(ids, hist, workplaces, last, now, name);
    }
  }

  /**
   * The proposed square is centred between the extreme positions of the
   * relevant samples: if they all lie in [xlo, xhi] x [ylo, yhi], so does the
   * square's centre.
   */
  lemma ProposalCentredAmongSamples(ids: seq<TrackId>, hist: map<TrackId, seq<Sample>>,
                                    workplaces: map<string, Workplace>, last: map<TrackId, real>,
                                    now: real, name: string, xlo: int, xhi: int, ylo: int, yhi: int)
    requires AllRecorded(ids, hist)
    requires FirstProposal(ids, hist, workplaces, last, now, name).Some?
    requires var p := FirstProposal(ids, hist, workplaces, last, now, name).value;
             p.trackId in hist &&
             forall s :: s in Relevant(hist[p.trackId], now) ==> xlo <= s.cx <= xhi && ylo <= s.cy <= yhi
    ensures var b := FirstProposal(ids, hist, workplaces, last, now, name).value.bbox;
            xlo <= b.x + WorkplaceSizePx / 2 <= xhi && ylo <= b.y + WorkplaceSizePx / 2 <= yhi
  {
    ProposalPassedEveryGate(ids, hist, workplaces, last, now, name);
    var p := FirstProposal(ids, hist, workplaces, last, now, name).value;
    var rel := Relevant(hist[p.trackId], now);
    forall i | 0 <= i < |rel| ensures xlo <= Xs(rel)[i] <= xhi && ylo <= Ys(rel)[i] <= yhi {
      assert rel[i] in rel;
    }
    TruncMeanWithinBounds(Xs(rel), xlo, xhi);
    TruncMeanWithinBounds(Ys(rel), ylo, yhi);
  }

  /**
   * A burst of `MinTrackPointsForWpCheck` samples at one point, all taken at
   * this instant, is enough for a proposal: nothing requires the relevant
   * samples to span the stay threshold. The square is centred on that point.
   */
  lemma {:induction false} BurstAtOneInstantIsProposed(id: TrackId, cx: int, cy: int, now: real, name: string)
    requires now >= CooldownSeconds
    ensures var h := seq(MinTrackPointsForWpCheck, _ => Sample(cx, cy, now));
            FirstProposal([id], map[id := h], map[], map[], now, name)
              == Some(Proposal(name, BBox(cx - WorkplaceSizePx / 2, cy - WorkplaceSizePx / 2, WorkplaceSizePx, WorkplaceSizePx), id, now))
  {
    var h := seq(MinTrackPointsForWpCheck, _ => Sample(cx, cy, now));
    var rel := Relevant(h, now);
    forall s | s in h ensures s in rel {
    }
    assert h[0] in rel;
    assert forall s :: s in rel ==> s == Sample(cx, cy, now);
    assert |rel| == |h| by {
      RelevantOfConstant(h, now, Sample(cx, cy, now));
    }
    forall i | 0 <= i < |rel| ensures Xs(rel)[i] == cx && Ys(rel)[i] == cy {
      assert rel[i] in rel;
    }
    TruncMeanWithinBounds(Xs(rel), cx, cx);
    TruncMeanWithinBounds(Ys(rel), cy, cy);
    assert !HasLargeStep(rel) by {
      forall i | 1 <= i < |rel| ensures !TooFar(rel[i - 1], rel[i]) {
        assert rel[i - 1] in rel && rel[i] in rel;
      }
    }
    assert rel[0] in rel;
  }

  /** Helper: a window over samples that all fall inside it keeps all of them. */
  lemma {:induction false} RelevantOfConstant(h: seq<Sample>, now: real, s: Sample)
    requires forall i :: 0 <= i < |h| ==> h[i] == s
    requires now - s.t <= StayThresholdSeconds
    ensures Relevant(h, now) == h
  {
    if h != [] {
      assert forall i :: 0 <= i < |h[1..]| ==> h[1..][i] == s;
      RelevantOfConstant(h[1..], now, s);
    }
  }
}
