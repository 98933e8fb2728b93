/**
 * Tuning constants of the trajectory analysis, with the values the processor's
 * constructor assigns (tracker/video_processing.py:17-21), and the two windows
 * derived from the stay threshold (lines 81 and 114).
 */
module Config {
  /** How long a person must stay, in seconds; also the width of the "relevant" window. */
  const StayThresholdSeconds: real := 10.0
  /** Fewest relevant samples a track needs before it is examined for stability. */
  const MinTrackPointsForWpCheck: nat := 20
  /** A step between consecutive samples at least this long (in pixels) means the person moved. */
  const MaxDistanceForStayPx: int := 30
  /** Side of the square workplace proposed around a stable track. */
  const WorkplaceSizePx: int := 100
  /** How long the proposed square stays highlighted. */
  const PreviewDurationSeconds: real := 5.0

  /** Samples older than this are dropped from a track's history. */
  const HistoryRetentionSeconds: real := StayThresholdSeconds * 2.0
  /** A track may not propose again within this long of its last proposal. */
  const CooldownSeconds: real := StayThresholdSeconds * 5.0
}
