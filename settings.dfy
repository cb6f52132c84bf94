/**
 * The module-level constants of the counting script, with the values the
 * script hard-codes.
 */
module Settings {
  import opened Wrappers

  /** Seconds between two recorded rows (RECORD_INTERVAL). */
  const RecordInterval: real := 5.0

  /** Target processing rate in frames per second (PROCESS_FPS); None stands for Python's None. */
  const ProcessFps: Option<int> := Some(15)

  /** Minimum detector confidence for a detection to be counted (CONFIDENCE_THRESHOLD). */
  const ConfidenceThreshold: real := 0.4
}
