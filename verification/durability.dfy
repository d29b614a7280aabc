/** How replacing a snapshot file can end. */
module Durability {
  /** Renamed into place and flushed; failed before the rename, the old file intact; or renamed
      into place with the flush of the directory failing, which is reported as a failure. */
  datatype SaveOutcome = Saved | FailedEarly | FailedLate
}
