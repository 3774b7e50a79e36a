/** Outcome types shared by the mentor and report services. */
module Common {

  datatype Option<+T> = None | Some(value: T)

  /**
   * The exceptions of the modelled operations, one constructor per distinct
   * cause; the persistence errors (not found, conflict) are not modelled.
   */
  datatype Error =
    | InvalidTimeFormat     // a slot fails the per-slot check (BadRequest)
    | TimeOverlap           // two slots of one day clash (BadRequest)
    | MissingDay            // fewer than seven day buckets, so `time[day]` is undefined (TypeError)
    | MissingAvailableTime  // a mentor turns active without a schedule (BadRequest)
    | ReportExists          // the mentoring log already has a report (MethodNotAllowed)
    | NotWritable           // the log's report status is not the writable one (MethodNotAllowed)
    | StatusLocked          // the report-status policy refuses edits (Unauthorized)
    | NotOwner              // the acting mentor does not own the report (Unauthorized)
    | MissingRelation       // a relation the code dereferences is absent (TypeError)
    | IncompleteReport      // a required report field is empty (BadRequest)

  /** A value, or the exception that replaced it. */
  datatype Result<+T> = Ok(value: T) | Err(error: Error)

  /** Completion of an operation that returns nothing. */
  datatype Outcome = Pass | Fail(error: Error)
}
