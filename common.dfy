/** Shared vocabulary: identifiers, optional values and the error taxonomy of the event service. */
module Common {

  /** Firestore document ids (user uids and event ids) are strings. */
  type Uid = string
  type EventId = string

  datatype Option<+T> = None | Some(value: T)

  /** The `throw new Error(...)` paths of the event service. */
  datatype Error =
    | EventNotFound     // 'Event not found'
    | AlreadyJoined     // 'User already joined this event'
    | NotAttending      // 'User is not attending this event'
    | NotOrganizer      // 'Only the organizer can update/delete this event'
    | EditWindowClosed  // 'Event cannot be edited within 1 hour of start time'

  /** A computation that either yields a value or fails with one of the errors above. */
  datatype Result<+T> = Ok(value: T) | Err(error: Error)

  /** The outcome of an operation that returns nothing on success (`Promise<void>`). */
  datatype Outcome = Done | Failed(error: Error)
}
