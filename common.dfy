/** Value types shared by every part of the collision search. */
module Common {

  /** One byte of a digest or of a hashed message. */
  type Byte = b: int | 0 <= b < 256

  /** A (truncated) hash value; the search only ever builds ones of the configured width. */
  type Digest = seq<Byte>

  datatype Option<T> = None | Some(value: T)

  /** The ways the search can end without a result. */
  datatype Error =
    | TrailTooLong        // a walk took more steps than its fuel allowed
    | ChannelClosed       // the trail stream ended before two trails met
    | NoMeeting           // the replay of trail B never reached a point of trail A within its fuel
    | StartDistinguished  // refinement: trail A's start is itself distinguished, so its history is empty
    | Overlap             // refinement: the pair at the meeting point is not two distinct colliding digests

  datatype Result<T> = Ok(value: T) | Err(error: Error)
}
