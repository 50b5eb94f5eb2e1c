/** The wire message's bounds and the decoder's result and error values.
    The three bounds are fixed constants of the crate whose values are not
    part of this model; all that is used of them is that they are positive. */
module Message {

  type Positive = n: nat | 0 < n witness 1

  /** Capacity of the topic frame's buffer. */
  const TOPIC_MAX_LEN: Positive
  /** Capacity of the caller's payload buffer. */
  const DATA_MAX_LEN: Positive
  /** Exact width of the sequence frame. */
  const SEQUENCE_LEN: Positive

  /** The decode errors; the multipart variant keeps the crate's spelling. */
  datatype Error =
    | InvalidTopic(len: nat, raw: seq<bv8>)
    | InvalidMutlipartLength(count: nat)
    | InvalidDataLength(len: nat)
    | InvalidSequenceLength(len: nat)

  /** The result of one decode: either the three parts handed to the
      message constructor `Message::from_parts`, or a decode error. */
  datatype Outcome =
    | FromParts(topic: seq<bv8>, data: seq<bv8>, sequence: seq<bv8>)
    | Failed(error: Error)
}
