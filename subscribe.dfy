/** The three-frame decoder `recv_internal`: one call reads one multipart
    message (topic, payload, sequence) off a subscriber socket, checks each
    frame's length as soon as it arrives, and returns either the parts of a
    message or a classified error.  A message with more than three frames is
    drained to its end so that the socket stays on a message boundary. */
module Subscribe {
  import opened Zmq
  import opened Message

  /** The result of one decode and the number of frames it takes off the socket. */
  datatype Decoding = Decoding(outcome: Outcome, consumed: nat)

  /** What one decode makes of the queue `q`, stated over the first message
      in it: the frames up to the first one without "more". */
  function Decode(q: seq<Frame>): (d: Decoding)
    requires WellFormed(q) && q != []
    ensures 1 <= d.consumed <= MessageLen(q)
  {
    var n := MessageLen(q);
    var topic := q[0].bytes;
    if |topic| > TOPIC_MAX_LEN then
      Decoding(Failed(InvalidTopic(|topic|, topic[..TOPIC_MAX_LEN])), 1)
    else if n == 1 then
      Decoding(Failed(InvalidMutlipartLength(1)), 1)
    else if |q[1].bytes| > DATA_MAX_LEN then
      Decoding(Failed(InvalidDataLength(|q[1].bytes|)), 2)
    else if n == 2 then
      Decoding(Failed(InvalidMutlipartLength(2)), 2)
    else if |q[2].bytes| != SEQUENCE_LEN then
      Decoding(Failed(InvalidSequenceLength(|q[2].bytes|)), 3)
    else if n == 3 then
      Decoding(FromParts(topic, q[1].bytes, q[2].bytes), 3)
    else
      Decoding(Failed(InvalidMutlipartLength(n)), n)
  }

  // One lemma per way a call can end, in the order the checks run.  Each
  // states exactly which error (or which parts) a queue yields and how many
  // frames the call takes.

  /** A topic frame longer than its buffer: reported with its real length and
      the bytes that fit; only the topic frame is taken. */
  lemma TopicTooLong(q: seq<Frame>)
    requires WellFormed(q) && q != []
    requires |q[0].bytes| > TOPIC_MAX_LEN
    ensures Decode(q) == Decoding(Failed(InvalidTopic(|q[0].bytes|, q[0].bytes[..TOPIC_MAX_LEN])), 1)
  {
  }

  /** A one-frame message with a valid topic: one frame counted and taken. */
  lemma OneFrame(q: seq<Frame>)
    requires WellFormed(q) && q != []
    requires |q[0].bytes| <= TOPIC_MAX_LEN && !q[0].more
    ensures Decode(q) == Decoding(Failed(InvalidMutlipartLength(1)), 1)
  {
    MessageLenUnique(q, 1);
  }

  /** A payload frame longer than the payload buffer: reported with its real
      length; the topic and payload frames are taken. */
  lemma PayloadTooLong(q: seq<Frame>)
    requires WellFormed(q) && q != []
    requires |q[0].bytes| <= TOPIC_MAX_LEN && q[0].more
    requires |q[1].bytes| > DATA_MAX_LEN
    ensures Decode(q) == Decoding(Failed(InvalidDataLength(|q[1].bytes|)), 2)
  {
  }

  /** A two-frame message with valid frames: two frames counted and taken. */
  lemma TwoFrames(q: seq<Frame>)
    requires WellFormed(q) && q != []
    requires |q[0].bytes| <= TOPIC_MAX_LEN && q[0].more
    requires |q[1].bytes| <= DATA_MAX_LEN && !q[1].more
    ensures Decode(q) == Decoding(Failed(InvalidMutlipartLength(2)), 2)
  {
    MessageLenUnique(q, 2);
  }

  /** A sequence frame of any width but SEQUENCE_LEN, shorter or longer:
      reported with its real length; three frames are taken. */
  lemma SequenceWrongLength(q: seq<Frame>)
    requires WellFormed(q) && q != []
    requires |q[0].bytes| <= TOPIC_MAX_LEN && q[0].more
    requires |q[1].bytes| <= DATA_MAX_LEN && q[1].more
    requires |q[2].bytes| != SEQUENCE_LEN
    ensures Decode(q) == Decoding(Failed(InvalidSequenceLength(|q[2].bytes|)), 3)
  {
  }

  /** A three-frame message within bounds: its three frames become the parts
      of a message, and exactly those three frames are taken. */
  lemma ThreeFrames(q: seq<Frame>)
    requires WellFormed(q) && q != []
    requires |q[0].bytes| <= TOPIC_MAX_LEN && q[0].more
    requires |q[1].bytes| <= DATA_MAX_LEN && q[1].more
    requires |q[2].bytes| == SEQUENCE_LEN && !q[2].more
    ensures Decode(q) == Decoding(FromParts(q[0].bytes, q[1].bytes, q[2].bytes), 3)
  {
    MessageLenUnique(q, 3);
  }

  /** A message of four or more frames whose first three are valid: every
      frame of it is counted and taken, and nothing after it. */
  lemma TooManyFrames(q: seq<Frame>)
    requires WellFormed(q) && q != []
    requires |q[0].bytes| <= TOPIC_MAX_LEN && q[0].more
    requires |q[1].bytes| <= DATA_MAX_LEN && q[1].more
    requires |q[2].bytes| == SEQUENCE_LEN && q[2].more
    ensures MessageLen(q) >= 4
    ensures Decode(q) == Decoding(Failed(InvalidMutlipartLength(MessageLen(q))), MessageLen(q))
  {
  }

  /** The frames a publisher sends for one message: three frames, of which
      only the last is without "more". */
  function MessageFrames(topic: seq<bv8>, data: seq<bv8>, sequence: seq<bv8>): (q: seq<Frame>)
    ensures WellFormed(q) && MessageLen(q) == |q| == 3
  {
    var q := [Frame(topic, true), Frame(data, true), Frame(sequence, false)];
    MessageLenUnique(q, 3);
    q
  }

  /** True of the errors raised by a length check, which stop reading at once. */
  predicate IsLengthError(e: Error)
  {
    e.InvalidTopic? || e.InvalidDataLength? || e.InvalidSequenceLength?
  }

  /** A decode succeeds exactly when the first message has three frames and
      each is within its bound; the parts are then the three frames' bytes. */
  lemma DecodesToParts(q: seq<Frame>)
    requires WellFormed(q) && q != []
    ensures Decode(q).outcome.FromParts? <==>
      MessageLen(q) == 3 && |q[0].bytes| <= TOPIC_MAX_LEN &&
      |q[1].bytes| <= DATA_MAX_LEN && |q[2].bytes| == SEQUENCE_LEN
    ensures Decode(q).outcome.FromParts? ==>
      Decode(q) == Decoding(FromParts(q[0].bytes, q[1].bytes, q[2].bytes), 3) &&
      q[0].more && q[1].more && !q[2].more
  {
    if MessageLen(q) == 3 {
      assert q[0].more && q[1].more;
    }
  }

  /** The parts of a successful decode are within the wire message's bounds. */
  lemma PartsWithinBounds(q: seq<Frame>)
    requires WellFormed(q) && q != []
    requires Decode(q).outcome.FromParts?
    ensures |Decode(q).outcome.topic| <= TOPIC_MAX_LEN
    ensures |Decode(q).outcome.data| <= DATA_MAX_LEN
    ensures |Decode(q).outcome.sequence| == SEQUENCE_LEN
    ensures Decode(q).consumed == 3
  {
  }

  /** A message sent within bounds decodes to the very parts that were sent,
      and the call takes its three frames and nothing of what follows. */
  lemma RoundTrip(topic: seq<bv8>, data: seq<bv8>, sequence: seq<bv8>, rest: seq<Frame>)
    requires |topic| <= TOPIC_MAX_LEN && |data| <= DATA_MAX_LEN && |sequence| == SEQUENCE_LEN
    requires WellFormed(rest)
    ensures WellFormed(MessageFrames(topic, data, sequence) + rest)
    ensures Decode(MessageFrames(topic, data, sequence) + rest) ==
      Decoding(FromParts(topic, data, sequence), 3)
    ensures (MessageFrames(topic, data, sequence) + rest)[3..] == rest
  {
    var w := MessageFrames(topic, data, sequence);
    MessageLenAppend(w, rest);
    ThreeFrames(w + rest);
  }

  /** The count in a multipart-length error is the number of frames in the
      message, never three, and the call took exactly that many frames. */
  lemma MultipartCount(q: seq<Frame>, count: nat)
    requires WellFormed(q) && q != []
    requires Decode(q).outcome == Failed(InvalidMutlipartLength(count))
    ensures count == MessageLen(q) == Decode(q).consumed
    ensures count != 3
  {
  }

  /** A call that no length check stopped takes the whole first message, so
      the socket is left at the start of the next one. */
  lemma TakesWholeMessage(q: seq<Frame>)
    requires WellFormed(q) && q != []
    requires !(Decode(q).outcome.Failed? && IsLengthError(Decode(q).outcome.error))
    ensures Decode(q).consumed == MessageLen(q)
    ensures WellFormed(q[Decode(q).consumed..])
  {
    var n := MessageLen(q);
    assert q[n..] == [] || q[n..][|q[n..]| - 1] == q[|q| - 1];
  }

  /** A length check stops the call at the frame it rejects: nothing is
      drained, and whatever is left of the message stays queued. */
  lemma LengthErrorKeepsRest(q: seq<Frame>)
    requires WellFormed(q) && q != []
    requires Decode(q).outcome.Failed? && IsLengthError(Decode(q).outcome.error)
    ensures Decode(q).consumed <= 3
    ensures Decode(q).consumed < MessageLen(q) <==> q[Decode(q).consumed - 1].more
    ensures Decode(q).consumed < MessageLen(q) ==>
      WellFormed(q[Decode(q).consumed..]) &&
      MessageLen(q[Decode(q).consumed..]) == MessageLen(q) - Decode(q).consumed
  {
    var k := Decode(q).consumed;
    if k < MessageLen(q) {
      MessageLenDrop(q, k);
    }
  }

  /** Decoding one whole message of any shape followed by other messages:
      unless a length check stopped it, the call leaves exactly the messages
      that follow. */
  lemma {:induction false} Resynchronises(w: seq<Frame>, rest: seq<Frame>)
    requires WellFormed(w) && w != [] && MessageLen(w) == |w|
    requires WellFormed(rest)
    ensures WellFormed(w + rest)
    ensures !(Decode(w + rest).outcome.Failed? && IsLengthError(Decode(w + rest).outcome.error)) ==>
      (w + rest)[Decode(w + rest).consumed..] == rest
  {
    MessageLenAppend(w, rest);
    if !(Decode(w + rest).outcome.Failed? && IsLengthError(Decode(w + rest).outcome.error)) {
      TakesWholeMessage(w + rest);
    }
  }

  /** When the topic check rejects a three-frame message, its payload and
      sequence frames stay queued, and the next call reads them as a message
      of its own: the payload as its topic, and it ends after two frames. */
  lemma LeftoverFramesReadAsNextMessage(topic: seq<bv8>, data: seq<bv8>, sequence: seq<bv8>, rest: seq<Frame>)
    requires |topic| > TOPIC_MAX_LEN && |data| <= TOPIC_MAX_LEN && |sequence| <= DATA_MAX_LEN
    requires WellFormed(rest)
    ensures WellFormed(MessageFrames(topic, data, sequence) + rest)
    ensures Decode(MessageFrames(topic, data, sequence) + rest) ==
      Decoding(Failed(InvalidTopic(|topic|, topic[..TOPIC_MAX_LEN])), 1)
    ensures (MessageFrames(topic, data, sequence) + rest)[1..] == [Frame(data, true), Frame(sequence, false)] + rest
    ensures Decode([Frame(data, true), Frame(sequence, false)] + rest) ==
      Decoding(Failed(InvalidMutlipartLength(2)), 2)
  {
    var w := MessageFrames(topic, data, sequence);
    MessageLenAppend(w, rest);
    var left := [Frame(data, true), Frame(sequence, false)];
    MessageLenUnique(left, 2);
    MessageLenAppend(left, rest);
    TwoFrames(left + rest);
  }

  /** One call of `recv_internal`: reads the frames of one message from
      `socket`, receiving the payload into the caller's buffer `data`. */
  method RecvInternal(socket: Socket, data: array<bv8>) returns (r: Outcome)
    requires socket.Valid() && socket.pending != []
    requires data.Length == DATA_MAX_LEN
    modifies socket, data
    ensures socket.Valid()
    ensures var q, d := old(socket.pending), Decode(old(socket.pending));
      && r == d.outcome
      && socket.pending == q[d.consumed..]
      && socket.rcvmore == q[d.consumed - 1].more
      && data[..] == if d.consumed == 1 then old(data[..]) else Overwrite(old(data[..]), q[1].bytes)
  {
    ghost var q := socket.pending;
    // recv_internal zero-fills its local topic array; no byte of that filling
    // can reach the result, since a topic that is reported is received over
    // the whole buffer or cut to its own length.
    var topic := new bv8[TOPIC_MAX_LEN];

    var topicLen := socket.RecvInto(topic);
    assert socket.pending == q[1..] && socket.rcvmore == q[0].more;
    if topicLen > TOPIC_MAX_LEN {
      TopicTooLong(q);
      return Failed(InvalidTopic(topicLen, topic[..]));
    }

    var more := socket.GetRcvmore();
    if !more {
      OneFrame(q);
      return Failed(InvalidMutlipartLength(1));
    }

    r := RecvPayload(socket, data, q, topic[0..topicLen]);
  }

  /** The rest of `recv_internal` once the topic frame of `q` has passed its
      checks and promised more: the payload frame, the sequence frame, and the
      drain of an overlong message. */
  method RecvPayload(socket: Socket, data: array<bv8>, ghost q: seq<Frame>, topic: seq<bv8>) returns (r: Outcome)
    requires socket.Valid() && socket.rcvmore
    requires WellFormed(q) && |q| >= 2 && socket.pending == q[1..]
    requires |q[0].bytes| <= TOPIC_MAX_LEN && q[0].more && topic == q[0].bytes
    requires data.Length == DATA_MAX_LEN
    modifies socket, data
    ensures socket.Valid()
    ensures var d := Decode(q);
      && r == d.outcome
      && socket.pending == q[d.consumed..]
      && socket.rcvmore == q[d.consumed - 1].more
      && data[..] == Overwrite(old(data[..]), q[1].bytes)
  {
    // The zero-filled sequence array is allocated here rather than before the
    // topic frame; nothing touches it earlier, and a sequence is kept only at
    // full width, so none of its filling reaches the result.
    var sequence := new bv8[SEQUENCE_LEN];

    var dataLen := socket.RecvInto(data);
    assert socket.pending == q[2..] && socket.rcvmore == q[1].more;
    if dataLen > DATA_MAX_LEN {
      PayloadTooLong(q);
      return Failed(InvalidDataLength(dataLen));
    }

    var more := socket.GetRcvmore();
    if !more {
      TwoFrames(q);
      return Failed(InvalidMutlipartLength(2));
    }

    var sequenceLen := socket.RecvInto(sequence);
    assert socket.pending == q[3..] && socket.rcvmore == q[2].more;
    if sequenceLen != SEQUENCE_LEN {
      SequenceWrongLength(q);
      return Failed(InvalidSequenceLength(sequenceLen));
    }

    more := socket.GetRcvmore();
    if !more {
      ThreeFrames(q);
      return FromParts(topic, data[0..dataLen], sequence[..]);
    }

    // More than three frames: the rest of the message is discarded.
    TooManyFrames(q);
    var len := DrainMessage(socket, q);
    return Failed(InvalidMutlipartLength(len));
  }

  /** The loop that ends `recv_internal` when the third frame still promises
      more: it receives and discards one frame at a time until a frame without
      "more" has been taken, counting every frame of the message. */
  method DrainMessage(socket: Socket, ghost q: seq<Frame>) returns (len: nat)
    requires socket.Valid() && socket.rcvmore
    requires WellFormed(q) && |q| >= 3 && socket.pending == q[3..]
    requires q[0].more && q[1].more && q[2].more
    modifies socket
    ensures socket.Valid()
    ensures len == MessageLen(q) && socket.pending == q[len..]
    ensures !socket.rcvmore && !q[len - 1].more
  {
    len := 3;
    var more := true;
    var discard := new bv8[0];
    while more
      modifies socket, discard
      invariant 3 <= len
      invariant socket.Valid() && socket.rcvmore == more
      invariant len <= |q| && socket.pending == q[len..]
      invariant forall i :: 0 <= i < len - 1 ==> q[i].more
      invariant q[len - 1].more == more
      decreases |socket.pending|
    {
      var _ := socket.RecvInto(discard);
      len := len + 1;
      more := socket.GetRcvmore();
    }
    MessageLenUnique(q, len);
  }
}
