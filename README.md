# Multipart frame decoder of a ZMQ subscriber

This project models `recv_internal`, the decoder at the heart of the
subscriber side of the bitcoincore ZMQ client. One call makes one blocking
read of a multipart message: a topic frame, a payload frame and a sequence
frame. Each frame is checked against its length bound as soon as it arrives.
The call returns either the three parts, which it hands to the message
constructor, or a classified error. If the message has more than three frames,
the call receives and discards the extra frames, so that the socket ends up at
the start of the next message.

Files:

- `zmq.dfy` (module `Zmq`) models the socket as the decoder sees it. The
  `Socket` class holds a queue of frames, each with its "more frames follow"
  flag, and the flag of the frame received last. Its `Valid()` invariant says
  the queue never ends on a frame flagged "more", since the transport delivers
  a multipart message whole. `RecvInto` copies as many leading bytes of the
  next frame as fit into the caller's buffer, and reports the frame's full
  length. `GetRcvmore` reports the flag. The module also defines `MessageLen`:
  the number of frames in the first message of a queue, up to and including
  the first frame without "more".
- `message.dfy` (module `Message`) holds the three bounds `TOPIC_MAX_LEN`,
  `DATA_MAX_LEN` and `SEQUENCE_LEN`, the decode errors and the result type.
  The bounds are positive constants whose values are not part of this model.
  The multipart error keeps the crate's spelling, `InvalidMutlipartLength`.
- `subscribe.dfy` (module `Subscribe`) holds the decoder. `Decode` is the
  specification: what one call makes of a queue, stated in terms of the first
  message in it, and how many frames the call takes. `RecvInternal` is the
  decoder itself. It is a method over a `Socket` and the caller's payload
  array of length `DATA_MAX_LEN`, and it is proved to return `Decode`'s
  outcome, take exactly `Decode`'s count of frames, and leave the payload
  buffer as the source does. It also leaves the socket's more flag as the
  last frame taken set it. `RecvPayload` holds the part of the call after the
  topic checks, and `DrainMessage` holds its drain loop. The lemmas state
  the decoder's properties about `Decode`: one lemma per way a call can end,
  the round trip, the frame count in a multipart error, and which frames
  stay queued after each outcome.

`Message::from_parts` lives outside this core, so the successful outcome
`FromParts(topic, data, sequence)` records the exact arguments the decoder
passes to it: `topic[0..topic_len]`, `data[0..data_len]` and the sequence
array.

`recv_internal` drains a message only in one case: the first three frames
pass their checks and a fourth frame follows. When a length check fails, the
call returns at once and does not read the rest of the message. Those frames
stay queued, and the next call starts in the middle of that message.
`LengthErrorKeepsRest` states this for every queue.
`LeftoverFramesReadAsNextMessage` shows one concrete case: after a too-long
topic, the next call reads the payload frame as a topic and reports
`InvalidMutlipartLength(2)`.

## Model

| member | source | states |
|---|---|---|
| `Subscribe.RecvInternal` | src/subscribe.rs:51-93 | The call returns `Decode`'s outcome for the queued frames. It removes exactly `Decode`'s count of frames from the front of the queue and keeps the socket valid. The socket's more flag afterwards is the flag of the last frame taken. The payload buffer is untouched when only the topic frame was read. Otherwise the buffer holds the payload frame's leading bytes, and the rest of the buffer keeps its old bytes. |
| `Subscribe.RecvPayload` | src/subscribe.rs:64-92 | Once the topic frame has passed its checks and promised more, the rest of the call returns `Decode`'s outcome for the whole queue. It takes `Decode`'s count of frames, counted from the topic frame, and leaves the more flag of the last frame taken. The payload frame's leading bytes are left in the buffer. |
| `Subscribe.DrainMessage` | src/subscribe.rs:82-92 | The drain loop terminates. Each iteration receives and discards one frame. The count starts at 3, and the loop returns the number of frames in the whole message. The queue is left at the first frame of the next message, and the socket's more flag is cleared, because the last frame taken ends the message. |
| `Zmq.Socket.RecvInto` | src/subscribe.rs:55 | Models each `recv_into` call (lines 55, 64, 73 and 85). It takes the next frame off the queue and returns the frame's full length, which may exceed the buffer. The socket's more flag becomes that frame's flag. A frame that fits is found whole at the front of the buffer. A longer frame fills the buffer with its leading bytes. The buffer's other bytes are unchanged. |
| `Zmq.Socket.GetRcvmore` | src/subscribe.rs:60 | Models each `get_rcvmore` call (lines 60, 69, 78 and 89). It reports the more flag of the frame received last. When the flag is set, another frame is queued. |
| `Zmq.Overwrite` | src/subscribe.rs:64 | The buffer that `recv_into` leaves has the buffer's own length. |
| `Zmq.OverwriteAt` | src/subscribe.rs:64 | Byte by byte, the buffer after `recv_into` holds the frame's byte where the frame reaches and its old byte beyond. |
| `Zmq.OverwritePrefix` | src/subscribe.rs:64-79 | A frame no longer than the buffer is found whole in the buffer's first bytes, so `data[0..data_len]` is the payload. A frame at least as long as the buffer fills it with the frame's leading bytes, so a rejected topic carries its first `TOPIC_MAX_LEN` bytes. |
| `Subscribe.Decode` | src/subscribe.rs:55-92 | One call takes at least one frame, and never takes a frame beyond the end of the first message. |
| `Zmq.MessageLen` | src/subscribe.rs:60-91 | The length of the first message is the index of the first frame without the more flag, plus one. Every earlier frame is flagged more. The length is zero only for an empty queue. |
| `Zmq.MessageLenAppend` | src/subscribe.rs:89-91 | Frames queued behind a complete message do not change where that message ends. |
| `Subscribe.TopicTooLong` | src/subscribe.rs:55-58 | A topic frame longer than `TOPIC_MAX_LEN` gives `InvalidTopic` with the frame's real length and its first `TOPIC_MAX_LEN` bytes. Only the topic frame is taken. |
| `Subscribe.OneFrame` | src/subscribe.rs:60-62 | A one-frame message with a valid topic gives `InvalidMutlipartLength(1)`. One frame is taken. |
| `Subscribe.PayloadTooLong` | src/subscribe.rs:64-67 | A payload frame longer than `DATA_MAX_LEN`, after a valid topic, gives `InvalidDataLength` with the payload's real length. Two frames are taken. |
| `Subscribe.TwoFrames` | src/subscribe.rs:69-71 | A two-frame message with valid frames gives `InvalidMutlipartLength(2)`. Two frames are taken. |
| `Subscribe.SequenceWrongLength` | src/subscribe.rs:73-76 | A sequence frame of any width other than `SEQUENCE_LEN`, shorter or longer, gives `InvalidSequenceLength` with its real length. Three frames are taken. |
| `Subscribe.ThreeFrames` | src/subscribe.rs:78-80 | A valid three-frame message is handed to the message constructor as exactly its three frames' bytes. Exactly three frames are taken. |
| `Subscribe.TooManyFrames` | src/subscribe.rs:82-92 | A message of n ≥ 4 frames whose first three are valid gives `InvalidMutlipartLength(n)`. All n frames are taken. |
| `Subscribe.DecodesToParts` | src/subscribe.rs:55-80 | A call succeeds if and only if the first message has exactly three frames and each frame is within its bound. The parts are then the three frames' bytes, and only the third frame lacks the more flag. |
| `Subscribe.PartsWithinBounds` | src/subscribe.rs:55-79 | A successful decode has topic length ≤ `TOPIC_MAX_LEN`, payload length ≤ `DATA_MAX_LEN` and sequence length = `SEQUENCE_LEN`. It took exactly three frames. |
| `Subscribe.RoundTrip` | src/subscribe.rs:55-79 | A message sent within bounds decodes to exactly the topic, payload and sequence that were sent. The frames queued after it stay queued. |
| `Subscribe.MultipartCount` | src/subscribe.rs:60-92 | The count in `InvalidMutlipartLength` equals the number of frames in the message and the number of frames taken. It is never 3. |
| `Subscribe.TakesWholeMessage` | src/subscribe.rs:78-92 | When no length check stops the call, it takes the whole first message, and the remaining queue is well formed. |
| `Subscribe.LengthErrorKeepsRest` | src/subscribe.rs:56-76 | A failed length check stops the call at the rejected frame, so at most three frames are taken. Frames of the message remain queued exactly when the rejected frame was flagged more. The remaining queue then starts with the rest of that message. |
| `Subscribe.Resynchronises` | src/subscribe.rs:78-92 | For a complete message of any frame count followed by other messages: unless a length check stopped the call, the queue afterwards is exactly the messages that followed. |
| `Subscribe.LeftoverFramesReadAsNextMessage` | src/subscribe.rs:55-71 | After a too-long topic in a three-frame message, the payload and sequence frames stay queued. The next call reads them as a two-frame message of its own and reports `InvalidMutlipartLength(2)`. |

## Left out

- `subscribe_multi` and `subscribe_single` (src/subscribe.rs:12-39) are not modelled. Their point is tokio channels and spawned tasks, which is concurrency.
- `subscribe_internal` (src/subscribe.rs:96-111) is not modelled. It is an async loop that forwards every decode result to a shared sender. Its `ControlFlow` value is computed and then dropped, so the loop never exits.
- `new_socket_internal` (src/subscribe.rs:42-48) is not modelled. It only creates, connects and subscribes a socket through the zmq library.
- Transport errors that `?` passes up from `recv_into` and `get_rcvmore` are not modelled. Every socket call is taken to succeed.
- A blocking wait on an empty socket is not modelled. `RecvInternal` requires at least one queued frame, so every call ends.
- The internals of `Message::from_parts`, including its own error result, are not modelled. They live in message.rs, which is not part of this model. The successful outcome records the arguments passed to it.
- The values of `TOPIC_MAX_LEN`, `DATA_MAX_LEN` and `SEQUENCE_LEN` are not modelled. They are defined in message.rs, which is not part of this model. Only their positivity is used.
- The zero filling of the local `topic` and `sequence` arrays is not modelled. No filled byte can reach a result: a reported topic is either received over the whole buffer or cut to its own length, and a sequence is kept only at full width.
- `RecvPayload` is the part of `recv_internal` after the topic checks, written as a method of its own. It allocates the zero-filled sequence array itself, instead of `recv_internal` allocating it before the topic frame is read. Nothing uses that array earlier.
- `DrainMessage` is the source's inline drain loop, written as a method of its own. The loop runs `while more` rather than `loop` with a return inside, which is equivalent.
- DrainMessage: the frame counter is an unbounded `nat`, so `usize` overflow is not modelled. It would need more than 2^64 frames in one message.
- src/lib.rs is not modelled. It only declares modules and re-exports items.
