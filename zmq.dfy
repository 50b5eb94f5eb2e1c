/** The subscriber socket as the frame decoder sees it: an ordered queue of
    frames, each carrying the transport's "more frames follow" flag.  Only the
    two socket calls the decoder makes are modelled: receiving one frame into a
    caller's buffer, and asking whether the frame just received had "more". */
module Zmq {

  /** One frame of a multipart message and its "more frames follow" flag. */
  datatype Frame = Frame(bytes: seq<bv8>, more: bool)

  /** The transport delivers a multipart message whole, so a queue of received
      frames never ends on a frame that promises more. */
  predicate WellFormed(q: seq<Frame>)
  {
    q == [] || !q[|q| - 1].more
  }

  /** The number of frames in the first message of `q`: every frame up to and
      including the first one without the "more" flag. */
  function MessageLen(q: seq<Frame>): (n: nat)
    requires WellFormed(q)
    ensures n <= |q|
    ensures (n == 0) == (q == [])
    ensures q != [] ==> !q[n - 1].more && forall i :: 0 <= i < n - 1 ==> q[i].more
  {
    if q == [] then 0
    else if !q[0].more then 1
    else 1 + MessageLen(q[1..])
  }

  /** Any length that ends at the first frame without "more" is MessageLen. */
  lemma MessageLenUnique(q: seq<Frame>, n: nat)
    requires WellFormed(q)
    requires 1 <= n <= |q| && !q[n - 1].more
    requires forall i :: 0 <= i < n - 1 ==> q[i].more
    ensures MessageLen(q) == n
  {
  }

  /** The first message of a queue is still the first message once more
      frames are queued behind it. */
  lemma {:induction false} MessageLenAppend(w: seq<Frame>, rest: seq<Frame>)
    requires WellFormed(w) && WellFormed(rest) && w != []
    ensures WellFormed(w + rest)
    ensures MessageLen(w + rest) == MessageLen(w)
  {
    if rest != [] {
      assert (w + rest)[|w + rest| - 1] == rest[|rest| - 1];
    }
    if w[0].more {
      assert |w| > 1;
      assert (w + rest)[1..] == w[1..] + rest;
      MessageLenAppend(w[1..], rest);
    }
  }

  /** Taking k frames off the front of a message leaves the rest of that
      message in front. */
  lemma MessageLenDrop(q: seq<Frame>, k: nat)
    requires WellFormed(q) && k < MessageLen(q)
    ensures WellFormed(q[k..]) && q[k..] != []
    ensures MessageLen(q[k..]) == MessageLen(q) - k
  {
    var n := MessageLen(q);
    var r := q[k..];
    forall i | 0 <= i < n - k - 1
      ensures r[i].more
    {
      assert r[i] == q[k + i];
    }
    MessageLenUnique(r, n - k);
  }

  /** The buffer `buf` after `frame` was received into it: as many leading
      bytes of the frame as fit are copied, and the rest of the buffer is
      left as it was. */
  function Overwrite(buf: seq<bv8>, frame: seq<bv8>): (r: seq<bv8>)
    ensures |r| == |buf|
  {
    if |frame| < |buf| then frame + buf[|frame|..] else frame[..|buf|]
  }

  /** Byte by byte: the frame's bytes where it reaches, the old ones beyond. */
  lemma OverwriteAt(buf: seq<bv8>, frame: seq<bv8>, i: nat)
    requires i < |buf|
    ensures Overwrite(buf, frame)[i] == if i < |frame| then frame[i] else buf[i]
  {
  }

  /** A frame that fits is found whole at the front of the buffer; one that
      does not fit leaves its leading bytes filling the buffer. */
  lemma OverwritePrefix(buf: seq<bv8>, frame: seq<bv8>)
    ensures |frame| <= |buf| ==> Overwrite(buf, frame)[..|frame|] == frame
    ensures |frame| >= |buf| ==> Overwrite(buf, frame) == frame[..|buf|]
  {
  }

  /** A subscriber socket holding the frames not yet received. */
  class Socket {
    /** Frames queued on the socket, oldest first. */
    var pending: seq<Frame>
    /** The "more frames follow" flag of the frame received last. */
    var rcvmore: bool

    ghost predicate Valid()
      reads this
    {
      WellFormed(pending) && (rcvmore ==> pending != [])
    }

    constructor (queued: seq<Frame>)
      requires WellFormed(queued)
      ensures Valid() && pending == queued && !rcvmore
    {
      pending := queued;
      rcvmore := false;
    }

    /** Receives one frame into `buf`: copies as many of its bytes as fit and
        reports the frame's full length, which may exceed the buffer's. */
    method RecvInto(buf: array<bv8>) returns (len: nat)
      requires Valid() && pending != []
      modifies this, buf
      ensures Valid()
      ensures pending == old(pending)[1..] && rcvmore == old(pending)[0].more
      ensures len == |old(pending)[0].bytes|
      ensures buf[..] == Overwrite(old(buf[..]), old(pending)[0].bytes)
      ensures len <= buf.Length ==> buf[..len] == old(pending)[0].bytes
      ensures len >= buf.Length ==> buf[..] == old(pending)[0].bytes[..buf.Length]
    {
      var frame := pending[0];
      var fit := if |frame.bytes| < buf.Length then |frame.bytes| else buf.Length;
      var i := 0;
      while i < fit
        modifies buf
        invariant 0 <= i <= fit
        invariant forall j :: 0 <= j < i ==> buf[j] == frame.bytes[j]
        invariant forall j :: i <= j < buf.Length ==> buf[j] == old(buf[j])
      {
        buf[i] := frame.bytes[i];
        i := i + 1;
      }
      forall j | 0 <= j < buf.Length
        ensures buf[j] == Overwrite(old(buf[..]), frame.bytes)[j]
      {
        OverwriteAt(old(buf[..]), frame.bytes, j);
      }
      OverwritePrefix(old(buf[..]), frame.bytes);
      assert |pending| > 1 ==> pending[1..][|pending| - 2] == pending[|pending| - 1];
      pending := pending[1..];
      rcvmore := frame.more;
      len := |frame.bytes|;
    }

    /** Whether the frame received last said that more frames follow. */
    method GetRcvmore() returns (more: bool)
      requires Valid()
      ensures more == rcvmore
      ensures more ==> pending != []
    {
      more := rcvmore;
    }
  }
}
