/**
 * The serial link to the camera, seen from the driver. The transport library is not part of
 * this model; it is replaced by an oracle: the replies the device will send, one per command
 * written, and the input buffer of bytes that have arrived but have not been read yet.
 * Writing a command and then waiting the fixed settle delay makes the device's next reply
 * arrive in the input buffer; the reads take bytes from the front of that buffer.
 */
module Serial {
  import opened Bytes

  /** What the driver can observe of the link: bytes waiting to be read, replies still to come. */
  datatype Link = Link(pending: seq<Byte>, replies: seq<seq<Byte>>)

  /** A write followed by the settle delay: the device's next reply, if any, has arrived. */
  function Deliver(l: Link): (l': Link)
    ensures l.replies == [] ==> l' == l
    ensures l.replies != [] ==> l'.pending == l.pending + l.replies[0] && l'.replies == l.replies[1..]
  {
    if l.replies == [] then l else Link(l.pending + l.replies[0], l.replies[1..])
  }

  /** `read(n)`: the first n waiting bytes, or all of them when fewer than n are waiting. */
  function Take(l: Link, n: nat): (r: (seq<Byte>, Link))
    ensures r.0 + r.1.pending == l.pending && r.1.replies == l.replies
    ensures |r.0| == if n <= |l.pending| then n else |l.pending|
  {
    var k := if n <= |l.pending| then n else |l.pending|;
    (l.pending[..k], Link(l.pending[k..], l.replies))
  }

  /** `read_all()`: every waiting byte; the input buffer is empty afterwards. */
  function TakeAll(l: Link): (r: (seq<Byte>, Link))
    ensures r.0 == l.pending && r.1 == Link([], l.replies)
  {
    (l.pending, Link([], l.replies))
  }

  /** An open serial connection. */
  class Port {
    var pending: seq<Byte>
    var replies: seq<seq<Byte>>
    /** Every command written so far, oldest first. */
    ghost var written: seq<seq<Byte>>

    function State(): Link
      reads this
    {
      Link(pending, replies)
    }

    constructor (deviceReplies: seq<seq<Byte>>)
      ensures State() == Link([], deviceReplies) && written == []
    {
      pending, replies := [], deviceReplies;
      written := [];
    }

    /** `write(cmd)` followed by `time.sleep(TIMEOUT)`. */
    method Write(cmd: seq<Byte>)
      modifies this
      ensures State() == Deliver(old(State()))
      ensures written == old(written) + [cmd]
    {
      written := written + [cmd];
      if replies != [] {
        pending, replies := pending + replies[0], replies[1..];
      }
    }

    /** `read(n)`. */
    method Read(n: nat) returns (data: seq<Byte>)
      modifies this
      ensures (data, State()) == Take(old(State()), n)
      ensures written == old(written)
    {
      var k := if n <= |pending| then n else |pending|;
      data, pending := pending[..k], pending[k..];
    }

    /** `read_all()`. */
    method ReadAll() returns (data: seq<Byte>)
      modifies this
      ensures (data, State()) == TakeAll(old(State()))
      ensures written == old(written)
    {
      data, pending := pending, [];
    }
  }
}
