/** A model of one connected TCP socket, as seen by the server.

    The server never inspects the socket beyond `recv` and `send`, so the model
    keeps only what those two calls observe:

    - the inbound side is the bytes the peer has delivered and will deliver, in
      order, cut into the segments they arrive in, followed by how the stream
      ends (an orderly close, seen by `recv` as 0, or an error, seen as -1); a
      single `recv` never returns bytes of two different segments;
    - the outbound side is a script saying how much of each successive `send`
      the peer accepts, and the bytes transmitted so far.

    The socket is state of the operating system, so it is modelled as a value
    that every operation takes and returns. */
module Sockets {

  type byte = x: int | 0 <= x < 256

  datatype StreamEnd = PeerClosed | ConnReset

  /** `bytes` is everything the peer delivers from stream offset `offset` on
      before the stream ends; `segmentEnds` holds the stream offsets of the
      bytes that end a segment (the last byte always ends one). */
  datatype Inbound = Inbound(bytes: seq<byte>, segmentEnds: set<nat>, offset: nat, end: StreamEnd)

  /** `accepts[k]` is what the peer does with the k-th next send: a negative
      value fails it, a value `n >= 0` accepts at most `n` bytes. Once the
      script is exhausted every send is accepted in full. */
  datatype Outbound = Outbound(accepts: seq<int>, sent: seq<byte>)

  datatype Conn = Conn(inbound: Inbound, outbound: Outbound)

  /** What `recv` returns once the buffered data is exhausted. */
  function EndCode(e: StreamEnd): (r: int)
    ensures r <= 0
    ensures r == 0 <==> e == PeerClosed
  {
    match e
    case PeerClosed => 0
    case ConnReset => -1
  }

  /** Every byte the peer delivers before the stream ends. */
  function Pending(inb: Inbound): seq<byte>
  {
    inb.bytes
  }

  /** The length of the first segment among `len` bytes starting at stream
      offset `offset`. */
  function SegmentLength(len: nat, segmentEnds: set<nat>, offset: nat): (n: nat)
    ensures n <= len
    ensures len > 0 ==> n > 0
    ensures len > 0 && offset in segmentEnds ==> n == 1
    decreases len
  {
    if len == 0 then 0
    else if offset in segmentEnds then 1
    else 1 + SegmentLength(len - 1, segmentEnds, offset + 1)
  }

  /** The inbound side after `n` bytes have been taken from the front. */
  function Drop(inb: Inbound, n: nat): (d: Inbound)
    requires n <= |Pending(inb)|
    ensures d.end == inb.end
    ensures Pending(d) == Pending(inb)[n..]
  {
    Inbound(inb.bytes[n..], inb.segmentEnds, inb.offset + n, inb.end)
  }

  lemma DropDrop(inb: Inbound, a: nat, b: nat)
    requires a + b <= |Pending(inb)|
    ensures Drop(Drop(inb, a), b) == Drop(inb, a + b)
  {
    assert inb.bytes[a..][b..] == inb.bytes[a + b..];
  }

  datatype Received = Received(count: int, bytes: seq<byte>, rest: Inbound)

  /** `recv(fd, buf, max, 0)`: returns the next bytes of the current segment,
      at most `max` of them, or the end code once nothing is left. */
  function Recv(inb: Inbound, max: nat): (rr: Received)
    requires max > 0
    ensures rr.count > 0 <==> Pending(inb) != []
    ensures rr.count <= 0 ==> rr.count == EndCode(inb.end) && rr.bytes == [] && rr.rest == inb
    ensures rr.count > 0 ==>
              && rr.count == |rr.bytes| <= max
              && rr.count <= |Pending(inb)|
              && rr.bytes == Pending(inb)[..rr.count]
              && rr.rest == Drop(inb, rr.count)
  {
    if inb.bytes == [] then Received(EndCode(inb.end), [], inb)
    else
      var seg := SegmentLength(|inb.bytes|, inb.segmentEnds, inb.offset);
      var n := if seg <= max then seg else max;
      Received(n, inb.bytes[..n], Drop(inb, n))
  }

  datatype Sent = Sent(count: int, rest: Outbound)

  /** `send(fd, data, |data|, 0)`: transmits the prefix the peer accepts, or
      fails with -1 and transmits nothing. */
  function Send(out: Outbound, data: seq<byte>): (s: Sent)
    ensures s.count == -1 || 0 <= s.count <= |data|
    ensures s.count == -1 ==> s.rest.sent == out.sent
    ensures s.count >= 0 ==> s.rest.sent == out.sent + data[..s.count]
    ensures out.accepts == [] ==> s.count == |data| && s.rest == Outbound([], out.sent + data)
  {
    if out.accepts == [] then Sent(|data|, Outbound([], out.sent + data))
    else
      var k := out.accepts[0];
      if k < 0 then Sent(-1, Outbound(out.accepts[1..], out.sent))
      else
        var n := if k < |data| then k else |data|;
        Sent(n, Outbound(out.accepts[1..], out.sent + data[..n]))
  }

  /** The characters a C `char` buffer holds after `recv` stores bytes in it. */
  function ToText(b: seq<byte>): (s: string)
    ensures |s| == |b|
    ensures forall i :: 0 <= i < |b| ==> s[i] as int == b[i]
  {
    seq(|b|, i requires 0 <= i < |b| => b[i] as char)
  }
}
