/** The vector phase of a session: a 32-bit count, then for each vector a
    32-bit length and that many 32-bit elements; one 32-bit result goes back
    per vector, in order, and the first failure aborts the batch.

    `VectorHandler` holds nothing but a logger, so its operations are
    module-level members here. */
module VectorBatch {
  import opened Sockets
  import opened NetworkUtils
  import opened VectorProcessing

  const MAX_VECTORS: nat := 100000
  const MAX_VECTOR_SIZE: nat := 10000000

  type i32 = x: int | -0x8000_0000 <= x < 0x8000_0000

  /** `VectorHandler::validateVectorCount`. */
  function ValidateVectorCount(count: u32): (ok: bool)
    ensures ok <==> 1 <= count <= MAX_VECTORS
  {
    count > 0 && count <= MAX_VECTORS
  }

  /** `VectorHandler::validateVectorSize`. */
  function ValidateVectorSize(size: u32): (ok: bool)
    ensures ok <==> 1 <= size <= MAX_VECTOR_SIZE
  {
    size > 0 && size <= MAX_VECTOR_SIZE
  }

  /** Why a batch stopped. */
  datatype FrameError = LengthUnreadable | LengthOutOfRange(len: u32) | DataUnreadable
  datatype BatchError =
    | CountUnreadable
    | CountOutOfRange(count: u32)
    | VectorFailed(index: nat, why: FrameError)
    | ResultNotSent(index: nat)

  datatype Outcome = Completed(vectors: nat, numbers: nat) | Aborted(error: BatchError)

  datatype CountRead = CountRead(count: u32, error: Option<BatchError>, rest: Inbound)

  /** `readVectorCount`: a 32-bit word that must be a valid count; a short
      read and an out-of-range count both abort. */
  function ReadCount(inb: Inbound): (r: CountRead)
    ensures r.error.None? <==> |Pending(inb)| >= 4 && ValidateVectorCount(DecodeU32(Pending(inb)[..4]))
    ensures r.error == Some(CountUnreadable) <==> |Pending(inb)| < 4
    ensures r.error.None? ==> r.count == DecodeU32(Pending(inb)[..4])
    ensures |Pending(inb)| >= 4 ==> r.rest == Drop(inb, 4)
    ensures r.error.Some? && r.error.value != CountUnreadable ==>
              r.error.value == CountOutOfRange(DecodeU32(Pending(inb)[..4]))
  {
    var h := ReadExact(inb, 4);
    if h.count != 4 then CountRead(0, Some(CountUnreadable), h.rest)
    else
      var k := DecodeU32(h.bytes);
      if !ValidateVectorCount(k) then CountRead(k, Some(CountOutOfRange(k)), h.rest)
      else CountRead(k, None, h.rest)
  }

  datatype FrameOutcome = Vector(elems: seq<u32>) | Malformed(why: FrameError)
  datatype FrameRead = FrameRead(outcome: FrameOutcome, rest: Inbound)

  /** The bytes of one vector frame: its length, then its elements. */
  function EncodeFrame(v: seq<u32>): (b: seq<byte>)
    requires |v| < 0x1_0000_0000
    ensures |b| == 4 + 4 * |v|
  {
    EncodeU32(|v|) + EncodeU32s(v)
  }

  /** `readVector` as a function of the stream: the length word, its range
      check, then `4 * length` element bytes. */
  function ReadFrame(inb: Inbound): (r: FrameRead)
    ensures r.outcome == Malformed(LengthUnreadable) <==> |Pending(inb)| < 4
  {
    var h := ReadExact(inb, 4);
    if h.count != 4 then FrameRead(Malformed(LengthUnreadable), h.rest)
    else
      var len := DecodeU32(h.bytes);
      if !ValidateVectorSize(len) then FrameRead(Malformed(LengthOutOfRange(len)), h.rest)
      else
        var d := ReadExact(h.rest, 4 * len);
        if d.count != 4 * len then FrameRead(Malformed(DataUnreadable), d.rest)
        else FrameRead(Vector(DecodeU32s(d.bytes)), d.rest)
  }

  /** A length that is out of range fails before any element byte is
      consumed. */
  lemma ReadFrameLengthRejected(inb: Inbound)
    requires ReadFrame(inb).outcome.Malformed? && ReadFrame(inb).outcome.why.LengthOutOfRange?
    ensures var len := ReadFrame(inb).outcome.why.len;
            && |Pending(inb)| >= 4
            && !ValidateVectorSize(len)
            && Pending(inb)[..4] == EncodeU32(len)
            && ReadFrame(inb).rest == Drop(inb, 4)
  {
    U32BytesRoundTrip(Pending(inb)[..4]);
  }

  /** A frame that is read successfully is the next `4 + 4 * n` bytes: a
      valid length `n`, then `n` elements. */
  lemma ReadFrameVector(inb: Inbound)
    requires ReadFrame(inb).outcome.Vector?
    ensures var v := ReadFrame(inb).outcome.elems;
            && 1 <= |v| <= MAX_VECTOR_SIZE
            && |Pending(inb)| >= 4 + 4 * |v|
            && Pending(inb)[..4 + 4 * |v|] == EncodeFrame(v)
            && ReadFrame(inb).rest == Drop(inb, 4 + 4 * |v|)
  {
    var p := Pending(inb);
    var h := ReadExact(inb, 4);
    var len := DecodeU32(h.bytes);
    assert h.count == 4 && ValidateVectorSize(len);
    var d := ReadExact(h.rest, 4 * len);
    assert d.count == 4 * len;
    ReadExactTwice(inb, 4, 4 * len);
    assert (4 * len) % 4 == 0 && (4 * len) / 4 == len;
    var v := DecodeU32s(d.bytes);
    assert ReadFrame(inb) == FrameRead(Vector(v), d.rest);
    U32BytesRoundTrip(h.bytes);
    U32sBytesRoundTrip(d.bytes);
  }

  /** The bytes `b` are the next ones on the stream. */
  predicate Fronts(inb: Inbound, b: seq<byte>)
  {
    |Pending(inb)| >= |b| && Pending(inb)[..|b|] == b
  }

  lemma FrontsSplit(inb: Inbound, x: seq<byte>, y: seq<byte>)
    requires Fronts(inb, x + y)
    ensures Fronts(inb, x) && Fronts(Drop(inb, |x|), y)
  {
    assert Pending(inb)[..|x|] == (x + y)[..|x|];
    assert Pending(Drop(inb, |x|))[..|y|] == (x + y)[|x|..];
  }

  /** The converse: a well-formed frame at the front of the stream is read
      back as exactly its vector. */
  lemma ReadFrameOfEncoding(inb: Inbound, v: seq<u32>)
    requires 1 <= |v| <= MAX_VECTOR_SIZE
    requires Fronts(inb, EncodeFrame(v))
    ensures ReadFrame(inb) == FrameRead(Vector(v), Drop(inb, 4 + 4 * |v|))
  {
    var p := Pending(inb);
    assert p[..4] == EncodeU32(|v|) by {
      assert p[..4] == p[..4 + 4 * |v|][..4];
    }
    U32RoundTrip(|v|);
    assert Pending(Drop(inb, 4))[..4 * |v|] == EncodeU32s(v) by {
      assert Pending(Drop(inb, 4))[..4 * |v|] == p[..4 + 4 * |v|][4..];
    }
    U32sRoundTrip(v);
    DropDrop(inb, 4, 4 * |v|);
  }

  /** `VectorHandler::readVectorCount`. */
  method ReadVectorCount(inb: Inbound) returns (r: CountRead)
    ensures r == ReadCount(inb)
  {
    var value, rest := ReadNetworkUint32(inb);
    if value.None? {
      return CountRead(0, Some(CountUnreadable), rest);
    }
    if !ValidateVectorCount(value.value) {
      return CountRead(value.value, Some(CountOutOfRange(value.value)), rest);
    }
    return CountRead(value.value, None, rest);
  }

  /** `VectorHandler::readVector`: the size word, its range check, then the
      elements, read with `recvAll` into a buffer of exactly that size. */
  method ReadVector(inb: Inbound) returns (r: FrameRead)
    ensures r == ReadFrame(inb)
  {
    var size, rest := ReadNetworkUint32(inb);
    if size.None? {
      return FrameRead(Malformed(LengthUnreadable), rest);
    }
    if !ValidateVectorSize(size.value) {
      return FrameRead(Malformed(LengthOutOfRange(size.value)), rest);
    }
    var bytes := size.value * 4;
    var got, data, rest' := RecvAll(rest, bytes);
    if got != bytes {
      return FrameRead(Malformed(DataUnreadable), rest');
    }
    return FrameRead(Vector(DecodeU32s(data)), rest');
  }

  /** `VectorHandler::processVector`: the clamped sum. */
  method ProcessVector(v: seq<u32>) returns (r: i32)
    ensures r == ClampedSum(v)
  {
    var s := SumClamp(v);
    r := s;
  }

  /** The unsigned word an `int32_t` becomes when passed as `uint32_t`. */
  function AsU32(x: i32): (w: u32)
    ensures 0 <= x ==> w == x
    ensures w % 0x1_0000_0000 == x % 0x1_0000_0000
  {
    if x < 0 then x + 0x1_0000_0000 else x
  }

  /** `VectorHandler::sendResult`: the result as one 32-bit word. */
  function SendResult(out: Outbound, result: i32): (r: (bool, Outbound))
    ensures r == SendNetworkUint32(out, AsU32(result))
    ensures 0 <= result && r.0 ==> r.1.sent == out.sent + EncodeU32(result)
  {
    SendNetworkUint32(out, AsU32(result))
  }

  datatype Run = Run(outcome: Outcome, conn: Conn)

  /** The loop of `process` from vector `i` of `n` on, with the counters
      `total_vectors` and `total_numbers` so far, where `readFrame` is what
      reading one frame does. `Batch` runs it with `ReadFrame`; the
      properties below are proved for every reader, so they hold for that
      one in particular. */
  function Vectors(readFrame: Inbound -> FrameRead, c: Conn, i: nat, n: nat,
                   totalVectors: nat, totalNumbers: nat): Run
    requires i <= n
    decreases n - i
  {
    if i == n then Run(Completed(totalVectors, totalNumbers), c)
    else
      var f := readFrame(c.inbound);
      match f.outcome
      case Malformed(why) => Run(Aborted(VectorFailed(i, why)), Conn(f.rest, c.outbound))
      case Vector(v) =>
        var s := SendResult(c.outbound, ClampedSum(v));
        if !s.0 then Run(Aborted(ResultNotSent(i)), Conn(f.rest, s.1))
        else Vectors(readFrame, Conn(f.rest, s.1), i + 1, n, totalVectors + 1, totalNumbers + |v|)
  }

  /** `VectorHandler::process` as a function of the connection. */
  function Batch(c: Conn): Run
  {
    var cr := ReadCount(c.inbound);
    if cr.error.Some? then Run(Aborted(cr.error.value), Conn(cr.rest, c.outbound))
    else Vectors(ReadFrame, Conn(cr.rest, c.outbound), 0, cr.count, 0, 0)
  }

  /** `VectorHandler::process`: the count, then the loop over the vectors. */
  method Process(c: Conn) returns (outcome: Outcome, c': Conn)
    ensures Run(outcome, c') == Batch(c)
  {
    var count := ReadVectorCount(c.inbound);
    if count.error.Some? {
      return Aborted(count.error.value), Conn(count.rest, c.outbound);
    }
    outcome, c' := ProcessVectors(Conn(count.rest, c.outbound), count.count);
  }

  /** The loop of `VectorHandler::process` over `n` vectors: read one, send
      its clamped sum, and stop at the first failure. */
  method ProcessVectors(start: Conn, n: nat) returns (outcome: Outcome, c': Conn)
    ensures Run(outcome, c') == Vectors(ReadFrame, start, 0, n, 0, 0)
  {
    ghost var run := Vectors(ReadFrame, start, 0, n, 0, 0);
    var cur := start;
    var totalVectors: nat, totalNumbers: nat := 0, 0;
    for i := 0 to n
      invariant Vectors(ReadFrame, cur, i, n, totalVectors, totalNumbers) == run
    {
      var frame := ReadVector(cur.inbound);
      if frame.outcome.Malformed? {
        return Aborted(VectorFailed(i, frame.outcome.why)), Conn(frame.rest, cur.outbound);
      }
      var result := ProcessVector(frame.outcome.elems);
      var sent := SendResult(cur.outbound, result);
      if !sent.0 {
        return Aborted(ResultNotSent(i)), Conn(frame.rest, sent.1);
      }
      cur := Conn(frame.rest, sent.1);
      totalVectors := totalVectors + 1;
      totalNumbers := totalNumbers + |frame.outcome.elems|;
    }
    return Completed(totalVectors, totalNumbers), cur;
  }

  // ---------------------------------------------------------------------
  // Properties of a batch

  predicate WellSized(vs: seq<seq<u32>>)
  {
    forall k :: 0 <= k < |vs| ==> 1 <= |vs[k]| <= MAX_VECTOR_SIZE
  }

  /** The frames of the vectors `vs`, one after another. */
  function EncodeFrames(vs: seq<seq<u32>>): seq<byte>
    requires WellSized(vs)
  {
    if vs == [] then [] else EncodeFrame(vs[0]) + EncodeFrames(vs[1..])
  }

  /** What a client sends for the batch `vs`. */
  function EncodeBatch(vs: seq<seq<u32>>): seq<byte>
    requires WellSized(vs) && |vs| < 0x1_0000_0000
  {
    EncodeU32(|vs|) + EncodeFrames(vs)
  }

  /** The results the server answers for `vs`, one word per vector. */
  function Results(vs: seq<seq<u32>>): seq<byte>
  {
    if vs == [] then [] else EncodeU32(ClampedSum(vs[0])) + Results(vs[1..])
  }

  function TotalSize(vs: seq<seq<u32>>): nat
  {
    if vs == [] then 0 else |vs[0]| + TotalSize(vs[1..])
  }

  lemma EncodeFramesCons(vs: seq<seq<u32>>)
    requires vs != [] && WellSized(vs)
    ensures WellSized(vs[1..])
    ensures EncodeFrames(vs) == EncodeFrame(vs[0]) + EncodeFrames(vs[1..])
  {
    assert WellSized(vs[1..]) by {
      forall j | 0 <= j < |vs| - 1 ensures 1 <= |vs[1..][j]| <= MAX_VECTOR_SIZE {
        assert vs[1..][j] == vs[j + 1];
      }
    }
  }

  /** Reading frames one after another yields the vectors `vs`: `ins[j]` is
      the inbound side before frame `j`, and `ins[|vs|]` what is left after
      the last one. */
  predicate ReadsAt(readFrame: Inbound -> FrameRead, ins: seq<Inbound>, vs: seq<seq<u32>>)
  {
    && |ins| == |vs| + 1
    && forall j {:trigger readFrame(ins[j])} :: 0 <= j < |vs| ==> readFrame(ins[j]) == FrameRead(Vector(vs[j]), ins[j + 1])
  }

  lemma ReadsAtTail(readFrame: Inbound -> FrameRead, ins: seq<Inbound>, vs: seq<seq<u32>>)
    requires vs != [] && ReadsAt(readFrame, ins, vs)
    ensures ReadsAt(readFrame, ins[1..], vs[1..])
  {
    forall j | 0 <= j < |vs| - 1
      ensures readFrame(ins[1..][j]) == FrameRead(Vector(vs[1..][j]), ins[1..][j + 1])
    {
      assert ins[1..][j] == ins[j + 1] && ins[1..][j + 1] == ins[j + 2] && vs[1..][j] == vs[j + 1];
    }
  }

  /** `ins[j]` starts with the frame of `vs[j]`, and `ins[j + 1]` is what
      follows that frame. */
  predicate LaidOut(ins: seq<Inbound>, vs: seq<seq<u32>>)
  {
    && |ins| == |vs| + 1 && WellSized(vs)
    && forall j :: 0 <= j < |vs| ==>
         Fronts(ins[j], EncodeFrame(vs[j])) && ins[j + 1] == Drop(ins[j], 4 + 4 * |vs[j]|)
  }

  /** The frames of `vs` at the front of a stream lie one after another. */
  lemma {:induction false} FramesLaidOut(inb: Inbound, vs: seq<seq<u32>>) returns (ins: seq<Inbound>)
    requires WellSized(vs) && Fronts(inb, EncodeFrames(vs))
    ensures LaidOut(ins, vs)
    ensures ins[0] == inb && ins[|vs|] == Drop(inb, |EncodeFrames(vs)|)
    decreases |vs|
  {
    if vs == [] {
      assert Drop(inb, 0) == inb;
      ins := [inb];
    } else {
      EncodeFramesCons(vs);
      var k, m := |EncodeFrame(vs[0])|, |EncodeFrames(vs[1..])|;
      FrontsSplit(inb, EncodeFrame(vs[0]), EncodeFrames(vs[1..]));
      var ins' := FramesLaidOut(Drop(inb, k), vs[1..]);
      DropDrop(inb, k, m);
      ins := [inb] + ins';
      assert ins[|vs|] == ins'[|vs[1..]|];
      LaidOutCons(inb, vs, ins');
    }
  }

  lemma LaidOutCons(inb: Inbound, vs: seq<seq<u32>>, ins': seq<Inbound>)
    requires vs != [] && WellSized(vs) && LaidOut(ins', vs[1..])
    requires Fronts(inb, EncodeFrame(vs[0])) && ins'[0] == Drop(inb, 4 + 4 * |vs[0]|)
    ensures LaidOut([inb] + ins', vs)
  {
    var ins := [inb] + ins';
    forall j | 0 <= j < |vs|
      ensures Fronts(ins[j], EncodeFrame(vs[j])) && ins[j + 1] == Drop(ins[j], 4 + 4 * |vs[j]|)
    {
      if j > 0 {
        assert ins[j] == ins'[j - 1] && ins[j + 1] == ins'[j] && vs[j] == vs[1..][j - 1];
      }
    }
  }

  /** The stream that starts with the frames of `vs` is read back as
      exactly those vectors, and nothing beyond them is consumed. */
  lemma FramesOfEncoding(inb: Inbound, vs: seq<seq<u32>>) returns (ins: seq<Inbound>)
    requires WellSized(vs) && Fronts(inb, EncodeFrames(vs))
    ensures ReadsAt(ReadFrame, ins, vs)
    ensures ins[0] == inb && ins[|vs|] == Drop(inb, |EncodeFrames(vs)|)
  {
    ins := FramesLaidOut(inb, vs);
    forall j | 0 <= j < |vs|
      ensures ReadFrame(ins[j]) == FrameRead(Vector(vs[j]), ins[j + 1])
    {
      ReadFrameOfEncoding(ins[j], vs[j]);
    }
  }

  /** For a peer that accepts every send, the `n - i` vectors `vs` read in a
      row are all answered: one result per vector in input order, and the
      counters grow by the number of vectors and of elements. */
  lemma {:induction false} VectorsOfReads(readFrame: Inbound -> FrameRead, out: Outbound, i: nat, n: nat,
                                          tv: nat, tn: nat, vs: seq<seq<u32>>, ins: seq<Inbound>)
    requires i + |vs| == n
    requires out.accepts == []
    requires ReadsAt(readFrame, ins, vs)
    ensures Vectors(readFrame, Conn(ins[0], out), i, n, tv, tn).outcome == Completed(tv + |vs|, tn + TotalSize(vs))
    ensures Vectors(readFrame, Conn(ins[0], out), i, n, tv, tn).conn
            == Conn(ins[|vs|], Outbound([], out.sent + Results(vs)))
    decreases |vs|
  {
    if vs == [] {
      assert out.sent + Results(vs) == out.sent;
    } else {
      var v := vs[0];
      assert readFrame(ins[0]) == FrameRead(Vector(v), ins[1]);
      var out' := Outbound([], out.sent + EncodeU32(ClampedSum(v)));
      ReadsAtTail(readFrame, ins, vs);
      VectorsOfReads(readFrame, out', i + 1, n, tv + 1, tn + |v|, vs[1..], ins[1..]);
      assert out.sent + Results(vs) == out'.sent + Results(vs[1..]);
    }
  }

  /** A well-formed batch for a peer that accepts every send is processed
      whole: one result per vector in input order, the counters equal to the
      number of vectors and the number of elements, and nothing beyond the
      batch consumed. */
  lemma BatchOfEncoding(c: Conn, vs: seq<seq<u32>>)
    requires 1 <= |vs| <= MAX_VECTORS && WellSized(vs)
    requires c.outbound.accepts == []
    requires Fronts(c.inbound, EncodeBatch(vs))
    ensures Batch(c)
            == Run(Completed(|vs|, TotalSize(vs)),
                   Conn(Drop(c.inbound, |EncodeBatch(vs)|),
                        Outbound([], c.outbound.sent + Results(vs))))
  {
    FrontsSplit(c.inbound, EncodeU32(|vs|), EncodeFrames(vs));
    BatchOfCountAndFrames(c, vs);
    DropDrop(c.inbound, 4, |EncodeFrames(vs)|);
  }

  lemma BatchOfCountAndFrames(c: Conn, vs: seq<seq<u32>>)
    requires 1 <= |vs| <= MAX_VECTORS && WellSized(vs) && c.outbound.accepts == []
    requires Fronts(c.inbound, EncodeU32(|vs|)) && Fronts(Drop(c.inbound, 4), EncodeFrames(vs))
    ensures Batch(c)
            == Run(Completed(|vs|, TotalSize(vs)),
                   Conn(Drop(Drop(c.inbound, 4), |EncodeFrames(vs)|), Outbound([], c.outbound.sent + Results(vs))))
  {
    BatchOfCount(c, |vs|);
    VectorsOfFrames(Conn(Drop(c.inbound, 4), c.outbound), vs);
  }

  /** The frames of `vs` at the front of the stream, for a peer that accepts
      every send, are all read and answered. */
  lemma VectorsOfFrames(c: Conn, vs: seq<seq<u32>>)
    requires WellSized(vs) && c.outbound.accepts == []
    requires Fronts(c.inbound, EncodeFrames(vs))
    ensures Vectors(ReadFrame, c, 0, |vs|, 0, 0)
            == Run(Completed(|vs|, TotalSize(vs)),
                   Conn(Drop(c.inbound, |EncodeFrames(vs)|), Outbound([], c.outbound.sent + Results(vs))))
  {
    var ins := FramesOfEncoding(c.inbound, vs);
    VectorsOfReadsFromStart(ReadFrame, c.outbound, vs, ins);
  }

  lemma VectorsOfReadsFromStart(readFrame: Inbound -> FrameRead, out: Outbound, vs: seq<seq<u32>>, ins: seq<Inbound>)
    requires out.accepts == [] && ReadsAt(readFrame, ins, vs)
    ensures Vectors(readFrame, Conn(ins[0], out), 0, |vs|, 0, 0)
            == Run(Completed(|vs|, TotalSize(vs)), Conn(ins[|vs|], Outbound([], out.sent + Results(vs))))
  {
    VectorsOfReads(readFrame, out, 0, |vs|, 0, 0, vs, ins);
  }

  /** A valid count at the front of the stream is consumed and starts the
      loop over that many vectors. */
  lemma BatchOfCount(c: Conn, n: nat)
    requires 1 <= n <= MAX_VECTORS && Fronts(c.inbound, EncodeU32(n))
    ensures Batch(c) == Vectors(ReadFrame, Conn(Drop(c.inbound, 4), c.outbound), 0, n, 0, 0)
  {
    U32RoundTrip(n);
  }

  /** A count outside 1..100000 reads no vector frame and sends nothing; an
      unreadable count likewise sends nothing. */
  lemma CountRejectedBeforeFrames(c: Conn)
    requires ReadCount(c.inbound).error.Some?
    ensures Batch(c).outcome == Aborted(ReadCount(c.inbound).error.value)
    ensures Batch(c).conn.outbound == c.outbound
    ensures |Pending(c.inbound)| >= 4 ==> Batch(c).conn.inbound == Drop(c.inbound, 4)
  {
  }

  /** The vectors read before the first frame that fails, at most `k`. */
  function FramesRead(readFrame: Inbound -> FrameRead, inb: Inbound, k: nat): seq<seq<u32>>
    decreases k
  {
    if k == 0 then []
    else
      var f := readFrame(inb);
      match f.outcome
      case Malformed(_) => []
      case Vector(v) => [v] + FramesRead(readFrame, f.rest, k - 1)
  }

  /** One more frame read: the vectors read from a stream whose next frame
      is `v` are `v` followed by those read after it. */
  lemma FramesReadCons(readFrame: Inbound -> FrameRead, inb: Inbound, k: nat)
    requires k > 0 && readFrame(inb).outcome.Vector?
    ensures var f := readFrame(inb);
            FramesRead(readFrame, inb, k) == [f.outcome.elems] + FramesRead(readFrame, f.rest, k - 1)
  {
  }

  /** For a peer that accepts every send, the loop answers exactly the vectors
      it manages to read, in order, one word each. */
  lemma {:induction false} VectorsAnswerFramesRead(readFrame: Inbound -> FrameRead, c: Conn,
                                                   i: nat, n: nat, tv: nat, tn: nat)
    requires i <= n && c.outbound.accepts == []
    ensures Vectors(readFrame, c, i, n, tv, tn).conn.outbound
            == Outbound([], c.outbound.sent + Results(FramesRead(readFrame, c.inbound, n - i)))
    decreases n - i
  {
    if i < n {
      var f := readFrame(c.inbound);
      if f.outcome.Vector? {
        var v := f.outcome.elems;
        var c' := Conn(f.rest, Outbound([], c.outbound.sent + EncodeU32(ClampedSum(v))));
        VectorsAnswerFramesRead(readFrame, c', i + 1, n, tv + 1, tn + |v|);
        AnswersCons(readFrame, c.inbound, n - i, c.outbound.sent, c'.outbound.sent);
      }
    } else {
      assert c.outbound.sent + Results([]) == c.outbound.sent;
    }
  }

  /** A result that does not go out whole leaves at most a proper prefix of
      its word transmitted. */
  lemma SendResultShort(out: Outbound, result: i32)
    requires 0 <= result && !SendResult(out, result).0
    ensures var sent := SendResult(out, result).1.sent;
            && Extends(out.sent, sent)
            && Extends(sent, out.sent + EncodeU32(result))
            && |sent| < |out.sent + EncodeU32(result)|
  {
    var w := EncodeU32(result);
    var s := Send(out, w);
    assert (out.sent + w)[..|out.sent|] == out.sent;
    if s.count >= 0 {
      assert (out.sent + w)[..|s.rest.sent|] == s.rest.sent;
    }
  }

  /** The results of `[v] + vs`: the word for `v`, then those of `vs`. */
  lemma ResultsCons(v: seq<u32>, vs: seq<seq<u32>>)
    ensures Results([v] + vs) == EncodeU32(ClampedSum(v)) + Results(vs)
  {
    assert ([v] + vs)[1..] == vs;
  }

  /** The stream after `k` more frames are read, or after the first of them
      that fails. */
  function RestAfter(readFrame: Inbound -> FrameRead, inb: Inbound, k: nat): Inbound
    decreases k
  {
    if k == 0 then inb
    else
      var f := readFrame(inb);
      match f.outcome
      case Malformed(_) => f.rest
      case Vector(_) => RestAfter(readFrame, f.rest, k - 1)
  }

  /** The number of vectors and of elements read from the first `k` frames,
      when the next one is read: one more vector, and its elements, than
      from the `k - 1` frames after it. */
  lemma FramesReadCount(readFrame: Inbound -> FrameRead, inb: Inbound, k: nat)
    requires k > 0 && readFrame(inb).outcome.Vector?
    ensures var f := readFrame(inb);
            && |FramesRead(readFrame, inb, k)| == 1 + |FramesRead(readFrame, f.rest, k - 1)|
            && TotalSize(FramesRead(readFrame, inb, k))
               == |f.outcome.elems| + TotalSize(FramesRead(readFrame, f.rest, k - 1))
  {
    var f := readFrame(inb);
    var read' := FramesRead(readFrame, f.rest, k - 1);
    FramesReadCons(readFrame, inb, k);
    assert ([f.outcome.elems] + read')[1..] == read';
  }

  /** The answers to the first `k` frames, when the next one is read: its
      word, then the answers to the `k - 1` frames after it. */
  lemma AnswersCons(readFrame: Inbound -> FrameRead, inb: Inbound, k: nat, start: seq<byte>, next: seq<byte>)
    requires k > 0 && readFrame(inb).outcome.Vector?
    requires next == start + EncodeU32(ClampedSum(readFrame(inb).outcome.elems))
    ensures start + Results(FramesRead(readFrame, inb, k)) == next + Results(FramesRead(readFrame, readFrame(inb).rest, k - 1))
  {
    var f := readFrame(inb);
    FramesReadCons(readFrame, inb, k);
    ResultsCons(f.outcome.elems, FramesRead(readFrame, f.rest, k - 1));
  }

  /** Whatever the peer accepts, a loop that does not stop on a result that
      failed to go out has answered every frame it read, once each and in
      order, and nothing else. */
  lemma {:induction false} VectorsAnswerUnlessSendFails(readFrame: Inbound -> FrameRead, c: Conn,
                                                        i: nat, n: nat, tv: nat, tn: nat)
    requires i <= n
    ensures var r := Vectors(readFrame, c, i, n, tv, tn);
            !(r.outcome.Aborted? && r.outcome.error.ResultNotSent?) ==>
              r.conn.outbound.sent == c.outbound.sent + Results(FramesRead(readFrame, c.inbound, n - i))
    decreases n - i
  {
    if i < n {
      var f := readFrame(c.inbound);
      if f.outcome.Vector? {
        var v := f.outcome.elems;
        var s := SendResult(c.outbound, ClampedSum(v));
        if s.0 {
          VectorsAnswerUnlessSendFails(readFrame, Conn(f.rest, s.1), i + 1, n, tv + 1, tn + |v|);
          AnswersCons(readFrame, c.inbound, n - i, c.outbound.sent, s.1.sent);
        }
      } else {
        assert c.outbound.sent + Results([]) == c.outbound.sent;
      }
    } else {
      assert c.outbound.sent + Results([]) == c.outbound.sent;
    }
  }

  /** Whatever the peer accepts, a loop that does not stop on a result that
      failed to go out consumes the frames up to and including the first one
      that cannot be read, or all `n - i` of them. */
  lemma {:induction false} VectorsConsumeUnlessSendFails(readFrame: Inbound -> FrameRead, c: Conn,
                                                         i: nat, n: nat, tv: nat, tn: nat)
    requires i <= n
    ensures var r := Vectors(readFrame, c, i, n, tv, tn);
            !(r.outcome.Aborted? && r.outcome.error.ResultNotSent?) ==>
              r.conn.inbound == RestAfter(readFrame, c.inbound, n - i)
    decreases n - i
  {
    if i < n {
      var f := readFrame(c.inbound);
      if f.outcome.Vector? {
        var v := f.outcome.elems;
        var s := SendResult(c.outbound, ClampedSum(v));
        if s.0 {
          VectorsConsumeUnlessSendFails(readFrame, Conn(f.rest, s.1), i + 1, n, tv + 1, tn + |v|);
        }
      }
    }
  }

  /** Whatever the peer accepts, a loop that completes has read all `n - i`
      frames and grown the counters by the vectors and the elements read. */
  lemma {:induction false} VectorsCompletedReadAll(readFrame: Inbound -> FrameRead, c: Conn,
                                                   i: nat, n: nat, tv: nat, tn: nat)
    requires i <= n
    ensures var r := Vectors(readFrame, c, i, n, tv, tn);
            var read := FramesRead(readFrame, c.inbound, n - i);
            r.outcome.Completed? ==>
              |read| == n - i && r.outcome == Completed(tv + |read|, tn + TotalSize(read))
    decreases n - i
  {
    if i < n {
      var f := readFrame(c.inbound);
      if f.outcome.Vector? {
        var v := f.outcome.elems;
        var s := SendResult(c.outbound, ClampedSum(v));
        if s.0 {
          VectorsCompletedReadAll(readFrame, Conn(f.rest, s.1), i + 1, n, tv + 1, tn + |v|);
          FramesReadCount(readFrame, c.inbound, n - i);
        }
      }
    }
  }

  /** For a peer that accepts every send, a loop that can read all `n - i`
      frames completes. */
  lemma {:induction false} VectorsCompleteWhenAllRead(readFrame: Inbound -> FrameRead, c: Conn,
                                                      i: nat, n: nat, tv: nat, tn: nat)
    requires i <= n
    ensures c.outbound.accepts == [] && |FramesRead(readFrame, c.inbound, n - i)| == n - i ==>
              Vectors(readFrame, c, i, n, tv, tn).outcome.Completed?
    decreases n - i
  {
    if i < n {
      var f := readFrame(c.inbound);
      if f.outcome.Vector? {
        var v := f.outcome.elems;
        var s := SendResult(c.outbound, ClampedSum(v));
        FramesReadCons(readFrame, c.inbound, n - i);
        if s.0 {
          VectorsCompleteWhenAllRead(readFrame, Conn(f.rest, s.1), i + 1, n, tv + 1, tn + |v|);
        }
      }
    }
  }

  /** Whatever the peer accepts, a loop that aborts on a frame does so on the
      first frame that cannot be read, with that frame's error. */
  lemma {:induction false} VectorsStopAtFailedFrame(readFrame: Inbound -> FrameRead, c: Conn,
                                                    i: nat, n: nat, tv: nat, tn: nat)
    requires i <= n
    ensures var r := Vectors(readFrame, c, i, n, tv, tn);
            r.outcome.Aborted? && r.outcome.error.VectorFailed? ==>
              var j := r.outcome.error.index;
              && j == i + |FramesRead(readFrame, c.inbound, n - i)| < n
              && readFrame(RestAfter(readFrame, c.inbound, j - i)).outcome == Malformed(r.outcome.error.why)
    decreases n - i
  {
    if i < n {
      var f := readFrame(c.inbound);
      if f.outcome.Vector? {
        var v := f.outcome.elems;
        var s := SendResult(c.outbound, ClampedSum(v));
        if s.0 {
          VectorsStopAtFailedFrame(readFrame, Conn(f.rest, s.1), i + 1, n, tv + 1, tn + |v|);
          FramesReadCount(readFrame, c.inbound, n - i);
        }
      }
    }
  }

  /** The loop aborts only on a frame that cannot be read or a result that
      does not go out whole; for a peer that accepts every send, only on a
      frame. */
  lemma {:induction false} VectorsAbortReasons(readFrame: Inbound -> FrameRead, c: Conn,
                                               i: nat, n: nat, tv: nat, tn: nat)
    requires i <= n
    ensures var r := Vectors(readFrame, c, i, n, tv, tn);
            r.outcome.Aborted? ==>
              && (r.outcome.error.VectorFailed? || r.outcome.error.ResultNotSent?)
              && (c.outbound.accepts == [] ==> r.outcome.error.VectorFailed?)
    decreases n - i
  {
    if i < n {
      var f := readFrame(c.inbound);
      if f.outcome.Vector? {
        var v := f.outcome.elems;
        var s := SendResult(c.outbound, ClampedSum(v));
        if s.0 {
          VectorsAbortReasons(readFrame, Conn(f.rest, s.1), i + 1, n, tv + 1, tn + |v|);
        }
      }
    }
  }

  /** Whatever the peer accepts, a loop that aborts because result `j` did
      not go out whole has read frames `i..j` and consumed nothing beyond
      frame `j`. */
  lemma {:induction false} VectorsStopAtFailedSend(readFrame: Inbound -> FrameRead, c: Conn,
                                                   i: nat, n: nat, tv: nat, tn: nat)
    requires i <= n
    ensures var r := Vectors(readFrame, c, i, n, tv, tn);
            r.outcome.Aborted? && r.outcome.error.ResultNotSent? ==>
              var j := r.outcome.error.index;
              && i <= j < n
              && |FramesRead(readFrame, c.inbound, j - i + 1)| == j - i + 1
              && r.conn.inbound == RestAfter(readFrame, c.inbound, j - i + 1)
    decreases n - i
  {
    if i < n {
      var f := readFrame(c.inbound);
      if f.outcome.Vector? {
        var v := f.outcome.elems;
        var s := SendResult(c.outbound, ClampedSum(v));
        if s.0 {
          var c' := Conn(f.rest, s.1);
          VectorsStopAtFailedSend(readFrame, c', i + 1, n, tv + 1, tn + |v|);
          var r := Vectors(readFrame, c', i + 1, n, tv + 1, tn + |v|);
          if r.outcome.Aborted? && r.outcome.error.ResultNotSent? {
            FramesReadCons(readFrame, c.inbound, r.outcome.error.index - i + 1);
          }
        } else {
          FramesReadCons(readFrame, c.inbound, 1);
        }
      }
    }
  }

  /** A loop that aborts because result `j` did not go out whole stopped at
      one of the frames `i..n-1`. */
  lemma {:induction false} VectorsFailedSendIndex(readFrame: Inbound -> FrameRead, c: Conn,
                                                  i: nat, n: nat, tv: nat, tn: nat)
    requires i <= n
    ensures var r := Vectors(readFrame, c, i, n, tv, tn);
            r.outcome.Aborted? && r.outcome.error.ResultNotSent? ==> i <= r.outcome.error.index < n
    decreases n - i
  {
    if i < n {
      var f := readFrame(c.inbound);
      if f.outcome.Vector? {
        var v := f.outcome.elems;
        var s := SendResult(c.outbound, ClampedSum(v));
        if s.0 {
          VectorsFailedSendIndex(readFrame, Conn(f.rest, s.1), i + 1, n, tv + 1, tn + |v|);
        }
      }
    }
  }

  /** A loop that aborts because result `j` did not go out whole ran, up to
      frame `j`, exactly as the loop over frames `i..j-1` does, which
      completes; it then read frame `j` and the send of its result fell
      short. */
  lemma {:induction false} VectorsFailedSendAfterPrefix(readFrame: Inbound -> FrameRead, c: Conn,
                                                        i: nat, n: nat, tv: nat, tn: nat)
    requires i <= n
    ensures var r := Vectors(readFrame, c, i, n, tv, tn);
            r.outcome.Aborted? && r.outcome.error.ResultNotSent? && i <= r.outcome.error.index ==>
              var p := Vectors(readFrame, c, i, r.outcome.error.index, tv, tn);
              var f := readFrame(p.conn.inbound);
              && p.outcome.Completed?
              && f.outcome.Vector?
              && !SendResult(p.conn.outbound, ClampedSum(f.outcome.elems)).0
              && r.conn == Conn(f.rest, SendResult(p.conn.outbound, ClampedSum(f.outcome.elems)).1)
    decreases n - i
  {
    if i < n {
      var f := readFrame(c.inbound);
      if f.outcome.Vector? {
        var v := f.outcome.elems;
        var s := SendResult(c.outbound, ClampedSum(v));
        if s.0 {
          var c' := Conn(f.rest, s.1);
          VectorsFailedSendAfterPrefix(readFrame, c', i + 1, n, tv + 1, tn + |v|);
          VectorsFailedSendIndex(readFrame, c', i + 1, n, tv + 1, tn + |v|);
        }
      }
    }
  }

  /** The vectors read from the first `k + 1` frames, when the first `k` are
      read and frame `k` is too: those of the first `k`, then frame `k`'s. */
  lemma {:induction false} FramesReadSnoc(readFrame: Inbound -> FrameRead, inb: Inbound, k: nat)
    requires |FramesRead(readFrame, inb, k)| == k
    requires readFrame(RestAfter(readFrame, inb, k)).outcome.Vector?
    ensures FramesRead(readFrame, inb, k + 1)
            == FramesRead(readFrame, inb, k) + [readFrame(RestAfter(readFrame, inb, k)).outcome.elems]
    decreases k
  {
    if k > 0 {
      var f := readFrame(inb);
      FramesReadSnoc(readFrame, f.rest, k - 1);
      FramesReadCons(readFrame, inb, k);
      FramesReadCons(readFrame, inb, k + 1);
    }
  }

  /** The results of `vs + [v]`: those of `vs`, then the word for `v`. */
  lemma {:induction false} ResultsSnoc(vs: seq<seq<u32>>, v: seq<u32>)
    ensures Results(vs + [v]) == Results(vs) + EncodeU32(ClampedSum(v))
    decreases |vs|
  {
    if vs != [] {
      ResultsSnoc(vs[1..], v);
      assert (vs + [v])[1..] == vs[1..] + [v];
    } else {
      assert [] + [v] == [v];
    }
  }

  /** A loop that aborts because result `j` did not go out whole has
      transmitted every result before `j` in full, whatever the peer accepts. */
  lemma VectorsFailedSendKeepsAnswers(readFrame: Inbound -> FrameRead, c: Conn,
                                      i: nat, n: nat, tv: nat, tn: nat)
    requires i <= n
    ensures var r := Vectors(readFrame, c, i, n, tv, tn);
            r.outcome.Aborted? && r.outcome.error.ResultNotSent? && i <= r.outcome.error.index ==>
              Extends(c.outbound.sent + Results(FramesRead(readFrame, c.inbound, r.outcome.error.index - i)),
                      r.conn.outbound.sent)
  {
    var r := Vectors(readFrame, c, i, n, tv, tn);
    if r.outcome.Aborted? && r.outcome.error.ResultNotSent? && i <= r.outcome.error.index {
      var j := r.outcome.error.index;
      VectorsFailedSendAfterPrefix(readFrame, c, i, n, tv, tn);
      var p := Vectors(readFrame, c, i, j, tv, tn);
      VectorsAnswerUnlessSendFails(readFrame, c, i, j, tv, tn);
      var f := readFrame(p.conn.inbound);
      SendResultShort(p.conn.outbound, ClampedSum(f.outcome.elems));
    }
  }

  /** A loop that aborts because result `j` did not go out whole has
      transmitted after the earlier results only a proper prefix of the word
      for `j`, whatever the peer accepts. */
  lemma VectorsFailedSendIsShort(readFrame: Inbound -> FrameRead, c: Conn,
                                 i: nat, n: nat, tv: nat, tn: nat)
    requires i <= n
    ensures var r := Vectors(readFrame, c, i, n, tv, tn);
            r.outcome.Aborted? && r.outcome.error.ResultNotSent? && i <= r.outcome.error.index ==>
              var upTo := c.outbound.sent + Results(FramesRead(readFrame, c.inbound, r.outcome.error.index - i + 1));
              Extends(r.conn.outbound.sent, upTo) && |r.conn.outbound.sent| < |upTo|
  {
    var r := Vectors(readFrame, c, i, n, tv, tn);
    if r.outcome.Aborted? && r.outcome.error.ResultNotSent? && i <= r.outcome.error.index {
      var j := r.outcome.error.index;
      VectorsFailedSendAfterPrefix(readFrame, c, i, n, tv, tn);
      var p := Vectors(readFrame, c, i, j, tv, tn);
      VectorsAnswerUnlessSendFails(readFrame, c, i, j, tv, tn);
      VectorsConsumeUnlessSendFails(readFrame, c, i, j, tv, tn);
      VectorsCompletedReadAll(readFrame, c, i, j, tv, tn);
      ShortAfterAnswers(readFrame, c.inbound, c.outbound.sent, j - i, p.conn);
    }
  }

  /** After the answers to the first `k` frames, all read, a result for
      frame `k` that does not go out whole leaves a proper prefix of the
      answers to the first `k + 1`. */
  lemma ShortAfterAnswers(readFrame: Inbound -> FrameRead, inb: Inbound, start: seq<byte>, k: nat, at: Conn)
    requires |FramesRead(readFrame, inb, k)| == k && at.inbound == RestAfter(readFrame, inb, k)
    requires at.outbound.sent == start + Results(FramesRead(readFrame, inb, k))
    requires var f := readFrame(at.inbound);
             f.outcome.Vector? && !SendResult(at.outbound, ClampedSum(f.outcome.elems)).0
    ensures var f := readFrame(at.inbound);
            var sent := SendResult(at.outbound, ClampedSum(f.outcome.elems)).1.sent;
            var upTo := start + Results(FramesRead(readFrame, inb, k + 1));
            Extends(sent, upTo) && |sent| < |upTo|
  {
    var f := readFrame(at.inbound);
    var read := FramesRead(readFrame, inb, k);
    SendResultShort(at.outbound, ClampedSum(f.outcome.elems));
    FramesReadSnoc(readFrame, inb, k);
    ResultsSnoc(read, f.outcome.elems);
    assert at.outbound.sent + EncodeU32(ClampedSum(f.outcome.elems)) == start + Results(read + [f.outcome.elems]);
  }

  /** `b` starts with `a`. */
  predicate Extends(a: seq<byte>, b: seq<byte>)
  {
    |b| >= |a| && b[..|a|] == a
  }

  lemma ExtendsTransitive(a: seq<byte>, b: seq<byte>, c: seq<byte>)
    requires Extends(a, b) && Extends(b, c)
    ensures Extends(a, c)
  {
    assert c[..|a|] == c[..|b|][..|a|];
  }

  /** Whatever the peer sends or accepts, the loop only appends to what was
      already sent. */
  lemma {:induction false} VectorsOnlyAppend(readFrame: Inbound -> FrameRead, c: Conn,
                                             i: nat, n: nat, tv: nat, tn: nat)
    requires i <= n
    ensures Extends(c.outbound.sent, Vectors(readFrame, c, i, n, tv, tn).conn.outbound.sent)
    decreases n - i
  {
    if i == n {
      assert c.outbound.sent[..|c.outbound.sent|] == c.outbound.sent;
    } else {
      var f := readFrame(c.inbound);
      match f.outcome
      case Malformed(why) =>
        assert c.outbound.sent[..|c.outbound.sent|] == c.outbound.sent;
      case Vector(v) =>
        var s := SendResult(c.outbound, ClampedSum(v));
        assert Extends(c.outbound.sent, s.1.sent);
        if s.0 {
          var c' := Conn(f.rest, s.1);
          VectorsOnlyAppend(readFrame, c', i + 1, n, tv + 1, tn + |v|);
          ExtendsTransitive(c.outbound.sent, s.1.sent,
                            Vectors(readFrame, c', i + 1, n, tv + 1, tn + |v|).conn.outbound.sent);
        }
    }
  }

  lemma BatchOnlyAppends(c: Conn)
    ensures Extends(c.outbound.sent, Batch(c).conn.outbound.sent)
  {
    var cr := ReadCount(c.inbound);
    if cr.error.None? {
      VectorsOnlyAppend(ReadFrame, Conn(cr.rest, c.outbound), 0, cr.count, 0, 0);
    } else {
      assert c.outbound.sent[..|c.outbound.sent|] == c.outbound.sent;
    }
  }
}
