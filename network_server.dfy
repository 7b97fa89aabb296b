/** The server object and one client session, `NetworkServer::serveClient`:
    one `recv` of the authentication datagram, its format checks, the lookup
    and the hash check with their replies, then the vector batch.

    `serveClient` does all of this itself rather than through `AuthHandler`
    and `VectorHandler`, and its answers differ from theirs: a malformed
    datagram gets no reply at all and an unknown login gets the single byte
    1. The vector phase, on the other hand, behaves exactly as
    `VectorHandler::process`, so it is proved equal to `Batch`. */
module Server {
  import opened Sockets
  import opened NetworkUtils
  import opened ClientDb
  import opened VectorProcessing
  import opened Authentication
  import opened VectorBatch

  /** What an unknown login is answered with. */
  const UNKNOWN_LOGIN_REPLY: seq<byte> := [1]

  /** How the authentication part of a session ends. The three format
      failures throw before anything is sent; only `Accepted` goes on to the
      vector phase. */
  datatype AuthEnd =
    | AuthUnreadable
    | AuthTooShort
    | AuthNotHex
    | UnknownLogin(login: string)
    | HashMismatch
    | OkNotSent
    | Accepted(login: string)

  datatype AuthStage = AuthStage(end: AuthEnd, conn: Conn)

  /** A whole session: how authentication ended, the outcome of the batch
      when there was one, and the connection afterwards. */
  datatype Session = Session(auth: AuthEnd, vectors: Option<Outcome>, conn: Conn)

  /** Lines 161-285 of `serveClient` as a function of the connection, the
      credential table and the digest. */
  function ServeAuth(db: map<string, string>, c: Conn, sha224: string -> Digest): AuthStage
  {
    var rr := Recv(c.inbound, AUTH_READ_MAX);
    if rr.count <= 0 then AuthStage(AuthUnreadable, c)
    else
      var data := ToText(rr.bytes);
      if |data| < HEX_SUFFIX_LEN then AuthStage(AuthTooShort, Conn(rr.rest, c.outbound))
      else if !IsValidHex(data[|data| - HEX_SUFFIX_LEN..]) then AuthStage(AuthNotHex, Conn(rr.rest, c.outbound))
      else
        var f := ParseAuthData(data).value;
        if f.login !in db then
          AuthStage(UnknownLogin(f.login), Conn(rr.rest, Send(c.outbound, UNKNOWN_LOGIN_REPLY).rest))
        else if !VerifyHash(db[f.login], f.saltHex, f.hashHex, sha224) then
          AuthStage(HashMismatch, Conn(rr.rest, Send(c.outbound, ERR_REPLY).rest))
        else
          var s := Send(c.outbound, OK_REPLY);
          if s.count != |OK_REPLY| then AuthStage(OkNotSent, Conn(rr.rest, s.rest))
          else AuthStage(Accepted(f.login), Conn(rr.rest, s.rest))
  }

  /** `serveClient` as a function: authentication, then the batch for an
      accepted client. */
  function ServeSession(db: map<string, string>, c: Conn, sha224: string -> Digest): Session
  {
    var a := ServeAuth(db, c, sha224);
    if !a.end.Accepted? then Session(a.end, None, a.conn)
    else
      var run := Batch(a.conn);
      Session(a.end, Some(run.outcome), run.conn)
  }

  /** The digit value the `hexCharToByte` lambda gives: the value of a hex
      digit in either case, 0 for any other character. */
  function HexCharToByte(c: char): (v: nat)
    ensures v < 16
    ensures IsHexChar(c) ==> v == HexValue(c)
    ensures !IsHexChar(c) ==> v == 0
  {
    if IsHexChar(c) then HexValue(c) else 0
  }

  class NetworkServer {
    var running: bool
    var listenFd: int
    /** The descriptors `close` has been called on, in order. */
    var closedFds: seq<int>
    const auth: AuthDB

    constructor (auth: AuthDB)
      ensures running && listenFd == -1 && closedFds == [] && this.auth == auth
    {
      running := true;
      listenFd := -1;
      closedFds := [];
      this.auth := auth;
    }

    /** `NetworkServer::requestStop`: clears the flag and closes the
        listening socket if there is one. The new state does not depend on
        the old one, and with no socket open nothing is closed, so a second
        call changes nothing. */
    method RequestStop()
      modifies this
      ensures !running && listenFd == -1
      ensures closedFds == old(closedFds) + (if old(listenFd) != -1 then [old(listenFd)] else [])
      ensures old(listenFd) == -1 ==> closedFds == old(closedFds)
    {
      running := false;
      if listenFd != -1 {
        closedFds := closedFds + [listenFd];
        listenFd := -1;
      }
    }

    /** `NetworkServer::isRunning`: the flag the constructor sets and
        `RequestStop` clears. */
    function IsRunning(): (r: bool)
      reads this
      ensures r == running
    {
      running
    }

    /** `NetworkServer::serveClient`: `end`, `vectors` and `c'` are how the
        session ended, what the batch did, and the connection afterwards. */
    method ServeClient(c: Conn, sha224: string -> Digest) returns (end: AuthEnd, vectors: Option<Outcome>, c': Conn)
      ensures Session(end, vectors, c') == ServeSession(auth.db, c, sha224)
    {
      end, c' := AuthenticateClient(c, sha224);
      vectors := None;
      if end.Accepted? {
        var outcome;
        outcome, c' := ServeVectors(c');
        vectors := Some(outcome);
      }
    }

    /** Lines 161-285 of `serveClient`: the datagram, its checks, the lookup,
        the hash comparison and the reply. */
    method AuthenticateClient(c: Conn, sha224: string -> Digest) returns (end: AuthEnd, c': Conn)
      ensures AuthStage(end, c') == ServeAuth(auth.db, c, sha224)
    {
      var rr := Recv(c.inbound, AUTH_READ_MAX);
      if rr.count <= 0 {
        return AuthUnreadable, c;
      }
      var authData := ToText(rr.bytes);
      if |authData| < HEX_SUFFIX_LEN {
        return AuthTooShort, Conn(rr.rest, c.outbound);
      }
      var hexPart := authData[|authData| - HEX_SUFFIX_LEN..];
      var isHex := AllHex(hexPart);
      if !isHex {
        return AuthNotHex, Conn(rr.rest, c.outbound);
      }
      var login := authData[..|authData| - HEX_SUFFIX_LEN];
      var saltHex := hexPart[..SALT_HEX_LEN];
      var hashHex := hexPart[SALT_HEX_LEN..SALT_HEX_LEN + HASH_HEX_LEN];
      assert ParseAuthData(authData).value == AuthFrame(login, saltHex, hashHex);
      var found, password := auth.FindPassword(login, "");
      if !found {
        var s := Send(c.outbound, UNKNOWN_LOGIN_REPLY);
        return UnknownLogin(login), Conn(rr.rest, s.rest);
      }
      var serverHash := sha224(saltHex + password);
      var clientHash := DecodeClientHash(hashHex);
      if clientHash != serverHash {
        var s := Send(c.outbound, ERR_REPLY);
        return HashMismatch, Conn(rr.rest, s.rest);
      }
      var s := Send(c.outbound, OK_REPLY);
      if s.count != |OK_REPLY| {
        return OkNotSent, Conn(rr.rest, s.rest);
      }
      return Accepted(login), Conn(rr.rest, s.rest);
    }
  }

  /** Lines 186-193 of `serveClient`: every character is a hex digit. */
  method AllHex(s: string) returns (isHex: bool)
    ensures isHex == IsValidHex(s)
  {
    isHex := true;
    for k := 0 to |s|
      invariant isHex && forall j :: 0 <= j < k ==> IsHexChar(s[j])
    {
      if !IsHexChar(s[k]) {
        isHex := false;
        break;
      }
    }
  }

  /** Lines 241-258 of `serveClient`: the 28 bytes of the client's hash,
      each `(high << 4) | low` of a pair of digits. */
  method DecodeClientHash(hashHex: string) returns (clientHash: seq<byte>)
    requires |hashHex| == HASH_HEX_LEN && IsValidHex(hashHex)
    ensures DecodeHex(hashHex, DIGEST_LEN) == Some(clientHash)
  {
    var buf := new byte[DIGEST_LEN];
    for i := 0 to DIGEST_LEN
      invariant forall j :: 0 <= j < i ==> buf[j] == PairByte(hashHex[2 * j], hashHex[2 * j + 1])
    {
      var high := HexCharToByte(hashHex[i * 2]);
      var low := HexCharToByte(hashHex[i * 2 + 1]);
      // `(high << 4) | low` for digit values below 16
      buf[i] := 16 * high + low;
    }
    clientHash := buf[..];
    assert clientHash == DecodeHex(hashHex, DIGEST_LEN).value;
  }

  /** Lines 293-302 of `serveClient`: the raw count word, which must be in
      1..100000, then the loop over the vectors. */
  method ServeVectors(c: Conn) returns (outcome: Outcome, c': Conn)
    ensures Run(outcome, c') == Batch(c)
  {
    var r, buf, rest := RecvAll(c.inbound, 4);
    if r != 4 {
      return Aborted(CountUnreadable), Conn(rest, c.outbound);
    }
    var vecCount := DecodeU32(buf);
    if vecCount == 0 || vecCount > MAX_VECTORS {
      return Aborted(CountOutOfRange(vecCount)), Conn(rest, c.outbound);
    }
    outcome, c' := ServeFrames(Conn(rest, c.outbound), vecCount);
  }

  /** Lines 306-341 of `serveClient`: for each of `n` vectors, one frame
      read, and its clamped sum sent back as one 32-bit word; the first
      failure ends the loop. */
  method ServeFrames(start: Conn, n: nat) returns (outcome: Outcome, c': Conn)
    ensures Run(outcome, c') == Vectors(ReadFrame, start, 0, n, 0, 0)
  {
    ghost var run := Vectors(ReadFrame, start, 0, n, 0, 0);
    var cur := start;
    var totalVectors: nat, totalNumbers: nat := 0, 0;
    for i := 0 to n
      invariant Vectors(ReadFrame, cur, i, n, totalVectors, totalNumbers) == run
    {
      var frame := ReceiveFrame(cur.inbound);
      if frame.outcome.Malformed? {
        return Aborted(VectorFailed(i, frame.outcome.why)), Conn(frame.rest, cur.outbound);
      }
      var result := SumClamp(frame.outcome.elems);
      var s := Send(cur.outbound, EncodeU32(result));
      if s.count != 4 {
        return Aborted(ResultNotSent(i)), Conn(frame.rest, s.rest);
      }
      cur := Conn(frame.rest, s.rest);
      totalVectors := totalVectors + 1;
      totalNumbers := totalNumbers + |frame.outcome.elems|;
    }
    return Completed(totalVectors, totalNumbers), cur;
  }

  /** Lines 311-325 of `serveClient`: the raw length word, which must be in
      1..10000000, then exactly `4 * length` element bytes. */
  method ReceiveFrame(inb: Inbound) returns (f: FrameRead)
    ensures f == ReadFrame(inb)
  {
    var r, lenBytes, rest := RecvAll(inb, 4);
    if r != 4 {
      return FrameRead(Malformed(LengthUnreadable), rest);
    }
    var vecLen := DecodeU32(lenBytes);
    if vecLen == 0 || vecLen > MAX_VECTOR_SIZE {
      return FrameRead(Malformed(LengthOutOfRange(vecLen)), rest);
    }
    var bytes := vecLen * 4;
    var got, data, rest' := RecvAll(rest, bytes);
    if got != bytes {
      return FrameRead(Malformed(DataUnreadable), rest');
    }
    assert (4 * vecLen) % 4 == 0 && (4 * vecLen) / 4 == vecLen;
    return FrameRead(Vector(DecodeU32s(data)), rest');
  }
  // ---------------------------------------------------------------------
  // Properties of a session

  /** A malformed datagram (or none at all) ends the session before the
      lookup, with no reply and no vector phase. */
  lemma ServeSessionSilentOnMalformed(db: map<string, string>, c: Conn, sha224: string -> Digest)
    ensures var s := ServeSession(db, c, sha224);
            var rr := Recv(c.inbound, AUTH_READ_MAX);
            var malformed := Pending(c.inbound) == [] || ParseAuthData(ToText(rr.bytes)).None?;
            && (s.auth.AuthUnreadable? || s.auth.AuthTooShort? || s.auth.AuthNotHex? <==> malformed)
            && (malformed ==> s.vectors == None && s.conn == Conn(rr.rest, c.outbound))
            && (s.auth.AuthUnreadable? <==> Pending(c.inbound) == [])
            && (s.auth.AuthTooShort? <==> Pending(c.inbound) != [] && |rr.bytes| < HEX_SUFFIX_LEN)
  {
  }

  /** An unknown login is answered with the single byte 1 and ends the
      session: nothing more is read and there is no vector phase. */
  lemma ServeSessionUnknownLogin(db: map<string, string>, c: Conn, sha224: string -> Digest)
    ensures var s := ServeSession(db, c, sha224);
            var rr := Recv(c.inbound, AUTH_READ_MAX);
            var f := ParseAuthData(ToText(rr.bytes));
            && (s.auth.UnknownLogin? <==> Pending(c.inbound) != [] && f.Some? && f.value.login !in db)
            && (s.auth.UnknownLogin? ==>
                  && s.auth.login == f.value.login && s.vectors == None
                  && s.conn == Conn(rr.rest, Send(c.outbound, UNKNOWN_LOGIN_REPLY).rest))
            && (s.auth.UnknownLogin? && c.outbound.accepts == [] ==>
                  s.conn.outbound.sent == c.outbound.sent + [1])
  {
  }

  /** A known login with a wrong hash is answered with "ERR" and ends the
      session. */
  lemma ServeSessionHashMismatch(db: map<string, string>, c: Conn, sha224: string -> Digest)
    ensures var s := ServeSession(db, c, sha224);
            var rr := Recv(c.inbound, AUTH_READ_MAX);
            var f := ParseAuthData(ToText(rr.bytes));
            && (s.auth == HashMismatch <==>
                  && Pending(c.inbound) != [] && f.Some? && f.value.login in db
                  && !VerifyHash(db[f.value.login], f.value.saltHex, f.value.hashHex, sha224))
            && (s.auth == HashMismatch ==>
                  s.vectors == None && s.conn == Conn(rr.rest, Send(c.outbound, ERR_REPLY).rest))
  {
    ServeAuthHashMismatch(db, c, sha224);
  }

  lemma ServeAuthHashMismatch(db: map<string, string>, c: Conn, sha224: string -> Digest)
    ensures var a := ServeAuth(db, c, sha224);
            var rr := Recv(c.inbound, AUTH_READ_MAX);
            var f := ParseAuthData(ToText(rr.bytes));
            && (a.end == HashMismatch <==>
                  && Pending(c.inbound) != [] && f.Some? && f.value.login in db
                  && !VerifyHash(db[f.value.login], f.value.saltHex, f.value.hashHex, sha224))
            && (a.end == HashMismatch ==> a.conn == Conn(rr.rest, Send(c.outbound, ERR_REPLY).rest))
  {
  }

  /** The vector phase runs exactly when the datagram verifies and "OK" went
      out whole, and whatever it sends comes after that "OK". */
  lemma ServeSessionVectorsAfterOk(db: map<string, string>, c: Conn, sha224: string -> Digest)
    ensures var s := ServeSession(db, c, sha224);
            var rr := Recv(c.inbound, AUTH_READ_MAX);
            && (s.vectors.Some? <==> s.auth.Accepted?)
            && (s.auth.Accepted? <==>
                  && Pending(c.inbound) != [] && Verified(db, ToText(rr.bytes), sha224)
                  && Send(c.outbound, OK_REPLY).count == |OK_REPLY|)
            && (s.auth.Accepted? ==>
                  && s.auth.login == ParseAuthData(ToText(rr.bytes)).value.login
                  && Extends(c.outbound.sent + OK_REPLY, s.conn.outbound.sent))
  {
    var a := ServeAuth(db, c, sha224);
    if a.end.Accepted? {
      assert OK_REPLY[..|OK_REPLY|] == OK_REPLY;
      BatchOnlyAppends(a.conn);
    }
  }

  /** `serveClient` answers a well-formed datagram with a known login just
      as `AuthHandler::authenticate` does; the two differ only where the
      datagram is malformed (no reply against "ERR") or the login unknown
      (the byte 1 against "ERR"). */
  lemma ServeAuthAgreesWithAuthenticate(db: map<string, string>, c: Conn, outLogin: string,
                                        sha224: string -> Digest)
    ensures var a := ServeAuth(db, c, sha224);
            var h := AuthSession(db, c, outLogin, sha224);
            && (a.end.Accepted? <==> h.ok)
            && (a.end.Accepted? ==> a.end.login == h.outLogin)
            && a.conn.inbound == h.conn.inbound
            && (a.end.AuthUnreadable? || a.end == HashMismatch || a.end.OkNotSent? || a.end.Accepted? ==>
                  a.conn.outbound == h.conn.outbound)
            && (a.end.AuthTooShort? || a.end.AuthNotHex? ==>
                  a.conn.outbound == c.outbound && h.conn.outbound == Send(c.outbound, ERR_REPLY).rest)
            && (a.end.UnknownLogin? ==>
                  && a.conn.outbound == Send(c.outbound, UNKNOWN_LOGIN_REPLY).rest
                  && h.conn.outbound == Send(c.outbound, ERR_REPLY).rest)
  {
    AuthAgreesOnOutcome(db, c, outLogin, sha224);
    AuthAgreesOnReplies(db, c, outLogin, sha224);
  }

  lemma AuthAgreesOnOutcome(db: map<string, string>, c: Conn, outLogin: string, sha224: string -> Digest)
    ensures var a := ServeAuth(db, c, sha224);
            var h := AuthSession(db, c, outLogin, sha224);
            && (a.end.Accepted? <==> h.ok)
            && (a.end.Accepted? ==> a.end.login == h.outLogin)
            && a.conn.inbound == h.conn.inbound
  {
  }

  lemma AuthAgreesOnReplies(db: map<string, string>, c: Conn, outLogin: string, sha224: string -> Digest)
    ensures var a := ServeAuth(db, c, sha224);
            var h := AuthSession(db, c, outLogin, sha224);
            && (a.end.AuthUnreadable? || a.end == HashMismatch || a.end.OkNotSent? || a.end.Accepted? ==>
                  a.conn.outbound == h.conn.outbound)
            && (a.end.AuthTooShort? || a.end.AuthNotHex? ==>
                  a.conn.outbound == c.outbound && h.conn.outbound == Send(c.outbound, ERR_REPLY).rest)
            && (a.end.UnknownLogin? ==>
                  && a.conn.outbound == Send(c.outbound, UNKNOWN_LOGIN_REPLY).rest
                  && h.conn.outbound == Send(c.outbound, ERR_REPLY).rest)
  {
  }

  /** A client whose first segment is its login, a salt and the hex of
      SHA-224(salt ++ stored password) is accepted with one "OK" by a peer
      that accepts every send. */
  lemma ServeAuthHonestClient(db: map<string, string>, c: Conn, sha224: string -> Digest,
                              login: string, saltHex: string)
    requires login in db
    requires |saltHex| == SALT_HEX_LEN && IsValidHex(saltHex)
    requires var n := |login| + HEX_SUFFIX_LEN;
             && n <= AUTH_READ_MAX && n <= |Pending(c.inbound)|
             && SegmentLength(|Pending(c.inbound)|, c.inbound.segmentEnds, c.inbound.offset) == n
             && ToText(Pending(c.inbound)[..n]) == login + saltHex + ComputeSha224(saltHex + db[login], sha224)
    requires c.outbound.accepts == []
    ensures ServeAuth(db, c, sha224)
            == AuthStage(Accepted(login),
                         Conn(Drop(c.inbound, |login| + HEX_SUFFIX_LEN), Outbound([], c.outbound.sent + OK_REPLY)))
  {
    ParseAuthDataInverse(login, saltHex, ComputeSha224(saltHex + db[login], sha224));
  }

  /** Once the client is accepted, a well-formed batch for a peer that
      accepts every send is answered whole: one result per vector, in order,
      after whatever authentication sent, consuming exactly the batch.
      Together with `ServeAuthHonestClient` this covers the whole session of
      an honest client. */
  lemma AcceptedBatchAnswered(db: map<string, string>, c: Conn, sha224: string -> Digest,
                              login: string, after: Conn, vs: seq<seq<u32>>)
    requires ServeAuth(db, c, sha224) == AuthStage(Accepted(login), after)
    requires 1 <= |vs| <= MAX_VECTORS && WellSized(vs)
    requires after.outbound.accepts == [] && Fronts(after.inbound, EncodeBatch(vs))
    ensures ServeSession(db, c, sha224)
            == Session(Accepted(login), Some(Completed(|vs|, TotalSize(vs))),
                       Conn(Drop(after.inbound, |EncodeBatch(vs)|),
                            Outbound([], after.outbound.sent + Results(vs))))
  {
    BatchOfEncoding(after, vs);
  }
}
