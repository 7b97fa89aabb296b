/** Client authentication: the datagram `login ++ salt_hex ++ hash_hex`, the
    check `SHA224(salt_hex ++ password) == decode(hash_hex)`, and the
    "OK"/"ERR" reply.

    SHA-224 is a library routine; the model takes it as a parameter `sha224`
    that maps a text to some 28-byte digest, so every property holds for any
    such function. */
module Authentication {
  import opened Sockets
  import opened NetworkUtils
  import opened ClientDb

  /** One `recv` into a 256-byte buffer, leaving room for the terminator. */
  const AUTH_READ_MAX: nat := 255
  /** The hex suffix: 16 characters of salt, then 56 of hash. */
  const HEX_SUFFIX_LEN: nat := 72
  const SALT_HEX_LEN: nat := 16
  const HASH_HEX_LEN: nat := 56
  const DIGEST_LEN: nat := 28

  type Digest = d: seq<byte> | |d| == 28 witness seq(28, _ => 0)

  const OK_REPLY: seq<byte> := [0x4F, 0x4B]
  const ERR_REPLY: seq<byte> := [0x45, 0x52, 0x52]

  lemma RepliesSpellOkAndErr()
    ensures ToText(OK_REPLY) == "OK" && |OK_REPLY| == 2
    ensures ToText(ERR_REPLY) == "ERR" && |ERR_REPLY| == 3
  {
  }

  datatype AuthFrame = AuthFrame(login: string, saltHex: string, hashHex: string)

  /** `AuthHandler::parseAuthData`: the last 72 characters must be hex; they
      split into salt and hash, and whatever precedes them is the login, which
      is not checked at all. */
  function ParseAuthData(data: string): (r: Option<AuthFrame>)
    ensures r.Some? <==> |data| >= HEX_SUFFIX_LEN && IsValidHex(data[|data| - HEX_SUFFIX_LEN..])
    ensures r.Some? ==>
              && r.value.login + r.value.saltHex + r.value.hashHex == data
              && |r.value.saltHex| == SALT_HEX_LEN && |r.value.hashHex| == HASH_HEX_LEN
              && IsValidHex(r.value.saltHex) && IsValidHex(r.value.hashHex)
  {
    if |data| < HEX_SUFFIX_LEN then None
    else
      var split := |data| - HEX_SUFFIX_LEN;
      var hex := data[split..];
      if !IsValidHex(hex) then None
      else
        var f := AuthFrame(data[..split], hex[..SALT_HEX_LEN], hex[SALT_HEX_LEN..]);
        assert f.saltHex + f.hashHex == hex;
        assert data == f.login + f.saltHex + f.hashHex;
        Some(f)
  }

  /** Any login followed by 16 salt and 56 hash hex characters is split back
      into exactly those three parts, whatever the login contains (and it may
      be empty). */
  lemma ParseAuthDataInverse(login: string, saltHex: string, hashHex: string)
    requires |saltHex| == SALT_HEX_LEN && |hashHex| == HASH_HEX_LEN
    requires IsValidHex(saltHex) && IsValidHex(hashHex)
    ensures ParseAuthData(login + saltHex + hashHex) == Some(AuthFrame(login, saltHex, hashHex))
  {
    var data := login + saltHex + hashHex;
    var hex := saltHex + hashHex;
    assert data == login + hex;
    assert data[..|login|] == login && data[|login|..] == hex;
    assert hex[..SALT_HEX_LEN] == saltHex && hex[SALT_HEX_LEN..] == hashHex;
    assert IsValidHex(hex) by {
      forall i | 0 <= i < |hex| ensures IsHexChar(hex[i]) {
        if i < SALT_HEX_LEN { assert hex[i] == saltHex[i]; }
        else { assert hex[i] == hashHex[i - SALT_HEX_LEN]; }
      }
    }
  }

  /** `AuthHandler::computeSHA224`: the digest as 56 uppercase hex characters. */
  function ComputeSha224(data: string, sha224: string -> Digest): (h: string)
    ensures |h| == HASH_HEX_LEN && IsValidHex(h)
    ensures DecodeHex(h, DIGEST_LEN).Some? && DecodeHex(h, DIGEST_LEN).value == sha224(data)
  {
    HexRoundTrip(sha224(data));
    ToHex(sha224(data))
  }

  /** `AuthHandler::verifyHash`: digests the text salt_hex ++ password and
      compares it with the bytes the client's hex decodes to. A client hash
      that does not decode to 28 bytes is rejected. */
  function VerifyHash(password: string, saltHex: string, clientHashHex: string,
                      sha224: string -> Digest): (ok: bool)
    ensures ok <==> && DecodeHex(clientHashHex, DIGEST_LEN).Some?
                    && DecodeHex(clientHashHex, DIGEST_LEN).value == sha224(saltHex + password)
  {
    var serverHex := ComputeSha224(saltHex + password, sha224);
    match DecodeHex(clientHashHex, DIGEST_LEN)
    case None => false
    case Some(client) =>
      match DecodeHex(serverHex, DIGEST_LEN)
      case None => false
      case Some(server) => server == client
  }

  /** The client that hashes the stored password with its salt is accepted,
      whichever letter case it writes the hex digits in. */
  lemma HonestHashVerifies(password: string, saltHex: string, clientHashHex: string,
                           sha224: string -> Digest)
    requires |clientHashHex| == |ComputeSha224(saltHex + password, sha224)|
    requires forall i :: 0 <= i < |clientHashHex| ==>
               var c, d := clientHashHex[i], ComputeSha224(saltHex + password, sha224)[i];
               c == d || ('A' <= d <= 'F' && c as int == d as int + 32)
    ensures VerifyHash(password, saltHex, clientHashHex, sha224)
  {
    var serverHex := ComputeSha224(saltHex + password, sha224);
    DecodeHexIgnoresLetterCase(serverHex, clientHashHex, DIGEST_LEN);
  }

  function Response(success: bool): seq<byte>
  {
    if success then OK_REPLY else ERR_REPLY
  }

  /** `AuthHandler::sendResponse`: sends "OK" or "ERR"; reports success only
      when the reply was "OK" and went out whole. */
  function SendResponse(out: Outbound, success: bool): (r: (bool, Outbound))
    ensures r.1 == Send(out, Response(success)).rest
    ensures r.0 <==> success && Send(out, Response(success)).count == |Response(success)|
    ensures out.accepts == [] ==> r == (success, Outbound([], out.sent + Response(success)))
  {
    var s := Send(out, Response(success));
    if s.count != |Response(success)| then (false, s.rest) else (success, s.rest)
  }

  /** What `authenticate` returns: the verdict, the value of `out_login`
      afterwards, and the connection. */
  datatype AuthResult = AuthResult(ok: bool, outLogin: string, conn: Conn)

  /** Login found and hash verified for the received datagram. */
  predicate Verified(db: map<string, string>, data: string, sha224: string -> Digest)
  {
    var f := ParseAuthData(data);
    && f.Some? && f.value.login in db
    && VerifyHash(db[f.value.login], f.value.saltHex, f.value.hashHex, sha224)
  }

  /** The whole exchange of `AuthHandler::authenticate`: one read, then parse,
      look up and verify, answering "ERR" at the first failure and "OK" once
      all succeed. */
  function AuthSession(db: map<string, string>, c: Conn, outLogin: string,
                       sha224: string -> Digest): AuthResult
  {
    var rr := Recv(c.inbound, AUTH_READ_MAX);
    if rr.count <= 0 then AuthResult(false, outLogin, c)
    else
      var data := ToText(rr.bytes);
      if !Verified(db, data, sha224) then
        AuthResult(false, outLogin, Conn(rr.rest, SendResponse(c.outbound, false).1))
      else
        var r := SendResponse(c.outbound, true);
        AuthResult(r.0, ParseAuthData(data).value.login, Conn(rr.rest, r.1))
  }

  /** A failed read answers nothing; otherwise exactly one reply goes out,
      "OK" exactly when the datagram verifies, and at most 255 bytes are
      consumed. The verdict is true only if the reply "OK" was sent whole,
      and `out_login` changes only once the login has been verified. */
  lemma AuthSessionOutcomes(db: map<string, string>, c: Conn, outLogin: string,
                            sha224: string -> Digest)
    ensures var a := AuthSession(db, c, outLogin, sha224);
            Pending(c.inbound) == [] ==> a == AuthResult(false, outLogin, c)
    ensures var a := AuthSession(db, c, outLogin, sha224);
            var rr := Recv(c.inbound, AUTH_READ_MAX);
            Pending(c.inbound) != [] ==>
              && |rr.bytes| <= AUTH_READ_MAX
              && Pending(c.inbound) == rr.bytes + Pending(a.conn.inbound)
              && var verified := Verified(db, ToText(rr.bytes), sha224);
                 && a.conn.outbound == Send(c.outbound, Response(verified)).rest
                 && (a.ok <==> verified && Send(c.outbound, OK_REPLY).count == |OK_REPLY|)
                 && (a.outLogin == outLogin || verified)
                 && (verified ==> a.outLogin == ParseAuthData(ToText(rr.bytes)).value.login)
  {
    var rr := Recv(c.inbound, AUTH_READ_MAX);
    if Pending(c.inbound) != [] {
      assert Pending(c.inbound) == rr.bytes + Pending(c.inbound)[rr.count..];
    }
  }

  /** A client whose first segment is its login, a salt and the hex of
      SHA-224(salt ++ stored password) is accepted with one "OK" by a peer
      that accepts every send. */
  lemma HonestClientAccepted(db: map<string, string>, c: Conn, outLogin: string,
                             sha224: string -> Digest, login: string, saltHex: string)
    requires login in db
    requires |saltHex| == SALT_HEX_LEN && IsValidHex(saltHex)
    requires var n := |login| + HEX_SUFFIX_LEN;
             && n <= AUTH_READ_MAX && n <= |Pending(c.inbound)|
             && SegmentLength(|Pending(c.inbound)|, c.inbound.segmentEnds, c.inbound.offset) == n
             && ToText(Pending(c.inbound)[..n]) == login + saltHex + ComputeSha224(saltHex + db[login], sha224)
    requires c.outbound.accepts == []
    ensures AuthSession(db, c, outLogin, sha224)
            == AuthResult(true, login,
                          Conn(Drop(c.inbound, |login| + HEX_SUFFIX_LEN),
                               Outbound([], c.outbound.sent + OK_REPLY)))
  {
    var hashHex := ComputeSha224(saltHex + db[login], sha224);
    ParseAuthDataInverse(login, saltHex, hashHex);
  }

  class AuthHandler {
    const authDb: AuthDB

    constructor (authDb: AuthDB)
      ensures this.authDb == authDb
    {
      this.authDb := authDb;
    }

    /** `AuthHandler::authenticate`: `login` is the value of `out_login`
        afterwards (given as `outLogin` before). */
    method Authenticate(c: Conn, outLogin: string, sha224: string -> Digest)
      returns (ok: bool, login: string, c': Conn)
      ensures AuthResult(ok, login, c') == AuthSession(authDb.db, c, outLogin, sha224)
    {
      login := outLogin;
      var rr := Recv(c.inbound, AUTH_READ_MAX);
      if rr.count <= 0 {
        return false, login, c;
      }
      var data := ToText(rr.bytes);
      var frame := ParseAuthData(data);
      if frame.None? {
        var r := SendResponse(c.outbound, false);
        return false, login, Conn(rr.rest, r.1);
      }
      var found, password := authDb.FindPassword(frame.value.login, "");
      if !found {
        var r := SendResponse(c.outbound, false);
        return false, login, Conn(rr.rest, r.1);
      }
      if !VerifyHash(password, frame.value.saltHex, frame.value.hashHex, sha224) {
        var r := SendResponse(c.outbound, false);
        return false, login, Conn(rr.rest, r.1);
      }
      login := frame.value.login;
      var r := SendResponse(c.outbound, true);
      return r.0, login, Conn(rr.rest, r.1);
    }
  }
}
