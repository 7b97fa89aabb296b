# Vector server: a Dafny model of the wire protocol

This project models the protocol core of a TCP server. A client first
authenticates with one datagram: its login, a 16-character hex salt, and the
56-character hex of SHA-224(salt ++ password). The server looks the login up
in a table loaded from `login:password` lines and compares the hashes. It
answers "OK" or "ERR", or, in `serveClient`, the single byte 1 for an unknown
login. After "OK" the client sends a batch:
- a 32-bit count in 1..100000;
- for each vector, a 32-bit length in 1..10000000 and that many 32-bit
  elements.

For every vector the server sends back one 32-bit word: the sum of its
elements clamped to 2^31 - 1. The batch stops at the first failure.

Modules follow the source files:

| module | file | source |
|---|---|---|
| `Sockets` | `sockets.dfy` | the `recv`/`send` calls the server makes |
| `NetworkUtils` | `network_utils.dfy` | `Server/network_utils.cpp` |
| `VectorProcessing` | `vector_processor.dfy` | `Server/vector_processor.cpp` |
| `ClientDb` | `authdb.dfy` | `Server/authdb.cpp` |
| `Authentication` | `auth_handler.dfy` | `Server/auth_handler.cpp` |
| `VectorBatch` | `vector_handler.dfy` | `Server/vector_handler.cpp` |
| `Server` | `network_server.dfy` | `Server/network_server.cpp` |

The socket is state of the operating system. It is a value, `Conn`, that
every operation takes and returns:
- `Inbound` holds the bytes the peer delivers. It records where each segment
  ends, because one `recv` never returns bytes of two segments. It also
  records how the stream ends: a close, which `recv` reports as 0, or an
  error, reported as -1.
- `Outbound` holds a script of how much of each `send` the peer accepts, and
  the bytes transmitted so far.

Each source operation that loops or fills a buffer is a method with loop
invariants:
- `recvAll`, `bytesToHex` and `hexToBytes`;
- the hex check and the hash decoding in `serveClient`;
- `sumClamp`, the `loadFromFile` loop, and the vector loops of `process`
  and `serveClient`.

Each such method is proved equal to a specification function, for example
`ReadExact`, `ToHex`, `DecodeHex`, `ClampedSum`, `Load` or `Batch`. The
lemmas state the properties of those functions. The vector loop is the
function `Vectors`, which takes the frame reader as a parameter. Its
lemmas hold for every frame reader, and `Batch` instantiates it with
`ReadFrame`. `serveClient` is modelled by the `ServeAuth` and
`ServeSession` functions and the class `NetworkServer`.

Integers on the wire are read and written as four little-endian bytes
everywhere. The source applies no byte-order conversion at all, so the
layout is the host's. SHA-224 is a parameter `sha224: string -> Digest`
(28 bytes). Every property holds for any such function.

Where the code and the prose description of the protocol differ, the model
follows the code:
- `serveClient` sends nothing for a short or non-hex datagram. It sends the
  byte 1, not "ERR", for an unknown login. `AuthHandler::authenticate`
  answers "ERR" in all of these cases; `ServeAuthAgreesWithAuthenticate`
  states the differences.
- A table line `user:` with nothing after the colon stores nothing. The
  second `std::getline` extracts no character and fails. A line `:pw`
  stores the empty login.

## Model

| member | source | states |
|---|---|---|
| NetworkUtils.HexValue | Server/network_utils.cpp:75-83 | a hex digit's value is below 16 |
| NetworkUtils.HexDigit | Server/network_utils.cpp:51-53 | the digit written for a nibble is an uppercase hex digit whose value is that nibble |
| NetworkUtils.IsValidHex | Server/network_utils.cpp:120-126 | true iff every character is in 0-9, a-f or A-F; the empty string is valid and any length is allowed |
| NetworkUtils.ToHexAppend | Server/network_utils.cpp:52-54 | the hex of a concatenation is the concatenation of the hexes (one pair per byte, in order) |
| NetworkUtils.ToHexShape | Server/network_utils.cpp:49-56 | the hex of `b` has exactly `2*|b|` characters; byte i gives the high nibble at 2i and the low nibble at 2i+1 |
| NetworkUtils.ToHexIsUpperHex | Server/network_utils.cpp:51 | the hex of any bytes is valid hex with no lowercase letter |
| NetworkUtils.BytesToHex | Server/network_utils.cpp:49-56 | the loop appending two digits per byte yields `ToHex(data)`; zero bytes give the empty string |
| NetworkUtils.DecodedPrefix | Server/network_utils.cpp:85-92 | the bytes decoded before the first bad pair are at most half the input |
| NetworkUtils.DecodedPrefixAt | Server/network_utils.cpp:85-91 | byte k of the decoded prefix is `high*16 + low` of pair k when pairs 0..k are hex |
| NetworkUtils.DecodedPrefixStops | Server/network_utils.cpp:88-90 | decoding stops exactly at the first pair holding a non-hex character |
| NetworkUtils.DecodeHex | Server/network_utils.cpp:70-95 | decoding succeeds iff the length is exactly `2*n` and every character is hex; then it has n bytes, byte i being `(high << 4) | low` of pair i |
| NetworkUtils.DecodeHexIgnoresCase | Server/network_utils.cpp:75-83 | texts that agree, position by position, on being hex digits and on digit values decode alike |
| NetworkUtils.HexValueIgnoresCase | Server/network_utils.cpp:75-83 | an uppercase hex letter and its lowercase form are both digits of the same value |
| NetworkUtils.DecodeHexIgnoresLetterCase | Server/network_utils.cpp:75-83 | a text and the same text with some uppercase hex letters written in lowercase decode alike |
| NetworkUtils.HexRoundTrip | Server/network_utils.cpp:49-95 | decoding the hex of `b` with length `|b|` succeeds and gives back `b` |
| NetworkUtils.HexToBytes | Server/network_utils.cpp:70-95 | true iff `DecodeHex` succeeds, with the output buffer holding the decoded bytes; a wrong length leaves the buffer untouched; on a bad digit only the pairs before it have been stored |
| NetworkUtils.ReadExact | Server/network_utils.cpp:24-36 | exactly `len` bytes are obtained iff that many are pending |
| NetworkUtils.ReadExactTwice | Server/network_utils.cpp:24-36 | reading `a` then `b` bytes takes the next `a + b` bytes in order |
| NetworkUtils.RecvStep | Server/network_utils.cpp:28-33 | one `recv` inside the loop either ends it with its code or appends the next bytes of the stream to those gathered |
| NetworkUtils.RecvAll | Server/network_utils.cpp:24-36 | the loop returns `len` with the next `len` bytes once they all arrive, and otherwise the code of the first `recv` that returns `r <= 0` (0 on close, -1 on error) |
| NetworkUtils.LittleEndianBytes | Server/network_utils.cpp:154-155 | the layout of a number in `k` bytes has `k` bytes |
| NetworkUtils.LittleEndianBound | Server/network_utils.cpp:137-143 | `k` bytes read as a number are below 256^k |
| NetworkUtils.LittleEndianOfBytes | Server/network_utils.cpp:137-156 | a number below 256^k written in `k` bytes reads back as itself |
| NetworkUtils.LittleEndianBytesOf | Server/network_utils.cpp:137-156 | bytes read as a number and written back give the same bytes |
| NetworkUtils.EncodeU32 | Server/network_utils.cpp:154-155 | a 32-bit word goes out as 4 bytes |
| NetworkUtils.EncodeU32Layout | Server/network_utils.cpp:154-155 | the 4 bytes of a word, least significant first |
| NetworkUtils.DecodeU32Layout | Server/network_utils.cpp:137-143 | the value of 4 received bytes, least significant first |
| NetworkUtils.U32RoundTrip | Server/network_utils.cpp:137-156 | reading back a sent word gives the word |
| NetworkUtils.U32BytesRoundTrip | Server/network_utils.cpp:137-156 | writing a received word gives the same 4 bytes |
| NetworkUtils.EncodeU32s | Server/network_server.cpp:321-324 | a vector of n words is `4*n` bytes |
| NetworkUtils.DecodeU32s | Server/vector_handler.cpp:121-124 | `4*n` bytes give n words |
| NetworkUtils.U32sRoundTrip | Server/vector_handler.cpp:121-124 | the words of a vector's bytes are that vector |
| NetworkUtils.U32sBytesRoundTrip | Server/vector_handler.cpp:121-124 | the bytes of the words read are the bytes received |
| NetworkUtils.ReadNetworkUint32 | Server/network_utils.cpp:137-143 | a value iff 4 bytes were read, and then those 4 bytes taken raw |
| NetworkUtils.SendNetworkUint32 | Server/network_utils.cpp:154-156 | success iff the send took exactly 4 bytes, and then the 4 bytes of the word were transmitted |
| VectorProcessing.SumAppend | Server/vector_processor.cpp:7-8 | the sum of a concatenation is the sum of the sums |
| VectorProcessing.SumPrefix | Server/vector_processor.cpp:7-11 | a prefix sum never exceeds the full sum, since elements are unsigned |
| VectorProcessing.ClampedSum | Server/vector_processor.cpp:4-16 | `min(sum, 2^31 - 1)` lies in [0, 2^31 - 1] |
| VectorProcessing.SaturationAbsorbs | Server/vector_processor.cpp:9-10 | once a prefix passes 2^31 - 1 the result is 2^31 - 1 whatever follows |
| VectorProcessing.SumClamp | Server/vector_processor.cpp:4-16 | the loop with its early return and dead lower clamp computes `ClampedSum(v)` and stays in [0, 2^31 - 1] |
| VectorProcessing.SumClampExamples | Server/test_server.cpp:407-472 | the empty vector gives 0; [100,200] gives 300; [4294967295] and other overflowing inputs give 2147483647 |
| ClientDb.FirstColon | Server/authdb.cpp:26 | the position of the first ':' (or the length when there is none) |
| ClientDb.ParseLine | Server/authdb.cpp:23-27 | a line yields an entry iff it has a ':' that is not its last character; the login is the text before the first ':' and the password the rest, spaces and colons kept |
| ClientDb.LoadAppend | Server/authdb.cpp:22-29 | loading lines `a + b` is loading `a` then `b` |
| ClientDb.IgnoredLine | Server/authdb.cpp:23-28 | a line that does not parse changes nothing, wherever it is |
| ClientDb.EmptyAndColonlessLinesIgnored | Server/authdb.cpp:23-26 | empty lines and lines without ':' do not parse |
| ClientDb.LoadedTable | Server/authdb.cpp:17-30 | after a load from a cleared table, a login is a key iff some line defines it; its password is from the last such line, so later duplicates overwrite |
| ClientDb.AuthDB.constructor | Server/authdb.h:14 | a new table is empty |
| ClientDb.AuthDB.LoadFromLines | Server/authdb.cpp:17-30 | the table is cleared, then every line stored in order: `db == Load(map[], lines)` |
| ClientDb.AuthDB.FindPassword | Server/authdb.cpp:44-49 | found iff the login is a key; then the stored password; otherwise the out-value unchanged |
| Authentication.RepliesSpellOkAndErr | Server/auth_handler.cpp:196-206 | the replies are the 2 bytes "OK" and the 3 bytes "ERR" |
| Authentication.ParseAuthData | Server/auth_handler.cpp:92-122 | success iff at least 72 characters whose last 72 are hex; then login ++ salt ++ hash is the input, with 16 hex of salt and 56 of hash; the login is not checked |
| Authentication.ParseAuthDataInverse | Server/auth_handler.cpp:92-122 | any login, including the empty one, followed by 16 + 56 hex characters is split back into those parts |
| Authentication.ComputeSha224 | Server/auth_handler.cpp:133-143 | the digest as 56 uppercase hex characters that decode back to the digest |
| Authentication.VerifyHash | Server/auth_handler.cpp:159-186 | true iff the client hex decodes to 28 bytes equal to SHA-224 of the text salt ++ password |
| Authentication.HonestHashVerifies | Server/auth_handler.cpp:159-186 | the right hash is accepted in either letter case |
| Authentication.SendResponse | Server/auth_handler.cpp:196-206 | sends "OK" or "ERR"; true iff success and the reply went out whole |
| Authentication.AuthSessionOutcomes | Server/auth_handler.cpp:35-76 | a failed read sends nothing and fails; otherwise one reply, "OK" iff login found and hash verified; true iff that and "OK" went out whole; at most 255 bytes consumed; `out_login` set only once verified |
| Authentication.HonestClientAccepted | Server/auth_handler.cpp:35-76 | for a peer that accepts every send, a client whose datagram carries the right hash is accepted with "OK" and its login |
| Authentication.AuthHandler.constructor | Server/auth_handler.cpp:16-17 | the handler keeps the table it is given |
| Authentication.AuthHandler.Authenticate | Server/auth_handler.cpp:35-76 | the read, parse, lookup, verify and reply steps equal `AuthSession` |
| VectorBatch.ValidateVectorCount | Server/vector_handler.cpp:88-90 | true iff 1 <= count <= 100000 |
| VectorBatch.ValidateVectorSize | Server/vector_handler.cpp:98-100 | true iff 1 <= size <= 10000000 |
| VectorBatch.ReadCount | Server/vector_handler.cpp:74-80 | no error iff 4 bytes arrive and form a valid count; a short read and an out-of-range count abort with the 4 bytes consumed |
| VectorBatch.EncodeFrame | Server/vector_handler.cpp:112-130 | a frame is `4 + 4*n` bytes |
| VectorBatch.ReadFrame | Server/vector_handler.cpp:112-130 | the length is unreadable iff fewer than 4 bytes are pending |
| VectorBatch.ReadFrameLengthRejected | Server/vector_handler.cpp:114-118 | an out-of-range length is rejected having consumed only its 4 bytes, no element byte |
| VectorBatch.ReadFrameVector | Server/vector_handler.cpp:121-129 | a vector read has 1..10000000 elements and is exactly the next `4 + 4*n` bytes |
| VectorBatch.FrontsSplit | Server/vector_handler.cpp:112-130 | bytes at the front of the stream split into consecutive parts |
| VectorBatch.ReadFrameOfEncoding | Server/vector_handler.cpp:112-130 | the frame of a valid vector at the front of the stream reads back as that vector |
| VectorBatch.ReadVectorCount | Server/vector_handler.cpp:74-80 | the method equals `ReadCount` |
| VectorBatch.ReadVector | Server/vector_handler.cpp:112-130 | the method equals `ReadFrame` |
| VectorBatch.ProcessVector | Server/vector_handler.cpp:138-140 | `processVector(v) == sumClamp(v)` |
| VectorBatch.AsU32 | Server/vector_handler.cpp:149-151 | the `int32_t` result passed as `uint32_t`: equal for non-negative values, congruent mod 2^32 |
| VectorBatch.SendResult | Server/vector_handler.cpp:149-151 | sends the result as one 32-bit word |
| VectorBatch.Process | Server/vector_handler.cpp:29-65 | the count, then the loop, equals `Batch` |
| VectorBatch.ProcessVectors | Server/vector_handler.cpp:41-60 | the loop with its two counters equals `Vectors` |
| VectorBatch.EncodeFramesCons | Server/vector_handler.cpp:41-60 | the frames of a batch are its first frame then the others |
| VectorBatch.ReadsAtTail | Server/vector_handler.cpp:41-60 | frames read in sequence stay so after the first |
| VectorBatch.FramesLaidOut | Server/vector_handler.cpp:41-60 | the frames of a batch lie one after another on the stream |
| VectorBatch.LaidOutCons | Server/vector_handler.cpp:41-60 | a frame at the front followed by laid-out frames is laid out |
| VectorBatch.FramesOfEncoding | Server/vector_handler.cpp:41-60 | the frames of a batch are read back, in order, as its vectors |
| VectorBatch.VectorsOfReads | Server/vector_handler.cpp:41-60 | when every read gives a vector and every send is accepted, the loop completes with its counters grown by the vectors and elements read, one result sent per vector in order |
| VectorBatch.BatchOfCountAndFrames | Server/vector_handler.cpp:34-60 | for a peer that accepts every send, a valid count followed by well-formed frames completes and answers them all |
| VectorBatch.BatchOfEncoding | Server/vector_handler.cpp:29-65 | for a peer that accepts every send, a well-formed batch completes with `Completed(|vs|, total size)`, consumes exactly its bytes and answers one clamped sum per vector in order |
| VectorBatch.VectorsOfFrames | Server/vector_handler.cpp:41-60 | for a peer that accepts every send, the loop over well-formed frames completes and answers them all |
| VectorBatch.VectorsOfReadsFromStart | Server/vector_handler.cpp:41-60 | the loop from the start over reads that all succeed completes |
| VectorBatch.BatchOfCount | Server/vector_handler.cpp:34-41 | a valid count is consumed and starts the loop over that many vectors |
| VectorBatch.CountRejectedBeforeFrames | Server/vector_handler.cpp:34 | a bad or unreadable count aborts after its 4 bytes, sends nothing and reads no frame |
| VectorBatch.FramesReadCons | Server/vector_handler.cpp:41-45 | the vectors read before the first failure, one step at a time |
| VectorBatch.VectorsAnswerFramesRead | Server/vector_handler.cpp:41-50 | for a peer that accepts every send: exactly one result per vector read before the first failure, in input order, and nothing else |
| VectorBatch.FramesReadCount | Server/vector_handler.cpp:41-53 | one more frame read adds one vector and its elements to what is counted |
| VectorBatch.ResultsCons | Server/vector_handler.cpp:47-50 | the results of a vector followed by others: its clamped sum's word, then theirs |
| VectorBatch.ResultsSnoc | Server/vector_handler.cpp:47-50 | the results of vectors followed by one more: theirs, then its word |
| VectorBatch.AnswersCons | Server/vector_handler.cpp:41-50 | answering a read vector and then the frames after it is answering the frames from it on |
| VectorBatch.FramesReadSnoc | Server/vector_handler.cpp:41-45 | when the first k frames are read and the next one is too, the first k + 1 give those vectors then that one |
| VectorBatch.SendResultShort | Server/vector_handler.cpp:48-50 | a result that does not go out whole leaves a proper prefix of its word transmitted |
| VectorBatch.VectorsAnswerUnlessSendFails | Server/vector_handler.cpp:41-60 | for any peer, unless a send fell short the loop has sent exactly one result per vector read before the first failure, in order |
| VectorBatch.VectorsConsumeUnlessSendFails | Server/vector_handler.cpp:41-60 | for any peer, unless a send fell short the loop consumes the frames up to and including the first that fails, or all of them |
| VectorBatch.VectorsCompletedReadAll | Server/vector_handler.cpp:41-64 | for any peer, a completed loop read all frames and its counters are the vector count and the total elements |
| VectorBatch.VectorsCompleteWhenAllRead | Server/vector_handler.cpp:41-64 | for a peer that accepts every send, the loop completes when all frames can be read |
| VectorBatch.VectorsStopAtFailedFrame | Server/vector_handler.cpp:43-45 | for any peer, a loop that aborts on a frame aborts at the first frame that cannot be read, with that frame's error |
| VectorBatch.VectorsAbortReasons | Server/vector_handler.cpp:43-50 | the loop aborts only on a frame it cannot read or a result it cannot send; for a peer that accepts every send, only on a frame |
| VectorBatch.VectorsFailedSendIndex | Server/vector_handler.cpp:48-50 | a failed send is at one of the loop's indices |
| VectorBatch.VectorsStopAtFailedSend | Server/vector_handler.cpp:43-50 | for any peer, when result j fails, frames i..j were all read and nothing beyond frame j is consumed |
| VectorBatch.VectorsFailedSendAfterPrefix | Server/vector_handler.cpp:41-50 | when result j fails, the loop ran as the loop over frames before j, which completes, and then the send for frame j fell short |
| VectorBatch.VectorsFailedSendKeepsAnswers | Server/vector_handler.cpp:41-50 | for any peer, when result j fails, every result before j went out whole, in order |
| VectorBatch.ShortAfterAnswers | Server/vector_handler.cpp:47-50 | after the answers to k frames, a short send for frame k leaves a proper prefix of the answers to k + 1 frames |
| VectorBatch.VectorsFailedSendIsShort | Server/vector_handler.cpp:41-50 | for any peer, when result j fails, after the earlier results only a proper prefix of j's word went out |
| VectorBatch.ExtendsTransitive | Server/vector_handler.cpp:41-60 | appending twice is appending |
| VectorBatch.VectorsOnlyAppend | Server/vector_handler.cpp:41-60 | whatever the peer does, the loop only appends to what was sent |
| VectorBatch.BatchOnlyAppends | Server/vector_handler.cpp:29-65 | the batch only appends to what was sent |
| Server.HexCharToByte | Server/network_server.cpp:243-251 | the digit value of a hex character, 0 for any other character |
| Server.NetworkServer.constructor | Server/network_server.cpp:61-66 | running, with no listening socket |
| Server.NetworkServer.IsRunning | Server/network_server.cpp:88 | reports the `running` flag |
| Server.NetworkServer.RequestStop | Server/network_server.cpp:79-86 | clears `running`, closes an open listening socket once and leaves `listen_fd == -1`; with no socket nothing is closed, so a second call changes nothing |
| Server.NetworkServer.ServeClient | Server/network_server.cpp:159-346 | the session equals `ServeSession` |
| Server.NetworkServer.AuthenticateClient | Server/network_server.cpp:161-285 | the datagram steps equal `ServeAuth` |
| Server.AllHex | Server/network_server.cpp:186-193 | the loop with its `break` yields `IsValidHex` |
| Server.DecodeClientHash | Server/network_server.cpp:241-258 | the 28 bytes filled by the loop are the decoding of the hash hex |
| Server.ServeVectors | Server/network_server.cpp:293-302 | the raw count, its range check and the loop equal `Batch` |
| Server.ServeFrames | Server/network_server.cpp:306-341 | the loop over vectors equals `Vectors` with `ReadFrame` |
| Server.ReceiveFrame | Server/network_server.cpp:311-325 | the raw length, its range check and the element bytes equal `ReadFrame` |
| Server.ServeSessionSilentOnMalformed | Server/network_server.cpp:165-198 | the three format failures happen iff the datagram is missing or malformed; then nothing is sent and there is no vector phase |
| Server.ServeSessionUnknownLogin | Server/network_server.cpp:212-219 | an unknown login happens iff the datagram parses and its login is not a key; exactly the byte 1 is sent and there is no vector phase |
| Server.ServeAuthHashMismatch | Server/network_server.cpp:260-274 | the hash check fails iff the datagram parses, its login is known and the hash does not verify; then "ERR" is sent |
| Server.ServeSessionHashMismatch | Server/network_server.cpp:260-274 | a mismatch happens iff the login is known and the hash fails; "ERR" is sent and there is no vector phase |
| Server.ServeSessionVectorsAfterOk | Server/network_server.cpp:276-296 | the vector phase runs iff the datagram verifies and "OK" went out whole; what it sends comes after the "OK" |
| Server.AuthAgreesOnOutcome | Server/network_server.cpp:161-285 | same verdict, login and consumed bytes as `AuthHandler::authenticate` |
| Server.AuthAgreesOnReplies | Server/network_server.cpp:161-285 | the same reply as `AuthHandler::authenticate` except for malformed data (none against "ERR") and unknown logins (byte 1 against "ERR") |
| Server.ServeAuthAgreesWithAuthenticate | Server/network_server.cpp:161-285 | same verdict, login and consumed bytes as `AuthHandler::authenticate`; the replies differ only for malformed data and unknown logins |
| Server.ServeAuthHonestClient | Server/network_server.cpp:161-285 | for a peer that accepts every send, a datagram with the right hash is accepted, consuming exactly it and sending "OK" |
| Server.AcceptedBatchAnswered | Server/network_server.cpp:293-341 | after acceptance, for a peer that accepts every send, a well-formed batch completes with one result per vector in order after the "OK", consuming exactly the batch |

## Left out

- Socket plumbing: `createSocket`, the `run` accept loop, `bind`, `listen`, `accept`, and the `close` calls on client descriptors. This is operating-system I/O; a session is a function of a `Conn` value instead.
- The destructor of `NetworkServer`: it only closes the listening socket, as `RequestStop` does.
- `sockaddrToString`: a formatting wrapper over `inet_ntop` used only in logs.
- The static `bytesToHex` in `Server/network_server.cpp:48-56`: it is the same loop as `NetworkUtils.BytesToHex`. Its result, the server hash in hex, is only logged.
- The static `recv_all` in `Server/network_server.cpp:32-45`: it is the same loop as `recvAll`, and `NetworkUtils.RecvAll` models both.
- SHA-224 is a parameter, not an implementation. `CryptoPP::VerifyBufsEqual` is sequence equality; its constant running time cannot be stated.
- The logger and every log call: file output behind a mutex.
- Command-line parsing, `main` and the server parameters.
- Opening the credential file: the model starts from the lines `std::getline` yields, so the "cannot open" error is not modelled.
- `std::atomic` semantics of `running`: it is a plain field.
- VectorProcessing.SumClamp: follows the declaration `sumClamp(const std::vector<uint32_t>&)` of Server/vector_processor.h:18, which every caller and test uses. The definition in Server/vector_processor.cpp:4 takes `std::vector<float>`, so each element above 2^24 would first be rounded to 24 significant bits (`[16777217]` would give 16777216, `[2147483583]` would give 2147483520); that rounding is not modelled. The `double` accumulator is modelled by exact integers, which is faithful because every partial sum stays below 2^53.
- Byte order: words are little-endian throughout. The source copies bytes raw, so its actual layout depends on the host.
- Server.NetworkServer.ServeClient: a session that throws and one that returns are both modelled as a returned `AuthEnd` or `Outcome`; what the caller does with an exception is outside the model.
- VectorBatch.VectorsAnswerFramesRead: stated for a peer that accepts every send, and so are `VectorsOfFrames`, `BatchOfEncoding` and `Server.AcceptedBatchAnswered`. For any other peer, what the loop sent is given instead by `VectorsAnswerUnlessSendFails` when no send fell short and by `VectorsFailedSendKeepsAnswers` and `VectorsFailedSendIsShort` when one did.
- Authentication.HonestClientAccepted: stated for a peer that accepts every send. When the peer refuses part of the "OK", `authenticate` reports failure, as `AuthSessionOutcomes` states for any peer.
- Server.ServeAuthHonestClient: stated for a peer that accepts every send. When the peer refuses part of the "OK", `serveClient` ends with `OkNotSent` and runs no vector phase, as `ServeSessionVectorsAfterOk` states for any peer.
- The end-to-end session of an honest client is given by two lemmas that compose, `Server.ServeAuthHonestClient` and `Server.AcceptedBatchAnswered`, not by one.
