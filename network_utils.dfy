/** Hex codec, full-length reads and the 32-bit wire word.

    The wire carries every 32-bit integer (vector count, vector length,
    elements, results) as four bytes, least significant first: the server
    copies the bytes straight into a `uint32_t` on a little-endian host and
    applies no byte-order conversion, so that layout is the one used
    throughout. */
module NetworkUtils {
  import opened Sockets

  type u32 = x: int | 0 <= x < 0x1_0000_0000

  datatype Option<T> = None | Some(value: T)

  // ---------------------------------------------------------------------
  // Hex characters
  // ---------------------------------------------------------------------

  predicate IsHexChar(c: char)
  {
    ('0' <= c <= '9') || ('a' <= c <= 'f') || ('A' <= c <= 'F')
  }

  /** The value of a hex digit, whatever its case. */
  function HexValue(c: char): (v: nat)
    requires IsHexChar(c)
    ensures v < 16
  {
    if '0' <= c <= '9' then c as int - '0' as int
    else if 'a' <= c <= 'f' then 10 + (c as int - 'a' as int)
    else 10 + (c as int - 'A' as int)
  }

  /** The upper-case digit for a nibble, as `std::uppercase << std::hex` prints it. */
  function HexDigit(n: nat): (c: char)
    requires n < 16
    ensures IsHexChar(c) && HexValue(c) == n
    ensures !('a' <= c <= 'f')
  {
    if n < 10 then ('0' as int + n) as char else ('A' as int + (n - 10)) as char
  }

  /** The byte `(high << 4) | low` for a pair of hex digits. */
  function PairByte(high: char, low: char): byte
    requires IsHexChar(high) && IsHexChar(low)
  {
    16 * HexValue(high) + HexValue(low)
  }

  /** `isValidHex`: `std::all_of` over the characters. */
  function IsValidHex(s: string): (r: bool)
    ensures r <==> forall i :: 0 <= i < |s| ==> IsHexChar(s[i])
  {
    if s == [] then true
    else IsHexChar(s[0]) && IsValidHex(s[1..])
  }

  // ---------------------------------------------------------------------
  // Encoding
  // ---------------------------------------------------------------------

  /** The two characters `std::setw(2) << std::setfill('0')` prints for a byte. */
  function ByteHex(b: byte): string
  {
    [HexDigit(b / 16), HexDigit(b % 16)]
  }

  function ToHex(b: seq<byte>): string
  {
    if b == [] then [] else ByteHex(b[0]) + ToHex(b[1..])
  }

  lemma {:induction false} ToHexAppend(a: seq<byte>, b: seq<byte>)
    ensures ToHex(a + b) == ToHex(a) + ToHex(b)
  {
    if a == [] {
      assert a + b == b;
    } else {
      assert (a + b)[1..] == a[1..] + b;
      ToHexAppend(a[1..], b);
    }
  }

  /** `bytesToHex` yields two upper-case digits per byte, most significant
      nibble first, and nothing else. */
  lemma {:induction false} ToHexShape(b: seq<byte>)
    ensures |ToHex(b)| == 2 * |b|
    ensures forall i :: 0 <= i < |b| ==>
              ToHex(b)[2 * i] == HexDigit(b[i] / 16) && ToHex(b)[2 * i + 1] == HexDigit(b[i] % 16)
  {
    if b != [] {
      ToHexShape(b[1..]);
      forall i | 0 <= i < |b|
        ensures ToHex(b)[2 * i] == HexDigit(b[i] / 16) && ToHex(b)[2 * i + 1] == HexDigit(b[i] % 16)
      {
        if i > 0 {
          assert ToHex(b)[2 * i] == ToHex(b[1..])[2 * (i - 1)];
          assert ToHex(b)[2 * i + 1] == ToHex(b[1..])[2 * (i - 1) + 1];
        }
      }
    }
  }

  /** Every character `bytesToHex` produces is a digit or an upper-case letter. */
  lemma ToHexIsUpperHex(b: seq<byte>)
    ensures IsValidHex(ToHex(b))
    ensures forall i :: 0 <= i < |ToHex(b)| ==> !('a' <= ToHex(b)[i] <= 'f')
  {
    ToHexShape(b);
    forall i | 0 <= i < |ToHex(b)|
      ensures IsHexChar(ToHex(b)[i]) && !('a' <= ToHex(b)[i] <= 'f')
    {
      if i % 2 == 0 {
        assert ToHex(b)[2 * (i / 2)] == HexDigit(b[i / 2] / 16);
      } else {
        assert ToHex(b)[2 * (i / 2) + 1] == HexDigit(b[i / 2] % 16);
      }
    }
  }

  /** `bytesToHex(data, length)`: appends two digits per byte to a stream. */
  method BytesToHex(data: seq<byte>) returns (s: string)
    ensures s == ToHex(data)
  {
    s := "";
    for i := 0 to |data|
      invariant s == ToHex(data[..i])
    {
      ToHexAppend(data[..i], [data[i]]);
      assert data[..i + 1] == data[..i] + [data[i]];
      s := s + [HexDigit(data[i] / 16), HexDigit(data[i] % 16)];
    }
    assert data[..|data|] == data;
  }

  // ---------------------------------------------------------------------
  // Decoding
  // ---------------------------------------------------------------------

  /** The bytes `hexToBytes` writes before it meets a pair with a non-hex
      character (or runs out of whole pairs). */
  function DecodedPrefix(hex: string): (d: seq<byte>)
    ensures 2 * |d| <= |hex|
  {
    if |hex| < 2 || !IsHexChar(hex[0]) || !IsHexChar(hex[1]) then []
    else [PairByte(hex[0], hex[1])] + DecodedPrefix(hex[2..])
  }

  /** The pair at index `k` is decoded exactly when all pairs up to it are hex. */
  lemma {:induction false} DecodedPrefixAt(hex: string, k: nat)
    requires 2 * k + 1 < |hex|
    requires forall j :: 0 <= j <= 2 * k + 1 ==> IsHexChar(hex[j])
    ensures k < |DecodedPrefix(hex)|
    ensures DecodedPrefix(hex)[k] == PairByte(hex[2 * k], hex[2 * k + 1])
  {
    if k > 0 {
      DecodedPrefixAt(hex[2..], k - 1);
    }
  }

  /** If the pair at index `k` is the first bad one, decoding stops there. */
  lemma {:induction false} DecodedPrefixStops(hex: string, k: nat)
    requires 2 * k <= |hex|
    requires forall j :: 0 <= j < 2 * k ==> IsHexChar(hex[j])
    requires 2 * k + 1 >= |hex| || !IsHexChar(hex[2 * k]) || !IsHexChar(hex[2 * k + 1])
    ensures |DecodedPrefix(hex)| == k
  {
    if k > 0 {
      DecodedPrefixStops(hex[2..], k - 1);
    }
  }

  /** The result of `hexToBytes(hex, out, n)`: the decoded bytes on success. */
  function DecodeHex(hex: string, n: nat): (r: Option<seq<byte>>)
    ensures r.Some? <==> |hex| == 2 * n && IsValidHex(hex)
    ensures r.Some? ==> |r.value| == n
    ensures r.Some? ==> forall i :: 0 <= i < n ==> r.value[i] == PairByte(hex[2 * i], hex[2 * i + 1])
  {
    if |hex| != 2 * n || !IsValidHex(hex) then None
    else
      var d := DecodedPrefix(hex);
      DecodedPrefixStops(hex, n);
      forall i | 0 <= i < n ensures d[i] == PairByte(hex[2 * i], hex[2 * i + 1]) {
        DecodedPrefixAt(hex, i);
      }
      Some(d)
  }

  /** Decoding ignores the case of the letters. */
  lemma DecodeHexIgnoresCase(hex: string, hex': string, n: nat)
    requires |hex| == |hex'|
    requires forall i :: 0 <= i < |hex| ==>
               IsHexChar(hex[i]) == IsHexChar(hex'[i]) && (IsHexChar(hex[i]) ==> HexValue(hex[i]) == HexValue(hex'[i]))
    ensures DecodeHex(hex, n) == DecodeHex(hex', n)
  {
    var r, r' := DecodeHex(hex, n), DecodeHex(hex', n);
    if r.Some? {
      assert r'.Some?;
      assert r.value == r'.value;
    }
  }

  /** An uppercase hex letter and its lowercase form have the same value. */
  lemma HexValueIgnoresCase(c: char)
    requires 'A' <= c <= 'F'
    ensures IsHexChar(c) && IsHexChar((c as int + 32) as char)
    ensures HexValue((c as int + 32) as char) == HexValue(c)
  {
  }

  /** A text decodes as the same text with any of its uppercase hex letters
      written in lowercase. */
  lemma DecodeHexIgnoresLetterCase(hex: string, hex': string, n: nat)
    requires |hex| == |hex'|
    requires forall i :: 0 <= i < |hex| ==>
               hex'[i] == hex[i] || ('A' <= hex[i] <= 'F' && hex'[i] as int == hex[i] as int + 32)
    ensures DecodeHex(hex, n) == DecodeHex(hex', n)
  {
    forall i | 0 <= i < |hex| && hex'[i] != hex[i]
      ensures IsHexChar(hex[i]) && IsHexChar(hex'[i]) && HexValue(hex[i]) == HexValue(hex'[i])
    {
      HexValueIgnoresCase(hex[i]);
      assert hex'[i] == (hex[i] as int + 32) as char;
    }
    DecodeHexIgnoresCase(hex, hex', n);
  }

  /** Round trip: decoding what `bytesToHex` produced gives the bytes back. */
  lemma HexRoundTrip(b: seq<byte>)
    ensures DecodeHex(ToHex(b), |b|) == Some(b)
  {
    ToHexShape(b);
    ToHexIsUpperHex(b);
    var r := DecodeHex(ToHex(b), |b|);
    forall i | 0 <= i < |b| ensures r.value[i] == b[i] {
      assert r.value[i] == PairByte(HexDigit(b[i] / 16), HexDigit(b[i] % 16));
    }
    assert r.value == b;
  }

  /** `hexToBytes(hex, output, outputLen)`: checks the length, then decodes
      pair by pair into `output`, stopping at the first non-hex pair. Bytes
      written before such a pair stay written; nothing beyond `outputLen` is
      touched. */
  method HexToBytes(hex: string, output: array<byte>, outputLen: nat) returns (ok: bool)
    requires outputLen <= output.Length
    modifies output
    ensures ok <==> DecodeHex(hex, outputLen).Some?
    ensures ok ==> output[..outputLen] == DecodeHex(hex, outputLen).value
    ensures |hex| != 2 * outputLen ==> output[..] == old(output[..])
    ensures |hex| == 2 * outputLen ==>
              && output[..|DecodedPrefix(hex)|] == DecodedPrefix(hex)
              && output[|DecodedPrefix(hex)|..] == old(output[|DecodedPrefix(hex)|..])
  {
    if |hex| != outputLen * 2 {
      return false;
    }
    for i := 0 to outputLen
      invariant forall j :: 0 <= j < 2 * i ==> IsHexChar(hex[j])
      invariant forall k :: 0 <= k < i ==> k < |DecodedPrefix(hex)| && output[k] == DecodedPrefix(hex)[k]
      invariant output[i..] == old(output[i..])
    {
      if !IsHexChar(hex[i * 2]) || !IsHexChar(hex[i * 2 + 1]) {
        DecodedPrefixStops(hex, i);
        assert output[..i] == DecodedPrefix(hex);
        return false;
      }
      DecodedPrefixAt(hex, i);
      output[i] := PairByte(hex[i * 2], hex[i * 2 + 1]);
    }
    DecodedPrefixStops(hex, outputLen);
    assert output[..outputLen] == DecodedPrefix(hex);
    ok := true;
  }

  // ---------------------------------------------------------------------
  // Full-length reads
  // ---------------------------------------------------------------------

  datatype Exact = Exact(count: int, bytes: seq<byte>, rest: Inbound)

  /** What a full-length read of `len` bytes observes: the next `len` bytes if
      the peer delivers that many before the stream ends, else the end code
      together with everything that did arrive. */
  function ReadExact(inb: Inbound, len: nat): (e: Exact)
    ensures e.count == len <==> |Pending(inb)| >= len
  {
    if |Pending(inb)| >= len then Exact(len, Pending(inb)[..len], Drop(inb, len))
    else Exact(EndCode(inb.end), Pending(inb), Drop(inb, |Pending(inb)|))
  }

  /** Two full-length reads in a row take the next `a + b` bytes. */
  lemma ReadExactTwice(inb: Inbound, a: nat, b: nat)
    requires |Pending(inb)| >= a && |Pending(Drop(inb, a))| >= b
    ensures |Pending(inb)| >= a + b
    ensures ReadExact(inb, a) == Exact(a, Pending(inb)[..a], Drop(inb, a))
    ensures ReadExact(Drop(inb, a), b) == Exact(b, Pending(inb)[a..a + b], Drop(inb, a + b))
    ensures Pending(inb)[..a + b] == Pending(inb)[..a] + Pending(inb)[a..a + b]
  {
    DropDrop(inb, a, b);
  }

  /** One `recv` step of `recvAll` after `got` bytes have accumulated: either
      it extends the accumulated prefix and consumes exactly what it returned,
      or everything delivered has been consumed and it reports the end. */
  lemma RecvStep(inb: Inbound, got: nat, rem: nat, buf: seq<byte>)
    requires rem > 0 && got <= |Pending(inb)| && buf == Pending(inb)[..got]
    ensures var rr := Recv(Drop(inb, got), rem);
            if rr.count > 0 then
              && 0 < rr.count <= rem
              && got + rr.count <= |Pending(inb)|
              && rr.rest == Drop(inb, got + rr.count)
              && buf + rr.bytes == Pending(inb)[..got + rr.count]
            else
              && got == |Pending(inb)|
              && rr.count == EndCode(inb.end)
              && buf == Pending(inb)
  {
    var rr := Recv(Drop(inb, got), rem);
    if rr.count > 0 {
      DropDrop(inb, got, rr.count);
      assert rr.bytes == Pending(inb)[got..got + rr.count];
    }
  }

  /** `recvAll(fd, buf, len)`: receives until `len` bytes have accumulated;
      the first receive returning `r <= 0` is returned as it is. */
  method RecvAll(inb: Inbound, len: nat) returns (r: int, buf: seq<byte>, rest: Inbound)
    ensures Exact(r, buf, rest) == ReadExact(inb, len)
    ensures r == len || r == EndCode(inb.end)
  {
    buf := [];
    rest := inb;
    var rem := len;
    while rem > 0
      invariant 0 <= rem <= len && len - rem <= |Pending(inb)|
      invariant buf == Pending(inb)[..len - rem]
      invariant rest == Drop(inb, len - rem)
    {
      RecvStep(inb, len - rem, rem, buf);
      var rr := Recv(rest, rem);
      if rr.count <= 0 {
        return rr.count, buf, rest;
      }
      buf := buf + rr.bytes;
      rest := rr.rest;
      rem := rem - rr.count;
    }
    r := len;
  }

  // ---------------------------------------------------------------------
  // 32-bit words
  // ---------------------------------------------------------------------

  /** The `k` low bytes of `x`, least significant first. */
  function LittleEndianBytes(x: nat, k: nat): (b: seq<byte>)
    ensures |b| == k
  {
    if k == 0 then [] else [(x % 256) as byte] + LittleEndianBytes(x / 256, k - 1)
  }

  /** The value of the bytes `b`, least significant first. */
  function LittleEndian(b: seq<byte>): nat
  {
    if b == [] then 0 else b[0] as int + 256 * LittleEndian(b[1..])
  }

  /** 256 to the power `k`: the number of values `k` bytes can hold. */
  function Capacity(k: nat): nat
  {
    if k == 0 then 1 else 256 * Capacity(k - 1)
  }

  lemma {:induction false} LittleEndianBound(b: seq<byte>)
    ensures LittleEndian(b) < Capacity(|b|)
  {
    if b != [] {
      LittleEndianBound(b[1..]);
    }
  }

  lemma DivMod256(x: int, r: int, q: int)
    requires 0 <= r < 256 && x == r + 256 * q
    ensures x % 256 == r && x / 256 == q
  {
  }

  /** Reading back the `k` bytes written for a value that fits in them gives
      the value. */
  lemma {:induction false} LittleEndianOfBytes(x: nat, k: nat)
    requires x < Capacity(k)
    ensures LittleEndian(LittleEndianBytes(x, k)) == x
  {
    if k > 0 {
      var b := LittleEndianBytes(x, k);
      assert b[1..] == LittleEndianBytes(x / 256, k - 1);
      LittleEndianOfBytes(x / 256, k - 1);
    }
  }

  /** Writing out the value of some bytes gives those bytes back. */
  lemma {:induction false} LittleEndianBytesOf(b: seq<byte>)
    ensures LittleEndianBytes(LittleEndian(b), |b|) == b
  {
    if b != [] {
      DivMod256(LittleEndian(b), b[0] as int, LittleEndian(b[1..]));
      LittleEndianBytesOf(b[1..]);
    }
  }

  function EncodeU32(x: u32): (b: seq<byte>)
    ensures |b| == 4
  {
    LittleEndianBytes(x, 4)
  }

  function DecodeU32(b: seq<byte>): u32
    requires |b| == 4
  {
    LittleEndianBound(b);
    assert Capacity(4) == 0x1_0000_0000;
    LittleEndian(b)
  }

  /** The four bytes of a word, least significant first. */
  lemma EncodeU32Layout(x: u32)
    ensures EncodeU32(x) == [x % 256, (x / 256) % 256, (x / 65536) % 256, x / 16777216]
  {
    assert LittleEndianBytes(x / 16777216, 1) == [x / 16777216];
    assert x / 65536 / 256 == x / 16777216;
    assert LittleEndianBytes(x / 65536, 2) == [(x / 65536) % 256, x / 16777216];
    assert x / 256 / 256 == x / 65536;
    assert LittleEndianBytes(x / 256, 3) == [(x / 256) % 256, (x / 65536) % 256, x / 16777216];
  }

  lemma DecodeU32Layout(b: seq<byte>)
    requires |b| == 4
    ensures DecodeU32(b) == b[0] as int + 256 * (b[1] as int) + 65536 * (b[2] as int) + 16777216 * (b[3] as int)
  {
    assert LittleEndian(b[3..]) == b[3] as int by {
      assert b[3..][1..] == [];
    }
    assert LittleEndian(b[2..]) == b[2] as int + 256 * LittleEndian(b[3..]) by {
      assert b[2..][1..] == b[3..];
    }
    assert LittleEndian(b[1..]) == b[1] as int + 256 * LittleEndian(b[2..]) by {
      assert b[1..][1..] == b[2..];
    }
  }

  lemma U32RoundTrip(x: u32)
    ensures DecodeU32(EncodeU32(x)) == x
  {
    assert Capacity(4) == 0x1_0000_0000;
    LittleEndianOfBytes(x, 4);
  }

  lemma U32BytesRoundTrip(b: seq<byte>)
    requires |b| == 4
    ensures EncodeU32(DecodeU32(b)) == b
  {
    LittleEndianBytesOf(b);
  }

  /** The elements of a vector as they lie in memory, four bytes each. */
  function EncodeU32s(v: seq<u32>): (b: seq<byte>)
    ensures |b| == 4 * |v|
  {
    if v == [] then [] else EncodeU32(v[0]) + EncodeU32s(v[1..])
  }

  /** The vector `recvAll` fills when it copies `4 * n` bytes into `n` words. */
  function DecodeU32s(b: seq<byte>): (v: seq<u32>)
    requires |b| % 4 == 0
    ensures 4 * |v| == |b|
  {
    if b == [] then [] else [DecodeU32(b[..4])] + DecodeU32s(b[4..])
  }

  lemma {:induction false} U32sRoundTrip(v: seq<u32>)
    ensures DecodeU32s(EncodeU32s(v)) == v
  {
    if v != [] {
      var b := EncodeU32s(v);
      assert b[..4] == EncodeU32(v[0]);
      assert b[4..] == EncodeU32s(v[1..]);
      U32RoundTrip(v[0]);
      U32sRoundTrip(v[1..]);
    }
  }

  lemma {:induction false} U32sBytesRoundTrip(b: seq<byte>)
    requires |b| % 4 == 0
    ensures EncodeU32s(DecodeU32s(b)) == b
  {
    if b != [] {
      var v := DecodeU32s(b);
      assert v[1..] == DecodeU32s(b[4..]);
      U32BytesRoundTrip(b[..4]);
      U32sBytesRoundTrip(b[4..]);
      assert b == b[..4] + b[4..];
    }
  }

  /** `readNetworkUint32`: a full-length read of four bytes taken as they are;
      a short read is an error (the source throws). */
  method ReadNetworkUint32(inb: Inbound) returns (value: Option<u32>, rest: Inbound)
    ensures value.Some? <==> |Pending(inb)| >= 4
    ensures value.Some? ==> value.value == DecodeU32(Pending(inb)[..4])
    ensures rest == ReadExact(inb, 4).rest
  {
    var r, buf;
    r, buf, rest := RecvAll(inb, 4);
    if r != 4 {
      return None, rest;
    }
    value := Some(DecodeU32(buf));
  }

  /** `sendNetworkUint32`: succeeds iff all four bytes were sent. */
  function SendNetworkUint32(out: Outbound, value: u32): (r: (bool, Outbound))
    ensures r.0 <==> Send(out, EncodeU32(value)).count == 4
    ensures r.0 ==> r.1.sent == out.sent + EncodeU32(value)
    ensures r.1 == Send(out, EncodeU32(value)).rest
  {
    var s := Send(out, EncodeU32(value));
    (s.count == 4, s.rest)
  }
}
