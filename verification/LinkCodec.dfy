/** The wire formats of the iAP2 link layer: packet checksum, packet header and LSP payload. */
module LinkCodec {
  import opened ByteStrings

  const PACKET_START: nat := 0xff5a
  const CONTROL_SYN: Byte := 0x80
  const CONTROL_ACK: Byte := 0x40
  const CONTROL_RST: Byte := 0x10
  const HEADER_SIZE: nat := 9

  datatype Header = Header(length: U16, control: Byte, sequence: Byte, acknowledgement: Byte, sessionId: Byte)

  datatype Session = Session(id: Byte, kind: Byte, version: Byte)

  datatype Lsp = Lsp(
    maxOutgoing: Byte, maxLen: U16, retransmissionTimeout: U16, ackTimeout: U16,
    maxRetransmissions: Byte, maxAck: Byte, sessions: seq<Session>)

  /** Control bits; the flag byte is split by division because no two flags share a bit. */
  predicate HasSyn(control: Byte) { control / CONTROL_SYN % 2 == 1 }
  predicate HasAck(control: Byte) { control / CONTROL_ACK % 2 == 1 }
  predicate HasRst(control: Byte) { control / CONTROL_RST % 2 == 1 }

  // ----- Checksum -----

  function Sum(bytes: Bytes): nat {
    if bytes == [] then 0 else Sum(bytes[..|bytes| - 1]) + bytes[|bytes| - 1]
  }

  function Checksum(bytes: Bytes): Byte {
    (256 - Sum(bytes) % 256) % 256
  }

  predicate ValidChecksum(bytes: Bytes) {
    Sum(bytes) % 256 == 0
  }

  /** The running 8-bit sum of the checksum loops is the true sum, reduced once at the end. */
  method ByteSum(bytes: Bytes) returns (sum: Byte)
    ensures sum == Sum(bytes) % 256
  {
    sum := 0;
    for i := 0 to |bytes|
      invariant sum == Sum(bytes[..i]) % 256
    {
      assert bytes[..i + 1][..i] == bytes[..i];
      sum := (sum + bytes[i]) % 256;
    }
    assert bytes[..|bytes|] == bytes;
  }

  /** One byte completes a string to a valid one, and it is the checksum. */
  lemma {:induction false} ChecksumCompletes(bytes: Bytes, last: Byte)
    ensures ValidChecksum(bytes + [last]) <==> last == Checksum(bytes)
  {
    assert (bytes + [last])[..|bytes|] == bytes;
  }

  /** A single corrupted byte is always noticed. */
  lemma {:induction false} ChecksumSeesOneByte(bytes: Bytes, i: nat, b: Byte)
    requires i < |bytes| && b != bytes[i] && ValidChecksum(bytes)
    ensures !ValidChecksum(bytes[i := b])
  {
    SumUpdate(bytes, i, b);
  }

  lemma {:induction false} SumUpdate(bytes: Bytes, i: nat, b: Byte)
    requires i < |bytes|
    ensures Sum(bytes[i := b]) == Sum(bytes) - bytes[i] + b
  {
    var n := |bytes| - 1;
    if i == n {
      assert bytes[i := b][..n] == bytes[..n];
    } else {
      assert bytes[i := b][..n] == bytes[..n][i := b];
      SumUpdate(bytes[..n], i, b);
    }
  }

  // ----- Header -----

  function HeaderFields(h: Header): (r: Bytes)
    ensures |r| == 8
  {
    U16Bytes(PACKET_START) + U16Bytes(h.length) + [h.control, h.sequence, h.acknowledgement, h.sessionId]
  }

  function EncodeHeader(h: Header): (r: Bytes)
    ensures |r| == HEADER_SIZE
  {
    HeaderFields(h) + [Checksum(HeaderFields(h))]
  }

  function DecodeHeader(bytes: Bytes): Option<Header>
    requires |bytes| == HEADER_SIZE
  {
    if !ValidChecksum(bytes) || U16At(bytes, 0) != PACKET_START then None
    else if U16At(bytes, 2) < HEADER_SIZE then None
    else Some(Header(U16At(bytes, 2), bytes[4], bytes[5], bytes[6], bytes[7]))
  }

  method WriteU16(target: array<Byte>, offset: nat, value: U16)
    requires offset + 2 <= target.Length
    modifies target
    ensures target[..] == old(target[..])[offset := value / 256][offset + 1 := value % 256]
  {
    target[offset] := value / 256;
    target[offset + 1] := value % 256;
  }

  method WriteHeader(h: Header) returns (result: array<Byte>)
    ensures fresh(result) && result[..] == EncodeHeader(h)
  {
    result := new Byte[9](_ => 0);
    WriteU16(result, 0, PACKET_START);
    WriteU16(result, 2, h.length);
    result[4], result[5], result[6], result[7] := h.control, h.sequence, h.acknowledgement, h.sessionId;
    assert result[..8] == HeaderFields(h);
    var sum := ByteSum(result[..8]);
    result[8] := (256 - sum as int) % 256;
    assert result[..8] == HeaderFields(h);
    assert result[..] == result[..8] + [result[8]];
  }

  lemma {:induction false} HeaderRoundTrip(h: Header)
    requires h.length >= HEADER_SIZE
    ensures DecodeHeader(EncodeHeader(h)) == Some(h)
  {
    ChecksumCompletes(HeaderFields(h), Checksum(HeaderFields(h)));
  }

  /** Decoding accepts only what encoding produces: every header has exactly one byte form. */
  lemma {:induction false} HeaderUnique(bytes: Bytes)
    requires |bytes| == HEADER_SIZE && DecodeHeader(bytes).Some?
    ensures EncodeHeader(DecodeHeader(bytes).value) == bytes
  {
    var h := DecodeHeader(bytes).value;
    assert bytes[..8] == HeaderFields(h);
    assert bytes == bytes[..8] + [bytes[8]];
    ChecksumCompletes(bytes[..8], bytes[8]);
  }

  // ----- LSP -----

  function SessionBytes(sessions: seq<Session>): (r: Bytes)
    ensures |r| == 3 * |sessions|
  {
    if sessions == [] then [] else
      var s := sessions[0];
      [s.id, s.kind, s.version] + SessionBytes(sessions[1..])
  }

  function ParseSessions(bytes: Bytes): seq<Session>
    requires |bytes| % 3 == 0
  {
    if bytes == [] then [] else
      [Session(bytes[0], bytes[1], bytes[2])] + ParseSessions(bytes[3..])
  }

  function EncodeLsp(lsp: Lsp): (r: Bytes)
    ensures |r| == 10 + 3 * |lsp.sessions|
  {
    [1, lsp.maxOutgoing] + U16Bytes(lsp.maxLen) + U16Bytes(lsp.retransmissionTimeout) +
    U16Bytes(lsp.ackTimeout) + [lsp.maxRetransmissions, lsp.maxAck] + SessionBytes(lsp.sessions)
  }

  function DecodeLsp(bytes: Bytes): Option<Lsp> {
    if |bytes| < 10 || bytes[0] != 1 || (|bytes| - 10) % 3 != 0 then None
    else if U16At(bytes, 2) < HEADER_SIZE then None
    else Some(Lsp(bytes[1], U16At(bytes, 2), U16At(bytes, 4), U16At(bytes, 6), bytes[8], bytes[9],
                  ParseSessions(bytes[10..])))
  }

  lemma {:induction false} SessionsRoundTrip(sessions: seq<Session>)
    ensures ParseSessions(SessionBytes(sessions)) == sessions
  {
    if sessions == [] {
    } else {
      SessionsRoundTrip(sessions[1..]);
      assert SessionBytes(sessions)[3..] == SessionBytes(sessions[1..]);
    }
  }

  lemma {:induction false} SessionsUnique(bytes: Bytes)
    requires |bytes| % 3 == 0
    ensures SessionBytes(ParseSessions(bytes)) == bytes
  {
    if bytes == [] {
    } else {
      SessionsUnique(bytes[3..]);
      assert ParseSessions(bytes)[1..] == ParseSessions(bytes[3..]);
      assert bytes == bytes[..3] + bytes[3..];
    }
  }

  lemma {:induction false} LspRoundTrip(lsp: Lsp)
    requires lsp.maxLen >= HEADER_SIZE
    ensures DecodeLsp(EncodeLsp(lsp)) == Some(lsp)
  {
    assert EncodeLsp(lsp)[10..] == SessionBytes(lsp.sessions);
    SessionsRoundTrip(lsp.sessions);
  }

  lemma {:induction false} LspUnique(bytes: Bytes)
    requires DecodeLsp(bytes).Some?
    ensures EncodeLsp(DecodeLsp(bytes).value) == bytes
  {
    SessionsUnique(bytes[10..]);
    assert bytes == bytes[..10] + bytes[10..];
    assert EncodeLsp(DecodeLsp(bytes).value)[..10] == bytes[..10];
  }

  /** The encoder's loop over the sessions, three bytes at a time. */
  method WriteLsp(lsp: Lsp) returns (result: array<Byte>)
    ensures fresh(result) && result[..] == EncodeLsp(lsp)
  {
    result := new Byte[10 + |lsp.sessions| * 3](_ => 0);
    result[0], result[1] := 1, lsp.maxOutgoing;
    WriteU16(result, 2, lsp.maxLen);
    WriteU16(result, 4, lsp.retransmissionTimeout);
    WriteU16(result, 6, lsp.ackTimeout);
    result[8], result[9] := lsp.maxRetransmissions, lsp.maxAck;
    ghost var head := EncodeLsp(lsp)[..10];
    assert result[..10] == head;
    WriteSessions(result, lsp.sessions);
    assert result[..] == result[..10] + result[10..];
  }

  method WriteSessions(target: array<Byte>, sessions: seq<Session>)
    requires target.Length == 10 + |sessions| * 3
    modifies target
    ensures target[..10] == old(target[..10]) && target[10..] == SessionBytes(sessions)
  {
    var offset := 10;
    ghost var head := target[..10];
    for i := 0 to |sessions|
      invariant offset == 10 + 3 * i
      invariant target[..10] == head
      invariant target[10..offset] == SessionBytes(sessions[..i])
    {
      var s := sessions[i];
      ghost var before := target[10..offset];
      target[offset], target[offset + 1], target[offset + 2] := s.id, s.kind, s.version;
      assert target[10..offset + 3] == before + [s.id, s.kind, s.version];
      SessionBytesAppend(sessions[..i], s);
      assert sessions[..i + 1] == sessions[..i] + [s];
      offset := offset + 3;
    }
    assert sessions[..|sessions|] == sessions;
    assert target[10..] == target[10..offset];
  }

  lemma {:induction false} SessionBytesAppend(sessions: seq<Session>, s: Session)
    ensures SessionBytes(sessions + [s]) == SessionBytes(sessions) + [s.id, s.kind, s.version]
  {
    if sessions == [] {
      assert sessions + [s] == [s];
    } else {
      assert (sessions + [s])[1..] == sessions[1..] + [s];
      SessionBytesAppend(sessions[1..], s);
    }
  }

  /** The decoder's loop: every three bytes after the fixed part become one session. */
  method ReadLsp(bytes: Bytes) returns (result: Option<Lsp>)
    ensures result == DecodeLsp(bytes)
  {
    if |bytes| < 10 || bytes[0] != 1 || (|bytes| - 10) % 3 != 0 {
      return None;
    }
    var maximumLength := U16At(bytes, 2);
    if maximumLength < 9 {
      return None;
    }
    var sessions := [];
    var offset := 10;
    while offset < |bytes|
      invariant 10 <= offset <= |bytes| && (|bytes| - offset) % 3 == 0
      invariant sessions + ParseSessions(bytes[offset..]) == ParseSessions(bytes[10..])
    {
      assert bytes[offset..][3..] == bytes[offset + 3..];
      sessions := sessions + [Session(bytes[offset], bytes[offset + 1], bytes[offset + 2])];
      offset := offset + 3;
    }
    assert sessions + ParseSessions([]) == sessions;
    result := Some(Lsp(bytes[1], maximumLength, U16At(bytes, 4), U16At(bytes, 6), bytes[8], bytes[9], sessions));
  }
}
