/** Control-session messages: writing a message and its parameters, and finding messages in a byte stream. */
module Csm {
  import opened ByteStrings
  import opened Framing
  import LinkCodec

  const START_BYTE: Byte := 0x40
  const HEADER: nat := 6
  const MAX_LENGTH: nat := 65535
  const MAX_BUFFER: nat := 128 * 1024
  const MAX_READ: nat := 65536

  datatype Message = Message(id: U16, payload: Bytes)

  datatype Parameter = Parameter(id: U16, value: Bytes)

  // ----- Writing -----

  /** The message as bytes; nothing at all when it is too long for its 16-bit length. */
  function Encode(m: Message): Bytes {
    if |m.payload| > MAX_LENGTH - HEADER then []
    else [START_BYTE, START_BYTE] + U16Bytes(HEADER + |m.payload|) + U16Bytes(m.id) + m.payload
  }

  function ParameterBytes(p: Parameter): Bytes
    requires |p.value| <= MAX_LENGTH - 10
  {
    U16Bytes(4 + |p.value|) + U16Bytes(p.id) + p.value
  }

  function EncodeParameter(id: U16, p: Parameter): Bytes {
    if |p.value| > MAX_LENGTH - 10 then [] else Encode(Message(id, ParameterBytes(p)))
  }

  method WriteMessage(m: Message) returns (result: Bytes)
    ensures result == Encode(m)
  {
    if |m.payload| > MAX_LENGTH - HEADER {
      return [];
    }
    var bytes := new Byte[HEADER + |m.payload|](_ => 0);
    bytes[0], bytes[1] := START_BYTE, START_BYTE;
    LinkCodec.WriteU16(bytes, 2, bytes.Length);
    LinkCodec.WriteU16(bytes, 4, m.id);
    forall i | 0 <= i < |m.payload| {
      bytes[6 + i] := m.payload[i];
    }
    assert bytes[6..] == m.payload;
    assert bytes[..] == bytes[..6] + bytes[6..];
    result := bytes[..];
  }

  method WriteParameter(id: U16, p: Parameter) returns (result: Bytes)
    ensures result == EncodeParameter(id, p)
  {
    hide Encode;
    if |p.value| > MAX_LENGTH - 10 {
      return [];
    }
    var payload := new Byte[4 + |p.value|](_ => 0);
    LinkCodec.WriteU16(payload, 0, payload.Length);
    LinkCodec.WriteU16(payload, 2, p.id);
    forall i | 0 <= i < |p.value| {
      payload[4 + i] := p.value[i];
    }
    assert payload[4..] == p.value;
    assert payload[..4] == U16Bytes(4 + |p.value|) + U16Bytes(p.id);
    assert payload[..] == payload[..4] + payload[4..];
    result := WriteMessage(Message(id, payload[..]));
  }

  // ----- Parameters -----

  /** The value of the first parameter with the id; a malformed parameter before it hides it. */
  function FindParameter(payload: Bytes, id: U16): Option<Bytes>
    decreases |payload|
  {
    if |payload| < 4 then None
    else
      var length := U16At(payload, 0);
      if length < 4 || length > |payload| then None
      else if U16At(payload, 2) == id then Some(payload[4..length])
      else FindParameter(payload[length..], id)
  }

  method FirstBytesParameter(payload: Bytes, id: U16) returns (result: Option<Bytes>)
    ensures result == FindParameter(payload, id)
  {
    var offset := 0;
    while offset + 4 <= |payload|
      invariant offset <= |payload|
      invariant FindParameter(payload[offset..], id) == FindParameter(payload, id)
      decreases |payload| - offset
    {
      ghost var rest := payload[offset..];
      var length := U16At(payload, offset);
      var found := U16At(payload, offset + 2);
      assert rest[0] == payload[offset] && rest[1] == payload[offset + 1] && rest[2] == payload[offset + 2] &&
             rest[3] == payload[offset + 3];
      if length < 4 || offset + length > |payload| {
        return None;
      }
      if found == id {
        assert rest[4..length] == payload[offset + 4..offset + length];
        return Some(payload[offset + 4..offset + length]);
      }
      assert rest[length..] == payload[offset + length..];
      offset := offset + length;
    }
    return None;
  }

  function ParameterList(ps: seq<Parameter>): Bytes
    requires forall p <- ps :: |p.value| <= MAX_LENGTH - 10
  {
    if |ps| == 0 then [] else ParameterBytes(ps[0]) + ParameterList(ps[1..])
  }

  function FirstWithId(ps: seq<Parameter>, id: U16): Option<Bytes> {
    if |ps| == 0 then None else if ps[0].id == id then Some(ps[0].value) else FirstWithId(ps[1..], id)
  }

  lemma {:induction false} HeadParameter(p: Parameter, rest: Bytes)
    requires |p.value| <= MAX_LENGTH - 10
    ensures var b := ParameterBytes(p) + rest;
            |b| >= 4 && U16At(b, 0) == 4 + |p.value| <= |b| && U16At(b, 2) == p.id &&
            b[4..4 + |p.value|] == p.value && b[4 + |p.value|..] == rest
  {
    var b := ParameterBytes(p) + rest;
    assert b[0] == (4 + |p.value|) / 256 && b[1] == (4 + |p.value|) % 256 && b[2] == p.id / 256 && b[3] == p.id % 256;
  }

  /** Too short for a parameter, or with a length that is below four or beyond the end. */
  predicate BrokenParameter(rest: Bytes) {
    |rest| < 4 || rest[0] as int * 256 + rest[1] < 4 || rest[0] as int * 256 + rest[1] > |rest|
  }

  /** Of the parameters in front of the first broken one, the first one with the id is found; none behind it is. */
  lemma {:induction false} FirstParameterFound(ps: seq<Parameter>, id: U16, rest: Bytes)
    requires (forall p <- ps :: |p.value| <= MAX_LENGTH - 10) && BrokenParameter(rest)
    ensures FindParameter(ParameterList(ps) + rest, id) == FirstWithId(ps, id)
    decreases |ps|
  {
    if |ps| == 0 {
      assert [] + rest == rest;
    } else {
      var others := ParameterList(ps[1..]);
      Associates(ParameterBytes(ps[0]), others, rest);
      HeadParameter(ps[0], others + rest);
      FirstParameterFound(ps[1..], id, rest);
    }
  }

  // ----- The decoder -----

  predicate StartsMessage(b: Bytes) {
    |b| >= 2 && b[0] == START_BYTE && b[1] == START_BYTE
  }

  /** Where the first start marker is, or the last byte when there is none. */
  function FindStart(b: Bytes): (r: nat)
    requires b != []
    ensures r < |b|
  {
    if |b| < 2 || StartsMessage(b) then 0 else 1 + FindStart(b[1..])
  }

  /** One call for the next message: the message, if there is one, and what stays in the buffer. */
  function Next(b: Bytes): (r: (Option<Message>, Bytes))
    ensures |r.1| <= |b| && (r.0.Some? ==> |r.1| < |b|)
    decreases |b|
  {
    if |b| < 6 then (None, b)
    else
      var start := FindStart(b);
      if start + 1 == |b| then (None, b[start..])
      else if start != 0 then Next(b[start..])
      else
        var length := U16At(b, 2);
        if length < 6 then Next(b[1..])
        else if |b| < length then (None, b)
        else (Some(Message(U16At(b, 4), b[6..length])), b[length..])
  }

  class Decoder {
    var buffer: Bytes

    constructor ()
      ensures buffer == []
    {
      buffer := [];
    }

    /** A read that would not fit drops all that is buffered, and itself. */
    method Push(bytes: Bytes)
      modifies this
      ensures buffer == Pushed(old(buffer), bytes)
    {
      if |bytes| > MAX_BUFFER - (if |buffer| < MAX_BUFFER then |buffer| else MAX_BUFFER) {
        buffer := [];
        return;
      }
      buffer := buffer + bytes;
    }

    method TakeNext() returns (result: Option<Message>)
      modifies this
      ensures (result, buffer) == Next(old(buffer))
    {
      while |buffer| >= 6
        invariant Next(buffer) == Next(old(buffer))
        decreases |buffer|
      {
        var start := ScanStart(buffer);
        if start + 1 == |buffer| {
          buffer := buffer[start..];
          return None;
        }
        if start != 0 {
          buffer := buffer[start..];
          continue;
        }
        var length := U16At(buffer, 2);
        if length < 6 {
          buffer := buffer[1..];
          continue;
        }
        if |buffer| < length {
          return None;
        }
        result := Some(Message(U16At(buffer, 4), buffer[6..length]));
        buffer := buffer[length..];
        return;
      }
      return None;
    }
  }

  method ScanStart(b: Bytes) returns (start: nat)
    requires b != []
    ensures start == FindStart(b)
  {
    start := 0;
    while start + 1 < |b| && (b[start] != START_BYTE || b[start + 1] != START_BYTE)
      invariant start < |b|
      invariant FindStart(b) == start + FindStart(b[start..])
      decreases |b| - start
    {
      assert b[start..][1..] == b[start + 1..];
      start := start + 1;
    }
  }

  function Pushed(buffer: Bytes, bytes: Bytes): Bytes {
    if |buffer| + |bytes| > MAX_BUFFER && bytes != [] then [] else buffer + bytes
  }

  /** Asking for messages until there is none. */
  function TakeAll(b: Bytes): (seq<Message>, Bytes)
    decreases |b|
  {
    var (m, rest) := Next(b);
    if m.None? then ([], rest)
    else
      var (ms, last) := TakeAll(rest);
      ([m.value] + ms, last)
  }

  /** Every read is pushed, then all its messages are taken. */
  function Receive(buffer: Bytes, chunks: seq<Bytes>): (seq<Message>, Bytes)
    decreases |chunks|
  {
    if |chunks| == 0 then ([], buffer)
    else
      var (first, rest) := TakeAll(Pushed(buffer, chunks[0]));
      var (others, last) := Receive(rest, chunks[1..]);
      (first + others, last)
  }

  // ----- Against a reference that drops one byte at a time -----

  function ParseStep(b: Bytes): Step<(), Message> {
    if |b| < 2 then Wait
    else if !StartsMessage(b) then Take(1, (), [])
    else if |b| < 4 then Wait
    else
      var length := U16At(b, 2);
      if length < 6 then Take(1, (), [])
      else if |b| < length then Wait
      else Take(length, (), [Message(U16At(b, 4), b[6..length])])
  }

  function Parser(): ((), Bytes) -> Step<(), Message> { (s, b) => ParseStep(b) }

  function Reference(b: Bytes): Drained<(), Message> { Drain(Parser(), (), b) }

  lemma {:induction false} StepStable(b: Bytes, later: Bytes)
    requires ParseStep(b).Take?
    ensures ParseStep(b + later) == ParseStep(b)
  {
    if StartsMessage(b) {
      var length := U16At(b, 2);
      if length >= 6 {
        assert (b + later)[6..length] == b[6..length];
      }
    }
  }

  lemma {:induction false} ParserPrefixed()
    ensures Prefixed(Parser())
  {
    forall s: (), b: Bytes, later: Bytes | Parser()(s, b).Take?
      ensures Parser()(s, b + later) == Parser()(s, b)
    {
      StepStable(b, later);
    }
  }

  lemma {:induction false} SkipToStart(b: Bytes)
    requires b != []
    ensures Reference(b) == Reference(b[FindStart(b)..])
    decreases |b|
  {
    if |b| >= 2 && !StartsMessage(b) {
      SkipToStart(b[1..]);
      assert b[1..][FindStart(b[1..])..] == b[FindStart(b)..];
      SkipOne(b);
    }
  }

  lemma {:induction false} SkipOne(b: Bytes)
    requires ParseStep(b) == Take(1, (), [])
    ensures Reference(b) == Reference(b[1..])
  {
    assert Parser()((), b) == Take(1, (), []);
    var tail := Reference(b[1..]);
    assert tail.(messages := [] + tail.messages) == tail;
  }

  lemma {:induction false} ReferenceWaits(b: Bytes)
    requires ParseStep(b).Wait?
    ensures Reference(b) == Drained((), [], b)
  {
    assert Parser()((), b).Wait?;
  }

  lemma {:induction false} SingleByteWaits(b: Bytes)
    requires |b| < 2
    ensures ParseStep(b).Wait?
  {}

  /** The start that FindStart names really is one. */
  lemma {:induction false} StartFound(b: Bytes)
    requires b != []
    ensures FindStart(b) + 1 < |b| ==> StartsMessage(b[FindStart(b)..])
    decreases |b|
  {
    if |b| >= 2 && !StartsMessage(b) {
      StartFound(b[1..]);
      assert b[1..][FindStart(b[1..])..] == b[FindStart(b)..];
    }
  }

  /** No message can be in fewer than six bytes. */
  lemma {:induction false} ShortHasNone(b: Bytes)
    requires |b| < 6
    ensures Reference(b).messages == []
    decreases |b|
  {
    if ParseStep(b).Take? {
      SkipOne(b);
      ShortHasNone(b[1..]);
    } else {
      ReferenceWaits(b);
    }
  }

  /** A call for the next message does to the buffer what the reference does, up to bytes that start no message. */
  lemma {:induction false} NextMatches(b: Bytes)
    ensures var (m, rest) := Next(b);
            if m.None? then Reference(rest) == Reference(b) && Reference(b).messages == []
            else Reference(b) == Reference(rest).(messages := [m.value] + Reference(rest).messages)
    decreases |b|
  {
    if |b| < 6 {
      ShortHasNone(b);
    } else {
      var start := FindStart(b);
      SkipToStart(b);
      if start + 1 == |b| {
        SingleByteWaits(b[start..]);
        ReferenceWaits(b[start..]);
      } else if start != 0 {
        NextMatches(b[start..]);
      } else {
        StartFound(b);
        assert b[0..] == b;
        var length := U16At(b, 2);
        if length < 6 {
          SkipOne(b);
          NextMatches(b[1..]);
        } else if |b| < length {
          ReferenceWaits(b);
        } else {
          assert Parser()((), b) == Take(length, (), [Message(U16At(b, 4), b[6..length])]);
        }
      }
    }
  }

  lemma {:induction false} TakeAllMatches(b: Bytes)
    ensures TakeAll(b).0 == Reference(b).messages
    ensures Reference(TakeAll(b).1) == Reference(b).(messages := [])
    decreases |b|
  {
    NextMatches(b);
    var (m, rest) := Next(b);
    if m.Some? {
      TakeAllMatches(rest);
    } else {
      assert Reference(b).messages == [];
    }
  }

  lemma {:induction false} NextLeaves(b: Bytes)
    ensures Next(b).0.None? ==> |Next(b).1| < MAX_LENGTH
    decreases |b|
  {
    if |b| >= 6 {
      var start := FindStart(b);
      if start != 0 && start + 1 != |b| {
        NextLeaves(b[start..]);
      } else if start == 0 && U16At(b, 2) < 6 {
        NextLeaves(b[1..]);
      }
    }
  }

  lemma {:induction false} LeftoverBounded(b: Bytes)
    ensures |TakeAll(b).1| < MAX_LENGTH
    decreases |b|
  {
    NextLeaves(b);
    if Next(b).0.Some? {
      LeftoverBounded(Next(b).1);
    }
  }

  lemma {:induction false} ReferenceAppend(b: Bytes, later: Bytes)
    ensures Reference(b + later).messages == Reference(b).messages + Reference(Reference(b).rest + later).messages
  {
    ParserPrefixed();
    DrainAppend(Parser(), (), b, later);
  }

  /** What is taken now and what is left for later add up to the reference on the whole. */
  lemma {:induction false} TakenSoFar(b: Bytes, later: Bytes)
    ensures Reference(b + later).messages == TakeAll(b).0 + Reference(TakeAll(b).1 + later).messages
  {
    var rest := TakeAll(b).1;
    TakeAllMatches(b);
    ReferenceAppend(b, later);
    ReferenceAppend(rest, later);
    assert Reference(rest).rest == Reference(b).rest;
    var tail := Reference(Reference(b).rest + later).messages;
    assert [] + tail == tail;
  }

  /**
   On arbitrary bytes, the messages received are those of the whole stream, whatever the reads were; no read overflows.
   */
  lemma {:induction false} ChunkingInvisible(buffer: Bytes, chunks: seq<Bytes>)
    requires |buffer| < MAX_LENGTH && Reference(buffer).messages == []
    requires forall c <- chunks :: |c| <= MAX_READ
    ensures Receive(buffer, chunks).0 == Reference(buffer + Concat(chunks)).messages
    decreases |chunks|
  {
    if |chunks| == 0 {
      ConcatNone(buffer);
    } else {
      var b := buffer + chunks[0];
      LeftoverBounded(b);
      TakeAllMatches(b);
      ChunkingInvisible(TakeAll(b).1, chunks[1..]);
      TakenSoFar(b, Concat(chunks[1..]));
      ConcatFirst(buffer, chunks);
      assert Pushed(buffer, chunks[0]) == b;
    }
  }

  /** From an empty buffer: two ways to cut the same stream give the same messages. */
  lemma {:induction false} SameStreamSameMessages(chunks: seq<Bytes>, others: seq<Bytes>)
    requires forall c <- chunks :: |c| <= MAX_READ
    requires forall c <- others :: |c| <= MAX_READ
    requires Concat(chunks) == Concat(others)
    ensures Receive([], chunks).0 == Receive([], others).0
  {
    SingleByteWaits([]);
    ReferenceWaits([]);
    ChunkingInvisible([], chunks);
    ChunkingInvisible([], others);
  }

  // ----- Encoded messages -----

  predicate Encodable(m: Message) { |m.payload| <= MAX_LENGTH - HEADER }

  function EncodeAll(ms: seq<Message>): Bytes {
    if |ms| == 0 then [] else Encode(ms[0]) + EncodeAll(ms[1..])
  }

  lemma {:induction false} HeadParses(m: Message, rest: Bytes)
    requires Encodable(m)
    ensures ParseStep(Encode(m) + rest) == Take(|Encode(m)|, (), [m])
    ensures (Encode(m) + rest)[|Encode(m)|..] == rest
  {
    var n := HEADER + |m.payload|;
    var b := Encode(m) + rest;
    assert b[0] == START_BYTE && b[1] == START_BYTE && b[2] == n / 256 && b[3] == n % 256;
    assert b[4] == m.id / 256 && b[5] == m.id % 256;
    assert b[6..n] == m.payload;
  }

  lemma {:induction false} EncodedMessagesParse(ms: seq<Message>)
    requires forall m <- ms :: Encodable(m)
    ensures Reference(EncodeAll(ms)) == Drained((), ms, [])
    decreases |ms|
  {
    if |ms| == 0 {
      SingleByteWaits([]);
      ReferenceWaits([]);
    } else {
      var b := EncodeAll(ms);
      HeadParses(ms[0], EncodeAll(ms[1..]));
      assert Parser()((), b) == Take(|Encode(ms[0])|, (), [ms[0]]);
      EncodedMessagesParse(ms[1..]);
      assert [ms[0]] + ms[1..] == ms;
    }
  }

  /** A list of encoded messages, cut into reads anyhow, is received as exactly that list. */
  lemma {:induction false} MessagesInChunks(ms: seq<Message>, chunks: seq<Bytes>)
    requires forall m <- ms :: Encodable(m)
    requires forall c <- chunks :: |c| <= MAX_READ
    requires Concat(chunks) == EncodeAll(ms)
    ensures Receive([], chunks).0 == ms
  {
    SingleByteWaits([]);
    ReferenceWaits([]);
    ChunkingInvisible([], chunks);
    assert [] + Concat(chunks) == Concat(chunks);
    EncodedMessagesParse(ms);
  }

  /** What a parameter message carries comes out of the receiving side unchanged. */
  lemma {:induction false} ParameterArrives(id: U16, p: Parameter, chunks: seq<Bytes>)
    requires |p.value| <= MAX_LENGTH - 10
    requires forall c <- chunks :: |c| <= MAX_READ
    requires Concat(chunks) == EncodeParameter(id, p)
    ensures |Receive([], chunks).0| == 1
    ensures Receive([], chunks).0[0].id == id
    ensures FindParameter(Receive([], chunks).0[0].payload, p.id) == Some(p.value)
  {
    var m := Message(id, ParameterBytes(p));
    assert EncodeAll([m]) == Encode(m) by { assert [m][1..] == []; }
    MessagesInChunks([m], chunks);
    FirstParameterFound([p], p.id, []);
    assert ParameterList([p]) + [] == ParameterBytes(p) by { assert [p][1..] == []; }
  }

  // ----- The wire -----

  /** A parameter sent as a message, byte by byte. */
  lemma {:induction false} WireForm(id: U16, p: Parameter)
    ensures EncodeParameter(id, p) ==
            if |p.value| > 65525 then []
            else
              [0x40, 0x40, (|p.value| + 10) / 256, (|p.value| + 10) % 256, id / 256, id % 256,
               (|p.value| + 4) / 256, (|p.value| + 4) % 256, p.id / 256, p.id % 256] + p.value
  {}

  /** A message is encoded exactly when its length fits 16 bits. */
  lemma {:induction false} MessageForm(m: Message)
    ensures Encode(m) ==
            if |m.payload| > 65529 then []
            else [0x40, 0x40, (|m.payload| + 6) / 256, (|m.payload| + 6) % 256, m.id / 256, m.id % 256] + m.payload
  {}

  /** A read that would leave more than 128 KiB unread drops them, and itself. */
  lemma {:induction false} OverfullDropped(buffer: Bytes, bytes: Bytes)
    requires bytes != []
    ensures Pushed(buffer, bytes) == if |buffer| + |bytes| > 131072 then [] else buffer + bytes
  {}
}
