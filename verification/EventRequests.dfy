/**
 The text form of the requests on the event channel: header lines ended by CR LF, an empty line, and a body as long as
 one of the lines announces. Whatever is written in that form is read as it was meant.
 */
module EventRequests {
  import opened ByteStrings
  import opened CipherFrames
  import opened EventChannel

  // ----- Numbers in decimal -----

  function Decimal(n: nat): (r: Bytes)
    ensures r != []
  {
    if n < 10 then [0x30 + n] else Decimal(n / 10) + [0x30 + n % 10]
  }

  /** A number printed in decimal is read as that number, leading zeros or not. */
  lemma {:induction false} DecimalRoundTrip(n: nat, zeros: Bytes)
    requires forall i :: 0 <= i < |zeros| ==> zeros[i] == 0x30
    ensures Digits(zeros + Decimal(n)) && DecimalValue(zeros + Decimal(n)) == n
    decreases n
  {
    var text := zeros + Decimal(n);
    var last := |text| - 1;
    if n < 10 {
      assert text[..last] == zeros;
      ZerosMeanZero(zeros);
    } else {
      assert text[..last] == zeros + Decimal(n / 10);
      DecimalRoundTrip(n / 10, zeros);
      assert text == (zeros + Decimal(n / 10)) + [0x30 + n % 10];
    }
  }

  lemma {:induction false} ZerosMeanZero(zeros: Bytes)
    requires forall i :: 0 <= i < |zeros| ==> zeros[i] == 0x30
    ensures Digits(zeros) && DecimalValue(zeros) == 0
  {
    if zeros != [] {
      ZerosMeanZero(zeros[..|zeros| - 1]);
    }
  }

  // ----- Header lines -----

  const CONTENT_LENGTH: Bytes := [99, 111, 110, 116, 101, 110, 116, 45, 108, 101, 110, 103, 116, 104]
  const CSEQ: Bytes := [99, 115, 101, 113]

  /** The same letters, in upper or lower case; `name` is in lower case. */
  ghost predicate SameLetters(text: Bytes, name: Bytes) {
    |text| == |name| &&
    forall i :: 0 <= i < |name| ==> text[i] == name[i] || (97 <= name[i] <= 122 && text[i] == name[i] - 32)
  }

  ghost predicate LowerCase(name: Bytes) {
    forall i :: 0 <= i < |name| ==> !(65 <= name[i] <= 90)
  }

  ghost predicate AllBlank(b: Bytes) {
    forall i :: 0 <= i < |b| ==> b[i] == 32 || b[i] == 9
  }

  /** No blank at either end. */
  ghost predicate Trimmed(b: Bytes) {
    b != [] ==> !(b[0] == 32 || b[0] == 9) && !(b[|b| - 1] == 32 || b[|b| - 1] == 9)
  }

  /** The first colon of the line is at `c`, behind the name in any case of its letters. */
  ghost predicate NamedAt(line: Bytes, c: nat, name: Bytes) {
    c < |line| && line[c] == 58 && (forall k :: 0 <= k < c ==> line[k] != 58) && SameLetters(line[..c], name)
  }

  ghost predicate Named(line: Bytes, name: Bytes) {
    exists c :: NamedAt(line, c, name)
  }

  /** The line gives the named header this value, with blanks around it or not. */
  ghost predicate Says(line: Bytes, name: Bytes, before: Bytes, value: Bytes, after: Bytes) {
    && AllBlank(before) && AllBlank(after) && Trimmed(value)
    && |name| + 1 + |before| + |value| + |after| == |line|
    && NamedAt(line, |name|, name) && line[|name| + 1..] == before + value + after
  }

  // ----- One line -----

  lemma {:induction false} LowerAt(b: Bytes, i: nat)
    requires i < |b|
    ensures |Lower(b)| == |b| && Lower(b)[i] == if 65 <= b[i] <= 90 then b[i] + 32 else b[i]
    decreases |b|
  {
    if |b| > 1 {
      LowerAt(b[1..], if i > 0 then i - 1 else 0);
    }
  }

  lemma {:induction false} LowerMeans(text: Bytes, name: Bytes)
    requires LowerCase(name)
    ensures Lower(text) == name <==> SameLetters(text, name)
  {
    if |text| > 0 {
      LowerAt(text, 0);
    }
    if Lower(text) == name {
      forall i | 0 <= i < |name|
        ensures text[i] == name[i] || (97 <= name[i] <= 122 && text[i] == name[i] - 32)
      {
        LowerAt(text, i);
      }
    }
    if SameLetters(text, name) {
      forall i | 0 <= i < |text|
        ensures Lower(text)[i] == name[i]
      {
        LowerAt(text, i);
      }
    }
  }

  lemma {:induction false} FindIs(b: Bytes, wanted: Byte, c: nat)
    requires c <= |b| && (forall k :: 0 <= k < c ==> b[k] != wanted) && (c < |b| ==> b[c] == wanted)
    ensures Find(b, wanted) == c
    decreases |b|
  {
    if c > 0 {
      FindIs(b[1..], wanted, c - 1);
    }
  }

  lemma {:induction false} FindFirst(b: Bytes, wanted: Byte)
    ensures var c := Find(b, wanted);
            (forall k :: 0 <= k < c ==> b[k] != wanted) && (c < |b| ==> b[c] == wanted)
    decreases |b|
  {
    if b != [] && b[0] != wanted {
      FindFirst(b[1..], wanted);
    }
  }

  lemma {:induction false} TrimsFront(before: Bytes, rest: Bytes)
    requires AllBlank(before) && (rest != [] ==> !Blank(rest[0]))
    ensures TrimFront(before + rest) == rest
    decreases |before|
  {
    if before == [] {
      assert before + rest == rest;
    } else {
      assert (before + rest)[1..] == before[1..] + rest;
      TrimsFront(before[1..], rest);
    }
  }

  lemma {:induction false} TrimsBack(value: Bytes, after: Bytes)
    requires AllBlank(after) && (value != [] ==> !Blank(value[|value| - 1]))
    ensures TrimBack(value + after) == value
    decreases |after|
  {
    var all, n := value + after, |value + after| - 1;
    if after == [] {
      assert all == value;
    } else {
      assert all[..n] == value + after[..|after| - 1];
      TrimsBack(value, after[..|after| - 1]);
    }
  }

  lemma {:induction false} TrimIs(before: Bytes, value: Bytes, after: Bytes)
    requires AllBlank(before) && AllBlank(after) && Trimmed(value)
    ensures TrimBack(TrimFront(before + value + after)) == value
  {
    if value == [] {
      assert before + value + after == (before + after) + [];
      TrimsFront(before + after, []);
    } else {
      assert before + value + after == before + (value + after);
      TrimsFront(before, value + after);
      TrimsBack(value, after);
    }
  }

  lemma {:induction false} NamesAre()
    ensures Ascii("content-length") == CONTENT_LENGTH && Ascii("cseq") == CSEQ
    ensures LowerCase(CONTENT_LENGTH) && LowerCase(CSEQ)
  {
    var text := "content-length";
    assert |text| == 14;
  }

  /** A text line without line ends. */
  ghost predicate Plain(line: Bytes) {
    line != [] && forall i :: 0 <= i < |line| ==> line[i] != CR && line[i] != LF
  }

  /** A line reads the same with its CR as without. */
  lemma {:induction false} ReadWithReturn(h: Headers, line: Bytes)
    requires Plain(line)
    ensures ReadLine(h, line + [CR]) == ReadLine(h, line)
  {
    assert (line + [CR])[..|line|] == line;
  }

  lemma {:induction false} NamedNeeds(line: Bytes, name: Bytes)
    requires LowerCase(name) && Find(line, 58) < |line| && Lower(line[..Find(line, 58)]) == name
    ensures Named(line, name)
  {
    var c := Find(line, 58);
    FindFirst(line, 58);
    LowerMeans(line[..c], name);
    assert NamedAt(line, c, name);
  }

  /** What a header line does. A line with another name, or with none, does nothing. */
  lemma {:induction false} LineDoes(h: Headers, line: Bytes)
    requires Plain(line)
    ensures !Named(line, CONTENT_LENGTH) ==> ReadLine(h, line).length == h.length
    ensures !Named(line, CONTENT_LENGTH) ==>
            ReadLine(h, line).malformed == h.malformed
    ensures !Named(line, CSEQ) ==> ReadLine(h, line).cseq == h.cseq
  {
    hide Lower, Find;
    NamesAre();
    if Find(line, 58) < |line| {
      if Lower(line[..Find(line, 58)]) == CONTENT_LENGTH {
        NamedNeeds(line, CONTENT_LENGTH);
      }
      if Lower(line[..Find(line, 58)]) == CSEQ {
        NamedNeeds(line, CSEQ);
      }
    }
  }

  /** The parts in which a line with a known name is taken. */
  lemma {:induction false} LineParts(line: Bytes, name: Bytes, c: nat)
    requires NamedAt(line, c, name) && LowerCase(name)
    ensures Find(line, 58) == c && Lower(line[..c]) == name
  {
    FindIs(line, 58, c);
    LowerMeans(line[..c], name);
  }

  lemma {:induction false} CseqRead(h: Headers, line: Bytes, before: Bytes, value: Bytes, after: Bytes)
    requires Plain(line) && Says(line, CSEQ, before, value, after)
    ensures ReadLine(h, line) == h.(cseq := value)
  {
    hide Lower, Find, TrimFront, TrimBack;
    NamesAre();
    LineParts(line, CSEQ, 4);
    TrimIs(before, value, after);
  }

  /** A content length spoils the request when it is the second one, no number, or too large; else it is taken. */
  lemma {:induction false} LengthRead(h: Headers, line: Bytes, before: Bytes, value: Bytes, after: Bytes)
    requires Plain(line) && Says(line, CONTENT_LENGTH, before, value, after)
    ensures var good := h.length.None? && value != [] && Digits(value) && DecimalValue(value) <= MAX_EVENT;
            ReadLine(h, line) == if good then h.(length := Some(DecimalValue(value))) else h.(malformed := true)
  {
    hide Lower, Find, TrimFront, TrimBack, DecimalValue;
    NamesAre();
    LineParts(line, CONTENT_LENGTH, 14);
    TrimIs(before, value, after);
  }

  lemma {:induction false} BlankFront(b: Bytes) returns (k: nat)
    ensures k <= |b| && AllBlank(b[..k]) && (k < |b| ==> !Blank(b[k]))
    decreases |b|
  {
    if b == [] || !Blank(b[0]) {
      k := 0;
    } else {
      k := BlankFront(b[1..]);
      k := k + 1;
      assert forall i :: 0 < i < k ==> b[..k][i] == b[1..][..k - 1][i - 1];
    }
  }

  lemma {:induction false} BlankBack(b: Bytes) returns (k: nat)
    ensures k <= |b| && AllBlank(b[k..]) && (k > 0 ==> !Blank(b[k - 1]))
    decreases |b|
  {
    var n := |b| - 1;
    if b == [] || !Blank(b[n]) {
      k := |b|;
    } else {
      k := BlankBack(b[..n]);
      assert forall i :: 0 <= i < n - k ==> b[k..][i] == b[..n][k..][i];
    }
  }

  /** Every line with the name gives it a value. */
  lemma {:induction false} NamedSays(line: Bytes, name: Bytes) returns (before: Bytes, value: Bytes, after: Bytes)
    requires Named(line, name)
    ensures Says(line, name, before, value, after)
  {
    var c :| NamedAt(line, c, name);
    var rest := line[c + 1..];
    var i := BlankFront(rest);
    var j := BlankBack(rest[i..]);
    before, value, after := rest[..i], rest[i..][..j], rest[i..][j..];
    assert rest == before + value + after;
  }

  // ----- All lines -----

  ghost predicate AllPlain(lines: seq<Bytes>) {
    forall i :: 0 <= i < |lines| ==> Plain(lines[i])
  }

  /** Every line with CR LF, and an empty line behind them. */
  function Rendered(lines: seq<Bytes>): Bytes {
    if |lines| == 0 then [CR, LF] else lines[0] + [CR, LF] + Rendered(lines[1..])
  }

  /** The lines with CR LF between them. */
  function Joined(lines: seq<Bytes>): Bytes {
    if |lines| == 0 then []
    else if |lines| == 1 then lines[0]
    else lines[0] + ([CR, LF] + Joined(lines[1..]))
  }

  const END: Bytes := [CR, LF, CR, LF]

  lemma {:induction false} RenderedIsJoined(lines: seq<Bytes>)
    requires |lines| > 0
    ensures Rendered(lines) == Joined(lines) + END
    decreases |lines|
  {
    if |lines| == 1 {
      assert lines[1..] == [];
    } else {
      RenderedIsJoined(lines[1..]);
    }
  }

  lemma {:induction false} SkipPlain(line: Bytes, rest: Bytes)
    requires (forall i :: 0 <= i < |line| ==> line[i] != CR) && HeaderEnd(rest).Some?
    ensures HeaderEnd(line + rest) == Some(|line| + HeaderEnd(rest).value)
    decreases |line|
  {
    if line == [] {
      assert line + rest == rest;
    } else {
      assert (line + rest)[1..] == line[1..] + rest;
      SkipPlain(line[1..], rest);
    }
  }

  lemma {:induction false} SkipLineEnd(rest: Bytes)
    requires HeaderEnd(rest).Some? && rest[0] != CR
    ensures HeaderEnd([CR, LF] + rest) == Some(2 + HeaderEnd(rest).value)
  {
    var b := [CR, LF] + rest;
    assert b[1..] == [LF] + rest && ([LF] + rest)[1..] == rest;
    assert !BlankLine(b) && !BlankLine([LF] + rest);
  }

  /** The headers end where the last line ends. */
  lemma {:induction false} EndFound(lines: seq<Bytes>, body: Bytes)
    requires AllPlain(lines) && |lines| > 0
    ensures HeaderEnd(Joined(lines) + (END + body)) == Some(|Joined(lines)|)
    decreases |lines|
  {
    var tail, line := END + body, lines[0];
    if |lines| == 1 {
      assert BlankLine(tail);
      SkipPlain(line, tail);
    } else {
      var rest := Joined(lines[1..]);
      EndFound(lines[1..], body);
      JoinedFirst(lines[1..]);
      SkipLineEnd(rest + tail);
      SkipPlain(line, [CR, LF] + (rest + tail));
      assert Joined(lines) + tail == line + ([CR, LF] + (rest + tail));
    }
  }

  lemma {:induction false} JoinedFirst(lines: seq<Bytes>)
    requires AllPlain(lines) && |lines| > 0
    ensures Joined(lines) != [] && Joined(lines)[0] == lines[0][0] && lines[0][0] != CR
  {
    assert Plain(lines[0]);
  }

  /** Lines read one after the other, until one spoils the request. */
  function ReadEach(h: Headers, lines: seq<Bytes>): Headers
    decreases |lines|
  {
    if |lines| == 0 || h.malformed then h else ReadEach(ReadLine(h, lines[0]), lines[1..])
  }

  lemma {:induction false} LinesTurn(h: Headers, b: Bytes)
    ensures ReadLines(h, b) ==
            if b == [] || h.malformed then h
            else
              var end := Find(b, LF);
              ReadLines(ReadLine(h, b[..end]), if end < |b| then b[end + 1..] else [])
  {
    hide ReadLine, Find;
  }

  lemma {:induction false} JoinedRead(h: Headers, lines: seq<Bytes>)
    requires AllPlain(lines)
    ensures ReadLines(h, Joined(lines)) == ReadEach(h, lines)
    decreases |lines|
  {
    hide ReadLine, ReadLines, Find;
    LinesTurn(h, Joined(lines));
    if |lines| > 0 && !h.malformed {
      var line, b := lines[0], Joined(lines);
      assert Plain(line);
      LinesTurn(ReadLine(h, line), []);
      if |lines| == 1 {
        FindIs(b, LF, |b|);
        assert b[..|b|] == b && lines[1..] == [];
      } else {
        var rest := Joined(lines[1..]);
        LineTaken(line, rest);
        ReadWithReturn(h, line);
        JoinedRead(ReadLine(h, line), lines[1..]);
      }
    }
  }

  lemma {:induction false} LineTaken(line: Bytes, rest: Bytes)
    requires Plain(line)
    ensures var b := line + ([CR, LF] + rest);
            Find(b, LF) == |line| + 1 && b[..|line| + 1] == line + [CR] && b[|line| + 2..] == rest
  {
    var b := line + ([CR, LF] + rest);
    FindIs(b, LF, |line| + 1);
  }

  lemma {:induction false} ReadSplit(h: Headers, lines: seq<Bytes>, i: nat)
    requires i <= |lines|
    ensures ReadEach(h, lines) == ReadEach(ReadEach(h, lines[..i]), lines[i..])
    decreases i
  {
    if i == 0 {
      assert lines[0..] == lines && lines[..0] == [];
    } else if h.malformed {
    } else {
      assert lines[..i][1..] == lines[1..][..i - 1] && lines[1..][i - 1..] == lines[i..];
      ReadSplit(ReadLine(h, lines[0]), lines[1..], i - 1);
    }
  }

  /** Up to the first content length nothing is spoiled. */
  lemma {:induction false} ReadOthers(h: Headers, lines: seq<Bytes>)
    requires AllPlain(lines) && !h.malformed && forall j :: 0 <= j < |lines| ==> !Named(lines[j], CONTENT_LENGTH)
    ensures var r := ReadEach(h, lines); r.length == h.length && !r.malformed
    decreases |lines|
  {
    hide ReadLine, Named;
    if |lines| > 0 {
      LineDoes(h, lines[0]);
      var tail := lines[1..];
      assert forall j :: 0 <= j < |tail| ==> tail[j] == lines[j + 1];
      ReadOthers(ReadLine(h, lines[0]), tail);
    }
  }

  lemma {:induction false} StaysMalformed(h: Headers, lines: seq<Bytes>)
    requires h.malformed
    ensures ReadEach(h, lines) == h
  {}

  /** A spoiled request stays so; otherwise a content length that was seen stays. */
  lemma {:induction false} SeenStays(h: Headers, lines: seq<Bytes>)
    requires AllPlain(lines) && h.length.Some?
    ensures var r := ReadEach(h, lines); r.malformed || r.length == h.length
    decreases |lines|
  {
    hide ReadLine, Named;
    if |lines| > 0 && !h.malformed {
      OnlyLengths(h, lines[0]);
      SeenStays(ReadLine(h, lines[0]), lines[1..]);
    }
  }

  lemma {:induction false} OnlyLengths(h: Headers, line: Bytes)
    requires Plain(line) && h.length.Some?
    ensures ReadLine(h, line).length == h.length
  {
    hide Lower, Find, TrimFront, TrimBack, DecimalValue;
  }

  /** What follows a line that was read. */
  lemma {:induction false} ReadAt(h: Headers, lines: seq<Bytes>, i: nat)
    requires i < |lines|
    ensures var before := ReadEach(h, lines[..i]);
            ReadEach(h, lines) ==
            if before.malformed then before else ReadEach(ReadLine(before, lines[i]), lines[i + 1..])
  {
    ReadSplit(h, lines, i);
    assert lines[i..][1..] == lines[i + 1..];
  }

  lemma {:induction false} NotBoth(line: Bytes)
    ensures !(Named(line, CONTENT_LENGTH) && Named(line, CSEQ))
  {
    if Named(line, CONTENT_LENGTH) {
      var c :| NamedAt(line, c, CONTENT_LENGTH);
      forall d
        ensures !NamedAt(line, d, CSEQ)
      {}
    }
  }

  /** The value of the last line named CSeq, or nothing when there is none. */
  ghost predicate CseqIs(lines: seq<Bytes>, cseq: Bytes) {
    (cseq == [] && forall j :: 0 <= j < |lines| ==> !Named(lines[j], CSEQ)) ||
    exists k, before, after :: CseqAt(lines, k, before, cseq, after)
  }

  ghost predicate CseqAt(lines: seq<Bytes>, k: nat, before: Bytes, cseq: Bytes, after: Bytes) {
    k < |lines| && Says(lines[k], CSEQ, before, cseq, after) && forall j :: k < j < |lines| ==> !Named(lines[j], CSEQ)
  }

  lemma {:induction false} NoCseqRead(h: Headers, lines: seq<Bytes>)
    requires AllPlain(lines) && forall j :: 0 <= j < |lines| ==> !Named(lines[j], CSEQ)
    ensures ReadEach(h, lines).cseq == h.cseq
    decreases |lines|
  {
    hide ReadLine, Named;
    if |lines| > 0 && !h.malformed {
      LineDoes(h, lines[0]);
      var tail := lines[1..];
      assert forall j :: 0 <= j < |tail| ==> tail[j] == lines[j + 1];
      NoCseqRead(ReadLine(h, lines[0]), tail);
    }
  }

  lemma {:induction false} LastCseqRead(lines: seq<Bytes>, cseq: Bytes)
    requires AllPlain(lines) && CseqIs(lines, cseq) && !ReadEach(NO_HEADERS, lines).malformed
    ensures ReadEach(NO_HEADERS, lines).cseq == cseq
  {
    hide ReadLine, Named, Says;
    if forall j :: 0 <= j < |lines| ==> !Named(lines[j], CSEQ) {
      NoCseqRead(NO_HEADERS, lines);
      if exists k, before, after :: CseqAt(lines, k, before, cseq, after) {
        var k: nat, before, after :| CseqAt(lines, k, before, cseq, after);
        SaysNamed(lines[k], CSEQ, before, cseq, after);
      }
    } else {
      var k: nat, before, after :| CseqAt(lines, k, before, cseq, after);
      ReadAt(NO_HEADERS, lines, k);
      var h := ReadEach(NO_HEADERS, lines[..k]);
      CseqRead(h, lines[k], before, cseq, after);
      var tail := lines[k + 1..];
      assert forall j :: 0 <= j < |tail| ==> tail[j] == lines[j + k + 1];
      NoCseqRead(ReadLine(h, lines[k]), tail);
    }
  }

  lemma {:induction false} SaysNamed(line: Bytes, name: Bytes, before: Bytes, value: Bytes, after: Bytes)
    requires Says(line, name, before, value, after)
    ensures Named(line, name)
  {
    assert NamedAt(line, |name|, name);
  }

  // ----- What a request in text is judged as -----

  lemma {:induction false} JudgeRendered(lines: seq<Bytes>, body: Bytes)
    requires AllPlain(lines) && |lines| > 0
    ensures var p, h, size := Rendered(lines) + body, ReadEach(NO_HEADERS, lines), |Rendered(lines)|;
            Judge(p) ==
            if size - 4 > 65536 || h.length.None? || h.malformed || size + h.length.value > 1048576 then Bad
            else if |body| < h.length.value then More
            else Request(size + h.length.value, h.cseq)
  {
    hide ReadLines, HeaderEnd;
    var p := Rendered(lines) + body;
    RenderedIsJoined(lines);
    EndFound(lines, body);
    assert p == Joined(lines) + (END + body);
    assert p[..|Joined(lines)|] == Joined(lines);
    JoinedRead(NO_HEADERS, lines);
  }

  /**
   Lines that announce a length once, in any letter case and with blanks and leading zeros or not, make a request of
   exactly their own size, the empty line's and the announced one, with the value of the last CSeq line.
   */
  lemma {:induction false} RequestRead(
    lines: seq<Bytes>, i: nat, n: nat, before: Bytes, zeros: Bytes, after: Bytes, cseq: Bytes, body: Bytes)
    requires AllPlain(lines) && i < |lines| && |Rendered(lines)| - 4 <= 65536
    requires forall k :: 0 <= k < |zeros| ==> zeros[k] == 0x30
    requires Says(lines[i], CONTENT_LENGTH, before, zeros + Decimal(n), after)
    requires forall j :: 0 <= j < |lines| && j != i ==> !Named(lines[j], CONTENT_LENGTH)
    requires CseqIs(lines, cseq)
    ensures Judge(Rendered(lines) + body) ==
            if |Rendered(lines)| + n > 1048576 then Bad
            else if |body| < n then More
            else Request(|Rendered(lines)| + n, cseq)
  {
    hide ReadLine, Named, Says, CseqIs;
    JudgeRendered(lines, body);
    var value, first, tail := zeros + Decimal(n), lines[..i], lines[i + 1..];
    DecimalRoundTrip(n, zeros);
    ReadAt(NO_HEADERS, lines, i);
    assert forall j :: 0 <= j < |tail| ==> tail[j] == lines[j + i + 1];
    ReadOthers(NO_HEADERS, first);
    var h := ReadEach(NO_HEADERS, first);
    LengthRead(h, lines[i], before, value, after);
    if n <= 1048576 {
      ReadOthers(ReadLine(h, lines[i]), tail);
      LastCseqRead(lines, cseq);
    } else {
      StaysMalformed(ReadLine(h, lines[i]), tail);
    }
  }

  /** Without a content length there is no request. */
  lemma {:induction false} MissingRefused(lines: seq<Bytes>, body: Bytes)
    requires AllPlain(lines) && |lines| > 0
    requires forall j :: 0 <= j < |lines| ==> !Named(lines[j], CONTENT_LENGTH)
    ensures Judge(Rendered(lines) + body) == Bad
  {
    JudgeRendered(lines, body);
    ReadOthers(NO_HEADERS, lines);
  }

  /** A line that announces no number, or one over 1 MiB, spoils the request. */
  lemma {:induction false} WrongRefused(
    lines: seq<Bytes>, i: nat, before: Bytes, value: Bytes, after: Bytes, zeros: Bytes, n: nat, body: Bytes)
    requires AllPlain(lines) && i < |lines| && Says(lines[i], CONTENT_LENGTH, before, value, after)
    requires value == [] || (exists k :: 0 <= k < |value| && !(48 <= value[k] <= 57)) ||
             ((forall k :: 0 <= k < |zeros| ==> zeros[k] == 0x30) && value == zeros + Decimal(n) && n > 1048576)
    ensures Judge(Rendered(lines) + body) == Bad
  {
    hide ReadLine, Named, Says;
    JudgeRendered(lines, body);
    ReadAt(NO_HEADERS, lines, i);
    var h := ReadEach(NO_HEADERS, lines[..i]);
    LengthRead(h, lines[i], before, value, after);
    if value != [] && Digits(value) {
      DecimalRoundTrip(n, zeros);
    }
    StaysMalformed(ReadLine(h, lines[i]), lines[i + 1..]);
  }

  /** A second content length spoils the request, whatever the two say. */
  lemma {:induction false} RepeatedRefused(lines: seq<Bytes>, i: nat, j: nat, body: Bytes)
    requires AllPlain(lines) && i < j < |lines|
    requires Named(lines[i], CONTENT_LENGTH) && Named(lines[j], CONTENT_LENGTH)
    ensures Judge(Rendered(lines) + body) == Bad
  {
    hide ReadLine, Named, Says;
    JudgeRendered(lines, body);
    ReadAt(NO_HEADERS, lines, j);
    var first := lines[..j];
    ReadAt(NO_HEADERS, first, i);
    assert first[i] == lines[i] && first[..i] == lines[..i];
    var g := ReadEach(NO_HEADERS, lines[..i]);
    var b, v, a := NamedSays(lines[i], CONTENT_LENGTH);
    LengthRead(g, lines[i], b, v, a);
    var h := ReadEach(NO_HEADERS, first);
    var middle := first[i + 1..];
    if ReadLine(g, lines[i]).malformed {
      StaysMalformed(ReadLine(g, lines[i]), middle);
    } else {
      SeenStays(ReadLine(g, lines[i]), middle);
    }
    var c, w, d := NamedSays(lines[j], CONTENT_LENGTH);
    LengthRead(h, lines[j], c, w, d);
    StaysMalformed(ReadLine(h, lines[j]), lines[j + 1..]);
  }

  // ----- The replies -----

  const STATUS_LINE: Bytes := [72, 84, 84, 80, 47, 49, 46, 49, 32, 50, 48, 48, 32, 79, 75]
  const LENGTH_LINE: Bytes := [67, 111, 110, 116, 101, 110, 116, 45, 76, 101, 110, 103, 116, 104, 58, 32, 48]
  const LATENCY_LINE: Bytes := [65, 117, 100, 105, 111, 45, 76, 97, 116, 101, 110, 99, 121, 58, 32, 48]

  /** The lines of the reply to a request. */
  function ReplyLines(cseq: Bytes): seq<Bytes> {
    [STATUS_LINE, LENGTH_LINE, LATENCY_LINE] + if cseq == [] then [] else [[67, 83, 101, 113, 58] + cseq]
  }

  lemma {:induction false} RenderedStep(line: Bytes, lines: seq<Bytes>)
    ensures Rendered([line] + lines) == line + [CR, LF] + Rendered(lines)
  {
    assert ([line] + lines)[1..] == lines;
  }

  lemma {:induction false} ReplyTexts()
    ensures Ascii("HTTP/1.1 200 OK") == STATUS_LINE && Ascii("Content-Length: 0") == LENGTH_LINE
    ensures Ascii("Audio-Latency: 0") == LATENCY_LINE && Ascii("CSeq:") == [67, 83, 101, 113, 58]
  {
    StatusText();
    LengthText();
    LatencyText();
    CseqText();
  }

  lemma {:induction false} StatusText()
    ensures Ascii("HTTP/1.1 200 OK") == STATUS_LINE
  {
    assert |"HTTP/1.1 200 OK"| == 15;
  }

  lemma {:induction false} LengthText()
    ensures Ascii("Content-Length: 0") == LENGTH_LINE
  {
    assert |"Content-Length: 0"| == 17;
  }

  lemma {:induction false} LatencyText()
    ensures Ascii("Audio-Latency: 0") == LATENCY_LINE
  {
    assert |"Audio-Latency: 0"| == 16;
  }

  lemma {:induction false} CseqText()
    ensures Ascii("CSeq:") == [67, 83, 101, 113, 58]
  {}

  lemma {:induction false} ReplyRendered(cseq: Bytes)
    ensures Reply(cseq) == Rendered(ReplyLines(cseq))
  {
    hide Ascii, Rendered, STATUS_LINE, LENGTH_LINE, LATENCY_LINE;
    var a, b, c, name := STATUS_LINE, LENGTH_LINE, LATENCY_LINE, [67, 83, 101, 113, 58];
    ReplyTexts();
    var last: seq<Bytes> := if cseq == [] then [] else [name + cseq];
    assert ReplyLines(cseq) == [a] + ([b] + ([c] + last));
    RenderedStep(a, [b] + ([c] + last));
    RenderedStep(b, [c] + last);
    RenderedStep(c, last);
    LastRendered(name + cseq);
    FourParts(a + [CR, LF], b, [CR, LF], c, Rendered(last), if cseq != [] then name + cseq + [CR, LF] else []);
  }

  lemma {:induction false} FourParts(a: Bytes, b: Bytes, end: Bytes, c: Bytes, rest: Bytes, last: Bytes)
    requires rest == last + end
    ensures a + b + end + c + end + last + end == a + (b + end + (c + end + rest))
  {}

  lemma {:induction false} LastRendered(line: Bytes)
    ensures Rendered([]) == [CR, LF] && Rendered([line]) == line + [CR, LF] + [CR, LF]
  {
    RenderedStep(line, []);
    assert [line] + [] == [line];
  }

  lemma {:induction false} FixedLines()
    ensures Plain(STATUS_LINE) && !Named(STATUS_LINE, CONTENT_LENGTH) && !Named(STATUS_LINE, CSEQ)
    ensures Plain(LATENCY_LINE) && !Named(LATENCY_LINE, CONTENT_LENGTH) && !Named(LATENCY_LINE, CSEQ)
  {
    assert |STATUS_LINE| == 15 && |LATENCY_LINE| == 16;
    forall c
      ensures !NamedAt(LATENCY_LINE, c, CONTENT_LENGTH)
    {}
  }

  lemma {:induction false} LengthLine()
    ensures Plain(LENGTH_LINE) && Says(LENGTH_LINE, CONTENT_LENGTH, [32], [] + Decimal(0), [])
    ensures !Named(LENGTH_LINE, CSEQ)
  {
    assert [] + Decimal(0) == [48] && LENGTH_LINE[15..] == [32] + [48] + [];
    assert NamedAt(LENGTH_LINE, 14, CONTENT_LENGTH);
    NotBoth(LENGTH_LINE);
  }

  lemma {:induction false} CseqLine(cseq: Bytes)
    requires Trimmed(cseq) && forall i :: 0 <= i < |cseq| ==> cseq[i] != CR && cseq[i] != LF
    ensures var line := [67, 83, 101, 113, 58] + cseq;
            Plain(line) && Says(line, CSEQ, [], cseq, []) && !Named(line, CONTENT_LENGTH)
  {
    var line := [67, 83, 101, 113, 58] + cseq;
    assert line[5..] == [] + cseq + [];
    assert NamedAt(line, 4, CSEQ);
    NotBoth(line);
  }

  /** The reply to a request is itself a message without a body, and gives the number of the request back. */
  lemma {:induction false} ReplyRead(cseq: Bytes)
    requires Trimmed(cseq) && forall i :: 0 <= i < |cseq| ==> cseq[i] != CR && cseq[i] != LF
    requires |cseq| <= 60000
    ensures Judge(Reply(cseq)) == Request(|Reply(cseq)|, cseq)
  {
    var lines := ReplyLines(cseq);
    assert |Rendered(lines)| <= 65 + |cseq| by { ReplyLength(cseq); }
    hide Named, Says, Plain, Judge, Rendered, Decimal, STATUS_LINE, LENGTH_LINE, LATENCY_LINE, NamedAt;
    FixedLines();
    LengthLine();
    CseqLine(cseq);
    ReplyRendered(cseq);
    if cseq != [] {
      assert CseqAt(lines, 3, [], cseq, []);
    }
    assert Rendered(lines) + [] == Rendered(lines);
    RequestRead(lines, 1, 0, [32], [], [], cseq, []);
  }

  lemma {:induction false} ReplyLength(cseq: Bytes)
    ensures |Rendered(ReplyLines(cseq))| <= 65 + |cseq|
  {
    ReplyRendered(cseq);
    ReplyTexts();
  }

  // ----- What a text does to the channel -----

  /**
   A decrypted text: over 1 MiB in all, or no request, it closes the channel; the beginning of one waits; a whole one is
   handed on, and answered if its reply can be sealed and sent, else the channel is closed with the request handed on.
   */
  lemma {:induction false} TextTaken(p: Peer, c: Channel, text: Bytes)
    requires c.open && |c.plaintext| <= 1048576
    ensures var whole, d := c.plaintext + text, TakeText(p, c, text);
            if |whole| > 1048576 || Judge(whole) == Bad then
              !d.open && d.handled == c.handled && d.replies == c.replies && d.sent == c.sent
            else
              match Judge(whole)
              case More =>
                d.open && d.plaintext == whole && d.handled == c.handled && d.replies == c.replies && d.sent == c.sent
              case Request(size, cseq) =>
                var frame := Seal(p.aead, p.writeKey, c.writeCounter, Reply(cseq));
                && d.handled == c.handled + [whole[..size]]
                && (d.open <==> frame.Some? && p.canSend(|c.replies|))
                && (if d.open then
                      d.plaintext == whole[size..] && d.replies == c.replies + [Reply(cseq)] &&
                      d.sent == c.sent + frame.value && d.writeCounter == (c.writeCounter + 1) % 0x1_0000_0000_0000_0000
                    else d.replies == c.replies && d.sent == c.sent)
  {
    hide Judge, Seal, Reply;
  }

  /** A whole frame that does not open closes the channel; nothing of it is handed on. */
  lemma {:induction false} ForgedFrameCloses(p: Peer, c: Channel, chunk: Bytes)
    requires c.open && |c.encrypted| + |chunk| <= 2097152
    requires var e := c.encrypted + chunk;
             |e| >= 2 && var n := e[0] as int + 256 * (e[1] as int) + 18;
             n <= |e| && Open(p.aead, p.readKey, c.readCounter, e[..n]) == None
    ensures Serve(p, c, chunk) == c.(encrypted := c.encrypted + chunk, open := false)
  {
    hide Open;
  }

  /** A read that would leave more than 2 MiB to decrypt closes the channel. */
  lemma {:induction false} OverfullCloses(p: Peer, c: Channel, chunk: Bytes)
    requires c.open && |c.encrypted| + |chunk| > 2097152 && chunk != []
    ensures Serve(p, c, chunk) == c.(open := false)
  {}

  /** Nothing happens on a closed channel. */
  lemma {:induction false} ClosedStays(p: Peer, c: Channel, chunks: seq<Bytes>)
    requires !c.open
    ensures ServeAll(p, c, chunks) == c
    decreases |chunks|
  {
    if |chunks| > 0 {
      ClosedStays(p, c, chunks[1..]);
    }
  }

  // ----- Parts of a request -----

  lemma {:induction false} NoEndYet(b: Bytes, n: nat)
    requires HeaderEnd(b).Some? && n < HeaderEnd(b).value + 4 && n <= |b|
    ensures HeaderEnd(b[..n]) == None
    decreases |b|
  {
    if n >= 4 && !BlankLine(b) {
      NoEndYet(b[1..], n - 1);
      assert b[..n][1..] == b[1..][..n - 1];
    }
  }

  /** This much of a request waits for the rest: up to 64 KiB of its headers, or all headers and some of its body. */
  ghost predicate Waits(request: Bytes, n: nat) {
    IsRequest(request) && n < |request| && (n <= 65536 || HeaderEnd(request).value + 4 <= n)
  }

  /**
   The beginning of a request is waited on unless it has more than 64 KiB and does not reach the end of the headers.
   That can only happen within the last bytes of headers that are themselves allowed: a frame that ends there closes the
   channel.
   */
  lemma {:induction false} BeginningJudged(request: Bytes, n: nat)
    requires IsRequest(request) && n < |request|
    ensures HeaderEnd(request).Some? && HeaderEnd(request).value <= 65536
    ensures Judge(request[..n]) == if Waits(request, n) then More else Bad
  {
    hide ReadLines;
    var end := HeaderEnd(request).value;
    if n < end + 4 {
      NoEndYet(request, n);
    } else {
      HeaderEndPrefix(request, n);
      assert request[..n][..end] == request[..end];
    }
  }

  /** A line of n letters. */
  function Filler(n: nat): (r: Bytes)
    ensures |r| == n && forall i :: 0 <= i < n ==> r[i] == 97
  {
    seq(n, i => 97)
  }

  lemma {:induction false} FillerLine(n: nat)
    requires n > 0
    ensures Plain(Filler(n)) && !Named(Filler(n), CONTENT_LENGTH) && !Named(Filler(n), CSEQ)
  {}

  /** Such a request: whole, it is taken; cut in front of the last three bytes of its headers, it is refused. */
  lemma {:induction false} CutRefused() returns (request: Bytes)
    ensures |request| == 65540 && Judge(request) == Request(65540, []) && Judge(request[..65537]) == Bad
  {
    hide Named, Says, Plain, Judge, Decimal, NamedAt, Filler;
    var lines := [Filler(65517), LENGTH_LINE];
    FillerLine(65517);
    LengthLine();
    request := Rendered(lines);
    RenderedStep(Filler(65517), [LENGTH_LINE]);
    LastRendered(LENGTH_LINE);
    assert lines == [Filler(65517)] + [LENGTH_LINE];
    assert request + [] == request && |request| == 65540;
    RequestRead(lines, 1, 0, [32], [], [], [], []);
    RenderedIsJoined(lines);
    EndFound(lines, []);
    assert END + [] == END;
    BeginningJudged(request, 65537);
  }

  // ----- Whole conversations -----

  /** The replies to a list of requests. */
  function RepliesTo(requests: seq<Bytes>): (r: seq<Bytes>)
    ensures |r| == |requests|
  {
    if |requests| == 0 then [] else [ReplyTo(requests[0])] + RepliesTo(requests[1..])
  }

  /** The reply to a text that is a request, with the request's own number; any other text has none. */
  function ReplyTo(text: Bytes): Bytes {
    if Judge(text).Request? then Reply(Judge(text).cseq) else []
  }

  /** The text is one whole request, and its reply can be sealed. */
  ghost predicate Answerable(p: Peer, text: Bytes) {
    IsRequest(text) && forall k: Counter :: Seal(p.aead, p.writeKey, k, ReplyTo(text)).Some?
  }

  /**
   Behind what is already there, the texts carry exactly these requests: each text is a part of one of them, none of
   them ends within a text, and what has come of it waits for the rest.
   */
  ghost predicate Carry(p: Peer, before: Bytes, texts: seq<Bytes>, requests: seq<Bytes>)
    decreases |texts|
  {
    if |texts| == 0 then before == [] && requests == []
    else
      var whole := before + texts[0];
      texts[0] != [] && |requests| > 0 &&
      if whole == requests[0] then Answerable(p, whole) && Carry(p, [], texts[1..], requests[1..])
      else whole <= requests[0] && Waits(requests[0], |whole|) && Carry(p, whole, texts[1..], requests)
  }

  lemma {:induction false} AnswerSent(p: Peer, c: Channel, text: Bytes)
    requires c.open && c.plaintext == text && Answerable(p, text) && p.canSend(|c.replies|)
    ensures var d := Answer(p, c, Judge(text).size, Judge(text).cseq);
            && d.open && d.plaintext == [] && d.handled == c.handled + [text]
            && d.replies == c.replies + [ReplyTo(text)]
  {
    hide Judge, Seal, Reply;
    assert Seal(p.aead, p.writeKey, c.writeCounter, ReplyTo(text)).Some?;
    assert text[..|text|] == text && text[|text|..] == [];
  }

  /** The last part of a request: it is handed on and answered. */
  lemma {:induction false} RequestHandled(p: Peer, c: Channel, text: Bytes)
    requires c.open && Answerable(p, c.plaintext + text) && p.canSend(|c.replies|)
    ensures var d, whole := TakeText(p, c, text), c.plaintext + text;
            && d.open && d.plaintext == [] && d.handled == c.handled + [whole]
            && d.replies == c.replies + [ReplyTo(whole)]
  {
    hide Judge, Seal, Answer;
    RequestFits(c.plaintext + text);
    AnswerSent(p, c.(plaintext := c.plaintext + text, taken := c.taken + [text]), c.plaintext + text);
  }

  lemma {:induction false} RequestFits(request: Bytes)
    requires IsRequest(request)
    ensures |request| <= MAX_EVENT
  {
    hide ReadLines;
  }

  /** An earlier part is kept. */
  lemma {:induction false} PartKept(p: Peer, c: Channel, text: Bytes, request: Bytes)
    requires c.open && c.plaintext + text <= request && Waits(request, |c.plaintext + text|)
    ensures var d := TakeText(p, c, text);
            d.open && d.plaintext == c.plaintext + text && d.handled == c.handled && d.replies == c.replies
  {
    hide Judge;
    var whole := c.plaintext + text;
    RequestFits(request);
    BeginningJudged(request, |whole|);
    assert request[..|whole|] == whole;
  }

  lemma {:induction false} DrainTurn(p: Peer, c: Channel, text: Bytes, next: Counter, rest: Bytes)
    requires c.open && ReadOne(p.aead, p.readKey, c.readCounter, c.encrypted) == Read(Some(text), next, rest)
    requires text != [] && |rest| < |c.encrypted|
    ensures Drain(p, c) == Drain(p, TakeText(p, c.(readCounter := next, encrypted := rest), text))
  {
    hide TakeText, ReadOne;
  }

  lemma {:induction false} DrainStops(p: Peer, c: Channel)
    requires c.open
    requires ReadOne(p.aead, p.readKey, c.readCounter, c.encrypted) == Read(Some([]), c.readCounter, c.encrypted)
    ensures Drain(p, c) == c
  {
    hide TakeText, ReadOne;
  }

  /** What a text does when the texts carry these requests: what is then there, and what is then still to come. */
  lemma {:induction false} TextServed(p: Peer, c: Channel, texts: seq<Bytes>, requests: seq<Bytes>)
    returns (now: seq<Bytes>, others: seq<Bytes>)
    requires c.open && |texts| > 0 && (forall k :: p.canSend(k)) && Carry(p, c.plaintext, texts, requests)
    ensures texts[0] != [] && requests == now + others
    ensures var d := TakeText(p, c, texts[0]);
            && d.open && d.handled == c.handled + now && d.replies == c.replies + RepliesTo(now)
            && Carry(p, d.plaintext, texts[1..], others)
  {
    hide TakeText, Answerable, Waits, ReplyTo;
    var whole: Bytes := c.plaintext + texts[0];
    if whole == requests[0] {
      now, others := [whole], requests[1..];
      RequestHandled(p, c, texts[0]);
      assert [whole][1..] == [] && [ReplyTo(whole)] + [] == [ReplyTo(whole)];
      assert RepliesTo([whole]) == [ReplyTo(whole)];
    } else {
      now, others := [], requests;
      PartKept(p, c, texts[0], requests[0]);
      assert c.handled + [] == c.handled && c.replies + [] == c.replies && [] + requests == requests;
    }
  }

  /** What one read brings in of what is under way: the requests answered now, and the frames and requests to come. */
  lemma {:induction false} DrainServes(p: Peer, c: Channel, texts: seq<Bytes>, requests: seq<Bytes>, later: Bytes)
    returns (left: seq<Bytes>, now: seq<Bytes>, others: seq<Bytes>)
    requires Inverse(p.aead) && c.open && (forall k :: p.canSend(k)) && Carry(p, c.plaintext, texts, requests)
    requires SealAll(p.aead, p.readKey, c.readCounter, texts) == Some(c.encrypted + later)
    ensures requests == now + others && (later == [] ==> left == [])
    ensures var d := Drain(p, c);
            && d.open && d.handled == c.handled + now && d.replies == c.replies + RepliesTo(now)
            && Carry(p, d.plaintext, left, others) && |d.encrypted| <= 65553
            && SealAll(p.aead, p.readKey, d.readCounter, left) == Some(d.encrypted + later)
    decreases |texts|
  {
    hide ReadOne, Drain, TakeText, Open, Seal, LengthAt, Carry, ReplyTo;
    left, now, others := texts, [], requests;
    var e := c.encrypted;
    assert c.handled + [] == c.handled && c.replies + [] == c.replies && [] + requests == requests;
    if |texts| == 0 {
      NothingAtAll(p.aead, p.readKey, c.readCounter);
      assert |e + later| == 0;
      assert e == [];
      DrainStops(p, c);
    } else {
      var t := texts[0];
      SealedFrame(p.aead, p.readKey, c.readCounter, t);
      SealedLength(p.aead, p.readKey, c.readCounter, t);
      var frame := Seal(p.aead, p.readKey, c.readCounter, t).value;
      var next := CounterAfter(c.readCounter, 1);
      var rest := SealAll(p.aead, p.readKey, next, texts[1..]).value;
      FirstFrame(p.aead, p.readKey, c.readCounter, frame, t, e, later, rest);
      if |e| < |frame| {
        assert |e + later| >= |frame|;
        DrainStops(p, c);
      } else {
        var d := c.(readCounter := next, encrypted := e[|frame|..]);
        var first, middle := TextServed(p, d, texts, requests);
        DrainTurn(p, c, t, next, e[|frame|..]);
        left, now, others := DrainServes(p, TakeText(p, d, t), texts[1..], middle, later);
        JoinReplies(first, now);
        Associates(c.handled, first, now);
        Associates(c.replies, RepliesTo(first), RepliesTo(now));
        Associates(first, now, others);
        now := first + now;
      }
    }
  }

  lemma {:induction false} SealedLength(a: Aead, key: Bytes, counter: Counter, text: Bytes)
    requires Seal(a, key, counter, text).Some?
    ensures |text| <= 65535
  {}

  lemma {:induction false} JoinReplies(a: seq<Bytes>, b: seq<Bytes>)
    ensures RepliesTo(a + b) == RepliesTo(a) + RepliesTo(b)
    decreases |a|
  {
    hide ReplyTo;
    if |a| == 0 {
      assert a + b == b;
    } else {
      assert (a + b)[1..] == a[1..] + b;
      JoinReplies(a[1..], b);
    }
  }

  lemma {:induction false} NothingCarried(p: Peer, c: Channel, requests: seq<Bytes>)
    requires Carry(p, c.plaintext, [], requests)
    requires SealAll(p.aead, p.readKey, c.readCounter, []) == Some(c.encrypted + Concat([]))
    ensures c.plaintext == [] && requests == [] && c.encrypted == [] && RepliesTo(requests) == []
  {
    assert c.encrypted + [] == c.encrypted;
  }

  lemma {:induction false} ReadDrained(p: Peer, c: Channel, chunk: Bytes)
    requires c.open && |c.encrypted| <= 65553 && |chunk| <= 65536
    ensures Serve(p, c, chunk) == Drain(p, c.(encrypted := c.encrypted + chunk))
  {
    hide Drain;
  }

  lemma {:induction false} ServesAll(
    p: Peer, c: Channel, texts: seq<Bytes>, requests: seq<Bytes>, chunks: seq<Bytes>)
    requires Inverse(p.aead) && c.open && (forall k :: p.canSend(k)) && Carry(p, c.plaintext, texts, requests)
    requires |c.encrypted| <= 65553 && (Concat(chunks) == [] ==> texts == [])
    requires SealAll(p.aead, p.readKey, c.readCounter, texts) == Some(c.encrypted + Concat(chunks))
    requires forall i :: 0 <= i < |chunks| ==> |chunks[i]| <= 65536
    ensures var d := ServeAll(p, c, chunks);
            && d.open && d.handled == c.handled + requests && d.replies == c.replies + RepliesTo(requests)
            && d.plaintext == [] && d.encrypted == []
    decreases |chunks|
  {
    hide Drain, Seal, Carry, SealAll, Serve, RepliesTo;
    if |chunks| == 0 {
      NothingCarried(p, c, requests);
      assert c.handled + [] == c.handled && c.replies + [] == c.replies && c.encrypted + [] == c.encrypted;
    } else {
      var first, more := chunks[0], chunks[1..];
      var later := Concat(more);
      Associates(c.encrypted, first, later);
      var d := c.(encrypted := c.encrypted + first);
      var left, now, others := DrainServes(p, d, texts, requests, later);
      ReadDrained(p, c, first);
      ServesAll(p, Drain(p, d), left, others, more);
      JoinReplies(now, others);
      Associates(c.handled, now, others);
      Associates(c.replies, RepliesTo(now), RepliesTo(others));
    }
  }

  /**
   A peer that sends requests, each in one frame or cut into several, has all of them handed on in their order and
   answered with their own numbers, however the socket cuts the stream of frames into reads of up to 64 KiB; nothing
   stays behind.
   */
  lemma {:induction false} RequestsServed(p: Peer, texts: seq<Bytes>, requests: seq<Bytes>, chunks: seq<Bytes>)
    requires Inverse(p.aead) && (forall k :: p.canSend(k)) && Carry(p, [], texts, requests)
    requires SealAll(p.aead, p.readKey, 0, texts) == Some(Concat(chunks))
    requires forall i :: 0 <= i < |chunks| ==> |chunks[i]| <= 65536
    ensures var c := ServeAll(p, INITIAL, chunks);
            && c.open && c.handled == requests && c.replies == RepliesTo(requests)
            && c.plaintext == [] && c.encrypted == []
  {
    hide Seal, Carry;
    var stream := Concat(chunks);
    assert [] + stream == stream && [] + requests == requests && [] + RepliesTo(requests) == RepliesTo(requests);
    if stream == [] && texts != [] {
      assert Seal(p.aead, p.readKey, 0, texts[0]).value == [];
      SealedFrame(p.aead, p.readKey, 0, texts[0]);
    }
    ServesAll(p, INITIAL, texts, requests, chunks);
  }

  /** Requests of up to 65535 bytes can each be sent in a frame of their own. */
  lemma {:induction false} OneFrameEach(p: Peer, requests: seq<Bytes>)
    requires forall i :: 0 <= i < |requests| ==> Answerable(p, requests[i])
    ensures Carry(p, [], requests, requests)
    decreases |requests|
  {
    hide Judge, Seal;
    if |requests| > 0 {
      var r := requests[0];
      assert [] + r == r && IsRequest(r);
      OneFrameEach(p, requests[1..]);
    }
  }
}
