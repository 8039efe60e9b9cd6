/**
 Incremental parsing of a byte stream. A parser looks at a state and the bytes buffered so far and
 either waits for more or takes a non-empty prefix. When what it takes never depends on
 bytes that have not arrived yet, how the stream is cut into reads cannot be observed.
 */
module Framing {
  import opened ByteStrings

  datatype Step<+S, +M> = Wait | Take(size: nat, state: S, messages: seq<M>)

  datatype Drained<+S, +M> = Drained(state: S, messages: seq<M>, rest: Bytes)

  /** A take is a non-empty prefix of the buffer, and later bytes never change it. */
  ghost predicate Prefixed<S(!new), M(!new)>(parse: (S, Bytes) -> Step<S, M>) {
    && (forall s, b :: parse(s, b).Take? ==> 0 < parse(s, b).size <= |b|)
    && (forall s, b, later: Bytes {:trigger parse(s, b + later)} ::
          parse(s, b).Take? ==> parse(s, b + later) == parse(s, b))
  }

  /** Takes from the buffer until the parser waits. */
  function Drain<S, M>(parse: (S, Bytes) -> Step<S, M>, s: S, buffer: Bytes): Drained<S, M>
    decreases |buffer|
  {
    var step := parse(s, buffer);
    if step.Take? && 0 < step.size <= |buffer| then
      var tail := Drain(parse, step.state, buffer[step.size..]);
      tail.(messages := step.messages + tail.messages)
    else
      Drained(s, [], buffer)
  }

  /** One read after another: each chunk is appended to what the last drain left over. */
  function Feed<S, M>(parse: (S, Bytes) -> Step<S, M>, s: S, buffer: Bytes, chunks: seq<Bytes>): Drained<S, M>
    decreases |chunks|
  {
    if chunks == [] then
      Drained(s, [], buffer)
    else
      var first := Drain(parse, s, buffer + chunks[0]);
      var tail := Feed(parse, first.state, first.rest, chunks[1..]);
      tail.(messages := first.messages + tail.messages)
  }

  lemma {:induction false} DrainAppend<S(!new), M(!new)>(
    parse: (S, Bytes) -> Step<S, M>, s: S, buffer: Bytes, later: Bytes)
    requires Prefixed(parse)
    ensures var first := Drain(parse, s, buffer);
            var second := Drain(parse, first.state, first.rest + later);
            Drain(parse, s, buffer + later) == second.(messages := first.messages + second.messages)
    decreases |buffer|
  {
    var step := parse(s, buffer);
    if step.Take? {
      assert parse(s, buffer + later) == step;
      assert (buffer + later)[step.size..] == buffer[step.size..] + later;
      var rest := Drain(parse, step.state, buffer[step.size..]);
      var second := Drain(parse, rest.state, rest.rest + later);
      DrainAppend(parse, step.state, buffer[step.size..], later);
      assert step.messages + (rest.messages + second.messages) == step.messages + rest.messages + second.messages;
    }
  }

  lemma {:induction false} DrainQuiet<S(!new), M(!new)>(parse: (S, Bytes) -> Step<S, M>, s: S, buffer: Bytes)
    requires Prefixed(parse)
    ensures parse(Drain(parse, s, buffer).state, Drain(parse, s, buffer).rest).Wait?
    decreases |buffer|
  {
    var step := parse(s, buffer);
    if step.Take? {
      DrainQuiet(parse, step.state, buffer[step.size..]);
    }
  }

  lemma {:induction false} DrainWait<S, M>(parse: (S, Bytes) -> Step<S, M>, s: S, buffer: Bytes)
    requires parse(s, buffer).Wait?
    ensures Drain(parse, s, buffer) == Drained(s, [], buffer)
  {}

  /** Cutting the stream into reads in any way gives the state, messages and leftover of one single read. */
  lemma {:induction false} ChunkingIrrelevant<S(!new), M(!new)>(
    parse: (S, Bytes) -> Step<S, M>, s: S, buffer: Bytes, chunks: seq<Bytes>)
    requires Prefixed(parse)
    requires parse(s, buffer).Wait?
    ensures Feed(parse, s, buffer, chunks) == Drain(parse, s, buffer + Concat(chunks))
    decreases |chunks|
  {
    hide Drain;
    if chunks == [] {
      assert buffer + Concat(chunks) == buffer;
      DrainWait(parse, s, buffer);
    } else {
      var first := Drain(parse, s, buffer + chunks[0]);
      DrainQuiet(parse, s, buffer + chunks[0]);
      ChunkingIrrelevant(parse, first.state, first.rest, chunks[1..]);
      DrainAppend(parse, s, buffer + chunks[0], Concat(chunks[1..]));
      assert buffer + Concat(chunks) == buffer + chunks[0] + Concat(chunks[1..]);
    }
  }
}
