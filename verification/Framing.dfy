/**
Reading KMIP messages off a connection (cmd/kmip-proxy/main.go): a message is a header of eight bytes and as many
value bytes as the header says. A connection delivers its bytes in chunks of any size, some of them empty.
*/
module Framing {
  import opened Bytes
  import opened Ttlv
  import opened Wrappers

  const MAX_VALUE: int := 16 * 1024 * 1024

  /** How a connection's stream of bytes stops: the peer closed it, or it broke. */
  datatype StreamEnd = Closed | Broken

  datatype ReadError = Eof | UnexpectedEof | ConnectionError | TooLarge

  type Read = Result<seq<byte>, ReadError>

  /** A connection: the chunks still to arrive, how the stream stops after them, and what was written back. */
  class Conn {
    var chunks: seq<seq<byte>>
    const end: StreamEnd
    var written: seq<byte>

    constructor (chunks: seq<seq<byte>>, end: StreamEnd)
      ensures this.chunks == chunks && this.end == end && written == []
    {
      this.chunks, this.end, this.written := chunks, end, [];
    }

    /** The bytes still to be read. */
    function Pending(): seq<byte>
      reads this
    {
      Concat(chunks)
    }

    /** Go's `Read`: at most `n` bytes of what arrived, possibly none; an error once nothing is left. */
    method Read(n: nat) returns (data: seq<byte>, ended: bool)
      requires n > 0
      modifies this`chunks
      ensures old(Pending()) == data + Pending() && |data| <= n
      ensures ended <==> old(chunks) == []
      ensures ended ==> data == [] && chunks == []
      ensures !ended ==> |chunks| < |old(chunks)| || (|chunks| == |old(chunks)| && data != [])
    {
      if chunks == [] {
        return [], true;
      }
      var first := chunks[0];
      ended := false;
      if |first| <= n {
        data := first;
        chunks := chunks[1..];
      } else {
        data := first[..n];
        chunks := [first[n..]] + chunks[1..];
        assert first == data + first[n..];
        Assoc(data, first[n..], Concat(chunks[1..]));
      }
    }

    /** Go's `io.ReadFull`. */
    method ReadFull(n: nat) returns (r: Read)
      modifies this`chunks
      ensures r == FullRead(old(Pending()), end, n)
      ensures Pending() == if r.Ok? then old(Pending())[n..] else []
    {
      var data: seq<byte> := [];
      ghost var stream := Pending();
      while |data| < n
        invariant |data| <= n && stream == data + Pending()
        decreases n - |data|, |chunks|
      {
        var more, ended := Read(n - |data|);
        if ended {
          assert stream == data;
          return Err(if end.Broken? then ConnectionError else if data == [] then Eof else UnexpectedEof);
        }
        Assoc(data, more, Pending());
        data := data + more;
      }
      r := Ok(data);
    }

    /** Go's `readTTLV`. */
    method ReadTtlv() returns (r: Read)
      modifies this`chunks
      ensures r == NextMessage(old(Pending()), end)
      ensures r.Ok? ==> old(Pending()) == r.value + Pending() && |r.value| >= 8
      ensures r.Ok? ==> AllMessages(old(Pending()), end) == Then(r.value, AllMessages(Pending(), end))
    {
      ghost var stream := Pending();
      r := ReadFull(8);
      if r.Err? {
        return;
      }
      var hdr := r.value;
      assert hdr[4..8] == stream[4..8];
      var n := U32(hdr[4..8]);
      if n > MAX_VALUE {
        return Err(TooLarge);
      }
      r := ReadFull(n);
      if r.Ok? {
        HeaderAndBody(stream, n);
        r := Ok(hdr + r.value);
        AllAfter(r.value, Pending(), end);
      }
    }

    /** A write to the peer: all of it, or some part and then an error. */
    method Write(data: seq<byte>, cut: Option<nat>) returns (ok: bool)
      modifies this`written
      ensures ok <==> cut.None?
      ensures written == old(written) + if ok then data else Upto(data, cut.value)
    {
      ok := cut.None?;
      written := written + if ok then data else Upto(data, cut.value);
    }
  }

  /** At most the first `n` bytes. */
  function Upto(data: seq<byte>, n: nat): (d: seq<byte>)
    ensures d <= data
    ensures d == data <==> |data| <= n
    ensures |d| == n || d == data
  {
    if |data| <= n then data else data[..n]
  }

  /** What reading `n` bytes to the full gives: the first `n` bytes of the stream, or how it stopped. */
  function FullRead(stream: seq<byte>, end: StreamEnd, n: nat): Read {
    if n <= |stream| then Ok(stream[..n])
    else Err(if end.Broken? then ConnectionError else if stream == [] then Eof else UnexpectedEof)
  }

  /** A header, and a value of the length the header says, within the limit. */
  predicate IsMessage(m: seq<byte>) {
    |m| >= 8 && |m| == 8 + U32(m[4..8]) && |m| <= 8 + MAX_VALUE
  }

  /** What reading one message gives: the message the stream starts with, if it starts with one. */
  function NextMessage(stream: seq<byte>, end: StreamEnd): (r: Read)
    ensures r.Ok? ==> IsMessage(r.value) && r.value <= stream
  {
    var hdr := FullRead(stream, end, 8);
    if hdr.Err? then hdr
    else if U32(stream[4..8]) > MAX_VALUE then Err(TooLarge)
    else
      var n := U32(stream[4..8]);
      var body := FullRead(stream[8..], end, n);
      if body.Err? then body else
      assert stream[..8 + n][4..8] == stream[4..8];
      Ok(stream[..8 + n])
  }

  /** A header and the value that follows it, cut off a stream one after the other. */
  lemma HeaderAndBody(stream: seq<byte>, n: nat)
    requires 8 + n <= |stream|
    ensures var (m, rest) := (stream[..8] + stream[8..][..n], stream[8..][n..]);
            m == stream[..8 + n] && m + rest == stream && |m| == 8 + n
  {
    CutTwice(stream, 8, n);
  }

  /** The messages that repeated reading gives, and the error that stops it. */
  function AllMessages(stream: seq<byte>, end: StreamEnd): (r: (seq<seq<byte>>, ReadError))
    decreases |stream|
  {
    var next := NextMessage(stream, end);
    if next.Err? then ([], next.error)
    else
      Then(next.value, AllMessages(stream[|next.value|..], end))
  }

  function Then(m: seq<byte>, more: (seq<seq<byte>>, ReadError)): (seq<seq<byte>>, ReadError) {
    ([m] + more.0, more.1)
  }

  lemma AllAfter(m: seq<byte>, rest: seq<byte>, end: StreamEnd)
    requires NextMessage(m + rest, end) == Ok(m)
    ensures AllMessages(m + rest, end) == Then(m, AllMessages(rest, end))
  {
    assert (m + rest)[|m|..] == rest;
  }

  /**
  Every way that reading a message can end. A message of at most 16 MiB of value is read if and only if the stream
  starts with it; a header that announces more is refused whatever follows it; and a stream that stops first gives the
  error that says how: broken, at its end, or inside.
  */
  lemma ReadsExactly(stream: seq<byte>, end: StreamEnd)
    ensures var r, long := NextMessage(stream, end), |stream| >= 8 && U32(stream[4..8]) > 16_777_216;
            var short := !long && (|stream| < 8 || |stream| < 8 + U32(stream[4..8]));
            && (r.Ok? <==> !long && !short) && (r.Ok? ==> r.value == stream[..8 + U32(stream[4..8])])
            && (r == Err(TooLarge) <==> long)
            && (r == Err(ConnectionError) <==> short && end.Broken?)
            && (r == Err(Eof) <==> short && end.Closed? && |stream| in {0, 8})
            && (r == Err(UnexpectedEof) <==> short && end.Closed? && |stream| !in {0, 8})
  {
    if |stream| >= 8 {
      assert stream[8..] == [] <==> |stream| == 8;
    }
  }

  predicate AreMessages(ms: seq<seq<byte>>) { forall i | 0 <= i < |ms| :: IsMessage(ms[i]) }

  /** A stream that starts with a message: that message is read, and reading goes on after it. */
  lemma ReadsFirst(m: seq<byte>, rest: seq<byte>, end: StreamEnd)
    requires IsMessage(m)
    ensures NextMessage(m + rest, end) == Ok(m)
    ensures AllMessages(m + rest, end) == ([m] + AllMessages(rest, end).0, AllMessages(rest, end).1)
  {
    var stream := m + rest;
    assert stream[4..8] == m[4..8];
    assert stream[..|m|] == m && stream[|m|..] == rest;
  }

  /**
  Messages written one after the other are read back one by one, in order, whatever follows them.
  */
  lemma {:induction false} ReadBack(ms: seq<seq<byte>>, rest: seq<byte>, end: StreamEnd)
    requires AreMessages(ms)
    ensures AllMessages(Concat(ms) + rest, end) == (ms + AllMessages(rest, end).0, AllMessages(rest, end).1)
  {
    var (more, e) := AllMessages(rest, end);
    if ms == [] {
      assert Concat(ms) + rest == rest;
      assert ms + more == more;
    } else {
      ReadBack(ms[1..], rest, end);
      Assoc(ms[0], Concat(ms[1..]), rest);
      ReadsOneMore(ms[0], ms[1..], more, Concat(ms[1..]) + rest, e, end);
      assert ms == [ms[0]] + ms[1..];
    }
  }

  lemma ReadsOneMore(m: seq<byte>, ms: seq<seq<byte>>, more: seq<seq<byte>>, stream: seq<byte>, e: ReadError,
                     end: StreamEnd)
    requires IsMessage(m) && AllMessages(stream, end) == (ms + more, e)
    ensures AllMessages(m + stream, end) == ([m] + ms + more, e)
  {
    ReadsFirst(m, stream, end);
    assert [m] + (ms + more) == [m] + ms + more;
  }

  /** With nothing after the messages, reading stops at end-of-stream. */
  lemma ReadBackAll(ms: seq<seq<byte>>)
    requires AreMessages(ms)
    ensures AllMessages(Concat(ms), Closed) == (ms, Eof)
  {
    ReadBack(ms, [], Closed);
    assert AllMessages([], Closed) == ([], Eof);
    assert Concat(ms) + [] == Concat(ms) && ms + [] == ms;
  }

  /** Cut anywhere, a series of messages reads back as its first few. */
  lemma CutReadsFirst(ms: seq<seq<byte>>, w: seq<byte>, end: StreamEnd)
    requires AreMessages(ms) && w <= Concat(ms)
    ensures AllMessages(w, end).0 <= ms
  {
    var rest := ReadsPrefix(w, end);
    var read := AllMessages(w, end).0;
    var lost := Concat(ms)[|w|..];
    assert Concat(ms) + [] == Concat(ms) == w + lost;
    Assoc(Concat(read), rest, lost);
    ReadBackAll(ms);
    ReadBack(read, rest + lost, Closed);
  }

  /** A bare header that announces a value, with nothing after it. */
  predicate IsBareHeader(b: seq<byte>) { |b| == 8 && 0 < U32(b[4..8]) <= MAX_VALUE }

  /**
  Whatever the stream, what is read is a series of messages that the stream starts with, and no more can be read
  after it. Reading stops in end-of-stream exactly when the rest of a closed stream is nothing or a bare header:
  end-of-stream alone does not mean the stream stopped between two messages.
  */
  lemma {:induction false} ReadsPrefix(stream: seq<byte>, end: StreamEnd) returns (rest: seq<byte>)
    ensures AreMessages(AllMessages(stream, end).0)
    ensures stream == Concat(AllMessages(stream, end).0) + rest
    ensures NextMessage(rest, end) == Err(AllMessages(stream, end).1)
    ensures AllMessages(stream, end).1 == Eof <==> end.Closed? && (rest == [] || IsBareHeader(rest))
    decreases |stream|
  {
    var next := NextMessage(stream, end);
    if next.Err? {
      rest := stream;
      assert Concat([]) + rest == rest;
      assert stream == [] ==> FullRead(stream, end, 8).Err?;
    } else {
      var m := next.value;
      rest := ReadsPrefix(stream[|m|..], end);
      assert stream == m + stream[|m|..];
      var ms := AllMessages(stream[|m|..], end).0;
      assert ([m] + ms)[1..] == ms;
      Assoc(m, Concat(ms), rest);
    }
  }

  /**
  The proxy's framing and the element walk of the strip cut the same message off a stream exactly when its value takes
  no padding; otherwise the walk's element is longer.
  */
  lemma FrameAgreesWithWalk(m: seq<byte>, rest: seq<byte>, end: StreamEnd)
    requires IsMessage(m)
    ensures NextMessage(m + rest, end) == Ok(m)
    ensures FrameLen(m + rest) == |m| <==> U32(m[4..8]) % 8 == 0
    ensures FrameLen(m + rest) >= |m|
  {
    ReadsFirst(m, rest, end);
    FrameLenPrefix(m, rest);
  }
}
