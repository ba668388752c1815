/**
The relay: the proxy's loop over one client connection (cmd/kmip-proxy/main.go), and the gateway's `POST /kmip`
(internal/control/server.go) with the message handler behind it (internal/kmip/server.go).
*/
module Relay {
  import opened Bytes
  import opened Framing
  import opened StripCorrelation
  import opened StripLaws
  import opened Wrappers

  const BODY_LIMIT: int := 0x10_0000

  const OK: int := 200
  const BAD_REQUEST: int := 400
  const UNAVAILABLE: int := 503

  /** The answer to the n-th request handled, before the strip; it may depend on everything handled before. */
  type Handler = (nat, seq<byte>) -> seq<byte>

  class Gateway {
    const respond: Handler
    var handled: seq<seq<byte>>

    constructor (respond: Handler)
      ensures this.respond == respond && handled == []
    {
      this.respond, this.handled := respond, [];
    }

    /** Runs one request through the operation handlers and strips the response. */
    method HandleMessage(req: seq<byte>) returns (resp: seq<byte>)
      modifies this
      ensures handled == old(handled) + [req]
      ensures resp == Stripped(respond(|old(handled)|, req))
    {
      var raw := respond(|handled|, req);
      handled := handled + [req];
      resp := StripResponse(raw);
    }

    /** `POST /kmip`: `configured` says a session is installed, `readable` that the body could be read. */
    method HandleKmip(body: seq<byte>, configured: bool, readable: bool) returns (status: int, resp: seq<byte>)
      modifies this
      ensures status == if !configured then UNAVAILABLE else if !readable || body == [] then BAD_REQUEST else OK
      ensures status != OK ==> handled == old(handled)
      ensures status == OK ==> handled == old(handled) + [Upto(body, BODY_LIMIT)]
      ensures status == OK ==> resp == Stripped(respond(|old(handled)|, Upto(body, BODY_LIMIT)))
    {
      if !configured {
        return UNAVAILABLE, [];
      }
      var limited := Upto(body, BODY_LIMIT);
      if !readable || |limited| == 0 {
        return BAD_REQUEST, [];
      }
      resp := HandleMessage(limited);
      status := OK;
    }
  }

  /** What happens to one request on its way to the gateway and back. */
  datatype Trip =
    | NotDelivered
    | Delivered(configured: bool, readable: bool, replyArrives: bool, cut: Option<nat>)

  const FINE: Trip := Delivered(true, true, true, None)

  /** The gateway's handler sees the request. */
  predicate Handles(t: Trip, msg: seq<byte>) { t.Delivered? && t.configured && t.readable && msg != [] }

  /** What of the answer reaches the client. */
  function PartOf(t: Trip, answer: seq<byte>): (part: seq<byte>)
    ensures part <= answer
  {
    if !t.Delivered? || !t.replyArrives then [] else if t.cut.None? then answer else Upto(answer, t.cut.value)
  }

  /** The answer reaches the client in full, and the proxy goes on to the next request. */
  predicate Arrives(t: Trip) { t.Delivered? && t.replyArrives && t.cut.None? }

  /** The requests as the handler sees them. */
  function Clipped(ms: seq<seq<byte>>): (r: seq<seq<byte>>)
    ensures |r| == |ms|
  {
    if ms == [] then [] else Clipped(ms[..|ms| - 1]) + [Upto(ms[|ms| - 1], BODY_LIMIT)]
  }

  /** What the client is answered: the response without its correlation values. */
  ghost function Answers(respond: Handler): Handler {
    (n: nat, req: seq<byte>) => Stripped(respond(n, req))
  }

  /** The answers to requests that are handled from the n-th on. */
  function Replies(answer: Handler, n: nat, reqs: seq<seq<byte>>): (r: seq<seq<byte>>)
    ensures |r| == |reqs|
  {
    if reqs == [] then []
    else
      var last := |reqs| - 1;
      Replies(answer, n, reqs[..last]) + [answer(n + last, reqs[last])]
  }

  /** The i-th answer is to the i-th request. */
  lemma {:induction false} ReplyAt(answer: Handler, n: nat, reqs: seq<seq<byte>>, i: nat)
    requires i < |reqs|
    ensures Replies(answer, n, reqs)[i] == answer(n + i, reqs[i])
  {
    if i < |reqs| - 1 {
      ReplyAt(answer, n, reqs[..|reqs| - 1], i);
    }
  }

  /** All the bytes that answer a series of requests. */
  function ReplyBytes(answer: Handler, n: nat, reqs: seq<seq<byte>>): seq<byte> {
    Concat(Replies(answer, n, reqs))
  }

  lemma ReplySnoc(answer: Handler, n: nat, reqs: seq<seq<byte>>, req: seq<byte>)
    ensures ReplyBytes(answer, n, reqs + [req]) == ReplyBytes(answer, n, reqs) + answer(n + |reqs|, req)
  {
    assert (reqs + [req])[..|reqs|] == reqs;
    ConcatSnoc(Replies(answer, n, reqs), answer(n + |reqs|, req));
  }

  lemma ClippedSnoc(done: seq<seq<byte>>, m: seq<byte>)
    ensures Clipped(done + [m]) == Clipped(done) + [Upto(m, BODY_LIMIT)]
  {
    assert (done + [m])[..|done|] == done;
  }

  /**
  What a connection's relay has done: the gateway handled the client's first messages, `done`, in order and byte for
  byte up to the body limit, and what the client received is a byte prefix of their answers.
  */
  predicate Relayed(answer: Handler, ms: seq<seq<byte>>, before: seq<seq<byte>>, after: seq<seq<byte>>,
                    received: seq<byte>, done: seq<seq<byte>>) {
    && done <= ms && after == before + Clipped(done)
    && received <= ReplyBytes(answer, |before|, Clipped(done))
  }

  /** The relay between two requests, `rest` still to be read: everything handled is answered in full. */
  predicate Serving(answer: Handler, ms: seq<seq<byte>>, before: seq<seq<byte>>, after: seq<seq<byte>>,
                    received: seq<byte>, done: seq<seq<byte>>, rest: seq<seq<byte>>) {
    && ms == done + rest && after == before + Clipped(done)
    && received == ReplyBytes(answer, |before|, Clipped(done))
  }

  /** One more message handled, some or all of its answer received. */
  lemma ServeOne(answer: Handler, ms: seq<seq<byte>>, before: seq<seq<byte>>, after: seq<seq<byte>>,
                 received: seq<byte>, done: seq<seq<byte>>, m: seq<byte>, rest: seq<seq<byte>>, part: seq<byte>)
    requires Serving(answer, ms, before, after, received, done, [m] + rest)
    requires part <= answer(|after|, Upto(m, BODY_LIMIT))
    ensures var after', received', done' := after + [Upto(m, BODY_LIMIT)], received + part, done + [m];
            && Relayed(answer, ms, before, after', received', done')
            && (part == answer(|after|, Upto(m, BODY_LIMIT)) ==>
                  Serving(answer, ms, before, after', received', done', rest))
  {
    var clipped, req := Clipped(done), Upto(m, BODY_LIMIT);
    assert done + ([m] + rest) == done + [m] + rest;
    ClippedSnoc(done, m);
    ReplySnoc(answer, |before|, clipped, req);
    assert before + (clipped + [req]) == after + [req];
    PrefixOfMore(received, part, answer(|after|, req));
  }

  lemma PrefixOfMore(a: seq<byte>, part: seq<byte>, whole: seq<byte>)
    requires part <= whole
    ensures a + part <= a + whole
  {
  }

  lemma NothingRelayed(answer: Handler, ms: seq<seq<byte>>, before: seq<seq<byte>>)
    ensures Serving(answer, ms, before, before, [], [], ms)
    ensures Relayed(answer, ms, before, before, [], [])
  {
  }

  /**
  One turn of the proxy's loop after a message was read: post it, read the answer, write it back. `handled` says the
  gateway's handler saw the message, `part` is what of the answer reached the client, and the loop goes on while `ok`.
  */
  method Exchange(c: Conn, g: Gateway, msg: seq<byte>, t: Trip)
      returns (ok: bool, ghost handled: bool, ghost part: seq<byte>)
    modifies c`written, g
    ensures handled <==> Handles(t, msg)
    ensures ok <==> Handles(t, msg) && Arrives(t)
    ensures c.written == old(c.written) + part
    ensures !handled ==> g.handled == old(g.handled) && part == []
    ensures handled ==> g.handled == old(g.handled) + [Upto(msg, BODY_LIMIT)]
    ensures handled ==> part == PartOf(t, Stripped(g.respond(|old(g.handled)|, Upto(msg, BODY_LIMIT))))
  {
    ok, handled, part := false, false, [];
    if t.NotDelivered? {
      return;
    }
    var status, body := g.HandleKmip(msg, t.configured, t.readable);
    handled := status == OK;
    if !t.replyArrives || status != OK {
      return;
    }
    ok := c.Write(body, t.cut);
    part := if ok then body else Upto(body, t.cut.value);
  }

  /** What of the answers reaches the client: all but the last in full, of the last what its trip leaves of it. */
  ghost function Received(answer: Handler, n: nat, done: seq<seq<byte>>, trip: nat -> Trip): seq<byte> {
    if done == [] then []
    else ReceivedWith(answer, n, done[..|done| - 1], done[|done| - 1], trip(|done| - 1))
  }

  ghost function ReceivedWith(answer: Handler, n: nat, front: seq<seq<byte>>, m: seq<byte>, t: Trip): seq<byte> {
    ReplyBytes(answer, n, Clipped(front)) + PartOf(t, answer(n + |front|, Upto(m, BODY_LIMIT)))
  }

  /**
  How far the loop goes: every message handled but the last had its answer arrive, and the loop stops before the
  client's messages do only if the answer to the last one did not arrive, or the next one was not handled.
  */
  predicate StopsOnly(trip: nat -> Trip, ms: seq<seq<byte>>, done: seq<seq<byte>>) {
    && |done| <= |ms|
    && (forall i | 0 <= i < |done| :: Handles(trip(i), ms[i]) && (i < |done| - 1 ==> Arrives(trip(i))))
    && (|done| < |ms| ==>
          (done != [] && !Arrives(trip(|done| - 1))) || !Handles(trip(|done|), ms[|done|]))
  }

  /** All these messages are handled and answered in full. */
  predicate AllArrive(trip: nat -> Trip, done: seq<seq<byte>>) {
    forall i | 0 <= i < |done| :: Handles(trip(i), done[i]) && Arrives(trip(i))
  }

  lemma ReceivedSnoc(answer: Handler, n: nat, done: seq<seq<byte>>, m: seq<byte>, trip: nat -> Trip)
    ensures Received(answer, n, done + [m], trip) == ReceivedWith(answer, n, done, m, trip(|done|))
  {
    var all := done + [m];
    assert all[..|all| - 1] == done;
  }

  lemma ClippedReply(answer: Handler, n: nat, done: seq<seq<byte>>, m: seq<byte>, all: seq<seq<byte>>)
    requires all == done + [m]
    ensures ReplyBytes(answer, n, Clipped(all)) ==
            ReplyBytes(answer, n, Clipped(done)) + answer(n + |done|, Upto(m, BODY_LIMIT))
  {
    var reqs, req := Clipped(done), Upto(m, BODY_LIMIT);
    ClippedSnoc(done, m);
    ReplySnoc(answer, n, reqs, req);
    SameAnswer(answer, n + |reqs|, n + |done|, req);
  }

  lemma SameAnswer(answer: Handler, i: nat, j: nat, req: seq<byte>)
    requires i == j
    ensures answer(i, req) == answer(j, req)
  {
  }

  lemma ReceivedInFull(answer: Handler, n: nat, front: seq<seq<byte>>, m: seq<byte>, t: Trip, all: seq<seq<byte>>)
    requires Arrives(t) && all == front + [m]
    ensures ReceivedWith(answer, n, front, m, t) == ReplyBytes(answer, n, Clipped(all))
  {
    ClippedReply(answer, n, front, m, all);
  }

  lemma ReceivedAll(answer: Handler, n: nat, done: seq<seq<byte>>, trip: nat -> Trip)
    requires AllArrive(trip, done)
    ensures Received(answer, n, done, trip) == ReplyBytes(answer, n, Clipped(done))
  {
    if done != [] {
      var front, m := done[..|done| - 1], done[|done| - 1];
      assert done == front + [m];
      ReceivedSnoc(answer, n, front, m, trip);
      ReceivedInFull(answer, n, front, m, trip(|front|), done);
    }
  }

  /** The relay between two requests of a connection whose answers have all arrived. */
  ghost predicate Inside(answer: Handler, ms: seq<seq<byte>>, before: seq<seq<byte>>, after: seq<seq<byte>>,
                         received: seq<byte>, done: seq<seq<byte>>, rest: seq<seq<byte>>, trip: nat -> Trip) {
    Serving(answer, ms, before, after, received, done, rest) && AllArrive(trip, done)
  }

  /** The relay of a connection whose loop has stopped. */
  ghost predicate Ended(answer: Handler, ms: seq<seq<byte>>, before: seq<seq<byte>>, after: seq<seq<byte>>,
                        received: seq<byte>, done: seq<seq<byte>>, trip: nat -> Trip) {
    && Relayed(answer, ms, before, after, received, done)
    && received == Received(answer, |before|, done, trip) && StopsOnly(trip, ms, done)
  }

  /** The loop stops between two requests: there is none left, or the next one is not handled. */
  lemma StopsBefore(answer: Handler, ms: seq<seq<byte>>, before: seq<seq<byte>>, after: seq<seq<byte>>,
                    received: seq<byte>, done: seq<seq<byte>>, rest: seq<seq<byte>>, trip: nat -> Trip)
    requires Inside(answer, ms, before, after, received, done, rest, trip)
    requires rest == [] || !Handles(trip(|done|), rest[0])
    ensures Ended(answer, ms, before, after, received, done, trip)
  {
    ReceivedAll(answer, |before|, done, trip);
    assert forall i | 0 <= i < |done| :: ms[i] == done[i];
  }

  /** The loop stops after a request whose answer did not arrive. */
  lemma StopsAfter(answer: Handler, ms: seq<seq<byte>>, before: seq<seq<byte>>, after: seq<seq<byte>>,
                   received: seq<byte>, done: seq<seq<byte>>, m: seq<byte>, rest: seq<seq<byte>>, part: seq<byte>,
                   trip: nat -> Trip)
    requires Inside(answer, ms, before, after, received, done, [m] + rest, trip)
    requires Handles(trip(|done|), m) && !Arrives(trip(|done|))
    requires part == PartOf(trip(|done|), answer(|after|, Upto(m, BODY_LIMIT)))
    ensures Ended(answer, ms, before, after + [Upto(m, BODY_LIMIT)], received + part, done + [m], trip)
  {
    ServeOne(answer, ms, before, after, received, done, m, rest, part);
    ReceivedSnoc(answer, |before|, done, m, trip);
    SameAnswer(answer, |after|, |before| + |done|, Upto(m, BODY_LIMIT));
    assert ms == done + [m] + rest;
    assert forall i | 0 <= i < |done| :: ms[i] == done[i];
  }

  /** One turn of the loop: it goes on, or stops before or after the message. */
  lemma TurnTaken(answer: Handler, ms: seq<seq<byte>>, before: seq<seq<byte>>, after: seq<seq<byte>>,
                  received: seq<byte>, done: seq<seq<byte>>, m: seq<byte>, rest: seq<seq<byte>>, part: seq<byte>,
                  trip: nat -> Trip)
    requires Inside(answer, ms, before, after, received, done, [m] + rest, trip)
    requires Handles(trip(|done|), m) ==> part == PartOf(trip(|done|), answer(|after|, Upto(m, BODY_LIMIT)))
    ensures var (after', received', done') := (after + [Upto(m, BODY_LIMIT)], received + part, done + [m]);
            if !Handles(trip(|done|), m) then Ended(answer, ms, before, after, received, done, trip)
            else if Arrives(trip(|done|)) then Inside(answer, ms, before, after', received', done', rest, trip)
            else Ended(answer, ms, before, after', received', done', trip)
  {
    if !Handles(trip(|done|), m) {
      StopsBefore(answer, ms, before, after, received, done, [m] + rest, trip);
    } else if !Arrives(trip(|done|)) {
      StopsAfter(answer, ms, before, after, received, done, m, rest, part, trip);
    } else {
      ServeOne(answer, ms, before, after, received, done, m, rest, part);
    }
  }

  /** With no fault at all, every message is handled and answered in full. */
  lemma FineServed(answer: Handler, ms: seq<seq<byte>>, before: seq<seq<byte>>, after: seq<seq<byte>>,
                   received: seq<byte>, done: seq<seq<byte>>, trip: nat -> Trip)
    requires Ended(answer, ms, before, after, received, done, trip)
    requires AreMessages(ms) && forall i :: trip(i) == FINE
    ensures done == ms && received == ReplyBytes(answer, |before|, Clipped(done))
  {
    assert forall i | 0 <= i < |ms| :: IsMessage(ms[i]) && trip(i) == FINE;
    assert AllArrive(trip, ms) && done <= ms;
    ReceivedAll(answer, |before|, done, trip);
  }

  lemma Appended(start: seq<byte>, received: seq<byte>, part: seq<byte>)
    ensures start + received + part == start + (received + part)
    ensures part == [] ==> start + received + part == start + received
  {
  }

  /** The loop itself: read a message, take its turn, until one of them fails. */
  method ServeLoop(c: Conn, g: Gateway, trip: nat -> Trip)
      returns (ghost received: seq<byte>, ghost done: seq<seq<byte>>)
    modifies c, g
    ensures c.written == old(c.written) + received
    ensures Ended(Answers(g.respond), AllMessages(old(c.Pending()), c.end).0, old(g.handled), g.handled,
                  received, done, trip)
  {
    received, done := [], [];
    ghost var ms, before, answer := AllMessages(c.Pending(), c.end).0, g.handled, Answers(g.respond);
    ghost var start := c.written;
    NothingRelayed(answer, ms, before);
    assert start == start + received;
    var k := 0;
    while true
      invariant Inside(answer, ms, before, g.handled, received, done, AllMessages(c.Pending(), c.end).0, trip)
      invariant c.written == start + received && k == |done|
      decreases |c.Pending()|
    {
      var r := c.ReadTtlv();
      if r.Err? {
        StopsBefore(answer, ms, before, g.handled, received, done, [], trip);
        return;
      }
      var msg := r.value;
      ghost var soFar, rest := g.handled, AllMessages(c.Pending(), c.end).0;
      var ok, handled, part := Exchange(c, g, msg, trip(k));
      TurnTaken(answer, ms, before, soFar, received, done, msg, rest, part, trip);
      Appended(start, received, part);
      if handled {
        received, done := received + part, done + [msg];
      }
      if !ok {
        return;
      }
      k := k + 1;
    }
  }

  /** The proxy's loop over one client connection. */
  method Serve(c: Conn, g: Gateway, connected: bool, trip: nat -> Trip)
      returns (ghost received: seq<byte>, ghost done: seq<seq<byte>>)
    modifies c, g
    ensures c.written == old(c.written) + received
    ensures Relayed(Answers(g.respond), AllMessages(old(c.Pending()), c.end).0, old(g.handled), g.handled,
                    received, done)
    ensures received == Received(Answers(g.respond), |old(g.handled)|, done, trip)
    ensures if connected then StopsOnly(trip, AllMessages(old(c.Pending()), c.end).0, done) else done == []
    ensures connected && (forall i :: trip(i) == FINE) ==>
              && done == AllMessages(old(c.Pending()), c.end).0
              && received == ReplyBytes(Answers(g.respond), |old(g.handled)|, Clipped(done))
  {
    received, done := [], [];
    ghost var ms, before, answer := AllMessages(c.Pending(), c.end).0, g.handled, Answers(g.respond);
    ghost var start := c.written;
    NothingRelayed(answer, ms, before);
    assert start == start + received;
    if connected {
      ghost var unread := ReadsPrefix(c.Pending(), c.end);
      received, done := ServeLoop(c, g, trip);
      if forall i :: trip(i) == FINE {
        FineServed(answer, ms, before, g.handled, received, done, trip);
      }
    }
  }

  /** Up to the body limit nothing is lost on the way to the handler; beyond it, always. */
  lemma {:induction false} ClippedExactly(ms: seq<seq<byte>>)
    ensures Clipped(ms) == ms <==> forall i | 0 <= i < |ms| :: |ms[i]| <= 1_048_576
    ensures forall i | 0 <= i < |ms| :: Clipped(ms)[i] == Upto(ms[i], 1_048_576)
  {
    if ms != [] {
      var init, last, clipped := ms[..|ms| - 1], ms[|ms| - 1], Upto(ms[|ms| - 1], BODY_LIMIT);
      ClippedExactly(init);
      assert ms == init + [last] && Clipped(ms) == Clipped(init) + [clipped];
      if Clipped(ms) == ms {
        assert Clipped(init) == Clipped(ms)[..|init|] == init && clipped == Clipped(ms)[|init|] == last;
      }
    }
  }

  /** The handler answers each of these requests with one aligned KMIP message that a reader accepts. */
  ghost predicate WellBehaved(respond: Handler, n: nat, reqs: seq<seq<byte>>) {
    forall i | 0 <= i < |reqs| :: IsAlignedMessage(respond(n + i, reqs[i])) && IsMessage(respond(n + i, reqs[i]))
  }

  /** Each of these requests is answered with one KMIP message. */
  predicate AllAnswered(answer: Handler, n: nat, reqs: seq<seq<byte>>) {
    forall i | 0 <= i < |reqs| :: IsMessage(answer(n + i, reqs[i]))
  }

  /**
  End to end: whatever went wrong on the way, the KMIP messages a client can read from what it received are the
  stripped responses to its own first messages, in order, none of them damaged.
  */
  lemma ClientReads(respond: Handler, ms: seq<seq<byte>>, before: seq<seq<byte>>, after: seq<seq<byte>>,
                    received: seq<byte>, done: seq<seq<byte>>, end: StreamEnd)
    requires WellBehaved(respond, |before|, Clipped(done))
    requires Relayed(Answers(respond), ms, before, after, received, done)
    ensures AllMessages(received, end).0 <= Replies(Answers(respond), |before|, Clipped(done))
    ensures received == ReplyBytes(Answers(respond), |before|, Clipped(done)) ==>
              AllMessages(received, Closed) == (Replies(Answers(respond), |before|, Clipped(done)), Eof)
  {
    var answer, n, reqs := Answers(respond), |before|, Clipped(done);
    WellBehavedAnswers(respond, n, reqs);
    PrefixReads(answer, n, reqs, received, end);
  }

  lemma WellBehavedAnswers(respond: Handler, n: nat, reqs: seq<seq<byte>>)
    requires WellBehaved(respond, n, reqs)
    ensures AllAnswered(Answers(respond), n, reqs)
  {
    forall i | 0 <= i < |reqs|
      ensures IsMessage(Answers(respond)(n + i, reqs[i]))
    {
      AnswerIsMessage(respond, n + i, reqs[i]);
    }
  }

  lemma AnswerIsMessage(respond: Handler, n: nat, req: seq<byte>)
    requires IsAlignedMessage(respond(n, req)) && IsMessage(respond(n, req))
    ensures IsMessage(Answers(respond)(n, req))
  {
    StripKeepsFraming(respond(n, req));
  }

  lemma PrefixReads(answer: Handler, n: nat, reqs: seq<seq<byte>>, received: seq<byte>, end: StreamEnd)
    requires AllAnswered(answer, n, reqs)
    requires received <= ReplyBytes(answer, n, reqs)
    ensures AllMessages(received, end).0 <= Replies(answer, n, reqs)
    ensures received == ReplyBytes(answer, n, reqs) ==> AllMessages(received, Closed) == (Replies(answer, n, reqs), Eof)
  {
    AnswersAreMessages(answer, n, reqs);
    CutReadsFirst(Replies(answer, n, reqs), received, end);
    ReadBackAll(Replies(answer, n, reqs));
  }

  lemma AnswersAreMessages(answer: Handler, n: nat, reqs: seq<seq<byte>>)
    requires AllAnswered(answer, n, reqs)
    ensures AreMessages(Replies(answer, n, reqs))
  {
    forall i | 0 <= i < |reqs|
      ensures IsMessage(Replies(answer, n, reqs)[i])
    {
      ReplyAt(answer, n, reqs, i);
    }
  }
}
