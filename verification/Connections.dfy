/**
Any number of client connections on one gateway at once, each with its own proxy loop (cmd/kmip-proxy/main.go). A turn
of a loop is two steps, the request that the gateway handles and the answer that is written back, and steps of other
connections come between them in any order.
*/
module Connections {
  import opened Bytes
  import opened Framing
  import opened Relay
  import opened Wrappers

  /**
  One connection: where in the gateway's order its requests were handled, the trip of a request whose answer is still
  under way, what the client has received, and whether its proxy loop goes on.
  */
  datatype Client = Client(seen: seq<nat>, waiting: Option<Trip>, received: seq<byte>, open: bool)

  /** All requests handled so far, in order, and the connection that each came from. */
  datatype Hub = Hub(handled: seq<seq<byte>>, from: seq<nat>, clients: seq<Client>)

  datatype Event = Post(c: nat, t: Trip) | Answered(c: nat)

  /** The messages that each connection's proxy loop reads, as `AllMessages` gives them. */
  type Inputs = seq<seq<seq<byte>>>

  function Init(inputs: Inputs): Hub { Hub([], [], seq(|inputs|, _ => Client([], None, [], true))) }

  predicate Enabled(inputs: Inputs, s: Hub, e: Event) {
    && e.c < |s.clients| == |inputs| && |s.clients[e.c].seen| <= |inputs[e.c]|
    && match e
       case Post(c, _) =>
         s.clients[c].open && s.clients[c].waiting.None? && |s.clients[c].seen| < |inputs[c]|
       case Answered(c) =>
         && s.clients[c].waiting.Some? && s.clients[c].seen != []
         && s.clients[c].seen[|s.clients[c].seen| - 1] < |s.handled|
  }

  /** A request that the handler does not get to see ends its connection; so does an answer that does not arrive. */
  function Next(answer: Handler, inputs: Inputs, s: Hub, e: Event): Hub
    requires Enabled(inputs, s, e)
  {
    var client := s.clients[e.c];
    match e
    case Post(c, t) =>
      var msg := inputs[c][|client.seen|];
      if !Handles(t, msg) then s.(clients := s.clients[c := client.(open := false)])
      else
        Hub(s.handled + [Upto(msg, BODY_LIMIT)], s.from + [c],
            s.clients[c := client.(seen := client.seen + [|s.handled|], waiting := Some(t))])
    case Answered(c) =>
      var at := client.seen[|client.seen| - 1];
      var part := PartOf(client.waiting.value, answer(at, s.handled[at]));
      s.(clients := s.clients[c := Client(client.seen, None, client.received + part, Arrives(client.waiting.value))])
  }

  predicate Runs(answer: Handler, inputs: Inputs, s: Hub, events: seq<Event>)
    decreases |events|
  {
    events == [] ||
    (Enabled(inputs, s, events[0]) && Runs(answer, inputs, Next(answer, inputs, s, events[0]), events[1..]))
  }

  function End(answer: Handler, inputs: Inputs, s: Hub, events: seq<Event>): Hub
    requires Runs(answer, inputs, s, events)
    decreases |events|
  {
    if events == [] then s else End(answer, inputs, Next(answer, inputs, s, events[0]), events[1..])
  }

  predicate Within(seen: seq<nat>, n: nat) { forall i | 0 <= i < |seen| :: seen[i] < n }

  /** The answers to the requests at these places in the gateway's order. */
  function OwnReplies(answer: Handler, handled: seq<seq<byte>>, seen: seq<nat>): (r: seq<seq<byte>>)
    requires Within(seen, |handled|)
    ensures |r| == |seen|
    ensures forall i | 0 <= i < |seen| :: r[i] == answer(seen[i], handled[seen[i]])
  {
    if seen == [] then []
    else
      var last := seen[|seen| - 1];
      OwnReplies(answer, handled, seen[..|seen| - 1]) + [answer(last, handled[last])]
  }

  function OwnBytes(answer: Handler, handled: seq<seq<byte>>, seen: seq<nat>): seq<byte>
    requires Within(seen, |handled|)
  {
    Concat(OwnReplies(answer, handled, seen))
  }

  /**
  The gateway handled the connection's first messages, in order and byte for byte up to the body limit, and nothing else
  on its behalf; other connections' requests may lie between them.
  */
  predicate OwnRequests(ms: seq<seq<byte>>, handled: seq<seq<byte>>, from: seq<nat>, c: nat, seen: seq<nat>)
    requires |from| == |handled|
  {
    && |seen| <= |ms| && Within(seen, |handled|)
    && (forall i | 0 <= i < |seen| :: from[seen[i]] == c && handled[seen[i]] == Upto(ms[i], BODY_LIMIT))
    && (forall i, j | 0 <= i < j < |seen| :: seen[i] < seen[j])
    && forall p | 0 <= p < |from| && from[p] == c :: p in seen
  }

  /** What the client has received is the answers to its own requests, in order, the last of them perhaps cut. */
  predicate OwnAnswers(answer: Handler, handled: seq<seq<byte>>, client: Client)
    requires Within(client.seen, |handled|)
  {
    if client.waiting.Some? then
      client.seen != [] && client.received == OwnBytes(answer, handled, client.seen[..|client.seen| - 1])
    else
      && client.received <= OwnBytes(answer, handled, client.seen)
      && (client.open ==> client.received == OwnBytes(answer, handled, client.seen))
  }

  predicate Served(answer: Handler, inputs: Inputs, s: Hub, c: nat) {
    && c < |s.clients| == |inputs| && |s.from| == |s.handled|
    && OwnRequests(inputs[c], s.handled, s.from, c, s.clients[c].seen)
    && OwnAnswers(answer, s.handled, s.clients[c])
  }

  /** Requests handled later leave the answers to earlier ones what they were. */
  lemma {:induction false} OwnRepliesKept(answer: Handler, handled: seq<seq<byte>>, req: seq<byte>, seen: seq<nat>)
    requires Within(seen, |handled|)
    ensures OwnReplies(answer, handled + [req], seen) == OwnReplies(answer, handled, seen)
  {
    if seen != [] {
      OwnRepliesKept(answer, handled, req, seen[..|seen| - 1]);
    }
  }

  lemma OwnBytesSnoc(answer: Handler, handled: seq<seq<byte>>, seen: seq<nat>)
    requires Within(seen, |handled|) && seen != []
    ensures var (front, last) := (seen[..|seen| - 1], seen[|seen| - 1]);
            OwnBytes(answer, handled, seen) == OwnBytes(answer, handled, front) + answer(last, handled[last])
  {
    var (front, last) := (seen[..|seen| - 1], seen[|seen| - 1]);
    ConcatSnoc(OwnReplies(answer, handled, front), answer(last, handled[last]));
  }

  /** One more request handled: the connection's own, or another's. */
  lemma OneMoreRequest(ms: seq<seq<byte>>, handled: seq<seq<byte>>, from: seq<nat>, c: nat, seen: seq<nat>,
                       req: seq<byte>, sender: nat)
    requires |from| == |handled| && OwnRequests(ms, handled, from, c, seen)
    ensures sender != c ==> OwnRequests(ms, handled + [req], from + [sender], c, seen)
    ensures sender == c && |seen| < |ms| && req == Upto(ms[|seen|], BODY_LIMIT) ==>
              OwnRequests(ms, handled + [req], from + [sender], c, seen + [|handled|])
  {
    var n := |handled|;
    assert forall p | 0 <= p < n :: (from + [sender])[p] == from[p] && (handled + [req])[p] == handled[p];
    assert n in seen + [n];
  }

  lemma OneMoreAnswer(answer: Handler, handled: seq<seq<byte>>, req: seq<byte>, client: Client)
    requires Within(client.seen, |handled|) && OwnAnswers(answer, handled, client)
    ensures OwnAnswers(answer, handled + [req], client)
  {
    OwnRepliesKept(answer, handled, req, client.seen);
    if client.waiting.Some? {
      OwnRepliesKept(answer, handled, req, client.seen[..|client.seen| - 1]);
    }
  }

  lemma AwaitsAnswer(answer: Handler, handled: seq<seq<byte>>, req: seq<byte>, client: Client, t: Trip)
    requires Within(client.seen, |handled|) && client.open && client.waiting.None?
    requires OwnAnswers(answer, handled, client)
    ensures var posted := client.(seen := client.seen + [|handled|], waiting := Some(t));
            Within(posted.seen, |handled + [req]|) && OwnAnswers(answer, handled + [req], posted)
  {
    OwnRepliesKept(answer, handled, req, client.seen);
    assert (client.seen + [|handled|])[..|client.seen|] == client.seen;
  }

  lemma PostOwn(answer: Handler, inputs: Inputs, s: Hub, c: nat, t: Trip)
    requires Enabled(inputs, s, Post(c, t)) && Served(answer, inputs, s, c)
    requires Handles(t, inputs[c][|s.clients[c].seen|])
    ensures Served(answer, inputs, Next(answer, inputs, s, Post(c, t)), c)
  {
    var client, req := s.clients[c], Upto(inputs[c][|s.clients[c].seen|], BODY_LIMIT);
    var s' := Next(answer, inputs, s, Post(c, t));
    assert s'.clients[c] == client.(seen := client.seen + [|s.handled|], waiting := Some(t));
    OneMoreRequest(inputs[c], s.handled, s.from, c, client.seen, req, c);
    AwaitsAnswer(answer, s.handled, req, client, t);
  }

  lemma PostOther(answer: Handler, inputs: Inputs, s: Hub, e: Event, c: nat)
    requires e.Post? && Enabled(inputs, s, e) && Served(answer, inputs, s, c) && c != e.c
    requires Handles(e.t, inputs[e.c][|s.clients[e.c].seen|])
    ensures Served(answer, inputs, Next(answer, inputs, s, e), c)
  {
    var req := Upto(inputs[e.c][|s.clients[e.c].seen|], BODY_LIMIT);
    assert Next(answer, inputs, s, e).clients[c] == s.clients[c];
    OneMoreRequest(inputs[c], s.handled, s.from, c, s.clients[c].seen, req, e.c);
    OneMoreAnswer(answer, s.handled, req, s.clients[c]);
  }

  lemma PostServes(answer: Handler, inputs: Inputs, s: Hub, e: Event, c: nat)
    requires e.Post? && Enabled(inputs, s, e) && Served(answer, inputs, s, c)
    ensures Served(answer, inputs, Next(answer, inputs, s, e), c)
  {
    if Handles(e.t, inputs[e.c][|s.clients[e.c].seen|]) {
      if c == e.c {
        PostOwn(answer, inputs, s, c, e.t);
      } else {
        PostOther(answer, inputs, s, e, c);
      }
    }
  }

  lemma AnsweredServes(answer: Handler, inputs: Inputs, s: Hub, e: Event, c: nat)
    requires e.Answered? && Enabled(inputs, s, e) && Served(answer, inputs, s, c)
    ensures Served(answer, inputs, Next(answer, inputs, s, e), c)
  {
    if c == e.c {
      var client := s.clients[c];
      var at := client.seen[|client.seen| - 1];
      OwnBytesSnoc(answer, s.handled, client.seen);
      PrefixOfMore(client.received, PartOf(client.waiting.value, answer(at, s.handled[at])), answer(at, s.handled[at]));
    }
  }

  lemma {:induction false} RunServes(answer: Handler, inputs: Inputs, s: Hub, events: seq<Event>, c: nat)
    requires Runs(answer, inputs, s, events) && Served(answer, inputs, s, c)
    ensures Served(answer, inputs, End(answer, inputs, s, events), c)
    decreases |events|
  {
    if events != [] {
      if events[0].Post? {
        PostServes(answer, inputs, s, events[0], c);
      } else {
        AnsweredServes(answer, inputs, s, events[0], c);
      }
      RunServes(answer, inputs, Next(answer, inputs, s, events[0]), events[1..], c);
    }
  }

  /**
  Every client is served as if it were alone but for what the handler remembers of the others. Over every interleaving
  of any number of connections: the gateway handles each client's first messages in order, and what the client has
  received is a byte prefix of the stripped responses to its own requests, all of them as long as its connection goes
  on and no answer is under way.
  */
  lemma EachClientServed(respond: Handler, inputs: Inputs, events: seq<Event>, c: nat)
    requires c < |inputs| && Runs(Answers(respond), inputs, Init(inputs), events)
    ensures var s := End(Answers(respond), inputs, Init(inputs), events);
            && c < |s.clients| && |s.from| == |s.handled|
            && OwnRequests(inputs[c], s.handled, s.from, c, s.clients[c].seen)
            && s.clients[c].received <= OwnBytes(Answers(respond), s.handled, s.clients[c].seen)
            && (s.clients[c].open && s.clients[c].waiting.None? ==>
                  s.clients[c].received == OwnBytes(Answers(respond), s.handled, s.clients[c].seen))
  {
    var answer := Answers(respond);
    RunServes(answer, inputs, Init(inputs), events, c);
    var s := End(answer, inputs, Init(inputs), events);
    if s.clients[c].waiting.Some? {
      OwnBytesSnoc(answer, s.handled, s.clients[c].seen);
    }
  }

  // ---- How far each loop goes ----

  /** The trips of the requests that a connection has posted, in order. */
  function Trips(events: seq<Event>, c: nat): seq<Trip> {
    if events == [] then []
    else (if events[0].Post? && events[0].c == c then [events[0].t] else []) + Trips(events[1..], c)
  }

  /**
  A connection after the requests with these trips: all but the last were handled and answered in full, and the loop
  goes on after the last exactly when it was too. A request that was not handled is the last.
  */
  predicate Turned(ms: seq<seq<byte>>, client: Client, trips: seq<Trip>) {
    && |trips| <= |ms|
    && (forall i | 0 <= i < |trips| - 1 :: Handles(trips[i], ms[i]) && Arrives(trips[i]))
    && if trips == [] then client.open && client.waiting.None? && client.seen == []
       else
         var last := |trips| - 1;
         var handled := Handles(trips[last], ms[last]);
         && |client.seen| == (if handled then |trips| else last)
         && if client.waiting.Some? then client.open && handled && client.waiting.value == trips[last]
            else client.open <==> handled && Arrives(trips[last])
  }

  lemma EventTurns(answer: Handler, inputs: Inputs, s: Hub, e: Event, c: nat, trips: seq<Trip>)
    requires Enabled(inputs, s, e) && c < |inputs| && Turned(inputs[c], s.clients[c], trips)
    ensures Turned(inputs[c], Next(answer, inputs, s, e).clients[c], trips + Trips([e], c))
  {
    assert Trips([e][1..], c) == [];
    if e.Post? && e.c == c {
      assert trips + [e.t] == trips + Trips([e], c);
      assert trips != [] ==> Handles(trips[|trips| - 1], inputs[c][|trips| - 1]) && Arrives(trips[|trips| - 1]);
    } else {
      assert trips + Trips([e], c) == trips;
    }
  }

  lemma TripsCons(events: seq<Event>, c: nat)
    requires events != []
    ensures Trips(events, c) == Trips([events[0]], c) + Trips(events[1..], c)
  {
    assert Trips([events[0]][1..], c) == [];
  }

  lemma {:induction false} RunTurns(answer: Handler, inputs: Inputs, s: Hub, events: seq<Event>, c: nat,
                                    trips: seq<Trip>, all: seq<Trip>)
    requires Runs(answer, inputs, s, events) && c < |inputs| == |s.clients| && Turned(inputs[c], s.clients[c], trips)
    requires all == trips + Trips(events, c)
    ensures c < |End(answer, inputs, s, events).clients|
    ensures Turned(inputs[c], End(answer, inputs, s, events).clients[c], all)
    decreases |events|
  {
    if events == [] {
      assert all == trips;
    } else {
      var next, soFar := Next(answer, inputs, s, events[0]), trips + Trips([events[0]], c);
      EventTurns(answer, inputs, s, events[0], c, trips);
      TripsCons(events, c);
      RunTurns(answer, inputs, next, events[1..], c, soFar, all);
    }
  }

  /** Every one of these requests is handled and answered in full. */
  predicate AllFull(trips: seq<Trip>, ms: seq<seq<byte>>)
    requires |trips| <= |ms|
  {
    forall i | 0 <= i < |trips| :: Handles(trips[i], ms[i]) && Arrives(trips[i])
  }

  /** Nothing can happen on the connection: no request can be posted, and no answer is under way. */
  ghost predicate Idle(inputs: Inputs, s: Hub, c: nat) {
    (forall t :: !Enabled(inputs, s, Post(c, t))) && !Enabled(inputs, s, Answered(c))
  }

  /**
  How far each loop goes, in every run: nothing can happen on a connection any more exactly when all its requests were
  handled and answered in full and none is left, or one was not and no answer is under way. In the first case the
  client has received the answers to all its messages.
  */
  lemma IdleExactly(respond: Handler, inputs: Inputs, events: seq<Event>, c: nat)
    requires c < |inputs| && Runs(Answers(respond), inputs, Init(inputs), events)
    ensures var (s, trips) := (End(Answers(respond), inputs, Init(inputs), events), Trips(events, c));
            && c < |s.clients| && |trips| <= |inputs[c]| && Within(s.clients[c].seen, |s.handled|)
            && (Idle(inputs, s, c) <==>
                  s.clients[c].waiting.None? && (|trips| == |inputs[c]| || !AllFull(trips, inputs[c])))
            && (Idle(inputs, s, c) && AllFull(trips, inputs[c]) ==>
                  && |s.clients[c].seen| == |inputs[c]|
                  && s.clients[c].received == OwnBytes(Answers(respond), s.handled, s.clients[c].seen))
  {
    var answer := Answers(respond);
    RunTurns(answer, inputs, Init(inputs), events, c, [], Trips(events, c));
    RunServes(answer, inputs, Init(inputs), events, c);
    IdleState(answer, inputs, End(answer, inputs, Init(inputs), events), Trips(events, c), c);
  }

  lemma IdleState(answer: Handler, inputs: Inputs, s: Hub, trips: seq<Trip>, c: nat)
    requires c < |inputs| && Served(answer, inputs, s, c) && Turned(inputs[c], s.clients[c], trips)
    ensures Idle(inputs, s, c) <==>
              s.clients[c].waiting.None? && (|trips| == |inputs[c]| || !AllFull(trips, inputs[c]))
    ensures Idle(inputs, s, c) && AllFull(trips, inputs[c]) ==>
              && |s.clients[c].seen| == |inputs[c]|
              && s.clients[c].received == OwnBytes(answer, s.handled, s.clients[c].seen)
  {
    assert Enabled(inputs, s, Post(c, FINE)) <==> s.clients[c].open && s.clients[c].waiting.None?
                                                  && |s.clients[c].seen| < |inputs[c]|;
    assert forall t :: Enabled(inputs, s, Post(c, t)) <==> Enabled(inputs, s, Post(c, FINE));
    assert s.clients[c].waiting.Some? ==> Enabled(inputs, s, Answered(c));
  }

  // ---- The machine and the program ----

  /**
  The proxy's turn and the machine's two steps are one: the request that the gateway handles, what the client receives,
  and whether the loop goes on.
  */
  method Turn(conn: Conn, g: Gateway, ghost inputs: Inputs, ghost s: Hub, ghost c: nat, msg: seq<byte>, t: Trip)
      returns (ok: bool, ghost s': Hub)
    requires Enabled(inputs, s, Post(c, t)) && msg == inputs[c][|s.clients[c].seen|] && g.handled == s.handled
    modifies conn`written, g
    ensures var posted := Next(Answers(g.respond), inputs, s, Post(c, t));
            if posted.clients[c].waiting.None? then s' == posted
            else Enabled(inputs, posted, Answered(c)) && s' == Next(Answers(g.respond), inputs, posted, Answered(c))
    ensures g.handled == s'.handled && ok == s'.clients[c].open == (Handles(t, msg) && Arrives(t))
    ensures s.clients[c].received <= s'.clients[c].received
    ensures conn.written == old(conn.written) + s'.clients[c].received[|s.clients[c].received|..]
  {
    ghost var handled, part;
    ok, handled, part := Exchange(conn, g, msg, t);
    ghost var answer := Answers(g.respond);
    s' := Next(answer, inputs, s, Post(c, t));
    if handled {
      s' := Next(answer, inputs, s', Answered(c));
      assert s'.clients[c].received == s.clients[c].received + part;
    } else {
      assert s'.clients[c].received[|s.clients[c].received|..] == part;
    }
  }

  // ---- What each client can read ----

  /** The handler answers every request with one aligned KMIP message that a reader accepts. */
  ghost predicate AllWellBehaved(respond: Handler, handled: seq<seq<byte>>) { WellBehaved(respond, 0, handled) }

  /**
  Whatever happens on any connection, the KMIP messages that a client can read from what it received are stripped
  responses to its own first requests, in order, none of them damaged and none of another client's among them.
  */
  lemma EachClientReads(respond: Handler, inputs: Inputs, events: seq<Event>, c: nat, end: StreamEnd)
    requires c < |inputs| && Runs(Answers(respond), inputs, Init(inputs), events)
    requires AllWellBehaved(respond, End(Answers(respond), inputs, Init(inputs), events).handled)
    ensures var s := End(Answers(respond), inputs, Init(inputs), events);
            && c < |s.clients| && Within(s.clients[c].seen, |s.handled|)
            && AllMessages(s.clients[c].received, end).0
               <= OwnReplies(Answers(respond), s.handled, s.clients[c].seen)
  {
    EachClientServed(respond, inputs, events, c);
    var s := End(Answers(respond), inputs, Init(inputs), events);
    OwnAnswersAreMessages(respond, s.handled, s.clients[c].seen);
    CutReadsFirst(OwnReplies(Answers(respond), s.handled, s.clients[c].seen), s.clients[c].received, end);
  }

  lemma OwnAnswersAreMessages(respond: Handler, handled: seq<seq<byte>>, seen: seq<nat>)
    requires AllWellBehaved(respond, handled) && Within(seen, |handled|)
    ensures AreMessages(OwnReplies(Answers(respond), handled, seen))
  {
    WellBehavedAnswers(respond, 0, handled);
    forall i | 0 <= i < |seen|
      ensures IsMessage(OwnReplies(Answers(respond), handled, seen)[i])
    {
      assert IsMessage(Answers(respond)(0 + seen[i], handled[seen[i]]));
    }
  }
}
