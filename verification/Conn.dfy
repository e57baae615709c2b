/** sync3/conn.go: positions, acknowledgements and retransmissions on one connection. */
module Conn {
  import opened Common

  /** The body is everything that is compared between requests; the transaction id and timeout are not. */
  datatype Request = Request(pos: int, body: nat, txnId: nat, timeout: nat)

  datatype Response = Response(pos: int, txnId: nat, data: nat)

  /** What the handler does when it is called. It may change the request's body, but not its position. */
  datatype Handling = Fails(status: nat) | Answers(data: nat, body: nat)

  /** `Sent(None)` is a nil response without an error. */
  datatype Reply = Expired | HandlerError(status: nat) | Sent(response: Option<Response>)

  datatype State = State(lastRequest: Request, responses: seq<Response>, lastPos: int)

  datatype Step = Step(after: State, reply: Reply, handlerCalled: bool)

  const INITIAL := State(Request(0, 0, 0, 0), [], 0)

  predicate Outstanding(rs: seq<Response>, pos: int) { exists i :: 0 <= i < |rs| && rs[i].pos == pos }

  /** How many buffered responses the scan drops: up to the last one before `pos`. */
  function Acknowledged(rs: seq<Response>, pos: int): (n: nat)
    ensures n <= |rs|
  {
    if rs == [] || rs[0].pos > pos then 0
    else
      var n := Acknowledged(rs[1..], pos);
      if n > 0 then n + 1 else if rs[0].pos < pos then 1 else 0
  }

  /** The first buffered response after `pos`. */
  function NextAfter(rs: seq<Response>, pos: int): Option<Response> {
    if rs == [] then None else if rs[0].pos > pos then Some(rs[0]) else NextAfter(rs[1..], pos)
  }

  /** One request, as a function of the connection and of what the handler would do. */
  function Handle(c: State, req: Request, h: Handling): Step {
    var isFirst := req.pos == 0;
    var isRetransmit := !isFirst && c.lastRequest.pos == req.pos;
    var isSame := !isFirst && c.lastRequest.body == req.body;
    if !isFirst && !isRetransmit && !Outstanding(c.responses, req.pos) then Step(c, Expired, false)
    else
      var next := NextAfter(c.responses, req.pos);
      var kept := c.responses[Acknowledged(c.responses, req.pos)..];
      var purged := c.(responses := kept);
      if isSame && (isRetransmit || next.Some?) then Step(purged, Sent(next), false)
      else match h
        case Fails(status) => Step(purged, HandlerError(status), true)
        case Answers(data, body) =>
          var resp := Response(c.lastPos + 1, req.txnId, data);
          var seen := req.(body := body, timeout := if next.Some? then 1 else req.timeout);
          Step(State(seen, kept + [resp], c.lastPos + 1), Sent(if next.Some? then next else Some(resp)), true)
  }

  // ---- what every request keeps ----

  /** Buffered positions are consecutive and, once a request has succeeded, end at the last one given out. */
  ghost predicate Inv(c: State) {
    && 0 <= c.lastPos
    && (c.lastPos == 0 ==> c.responses == [] && c.lastRequest.pos == 0)
    && (c.lastPos > 0 ==> c.responses != [] && 0 <= c.lastRequest.pos < c.lastPos)
    && |c.responses| <= c.lastPos
    && (forall i :: 0 <= i < |c.responses| ==> c.responses[i].pos == c.lastPos - |c.responses| + 1 + i)
  }

  lemma {:induction false} AcknowledgedConsecutive(rs: seq<Response>, pos: int, first: int)
    requires forall i :: 0 <= i < |rs| ==> rs[i].pos == first + i
    ensures Acknowledged(rs, pos) == Max(0, Min(|rs|, pos - first))
    decreases rs
  {
    if rs != [] {
      AcknowledgedConsecutive(rs[1..], pos, first + 1);
    }
  }

  lemma {:induction false} NextConsecutive(rs: seq<Response>, pos: int, first: int)
    requires forall i :: 0 <= i < |rs| ==> rs[i].pos == first + i
    ensures var k := Max(0, pos + 1 - first);
      NextAfter(rs, pos) == if k < |rs| then Some(rs[k]) else None
    decreases rs
  {
    if rs != [] {
      NextConsecutive(rs[1..], pos, first + 1);
    }
  }

  /** The position is one the server gave out and has not forgotten, or a retransmission, or the start. */
  ghost predicate Accepted(c: State, req: Request) {
    req.pos == 0 || c.lastRequest.pos == req.pos || Outstanding(c.responses, req.pos)
  }

  lemma ScanOutcome(c: State, req: Request)
    requires Inv(c) && Accepted(c, req)
    ensures var first := c.lastPos - |c.responses| + 1;
      && 0 <= req.pos <= c.lastPos
      && Acknowledged(c.responses, req.pos) == Max(0, req.pos - first)
      && NextAfter(c.responses, req.pos) ==
           (if c.lastPos == 0 || req.pos == c.lastPos then None else Some(c.responses[Max(0, req.pos + 1 - first)]))
  {
    var first := c.lastPos - |c.responses| + 1;
    AcknowledgedConsecutive(c.responses, req.pos, first);
    NextConsecutive(c.responses, req.pos, first);
  }

  lemma HandleKeepsInv(c: State, req: Request, h: Handling)
    requires Inv(c)
    ensures Inv(Handle(c, req, h).after)
  {
    if Accepted(c, req) {
      ScanOutcome(c, req);
    }
  }

  /**
   * Never nil, never invented, never skipped: a reply without an error is a buffered response later than
   * the request's position, and the very next one when that position is still buffered.
   */
  lemma RepliesInOrder(c: State, req: Request, h: Handling)
    requires Inv(c)
    ensures var s := Handle(c, req, h);
      && (s.reply.Expired? <==> !Accepted(c, req))
      && (s.reply.Sent? ==>
          && s.reply.response.Some? && s.reply.response.value in s.after.responses
          && req.pos < s.reply.response.value.pos
          && (Outstanding(c.responses, req.pos) ==> s.reply.response.value.pos == req.pos + 1))
  {
    if Accepted(c, req) {
      ScanOutcome(c, req);
      var s := Handle(c, req, h);
      if s.handlerCalled && s.reply.Sent? {
        var kept := c.responses[Acknowledged(c.responses, req.pos)..];
        assert s.after.responses == kept + [Response(c.lastPos + 1, req.txnId, h.data)];
        assert s.after.responses[|kept|].pos == c.lastPos + 1;
      }
    }
  }

  /** A response is still buffered that is later than the request's position. */
  ghost predicate Behind(c: State, req: Request) { 0 < c.lastPos && req.pos < c.lastPos }

  /**
   * When the handler is called: for a first request, for a request with anything new in its body, and for one that
   * has seen everything sent so far; never for a position that is refused. Its answer is buffered with the next
   * position and the request's transaction ID, and is the reply unless a response is still waiting to be
   * acknowledged; its error is passed on and nothing is remembered of the request.
   */
  lemma HandlerCalledExactly(c: State, req: Request, h: Handling)
    requires Inv(c)
    ensures var s := Handle(c, req, h);
      && (s.handlerCalled <==>
          Accepted(c, req) &&
          (req.pos == 0 || req.body != c.lastRequest.body || (req.pos != c.lastRequest.pos && !Behind(c, req))))
      && (s.handlerCalled && h.Fails? ==>
          s.reply == HandlerError(h.status) && s.after.lastRequest == c.lastRequest && s.after.lastPos == c.lastPos)
      && (s.handlerCalled && h.Answers? ==>
          var made := Response(c.lastPos + 1, req.txnId, h.data);
          && s.after.lastPos == c.lastPos + 1 && s.after.responses != []
          && s.after.responses[|s.after.responses| - 1] == made
          && s.after.lastRequest.pos == req.pos && s.after.lastRequest.body == h.body
          && s.after.lastRequest.timeout == (if Behind(c, req) then 1 else req.timeout)
          && s.reply.Sent? && (!Behind(c, req) ==> s.reply.response == Some(made))
          && (Behind(c, req) ==> s.reply.response.Some? && s.reply.response.value in c.responses))
  {
    if Accepted(c, req) {
      ScanOutcome(c, req);
    }
  }

  /** A connection after any sequence of requests. */
  ghost function Run(c: State, reqs: seq<(Request, Handling)>): State
    decreases reqs
  {
    if reqs == [] then c else Run(Handle(c, reqs[0].0, reqs[0].1).after, reqs[1..])
  }

  lemma {:induction false} RunsKeepInv(c: State, reqs: seq<(Request, Handling)>)
    requires Inv(c)
    ensures Inv(Run(c, reqs)) && c.lastPos <= Run(c, reqs).lastPos
    decreases reqs
  {
    if reqs != [] {
      HandleKeepsInv(c, reqs[0].0, reqs[0].1);
      RunsKeepInv(Handle(c, reqs[0].0, reqs[0].1).after, reqs[1..]);
    }
  }

  /** Scanning again for the same position drops nothing more and finds the same response. */
  lemma ScanAgain(c: State, req: Request, resp: Response)
    requires Inv(c) && Accepted(c, req) && resp.pos == c.lastPos + 1
    ensures var kept := c.responses[Acknowledged(c.responses, req.pos)..];
      var next := NextAfter(c.responses, req.pos);
      && Acknowledged(kept, req.pos) == 0 && NextAfter(kept, req.pos) == next
      && Acknowledged(kept + [resp], req.pos) == 0
      && NextAfter(kept + [resp], req.pos) == (if next.Some? then next else Some(resp))
  {
    ScanOutcome(c, req);
    var kept := c.responses[Acknowledged(c.responses, req.pos)..];
    var first := c.lastPos - |kept| + 1;
    assert forall i :: 0 <= i < |kept| ==> kept[i].pos == first + i;
    ScanKept(kept, resp, req.pos, first);
  }

  /** Consecutive positions that start no earlier than the one scanned for. */
  lemma ScanKept(kept: seq<Response>, resp: Response, pos: int, first: int)
    requires forall i :: 0 <= i < |kept| ==> kept[i].pos == first + i
    requires resp.pos == first + |kept| && pos <= first + |kept| - 1 && (kept != [] ==> pos <= first)
    ensures Acknowledged(kept, pos) == 0 && Acknowledged(kept + [resp], pos) == 0
    ensures var k := Max(0, pos + 1 - first);
      && NextAfter(kept, pos) == (if k < |kept| then Some(kept[k]) else None)
      && NextAfter(kept + [resp], pos) == (if k < |kept| then Some(kept[k]) else Some(resp))
  {
    AcknowledgedConsecutive(kept, pos, first);
    NextConsecutive(kept, pos, first);
    AcknowledgedConsecutive(kept + [resp], pos, first);
    NextConsecutive(kept + [resp], pos, first);
  }

  lemma KeptStillOutstanding(c: State, req: Request)
    requires Inv(c) && Outstanding(c.responses, req.pos)
    ensures Outstanding(c.responses[Acknowledged(c.responses, req.pos)..], req.pos)
  {
    ScanOutcome(c, req);
    var n := Acknowledged(c.responses, req.pos);
    var i :| 0 <= i < |c.responses| && c.responses[i].pos == req.pos;
    assert c.responses[n..][i - n] == c.responses[i];
  }

  /**
   * An accepted request repeated straight away gets the same response without the handler being called, if and
   * only if the handler, where it was called the first time, left the request's body as it was.
   */
  lemma RepeatIsCached(c: State, req: Request, again: Request, h: Handling, h': Handling)
    requires Inv(c) && req.pos != 0 && again.pos == req.pos && again.body == req.body
    requires Handle(c, req, h).reply.Sent?
    ensures var s := Handle(c, req, h);
      Handle(s.after, again, h') == Step(s.after, s.reply, false) <==> (s.handlerCalled ==> h.body == req.body)
  {
    var s := Handle(c, req, h);
    var kept := c.responses[Acknowledged(c.responses, req.pos)..];
    RepliesInOrder(c, req, h);
    ScanAgain(c, req, Response(c.lastPos + 1, req.txnId, if h.Answers? then h.data else 0));
    assert s.after.responses[0..] == s.after.responses;
    if !s.handlerCalled {
      if c.lastRequest.pos != req.pos {
        KeptStillOutstanding(c, req);
      }
    } else {
      assert s.after.responses == kept + [Response(c.lastPos + 1, req.txnId, h.data)];
    }
  }

  /** With positions consecutive, a request at the start returns the oldest response still buffered. */
  lemma FreshStartReturnsOldest(c: State, req: Request, data: nat, body: nat)
    requires Inv(c) && req.pos == 0 && c.responses != []
    ensures Handle(c, req, Answers(data, body)).reply == Sent(Some(c.responses[0]))
  {
    ScanOutcome(c, req);
  }

  class Connection {
    var lastClientRequest: Request
    var serverResponses: seq<Response>
    var lastPos: int

    ghost function Contents(): State
      reads this
    {
      State(lastClientRequest, serverResponses, lastPos)
    }

    constructor ()
      ensures Contents() == INITIAL && Inv(Contents())
    {
      lastClientRequest, serverResponses, lastPos := Request(0, 0, 0, 0), [], 0;
    }

    method IsOutstanding(pos: int) returns (yes: bool)
      ensures yes <==> Outstanding(serverResponses, pos)
    {
      for i := 0 to |serverResponses|
        invariant forall j :: 0 <= j < i ==> serverResponses[j].pos != pos
      {
        if serverResponses[i].pos == pos {
          return true;
        }
      }
      return false;
    }

    method Scan(pos: int) returns (delIndex: int, next: Option<Response>)
      ensures delIndex + 1 == Acknowledged(serverResponses, pos) && next == NextAfter(serverResponses, pos)
    {
      delIndex, next := -1, None;
      for i := 0 to |serverResponses|
        invariant -1 <= delIndex < i
        invariant NextAfter(serverResponses, pos) == NextAfter(serverResponses[i..], pos)
        invariant Acknowledged(serverResponses, pos) ==
          var n := Acknowledged(serverResponses[i..], pos);
          if n > 0 then i + n else delIndex + 1
      {
        assert serverResponses[i..][1..] == serverResponses[i + 1..];
        if pos > serverResponses[i].pos {
          delIndex := i;
        } else if pos < serverResponses[i].pos {
          return delIndex, Some(serverResponses[i]);
        }
      }
    }

    method OnIncomingRequest(request: Request, h: Handling) returns (reply: Reply, handlerCalled: bool)
      modifies this
      ensures Step(Contents(), reply, handlerCalled) == Handle(old(Contents()), request, h)
    {
      handlerCalled := false;
      var req := request;
      var isFirstRequest := req.pos == 0;
      var isRetransmit := !isFirstRequest && lastClientRequest.pos == req.pos;
      var isSameRequest := !isFirstRequest && lastClientRequest.body == req.body;
      var outstanding := IsOutstanding(req.pos);
      if !isFirstRequest && !isRetransmit && !outstanding {
        return Expired, false;
      }
      var delIndex, next := Scan(req.pos);
      serverResponses := serverResponses[delIndex + 1..];
      if !isFirstRequest && isRetransmit && isSameRequest {
        return Sent(next), false;
      }
      if next.Some? {
        if isSameRequest {
          return Sent(next), false;
        }
        req := req.(timeout := 1);
      }
      handlerCalled := true;
      match h {
        case Fails(status) =>
          return HandlerError(status), true;
        case Answers(data, body) =>
          lastClientRequest := req.(body := body);
          var resp := Response(lastPos + 1, req.txnId, data);
          serverResponses := serverResponses + [resp];
          lastPos := resp.pos;
          if next.None? {
            next := Some(resp);
          }
          return Sent(next), true;
      }
    }
  }
}
