/** One connection of the HTTP server as its worker sees it: what an epoll event does to the
    buffers, the subscription and the socket, and what every sequence of events keeps. */
module Connection {
  import opened Text
  import opened Message

  datatype Opt = READ | WRITE | ONESHOT

  /** What one `::read` of an event returns. The reads of an event end with anything but Bytes;
      a script that has run out stands for a read that would block. */
  datatype Incoming = Bytes(data: string) | Eof | NoData | BadRead

  /** What one `::write` returns. At least one byte of a non-empty buffer is taken. */
  datatype Outgoing = Taken(count: nat) | Full | BadWrite

  datatype Ready = Ready(input: bool, output: bool)

  /** The connection object with its epoll registration, and the record of what its listener
      was asked (`requests`), what it answered (`responses`), and what went out on the wire.
      `sent` is the part of the last response that went out, `lost` counts the bytes that were
      overwritten before they went out. */
  datatype Conn = Conn(
    valid: bool, start: nat, keepAlive: bool, option: set<Opt>, armed: set<Opt>,
    read: string, write: string,
    requests: seq<RequestValue>, responses: seq<string>, sent: string, wire: string, lost: nat)

  /** A connection as `accept` leaves it, subscribed to reading. */
  function Accepted(now: nat): Conn {
    Conn(true, now, false, {READ, ONESHOT}, {READ, ONESHOT}, "", "", [], [], "", "", 0)
  }

  function Close(c: Conn): Conn {
    if c.valid then c.(valid := false, option := {ONESHOT}, armed := {}) else c
  }

  function Subscribe(c: Conn, opts: set<Opt>): Conn {
    c.(option := c.option + opts + {ONESHOT})
  }

  function Unsubscribe(c: Conn, opts: set<Opt>): Conn {
    c.(option := c.option - opts + {ONESHOT})
  }

  /** Subscribe and tell epoll. */
  function Rearm(c: Conn, opts: set<Opt>): Conn {
    var d := Subscribe(c, opts);
    d.(armed := d.option)
  }

  // ---- reading ----

  predicate Brings(next: Incoming) {
    next.Bytes? && next.data != ""
  }

  /** The bytes that arrive before the first read that brings none. */
  function Arrived(script: seq<Incoming>): string {
    if script != [] && Brings(script[0]) then script[0].data + Arrived(script[1..]) else ""
  }

  /** The first read that brings none. A read of no bytes is the end of the file. */
  function Stop(script: seq<Incoming>): Incoming {
    if script == [] then NoData
    else if Brings(script[0]) then Stop(script[1..])
    else if script[0].Bytes? then Eof
    else script[0]
  }

  function FindSubstring(s: string, pattern: string): bool {
    |pattern| <= |s| && (pattern <= s || FindSubstring(s[1..], pattern))
  }

  /** Whether the first Connection header mentions Keep-Alive. */
  function IsKeepAlive(headers: seq<Header>): bool {
    headers != []
    && (if headers[0].name == "Connection" then FindSubstring(headers[0].value, "Keep-Alive")
        else IsKeepAlive(headers[1..]))
  }

  /** One read: it brings data, or it is the one that reading stops at. */
  lemma NextRead(script: seq<Incoming>, i: nat)
    requires i <= |script|
    ensures if i < |script| && Brings(script[i]) then
              && Arrived(script[i..]) == script[i].data + Arrived(script[i + 1..])
              && Stop(script[i..]) == Stop(script[i + 1..])
            else
              && Arrived(script[i..]) == ""
              && (Stop(script[i..]).NoData? <==> i == |script| || script[i].NoData?)
  {
    assert i < |script| ==> script[i..][1..] == script[i + 1..];
  }

  /** Some when a whole request has been read, None when the worker is done with the event. */
  function TryReadRequest(names: set<string>, c: Conn, script: seq<Incoming>): (Conn, Option<RequestValue>) {
    var d := c.(read := c.read + Arrived(script));
    if !Stop(script).NoData? then (Close(d), None)
    else
      match ParseRequest(names, d.read)
      case Ok(r) => (d.(keepAlive := IsKeepAlive(r.headers)), Some(r))
      case Expecting(_) => (Rearm(d, {READ}), None)
      case _ => (Close(d), None)
  }

  /** The listener answers a request by setting the response; for a connection that is not kept
      alive reading ends here, otherwise the buffer is emptied for the next request. */
  function Answer(c: Conn, r: RequestValue, response: string): Conn {
    var d := c.(requests := c.requests + [r], responses := c.responses + [response],
                lost := c.lost + |c.write|, write := response, sent := "");
    var e := if d.keepAlive then d.(read := "") else Unsubscribe(d, {READ});
    Subscribe(e, {WRITE})
  }

  // ---- writing ----

  function Send(c: Conn, count: nat): Conn {
    var n := if count < |c.write| then count else |c.write|;
    c.(write := c.write[n..], sent := c.sent + c.write[..n], wire := c.wire + c.write[..n])
  }

  /** True when nothing is left to write. */
  function TryWriteResponce(c: Conn, script: seq<Outgoing>): (Conn, bool)
    decreases |script|
  {
    if script == [] || script[0].Full? then (c, false)
    else if script[0].BadWrite? then (Close(c), false)
    else
      var d := Send(c, script[0].count);
      if d.write == "" then (d, true) else TryWriteResponce(d, script[1..])
  }

  // ---- an event ----

  function Finish(c: Conn): Conn {
    if c.option == {ONESHOT} then Close(c) else Rearm(c, {})
  }

  /** The worker's handling of one reported event of a connection. A one-shot registration is
      disarmed by the report. */
  function Work(names: set<string>, c: Conn, ready: Ready, incoming: seq<Incoming>, outgoing: seq<Outgoing>,
                response: string, now: nat): Conn {
    if !c.valid then c
    else
      var c0 := c.(start := now, armed := {});
      if ready.input then
        var (c1, request) := TryReadRequest(names, c0, incoming);
        match request
        case None => c1
        case Some(r) => Finish(Answer(c1, r, response))
      else if ready.output then
        var (c1, done) := TryWriteResponce(c0, outgoing);
        Finish(if done then Unsubscribe(c1, {WRITE}) else c1)
      else Finish(c0)
  }

  /** What epoll can report: a direction only while it is armed. Error and hang-up reports carry
      no direction and come at any time. */
  predicate CanReport(c: Conn, ready: Ready) {
    (ready.input ==> READ in c.armed) && (ready.output ==> WRITE in c.armed)
  }

  /** The parser stays within the bytes it is given. */
  predicate IsDefined(names: set<string>, c: Conn, ready: Ready, incoming: seq<Incoming>) {
    ready.input && Stop(incoming).NoData? ==> !ParseRequest(names, c.read + Arrived(incoming)).Undefined?
  }

  // ---- what every event keeps ----

  function Concat(parts: seq<string>): string {
    if parts == [] then "" else Concat(parts[..|parts| - 1]) + parts[|parts| - 1]
  }

  /** A valid connection is armed with its whole subscription, which holds ONESHOT and a
      direction. It is subscribed to writing while bytes are left to write, and then to reading
      only if it is kept alive. What went out of the last response, followed by what is left of
      it, is that response. */
  predicate IsArmed(c: Conn) {
    && ONESHOT in c.option
    && (READ in c.option || WRITE in c.option)
    && c.armed == c.option
  }

  predicate IsWhole(c: Conn) {
    c.sent + c.write == if c.responses == [] then "" else c.responses[|c.responses| - 1]
  }

  predicate ConnInv(c: Conn) {
    && (c.valid ==> IsArmed(c))
    && (c.valid && WRITE !in c.option ==> c.write == "")
    && (c.valid && READ in c.option && c.write != "" ==> c.keepAlive)
    && IsWhole(c)
    && |c.wire| + |c.write| + c.lost == |Concat(c.responses)|
    && (c.lost == 0 ==> c.wire + c.write == Concat(c.responses))
  }

  lemma AcceptedInv(now: nat)
    ensures ConnInv(Accepted(now))
  {
  }

  /** The output side of the invariant, which reading, closing and subscribing leave alone. */
  predicate OutputInv(c: Conn) {
    && IsWhole(c)
    && |c.wire| + |c.write| + c.lost == |Concat(c.responses)|
    && (c.lost == 0 ==> c.wire + c.write == Concat(c.responses))
  }

  lemma SendKeepsOutput(c: Conn, count: nat)
    requires OutputInv(c)
    ensures OutputInv(Send(c, count))
  {
    var n := if count < |c.write| then count else |c.write|;
    assert c.write == c.write[..n] + c.write[n..];
    assert c.sent + c.write[..n] + c.write[n..] == c.sent + c.write;
    assert c.wire + c.write[..n] + c.write[n..] == c.wire + c.write;
  }

  lemma {:induction false} WriteKeepsOutput(c: Conn, script: seq<Outgoing>)
    requires OutputInv(c)
    ensures var (d, done) := TryWriteResponce(c, script);
            && OutputInv(d)
            && (done ==> d.write == "" && d.valid == c.valid && d.option == c.option)
            && (d.valid ==> d.option == c.option && d.armed == c.armed)
            && (!d.valid && c.valid ==> d.option == {ONESHOT})
            && d.responses == c.responses && d.requests == c.requests && d.keepAlive == c.keepAlive
            && d.read == c.read && d.start == c.start && d.lost == c.lost
    decreases |script|
  {
    hide OutputInv;
    if script != [] && script[0].BadWrite? {
      CloseKeepsOutput(c);
    } else if script != [] && script[0].Taken? {
      SendKeepsOutput(c, script[0].count);
      WriteKeepsOutput(Send(c, script[0].count), script[1..]);
    }
  }

  lemma CloseKeepsOutput(c: Conn)
    requires OutputInv(c)
    ensures OutputInv(Close(c))
  {
  }

  lemma AnswerKeepsOutput(c: Conn, r: RequestValue, response: string)
    requires OutputInv(c)
    ensures OutputInv(Answer(c, r, response))
  {
    var d := Answer(c, r, response);
    assert d.responses[..|d.responses| - 1] == c.responses;
    assert d.sent + d.write == response;
    if d.lost == 0 {
      assert c.write == "" && c.wire == Concat(c.responses);
    }
  }

  lemma WriteRemoved(option: set<Opt>)
    requires ONESHOT in option
    ensures option - {WRITE} + {ONESHOT} == {ONESHOT} <==> READ !in option
  {
    if READ !in option {
      assert forall o: Opt :: o in option ==> o == ONESHOT || o == WRITE;
      assert option - {WRITE} + {ONESHOT} == {ONESHOT};
    } else {
      assert READ in option - {WRITE} + {ONESHOT};
    }
  }

  lemma DirectionLeft(option: set<Opt>)
    requires ONESHOT in option && option != {ONESHOT}
    ensures READ in option || WRITE in option
  {
    if READ !in option && WRITE !in option {
      assert forall o: Opt :: o in option ==> o == ONESHOT;
    }
  }

  lemma FinishKeepsInv(c: Conn)
    requires OutputInv(c)
    requires c.valid ==> ONESHOT in c.option && (WRITE !in c.option ==> c.write == "")
    requires c.valid && READ in c.option && c.write != "" ==> c.keepAlive
    requires !c.valid ==> c.option == {ONESHOT}
    ensures ConnInv(Finish(c))
    ensures c.valid && c.option != {ONESHOT} ==> Finish(c).valid
  {
    hide Concat;
    if c.option != {ONESHOT} {
      DirectionLeft(c.option);
      assert c.option + {} + {ONESHOT} == c.option;
    }
  }

  lemma ReadKeepsInv(names: set<string>, c: Conn, c0: Conn, incoming: seq<Incoming>, response: string)
    requires ConnInv(c) && c.valid && READ in c.option && c0 == c.(start := c0.start, armed := {})
    ensures var (c1, request) := TryReadRequest(names, c0, incoming);
            match request {
              case None => ConnInv(c1)
              case Some(r) => ConnInv(Finish(Answer(c1, r, response)))
            }
  {
    hide ConnInv, ParseRequest, IsKeepAlive, Close, Rearm;
    var d := c0.(read := c0.read + Arrived(incoming));
    ReadingOnly(c, d);
    var request := ParseRequest(names, d.read);
    if Stop(incoming).NoData? && request.Ok? {
      var e := d.(keepAlive := IsKeepAlive(request.value.headers));
      ReadingOnly(c, e);
      AnswerIsInv(e, request.value, response);
    }
  }

  /** Reading changes nothing that the invariant speaks of, whether the connection is then closed
      or armed again. */
  lemma ReadingOnly(c: Conn, d: Conn)
    requires ConnInv(c) && c.valid && READ in c.option
    requires d == c.(start := d.start, armed := {}, read := d.read, keepAlive := d.keepAlive)
    ensures OutputInv(d) && d.valid && ONESHOT in d.option
    ensures ConnInv(Close(d))
    ensures d.keepAlive == c.keepAlive ==> ConnInv(Rearm(d, {READ}))
  {
    hide Concat;
    assert c.option + {READ} + {ONESHOT} == c.option;
  }

  lemma AnswerIsInv(c: Conn, r: RequestValue, response: string)
    requires OutputInv(c) && c.valid && ONESHOT in c.option
    ensures ConnInv(Finish(Answer(c, r, response)))
  {
    AnswerKeepsOutput(c, r, response);
    hide OutputInv, ConnInv, Finish;
    FinishKeepsInv(Answer(c, r, response));
  }

  lemma WriteKeepsInv(c: Conn, c0: Conn, outgoing: seq<Outgoing>)
    requires ConnInv(c) && c.valid && WRITE in c.option && c0 == c.(start := c0.start, armed := {})
    ensures var (c1, done) := TryWriteResponce(c0, outgoing);
            ConnInv(Finish(if done then Unsubscribe(c1, {WRITE}) else c1))
  {
    OutputIgnoresArming(c, c0);
    WriteKeepsOutput(c0, outgoing);
    NothingStaysNothing(c0, outgoing);
    hide Concat, TryWriteResponce, IsWhole, Finish;
    var (c1, done) := TryWriteResponce(c0, outgoing);
    FinishKeepsInv(if done then Unsubscribe(c1, {WRITE}) else c1);
  }

  lemma NothingStaysNothing(c: Conn, script: seq<Outgoing>)
    ensures c.write == "" ==> TryWriteResponce(c, script).0.write == ""
  {
  }

  /** Every event keeps the invariant: no re-arm is lost, and the bytes on the wire, the bytes
      to write and the overwritten ones add up to the responses. */
  lemma WorkKeepsInv(names: set<string>, c: Conn, ready: Ready, incoming: seq<Incoming>, outgoing: seq<Outgoing>,
                     response: string, now: nat)
    requires ConnInv(c) && CanReport(c, ready)
    ensures ConnInv(Work(names, c, ready, incoming, outgoing, response, now))
  {
    hide TryReadRequest, TryWriteResponce, Finish, Answer, Concat, IsWhole;
    if c.valid {
      var c0 := c.(start := now, armed := {});
      if ready.input {
        ReadKeepsInv(names, c, c0, incoming, response);
      } else if ready.output {
        WriteKeepsInv(c, c0, outgoing);
      } else {
        assert OutputInv(c0) by { OutputIgnoresArming(c, c0); }
        FinishKeepsInv(c0);
      }
    }
  }

  lemma OutputIgnoresArming(c: Conn, c0: Conn)
    requires ConnInv(c) && c0 == c.(start := c0.start, armed := c0.armed)
    ensures OutputInv(c0)
  {
    hide Concat;
  }
}
