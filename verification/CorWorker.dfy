/** The coroutine variant of the worker. A connection is served by one routine that is suspended
    at its yields, so each event runs the routine from where it stands to its next yield or to
    its end. The outcomes of the socket and the buffers are those of Connection. */
module CorWorker {
  import opened Message
  import opened Connection
  import opened ConnectionRuns

  /** Where the routine of the connection stands: there is none, it waits for the rest of a
      request, for its first write, for room to go on writing, or its body has returned. */
  datatype Phase = Idle | InRead | BeforeWrite | InWrite | Returned

  datatype Client = Client(conn: Conn, phase: Phase)

  /** What epoll is told once the listener has answered: the read buffer is emptied, reading ends
      unless the connection is kept alive, and writing is armed. */
  function AnswerAndArm(c: Conn, r: RequestValue, response: string): Conn {
    var d := c.(requests := c.requests + [r], responses := c.responses + [response],
                lost := c.lost + |c.write|, write := response, sent := "", read := "");
    var e := if d.keepAlive then d else Unsubscribe(d, {READ});
    Rearm(e, {WRITE})
  }

  /** The read loop, from its start or from the yield inside it. */
  function ReadPart(names: set<string>, c: Conn, incoming: seq<Incoming>, response: string): Client {
    var (d, request) := TryReadRequest(names, c, incoming);
    match request
    case Some(r) => Client(AnswerAndArm(d, r, response), BeforeWrite)
    case None => if d.valid then Client(d, InRead) else Client(d, Returned)
  }

  /** The end of the routine: close, or forget the routine and wait for the next request. */
  function LastPart(c: Conn): Client {
    if c.option == {ONESHOT} then Client(Close(c), Returned) else Client(Rearm(c, {}), Idle)
  }

  /** The write loop, from the yield in front of it or inside it. */
  function WritePart(c: Conn, outgoing: seq<Outgoing>): Client {
    var (d, done) := TryWriteResponce(c, outgoing);
    if done then LastPart(Unsubscribe(d, {WRITE}))
    else if d.valid && d.write != "" then Client(Rearm(d, {WRITE}), InWrite)
    else LastPart(d)
  }

  /** One event. The direction that was reported is not looked at; the activity time is reset
      only when a routine starts. */
  function Serve(names: set<string>, client: Client, incoming: seq<Incoming>, outgoing: seq<Outgoing>,
                 response: string, now: nat): Client {
    var c := client.conn.(armed := {});
    match client.phase
    case Idle => ReadPart(names, c.(start := now), incoming, response)
    case InRead => ReadPart(names, c, incoming, response)
    case BeforeWrite => WritePart(c, outgoing)
    case InWrite => WritePart(c, outgoing)
    case Returned => client
  }

  // ---- what every event keeps ----

  predicate Awaits(c: Conn, phase: Phase) {
    match phase
    case Idle => READ in c.armed && c.write == ""
    case InRead => READ in c.armed && c.write == ""
    case BeforeWrite => WRITE in c.armed && c.write != "" && (READ in c.option <==> c.keepAlive)
    case InWrite => WRITE in c.armed && c.write != "" && (READ in c.option <==> c.keepAlive)
    case Returned => false
  }

  /** While the connection is open it is armed, one-shot, for what its routine waits for; a routine
      has returned only from a closed connection; no response is ever overwritten. */
  predicate ClientInv(client: Client) {
    var c := client.conn;
    && (c.valid ==> ONESHOT in c.option && c.armed == c.option && Awaits(c, client.phase))
    && (!c.valid ==> client.phase == Returned)
    && OutputInv(c) && c.lost == 0
  }

  lemma AcceptedClient(now: nat)
    ensures ClientInv(Client(Accepted(now), Idle))
  {
  }

  lemma ReadPartKeepsInv(names: set<string>, c: Conn, incoming: seq<Incoming>, response: string)
    requires c.valid && READ in c.option && ONESHOT in c.option && c.write == "" && OutputInv(c) && c.lost == 0
    requires response != ""
    ensures ClientInv(ReadPart(names, c, incoming, response))
  {
    hide ParseRequest, IsKeepAlive, OutputInv, AnswerAndArm;
    var d := c.(read := c.read + Arrived(incoming));
    ReadingKeepsOutput(c, d);
    CloseKeepsOutput(d);
    RearmedForReading(d);
    var request := ParseRequest(names, d.read);
    if Stop(incoming).NoData? && request.Ok? {
      var e := d.(keepAlive := IsKeepAlive(request.value.headers));
      ReadingKeepsOutput(c, e);
      AnswerKeepsWhole(e, request.value, response);
      AnswerArms(e, request.value, response);
    }
  }

  lemma ReadingKeepsOutput(c: Conn, d: Conn)
    requires OutputInv(c) && d == c.(read := d.read, keepAlive := d.keepAlive)
    ensures OutputInv(d)
  {
    hide Concat;
  }

  lemma RearmedForReading(c: Conn)
    requires OutputInv(c) && READ in c.option && ONESHOT in c.option
    ensures Rearm(c, {READ}) == c.(armed := c.option) && OutputInv(c.(armed := c.option))
  {
    hide Concat;
    assert c.option + {READ} + {ONESHOT} == c.option;
  }

  lemma AnswerArms(c: Conn, r: RequestValue, response: string)
    requires READ in c.option && ONESHOT in c.option
    ensures var d := AnswerAndArm(c, r, response);
            && d.valid == c.valid && d.write == response && d.armed == d.option && d.keepAlive == c.keepAlive
            && ONESHOT in d.option && WRITE in d.option && (READ in d.option <==> c.keepAlive)
  {
  }

  lemma AnswerKeepsWhole(c: Conn, r: RequestValue, response: string)
    requires OutputInv(c) && c.lost == 0 && c.write == ""
    ensures OutputInv(AnswerAndArm(c, r, response)) && AnswerAndArm(c, r, response).lost == 0
  {
    var d := AnswerAndArm(c, r, response);
    hide IsKeepAlive;
    assert d.responses[..|d.responses| - 1] == c.responses;
    assert c.wire == Concat(c.responses);
    assert d.sent + d.write == response;
  }

  lemma WritePartKeepsInv(c: Conn, outgoing: seq<Outgoing>)
    requires c.valid && ONESHOT in c.option && WRITE in c.option && c.write != "" && OutputInv(c) && c.lost == 0
    requires READ in c.option <==> c.keepAlive
    ensures ClientInv(WritePart(c, outgoing))
  {
    WriteKeepsOutput(c, outgoing);
    WriteInPieces(c, outgoing);
    WriteRemoved(c.option);
    hide Concat, TryWriteResponce, RunsEmpty, WriteStop, Capacity;
    var (d, done) := TryWriteResponce(c, outgoing);
    if !done && d.valid {
      SomethingLeft(c, outgoing);
      assert c.option + {WRITE} + {ONESHOT} == c.option;
    }
  }

  lemma SomethingLeft(c: Conn, outgoing: seq<Outgoing>)
    requires c.write != ""
    ensures var (d, done) := TryWriteResponce(c, outgoing); !done ==> d.write != ""
  {
    WriteInPieces(c, outgoing);
  }

  lemma ServeKeepsInv(names: set<string>, client: Client, incoming: seq<Incoming>, outgoing: seq<Outgoing>,
                      response: string, now: nat)
    requires ClientInv(client) && response != ""
    ensures ClientInv(Serve(names, client, incoming, outgoing, response, now))
  {
    hide ReadPart, WritePart, Concat;
    var c := client.conn.(armed := {});
    match client.phase
    case Idle => ReadPartKeepsInv(names, c.(start := now), incoming, response);
    case InRead => ReadPartKeepsInv(names, c, incoming, response);
    case BeforeWrite => WritePartKeepsInv(c, outgoing);
    case InWrite => WritePartKeepsInv(c, outgoing);
    case Returned =>
  }

  // ---- runs ----

  datatype Wakeup = Wakeup(incoming: seq<Incoming>, outgoing: seq<Outgoing>, response: string, now: nat)

  function ServeAll(names: set<string>, client: Client, events: seq<Wakeup>): Client
    decreases |events|
  {
    if events == [] then client
    else
      var e := events[0];
      ServeAll(names, Serve(names, client, e.incoming, e.outgoing, e.response, e.now), events[1..])
  }

  lemma {:induction false} ServeAllKeepsInv(names: set<string>, client: Client, events: seq<Wakeup>)
    requires ClientInv(client)
    requires forall i :: 0 <= i < |events| ==> events[i].response != ""
    ensures ClientInv(ServeAll(names, client, events))
    decreases |events|
  {
    hide ClientInv, Serve;
    if events != [] {
      var e := events[0];
      ServeKeepsInv(names, client, e.incoming, e.outgoing, e.response, e.now);
      ServeAllKeepsInv(names, Serve(names, client, e.incoming, e.outgoing, e.response, e.now), events[1..]);
    }
  }

  /** In every run the peer gets the responses one after the other, up to what is still to be
      written: unlike the threaded worker, a suspended routine cannot be overtaken by a further
      request. */
  lemma RoutinesNeverOverwrite(names: set<string>, now: nat, events: seq<Wakeup>)
    requires forall i :: 0 <= i < |events| ==> events[i].response != ""
    ensures var c := ServeAll(names, Client(Accepted(now), Idle), events).conn;
            c.wire + c.write == Concat(c.responses)
  {
    AcceptedClient(now);
    hide ServeAll;
    ServeAllKeepsInv(names, Client(Accepted(now), Idle), events);
  }
}
