/** What one event does to a connection, for both workers: every field behind the event in terms of
    the bytes that arrived, the bytes that were taken and the parser. */
module EventEffects {
  import opened Message
  import opened Connection
  import opened ConnectionRuns
  import opened CorWorker

  // ---- keeping alive ----

  predicate Contains(s: string, word: string) {
    exists p :: 0 <= p <= |s| && word <= s[p..]
  }

  /** The first header named Connection mentions Keep-Alive. */
  predicate AsksToStay(headers: seq<Header>) {
    exists i :: 0 <= i < |headers| && headers[i].name == "Connection"
                && (forall j :: 0 <= j < i ==> headers[j].name != "Connection")
                && Contains(headers[i].value, "Keep-Alive")
  }

  lemma {:induction false} FoundIsContained(s: string, word: string)
    ensures FindSubstring(s, word) <==> Contains(s, word)
  {
    assert s[0..] == s;
    if |word| <= |s| && !(word <= s) {
      FoundIsContained(s[1..], word);
      if p :| 0 <= p <= |s| && word <= s[p..] {
        assert s[1..][p - 1..] == s[p..];
      }
      if q :| 0 <= q <= |s[1..]| && word <= s[1..][q..] {
        assert s[q + 1..] == s[1..][q..];
      }
    }
  }

  lemma {:induction false} KeepAliveIs(headers: seq<Header>)
    ensures IsKeepAlive(headers) <==> AsksToStay(headers)
  {
    hide Contains, FindSubstring;
    if headers != [] {
      FoundIsContained(headers[0].value, "Keep-Alive");
      KeepAliveIs(headers[1..]);
      if headers[0].name != "Connection" {
        assert forall i :: 0 < i < |headers| ==> headers[i] == headers[1..][i - 1];
        if i :| 0 <= i < |headers| && headers[i].name == "Connection"
                && (forall j :: 0 <= j < i ==> headers[j].name != "Connection")
                && Contains(headers[i].value, "Keep-Alive") {
          assert headers[1..][i - 1].name == "Connection";
        }
        if i :| 0 <= i < |headers[1..]| && headers[1..][i].name == "Connection"
                && (forall j :: 0 <= j < i ==> headers[1..][j].name != "Connection")
                && Contains(headers[1..][i].value, "Keep-Alive") {
          assert headers[i + 1].name == "Connection";
        }
      }
    }
  }

  // ---- the outcomes, field by field ----

  function Closed(c: Conn): Conn {
    c.(valid := false, option := {ONESHOT}, armed := {})
  }

  /** A request has been read: the response is to be written, and reading goes on only for a
      connection that stays. */
  function Asked(c: Conn, r: RequestValue, response: string, read: string): Conn {
    var stays := AsksToStay(r.headers);
    var opts := if stays then {READ, WRITE, ONESHOT} else {WRITE, ONESHOT};
    c.(keepAlive := stays, read := read, option := opts, armed := opts,
       requests := c.requests + [r], responses := c.responses + [response],
       lost := c.lost + |c.write|, write := response, sent := "")
  }

  /** So many bytes of the buffer are out. */
  function Out(c: Conn, n: nat): Conn
    requires n <= |c.write|
  {
    c.(write := c.write[n..], sent := c.sent + c.write[..n], wire := c.wire + c.write[..n])
  }

  /** The outcome of an event for the threaded worker. */
  predicate IsOutcome(names: set<string>, c: Conn, ready: Ready, incoming: seq<Incoming>, outgoing: seq<Outgoing>,
                      response: string, now: nat, d: Conn) {
    var c0 := c.(start := now);
    var text := c.read + Arrived(incoming);
    var n := Min(Capacity(outgoing), |c.write|);
    if ready.input then
      if !Stop(incoming).NoData? then d == Closed(c0.(read := text))
      else
        match ParseRequest(names, text)
        case Ok(r) => d == Asked(c0, r, response, if AsksToStay(r.headers) then "" else text)
        case Expecting(_) => d == c0.(read := text, armed := c.option)
        case Incorrect(_) => d == Closed(c0.(read := text))
        case Undefined => true
    else if ready.output then
      if RunsEmpty(c, outgoing) then
        if READ in c.option then d == Out(c0, n).(option := {READ, ONESHOT}, armed := {READ, ONESHOT})
        else d == Closed(Out(c0, n))
      else if WriteStop(outgoing).BadWrite? then d == Closed(Out(c0, n))
      else d == Out(c0, n).(armed := c.option)
    else d == c0.(armed := c.option)
  }

  lemma EventExact(names: set<string>, c: Conn, ready: Ready, incoming: seq<Incoming>, outgoing: seq<Outgoing>,
                   response: string, now: nat)
    requires c.valid && ConnInv(c) && CanReport(c, ready)
    ensures IsOutcome(names, c, ready, incoming, outgoing, response, now,
                      Work(names, c, ready, incoming, outgoing, response, now))
  {
    if ready.input {
      InputExact(names, c, incoming, outgoing, response, now);
    } else if ready.output {
      OutputExact(names, c, incoming, outgoing, response, now);
    } else {
      hide ParseRequest, AsksToStay;
      OptionWithout(c.option);
      DirectionLeft(c.option);
    }
  }

  lemma OptionWithout(option: set<Opt>)
    requires ONESHOT in option
    ensures option + {} + {ONESHOT} == option
    ensures READ in option ==> option + {READ} + {ONESHOT} == option && option - {WRITE} + {ONESHOT} == {READ, ONESHOT}
    ensures READ !in option ==> option - {WRITE} + {ONESHOT} == {ONESHOT}
    ensures READ in option ==> option + {ONESHOT} + {WRITE} + {ONESHOT} == {READ, WRITE, ONESHOT}
    ensures option - {READ} + {ONESHOT} + {WRITE} + {ONESHOT} == {WRITE, ONESHOT}
  {
    assert forall o: Opt :: o in option ==> o == READ || o == WRITE || o == ONESHOT;
  }

  lemma InputExact(names: set<string>, c: Conn, incoming: seq<Incoming>, outgoing: seq<Outgoing>, response: string,
                   now: nat)
    requires c.valid && ConnInv(c) && READ in c.option
    ensures IsOutcome(names, c, Ready(true, false), incoming, outgoing, response, now,
                      Work(names, c, Ready(true, false), incoming, outgoing, response, now))
  {
    hide ParseRequest, AsksToStay, IsKeepAlive, IsWhole, Concat, Arrived, Stop;
    OptionWithout(c.option);
    var c1 := c.(start := now, armed := {}, read := c.read + Arrived(incoming));
    if ParseRequest(names, c1.read).Ok? {
      var r := ParseRequest(names, c1.read).value;
      KeepAliveIs(r.headers);
      AnswerExact(c1.(keepAlive := IsKeepAlive(r.headers)), r, response);
      hide Answer, Finish;
    }
  }

  lemma AnswerExact(c: Conn, r: RequestValue, response: string)
    requires c.valid && READ in c.option && ONESHOT in c.option && c.keepAlive == AsksToStay(r.headers)
    ensures Finish(Answer(c, r, response)) == Asked(c, r, response, if AsksToStay(r.headers) then "" else c.read)
  {
    hide AsksToStay;
    OptionWithout(c.option);
    var opts := if c.keepAlive then {READ, WRITE, ONESHOT} else {WRITE, ONESHOT};
    assert c.option + {WRITE} + {ONESHOT} == {READ, WRITE, ONESHOT};
    assert Answer(c, r, response).option == opts;
    assert WRITE in opts && opts + {} + {ONESHOT} == opts;
  }

  lemma OutputExact(names: set<string>, c: Conn, incoming: seq<Incoming>, outgoing: seq<Outgoing>, response: string,
                    now: nat)
    requires c.valid && ConnInv(c) && WRITE in c.option
    ensures IsOutcome(names, c, Ready(false, true), incoming, outgoing, response, now,
                      Work(names, c, Ready(false, true), incoming, outgoing, response, now))
  {
    hide ParseRequest, AsksToStay, IsWhole, Concat;
    OptionWithout(c.option);
    WriteInPieces(c.(start := now, armed := {}), outgoing);
    hide TryWriteResponce, Capacity, WriteStop;
    assert WRITE in c.option && c.option != {ONESHOT};
    assert {READ, ONESHOT} != {ONESHOT} && {READ, ONESHOT} + {} + {ONESHOT} == {READ, ONESHOT} by {
      assert READ in {READ, ONESHOT};
    }
  }

  // ---- what is armed ----

  /** What an open connection is armed for follows from its buffer: to write while something is
      left, to read unless the last response is being written, and always one-shot. */
  predicate ArmsWhatItNeeds(c: Conn) {
    c.valid ==>
      && ONESHOT in c.armed
      && (WRITE in c.armed <==> c.write != "")
      && (READ in c.armed <==> c.write == "" || c.keepAlive)
  }

  lemma EventArms(names: set<string>, c: Conn, e: Event)
    requires ConnInv(c) && CanReport(c, e.ready) && IsDefined(names, c, e.ready, e.incoming)
    requires ArmsWhatItNeeds(c) && e.response != ""
    ensures ArmsWhatItNeeds(Handle(names, c, e))
  {
    hide Work, ParseRequest, AsksToStay, IsWhole, Concat, Arrived, Stop;
    if c.valid {
      EventExact(names, c, e.ready, e.incoming, e.outgoing, e.response, e.now);
    } else {
      ClosedStays(names, c, e);
    }
  }

  lemma ClosedStays(names: set<string>, c: Conn, e: Event)
    requires !c.valid
    ensures Handle(names, c, e) == c
  {
    hide TryReadRequest, TryWriteResponce, Answer, Finish;
  }

  lemma {:induction false} RunArms(names: set<string>, c: Conn, events: seq<Event>)
    requires ConnInv(c) && ArmsWhatItNeeds(c) && IsPossible(names, c, events)
    requires forall i :: 0 <= i < |events| ==> events[i].response != ""
    ensures ArmsWhatItNeeds(Run(names, c, events))
    decreases |events|
  {
    hide ConnInv, Work, ParseRequest, ArmsWhatItNeeds, IsDefined, CanReport;
    if events != [] {
      var e := events[0];
      WorkKeepsInv(names, c, e.ready, e.incoming, e.outgoing, e.response, e.now);
      EventArms(names, c, e);
      RunArms(names, Handle(names, c, e), events[1..]);
    }
  }

  /** In every run in which the listener answers with some text, an open connection is armed to
      write exactly while bytes are left to write, and to read exactly if none are or it stays. */
  lemma ArmedExactly(names: set<string>, now: nat, events: seq<Event>)
    requires IsPossible(names, Accepted(now), events)
    requires forall i :: 0 <= i < |events| ==> events[i].response != ""
    ensures var c := Run(names, Accepted(now), events);
            c.valid ==> && (WRITE in c.armed <==> c.write != "")
                        && (READ in c.armed <==> c.write == "" || c.keepAlive)
                        && ONESHOT in c.armed
  {
    AcceptedInv(now);
    hide Run, IsPossible;
    RunArms(names, Accepted(now), events);
  }

  // ---- a response gets out ----

  function TotalCapacity(scripts: seq<seq<Outgoing>>): nat {
    if scripts == [] then 0 else Capacity(scripts[0]) + TotalCapacity(scripts[1..])
  }

  function OutputEvents(scripts: seq<seq<Outgoing>>, now: nat): seq<Event> {
    seq(|scripts|, i requires 0 <= i < |scripts| => Event(Ready(false, true), [], scripts[i], "", now))
  }

  /** However the kernel takes a response, over any number of events: when it has taken as many bytes
      as there are, all of them are on the wire in order, and the connection is open again for the
      next request, or closed if it does not stay. */
  lemma {:induction false} ResponseGetsOut(names: set<string>, c: Conn, scripts: seq<seq<Outgoing>>, now: nat)
    requires c.valid && ConnInv(c) && WRITE in c.armed && c.write != "" && scripts != []
    requires forall i :: 0 <= i < |scripts| ==> !WriteStop(scripts[i]).BadWrite?
    requires TotalCapacity(scripts[..|scripts| - 1]) < |c.write| <= TotalCapacity(scripts)
    ensures IsPossible(names, c, OutputEvents(scripts, now))
    ensures var d := Run(names, c, OutputEvents(scripts, now));
            && d.write == "" && d.wire == c.wire + c.write
            && (d.valid <==> READ in c.option) && (d.valid ==> d.armed == {READ, ONESHOT})
            && d.requests == c.requests && d.responses == c.responses && d.lost == c.lost
    decreases |scripts|
  {
    hide Work, ConnInv, Capacity, WriteStop, IsDefined;
    var events := OutputEvents(scripts, now);
    var e := events[0];
    var rest := scripts[1..];
    assert events[1..] == OutputEvents(rest, now);
    OutputStep(names, c, scripts[0], now);
    var d := Handle(names, c, e);
    if rest == [] {
      assert TotalCapacity(scripts) == Capacity(scripts[0]);
      assert Run(names, d, []) == d && IsPossible(names, d, []);
    } else {
      var n := Capacity(scripts[0]);
      assert scripts[..|scripts| - 1][0] == scripts[0] && scripts[..|scripts| - 1][1..] == rest[..|rest| - 1];
      assert c.write == c.write[..n] + c.write[n..];
      ResponseGetsOut(names, d, rest, now);
      assert c.wire + c.write[..n] + c.write[n..] == c.wire + c.write;
    }
  }

  /** One event of it. */
  lemma OutputStep(names: set<string>, c: Conn, script: seq<Outgoing>, now: nat)
    requires c.valid && ConnInv(c) && WRITE in c.armed && c.write != "" && !WriteStop(script).BadWrite?
    ensures var e := Event(Ready(false, true), [], script, "", now);
            var n := Capacity(script);
            var d := Handle(names, c, e);
            && CanReport(c, e.ready) && IsDefined(names, c, e.ready, e.incoming) && ConnInv(d)
            && d.requests == c.requests && d.responses == c.responses && d.lost == c.lost
            && if n < |c.write| then d.valid && d.write == c.write[n..] && d.wire == c.wire + c.write[..n]
                                     && d.option == c.option == d.armed == c.armed
               else d.write == "" && d.wire == c.wire + c.write
                    && (d.valid <==> READ in c.option) && (d.valid ==> d.armed == {READ, ONESHOT})
  {
    var e := Event(Ready(false, true), [], script, "", now);
    WorkKeepsInv(names, c, e.ready, e.incoming, e.outgoing, e.response, e.now);
    EventExact(names, c, e.ready, e.incoming, e.outgoing, e.response, e.now);
    SomeIsTaken(script);
    hide Work, ParseRequest, AsksToStay, IsWhole, Concat, Capacity, WriteStop, Arrived, Stop;
    assert c.write[..|c.write|] == c.write;
  }

  lemma SomeIsTaken(script: seq<Outgoing>)
    ensures Capacity(script) > 0 ==> script != [] && script[0].Taken?
  {
  }

  // ---- the coroutine worker ----

  /** The outcome of an event for the coroutine worker: where the routine stands afterwards, and
      every field of the connection. */
  predicate IsServed(names: set<string>, client: Client, incoming: seq<Incoming>, outgoing: seq<Outgoing>,
                     response: string, now: nat, after: Client) {
    var c := if client.phase == Idle then client.conn.(start := now) else client.conn;
    var text := c.read + Arrived(incoming);
    var n := Min(Capacity(outgoing), |c.write|);
    if client.phase == Idle || client.phase == InRead then
      if !Stop(incoming).NoData? then after == Client(Closed(c.(read := text)), Returned)
      else
        match ParseRequest(names, text)
        case Ok(r) => after == Client(Asked(c, r, response, ""), BeforeWrite)
        case Expecting(_) => after == Client(c.(read := text, armed := c.option), InRead)
        case Incorrect(_) => after == Client(Closed(c.(read := text)), Returned)
        case Undefined => true
    else if RunsEmpty(c, outgoing) then
      if c.keepAlive then after == Client(Out(c, n).(option := {READ, ONESHOT}, armed := {READ, ONESHOT}), Idle)
      else after == Client(Closed(Out(c, n)), Returned)
    else if WriteStop(outgoing).BadWrite? then after == Client(Closed(Out(c, n)), Returned)
    else n < |c.write| && after == Client(Out(c, n).(armed := c.option), InWrite)
  }

  lemma ServeExact(names: set<string>, client: Client, incoming: seq<Incoming>, outgoing: seq<Outgoing>,
                   response: string, now: nat)
    requires ClientInv(client) && client.conn.valid
    ensures IsServed(names, client, incoming, outgoing, response, now,
                     Serve(names, client, incoming, outgoing, response, now))
  {
    hide ReadPart, WritePart, ParseRequest, AsksToStay, OutputInv, Arrived, Stop, Capacity, WriteStop;
    var c := client.conn.(armed := {});
    match client.phase
    case Idle => ReadPartExact(names, client, c.(start := now), incoming, outgoing, response, now);
    case InRead => ReadPartExact(names, client, c, incoming, outgoing, response, now);
    case BeforeWrite => WritePartExact(names, client, incoming, outgoing, response, now);
    case InWrite => WritePartExact(names, client, incoming, outgoing, response, now);
    case Returned => assert false;
  }

  lemma ReadPartExact(names: set<string>, client: Client, c: Conn, incoming: seq<Incoming>, outgoing: seq<Outgoing>,
                      response: string, now: nat)
    requires ClientInv(client) && client.conn.valid && (client.phase == Idle || client.phase == InRead)
    requires c == client.conn.(armed := {}, start := if client.phase == Idle then now else client.conn.start)
    ensures IsServed(names, client, incoming, outgoing, response, now, ReadPart(names, c, incoming, response))
  {
    hide ParseRequest, AsksToStay, IsKeepAlive, OutputInv, Arrived, Stop, Capacity, WriteStop;
    OptionWithout(c.option);
    var c1 := c.(read := c.read + Arrived(incoming));
    if ParseRequest(names, c1.read).Ok? {
      var r := ParseRequest(names, c1.read).value;
      KeepAliveIs(r.headers);
      AnswerAndArmExact(c1.(keepAlive := IsKeepAlive(r.headers)), r, response);
      hide AnswerAndArm;
    }
  }

  lemma AnswerAndArmExact(c: Conn, r: RequestValue, response: string)
    requires c.valid && READ in c.option && ONESHOT in c.option && c.keepAlive == AsksToStay(r.headers)
    ensures AnswerAndArm(c, r, response) == Asked(c, r, response, "")
  {
    hide AsksToStay;
    OptionWithout(c.option);
    assert c.option + {WRITE} + {ONESHOT} == {READ, WRITE, ONESHOT};
  }

  lemma WritePartExact(names: set<string>, client: Client, incoming: seq<Incoming>, outgoing: seq<Outgoing>,
                       response: string, now: nat)
    requires ClientInv(client) && client.conn.valid && (client.phase == BeforeWrite || client.phase == InWrite)
    ensures IsServed(names, client, incoming, outgoing, response, now,
                     WritePart(client.conn.(armed := {}), outgoing))
  {
    hide ParseRequest, AsksToStay, OutputInv, Arrived, Stop;
    var c := client.conn.(armed := {});
    OptionWithout(c.option);
    WriteInPieces(c, outgoing);
    SomethingLeft(c, outgoing);
    hide TryWriteResponce;
    assert c.option + {WRITE} + {ONESHOT} == c.option;
    assert {READ, ONESHOT} != {ONESHOT} && {READ, ONESHOT} + {} + {ONESHOT} == {READ, ONESHOT} by {
      assert READ in {READ, ONESHOT};
    }
  }
}
