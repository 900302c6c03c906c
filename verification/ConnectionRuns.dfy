/** Sequences of events of one connection: partial writes, closing, responses that overtake
    each other, and requests that arrive in pieces. */
module ConnectionRuns {
  import opened Text
  import opened Numbers
  import opened Message
  import opened NormalForm
  import opened Streaming
  import opened Connection

  // ---- writing in pieces ----

  /** The bytes taken before the first write that fails. */
  function Capacity(script: seq<Outgoing>): nat {
    if script != [] && script[0].Taken? then script[0].count + Capacity(script[1..]) else 0
  }

  /** The first write that takes nothing. */
  function WriteStop(script: seq<Outgoing>): Outgoing {
    if script == [] then Full
    else if script[0].Taken? then WriteStop(script[1..])
    else script[0]
  }

  function Min(a: nat, b: nat): nat {
    if a < b then a else b
  }

  /** The connection after the first n bytes of its buffer have gone out. */
  function Drained(c: Conn, n: nat): Conn
    requires n <= |c.write|
  {
    c.(write := c.write[n..], sent := c.sent + c.write[..n], wire := c.wire + c.write[..n])
  }

  lemma DrainedTwice(c: Conn, m: nat, k: nat)
    requires m + k <= |c.write|
    ensures Drained(Drained(c, m), k) == Drained(c, m + k)
  {
    assert c.write[m..][k..] == c.write[m + k..];
    assert c.write[..m] + c.write[m..][..k] == c.write[..m + k];
    assert c.sent + c.write[..m] + c.write[m..][..k] == c.sent + c.write[..m + k];
    assert c.wire + c.write[..m] + c.write[m..][..k] == c.wire + c.write[..m + k];
  }

  lemma DrainedNone(c: Conn)
    ensures Drained(c, 0) == c
  {
    assert c.sent + c.write[..0] == c.sent && c.wire + c.write[..0] == c.wire;
  }

  lemma SendIs(c: Conn, count: nat)
    ensures Send(c, count) == Drained(c, Min(count, |c.write|))
  {
  }

  /** Whether the buffer runs empty before a write fails. */
  predicate RunsEmpty(c: Conn, script: seq<Outgoing>) {
    script != [] && script[0].Taken? && Capacity(script) >= |c.write|
  }

  /** However the kernel cuts the buffer up, the same bytes go out in the same order; the loop
      ends with success exactly when a write was possible and all of them went out, and the
      connection is closed exactly when a write fails for good before that. */
  lemma {:induction false} WriteInPieces(c: Conn, script: seq<Outgoing>)
    ensures var out := Drained(c, Min(Capacity(script), |c.write|));
            TryWriteResponce(c, script)
            == if RunsEmpty(c, script) then (out, true)
               else if WriteStop(script).BadWrite? then (Close(out), false)
               else (out, false)
    decreases |script|
  {
    hide Send, Drained, Close;
    DrainedNone(c);
    if script != [] && script[0].Taken? {
      var m := Min(script[0].count, |c.write|);
      SendIs(c, script[0].count);
      var d := Drained(c, m);
      assert d.write == c.write[m..] by { DrainedWrite(c, m); }
      if d.write != "" {
        WriteInPieces(d, script[1..]);
        DrainedTwice(c, m, Min(Capacity(script[1..]), |d.write|));
      } else {
        assert m == |c.write|;
      }
    }
  }

  lemma DrainedWrite(c: Conn, n: nat)
    requires n <= |c.write|
    ensures Drained(c, n).write == c.write[n..]
  {
  }

  // ---- closing ----

  /** When the handling of an event closes the connection: the peer has gone or the descriptor is
      bad, the request is malformed, or the response is out and nothing more is to be read. */
  predicate Closes(names: set<string>, c: Conn, ready: Ready, incoming: seq<Incoming>, outgoing: seq<Outgoing>) {
    if ready.input then
      !Stop(incoming).NoData? || ParseRequest(names, c.read + Arrived(incoming)).Incorrect?
    else if ready.output then
      if RunsEmpty(c, outgoing) then READ !in c.option else WriteStop(outgoing).BadWrite?
    else false
  }

  lemma ClosesExactly(names: set<string>, c: Conn, ready: Ready, incoming: seq<Incoming>, outgoing: seq<Outgoing>,
                      response: string, now: nat)
    requires c.valid && ConnInv(c) && CanReport(c, ready) && IsDefined(names, c, ready, incoming)
    ensures var d := Work(names, c, ready, incoming, outgoing, response, now);
            d.valid <==> !Closes(names, c, ready, incoming, outgoing)
  {
    hide ParseRequest, Concat, IsKeepAlive, IsWhole;
    var c0 := c.(start := now, armed := {});
    if ready.input {
      var (c1, request) := TryReadRequest(names, c0, incoming);
      if request.Some? {
        assert WRITE in Answer(c1, request.value, response).option;
      }
    } else if ready.output {
      WriteInPieces(c0, outgoing);
      WriteRemoved(c.option);
    } else {
      assert READ in c.option || WRITE in c.option;
    }
  }

  /** No early close: a connection that is closed by a write event without a failing write has
      sent all of its last response. */
  lemma NoEarlyClose(names: set<string>, c: Conn, outgoing: seq<Outgoing>, response: string, now: nat)
    requires c.valid && ConnInv(c) && WRITE in c.armed
    requires !WriteStop(outgoing).BadWrite?
    ensures var d := Work(names, c, Ready(false, true), [], outgoing, response, now);
            !d.valid ==> && d.write == ""
                         && d.sent == (if c.responses == [] then "" else c.responses[|c.responses| - 1])
  {
    hide ParseRequest, Concat, IsKeepAlive;
    var c0 := c.(start := now, armed := {});
    WriteInPieces(c0, outgoing);
    var n := Min(Capacity(outgoing), |c.write|);
    assert n == |c.write| ==> c.write[..n] == c.write && c.write[n..] == "";
  }

  /** For every event: a connection is closed with bytes left to write exactly when there were
      bytes to write and reading ends it, because the peer has gone, the descriptor is bad or a
      further request is malformed, or a write fails for good before they are out. Any other
      close comes after all of the last response. */
  lemma EarlyCloseExact(names: set<string>, c: Conn, ready: Ready, incoming: seq<Incoming>, outgoing: seq<Outgoing>,
                        response: string, now: nat)
    requires c.valid && ConnInv(c) && CanReport(c, ready) && IsDefined(names, c, ready, incoming)
    ensures var d := Work(names, c, ready, incoming, outgoing, response, now);
            && (!d.valid && d.write != ""
                <==> c.write != ""
                     && if ready.input then
                          !Stop(incoming).NoData? || ParseRequest(names, c.read + Arrived(incoming)).Incorrect?
                        else ready.output && WriteStop(outgoing).BadWrite? && Capacity(outgoing) < |c.write|)
            && (!d.valid && d.write == "" ==>
                  d.sent == if d.responses == [] then "" else d.responses[|d.responses| - 1])
  {
    ClosesExactly(names, c, ready, incoming, outgoing, response, now);
    WorkKeepsInv(names, c, ready, incoming, outgoing, response, now);
    var d := Work(names, c, ready, incoming, outgoing, response, now);
    assert IsWhole(d) && d.sent + "" == d.sent;
    if ready.input {
      InputClose(names, c, incoming, response, now);
    } else if ready.output {
      OutputClose(names, c, outgoing, response, now);
    }
  }

  lemma InputClose(names: set<string>, c: Conn, incoming: seq<Incoming>, response: string, now: nat)
    requires c.valid
    ensures var d := Work(names, c, Ready(true, false), incoming, [], response, now);
            !d.valid ==> d.write == c.write || ParseRequest(names, c.read + Arrived(incoming)).Ok?
  {
    hide ParseRequest, IsKeepAlive, Answer, Finish;
  }

  lemma OutputClose(names: set<string>, c: Conn, outgoing: seq<Outgoing>, response: string, now: nat)
    requires c.valid
    ensures var d := Work(names, c, Ready(false, true), [], outgoing, response, now);
            d.write == c.write[Min(Capacity(outgoing), |c.write|)..]
  {
    var c0 := c.(start := now, armed := {});
    WriteInPieces(c0, outgoing);
    hide TryWriteResponce;
  }

  // ---- overwritten responses ----

  /** A response is overwritten exactly when a further whole request is read before all of the
      response is out. That takes a kept-alive connection. */
  lemma OverwriteExact(names: set<string>, c: Conn, ready: Ready, incoming: seq<Incoming>, outgoing: seq<Outgoing>,
                       response: string, now: nat)
    requires ConnInv(c) && CanReport(c, ready)
    ensures var d := Work(names, c, ready, incoming, outgoing, response, now);
            && d.lost >= c.lost
            && (d.lost > c.lost
                <==> && c.valid && ready.input && Stop(incoming).NoData?
                     && ParseRequest(names, c.read + Arrived(incoming)).Ok?
                     && c.write != "")
            && (d.lost > c.lost ==> c.keepAlive)
  {
    hide ParseRequest, Concat, IsKeepAlive, IsWhole;
    if c.valid && !ready.input && ready.output {
      var c0 := c.(start := now, armed := {});
      WriteKeepsLost(c0, outgoing);
    }
  }

  lemma {:induction false} WriteKeepsLost(c: Conn, script: seq<Outgoing>)
    ensures TryWriteResponce(c, script).0.lost == c.lost
    decreases |script|
  {
    if script != [] && script[0].Taken? {
      WriteKeepsLost(Send(c, script[0].count), script[1..]);
    }
  }

  // ---- runs ----

  datatype Event =
    Event(ready: Ready, incoming: seq<Incoming>, outgoing: seq<Outgoing>, response: string, now: nat)

  function Handle(names: set<string>, c: Conn, e: Event): Conn {
    Work(names, c, e.ready, e.incoming, e.outgoing, e.response, e.now)
  }

  function Run(names: set<string>, c: Conn, events: seq<Event>): Conn
    decreases |events|
  {
    if events == [] then c else Run(names, Handle(names, c, events[0]), events[1..])
  }

  /** Only what epoll can report is handled, and the parser stays within its bytes. */
  predicate IsPossible(names: set<string>, c: Conn, events: seq<Event>)
    decreases |events|
  {
    events != [] ==>
      && CanReport(c, events[0].ready)
      && IsDefined(names, c, events[0].ready, events[0].incoming)
      && IsPossible(names, Handle(names, c, events[0]), events[1..])
  }

  /** Some whole request is read while a response is still being written. */
  predicate Overtakes(names: set<string>, c: Conn, events: seq<Event>)
    decreases |events|
  {
    events != [] && (
      || (c.valid && events[0].ready.input && Stop(events[0].incoming).NoData?
          && ParseRequest(names, c.read + Arrived(events[0].incoming)).Ok? && c.write != "")
      || Overtakes(names, Handle(names, c, events[0]), events[1..]))
  }

  lemma {:induction false} RunKeepsInv(names: set<string>, c: Conn, events: seq<Event>)
    requires ConnInv(c) && IsPossible(names, c, events)
    ensures ConnInv(Run(names, c, events))
    ensures Run(names, c, events).lost >= c.lost
    ensures Run(names, c, events).lost == c.lost <==> !Overtakes(names, c, events)
    decreases |events|
  {
    hide ConnInv, Work, ParseRequest;
    if events != [] {
      var e := events[0];
      WorkKeepsInv(names, c, e.ready, e.incoming, e.outgoing, e.response, e.now);
      OverwriteExact(names, c, e.ready, e.incoming, e.outgoing, e.response, e.now);
      RunKeepsInv(names, Handle(names, c, e), events[1..]);
    }
  }

  /** Over a whole connection the peer gets the responses one after the other, up to what is
      still to be written, exactly when no request is read before the response to the one before
      it is out. */
  lemma WireIsResponses(names: set<string>, now: nat, events: seq<Event>)
    requires IsPossible(names, Accepted(now), events)
    ensures var c := Run(names, Accepted(now), events);
            c.wire + c.write == Concat(c.responses) <==> !Overtakes(names, Accepted(now), events)
  {
    hide Work, ParseRequest, Overtakes;
    AcceptedInv(now);
    RunKeepsInv(names, Accepted(now), events);
    var c := Run(names, Accepted(now), events);
    assert |c.wire + c.write| == |c.wire| + |c.write|;
  }

  // ---- requests in pieces ----

  function AllArrived(scripts: seq<seq<Incoming>>): string {
    if scripts == [] then "" else Arrived(scripts[0]) + AllArrived(scripts[1..])
  }

  function InputEvents(scripts: seq<seq<Incoming>>, response: string, now: nat): seq<Event> {
    seq(|scripts|, i requires 0 <= i < |scripts| => Event(Ready(true, false), scripts[i], [], response, now))
  }

  /** Ready for another piece of a request. */
  predicate IsReading(c: Conn) {
    c.valid && ConnInv(c) && READ in c.option
  }

  /** The response is to be written; a connection that is kept alive goes on reading, from an
      empty buffer, and any other one has read its last request. */
  predicate IsAnswering(c: Conn, r: RequestValue, response: string) {
    && c.valid && ConnInv(c)
    && c.write == response && WRITE in c.option
    && c.keepAlive == IsKeepAlive(r.headers)
    && (if c.keepAlive then IsReading(c) && c.read == "" else READ !in c.option)
  }

  lemma PieceIsKept(names: set<string>, c: Conn, script: seq<Incoming>, response: string, now: nat)
    requires IsReading(c) && Stop(script).NoData?
    requires ParseRequest(names, c.read + Arrived(script)).Expecting?
    ensures var d := Work(names, c, Ready(true, false), script, [], response, now);
            && IsReading(d)
            && d.read == c.read + Arrived(script)
            && d.requests == c.requests && d.responses == c.responses
  {
    WorkKeepsInv(names, c, Ready(true, false), script, [], response, now);
    hide ParseRequest, ConnInv;
  }

  lemma LastPieceIsServed(names: set<string>, c: Conn, script: seq<Incoming>, response: string, now: nat,
                          r: RequestValue)
    requires IsReading(c) && Stop(script).NoData?
    requires ParseRequest(names, c.read + Arrived(script)) == Ok(r)
    ensures var d := Work(names, c, Ready(true, false), script, [], response, now);
            d.requests == c.requests + [r] && d.responses == c.responses + [response] && IsAnswering(d, r, response)
  {
    WorkKeepsInv(names, c, Ready(true, false), script, [], response, now);
    var c1 := TryReadRequest(names, c.(start := now, armed := {}), script).0;
    hide ParseRequest, ConnInv, IsKeepAlive, Answer, Finish, Stop, Arrived;
    AnswerIs(c1, r, response);
  }

  lemma AnswerIs(c: Conn, r: RequestValue, response: string)
    requires c.valid && READ in c.option
    ensures var d := Finish(Answer(c, r, response));
            && d.valid && d.requests == c.requests + [r] && d.responses == c.responses + [response]
            && d.write == response && WRITE in d.option && d.keepAlive == c.keepAlive
            && (if c.keepAlive then READ in d.option && d.read == "" else READ !in d.option)
  {
    assert WRITE in Answer(c, r, response).option;
  }

  /** If the parser asks for more after every piece but the last, the listener is asked once, on
      the last piece, with the request that the whole text holds. */
  lemma {:induction false} DeliveryInPieces(names: set<string>, c: Conn, scripts: seq<seq<Incoming>>, response: string,
                                           now: nat, r: RequestValue)
    requires IsReading(c) && scripts != []
    requires forall i :: 0 <= i < |scripts| ==> Stop(scripts[i]).NoData?
    requires forall i :: 0 < i < |scripts| ==> ParseRequest(names, c.read + AllArrived(scripts[..i])).Expecting?
    requires ParseRequest(names, c.read + AllArrived(scripts)) == Ok(r)
    ensures var d := Run(names, c, InputEvents(scripts, response, now));
            d.requests == c.requests + [r] && d.responses == c.responses + [response] && IsAnswering(d, r, response)
    ensures forall i :: 0 <= i < |scripts| ==>
              Run(names, c, InputEvents(scripts[..i], response, now)).requests == c.requests
    decreases |scripts|
  {
    hide ParseRequest, IsReading, IsAnswering, Work;
    var events := InputEvents(scripts, response, now);
    assert events[0] == Event(Ready(true, false), scripts[0], [], response, now);
    assert scripts[..0] == [] && InputEvents([], response, now) == [];
    if |scripts| == 1 {
      assert AllArrived(scripts) == Arrived(scripts[0]);
      LastPieceIsServed(names, c, scripts[0], response, now, r);
      assert events[1..] == [];
    } else {
      FirstPiece(c.read, scripts);
      PieceIsKept(names, c, scripts[0], response, now);
      var d := Work(names, c, Ready(true, false), scripts[0], [], response, now);
      assert events[1..] == InputEvents(scripts[1..], response, now);
      forall i | 0 < i < |scripts| - 1
        ensures ParseRequest(names, d.read + AllArrived(scripts[1..][..i])).Expecting?
      {
        NextPieces(c.read, scripts, i);
      }
      DeliveryInPieces(names, d, scripts[1..], response, now, r);
      forall i | 0 < i < |scripts|
        ensures Run(names, c, InputEvents(scripts[..i], response, now)).requests == c.requests
      {
        var first := InputEvents(scripts[..i], response, now);
        assert first[0] == events[0];
        assert scripts[..i][1..] == scripts[1..][..i - 1];
        assert first[1..] == InputEvents(scripts[1..][..i - 1], response, now);
      }
    }
  }

  lemma FirstPiece(read: string, scripts: seq<seq<Incoming>>)
    requires |scripts| > 1
    ensures read + AllArrived(scripts[..1]) == read + Arrived(scripts[0])
    ensures read + AllArrived(scripts) == read + Arrived(scripts[0]) + AllArrived(scripts[1..])
  {
    OneScript(scripts[0]);
    FirstOfAll(scripts);
    hide Arrived, AllArrived;
    assert scripts[..1] == [scripts[0]];
    var first, others := Arrived(scripts[0]), AllArrived(scripts[1..]);
    assert read + (first + others) == read + first + others;
  }

  lemma FirstOfAll(scripts: seq<seq<Incoming>>)
    requires scripts != []
    ensures AllArrived(scripts) == Arrived(scripts[0]) + AllArrived(scripts[1..])
  {
  }

  lemma OneScript(script: seq<Incoming>)
    ensures AllArrived([script]) == Arrived(script)
  {
    hide Arrived;
    assert [script][1..] == [];
    assert AllArrived([script]) == Arrived(script) + AllArrived([]);
  }

  lemma NextPieces(read: string, scripts: seq<seq<Incoming>>, i: nat)
    requires 0 < i < |scripts| - 1
    ensures read + AllArrived(scripts[..i + 1]) == read + Arrived(scripts[0]) + AllArrived(scripts[1..][..i])
  {
    assert scripts[..i + 1][0] == scripts[0];
    assert scripts[..i + 1][1..] == scripts[1..][..i];
  }

  /** The text after i pieces is a proper prefix of the whole when the last piece brings bytes. */
  lemma {:induction false} PrefixOfAll(scripts: seq<seq<Incoming>>, i: nat)
    requires i < |scripts| && Arrived(scripts[|scripts| - 1]) != ""
    ensures AllArrived(scripts[..i]) <= AllArrived(scripts)
    ensures |AllArrived(scripts[..i])| < |AllArrived(scripts)|
    decreases |scripts|
  {
    if i > 0 {
      assert scripts[..i][0] == scripts[0] && scripts[..i][1..] == scripts[1..][..i - 1];
      PrefixOfAll(scripts[1..], i - 1);
    } else if |scripts| > 1 {
      PrefixOfAll(scripts[1..], 0);
    }
  }

  /** Delivery in pieces, first form: the first piece holds the whole header block, and the other
      pieces, of any number and size, bring the declared body. */
  lemma DeliveryBehindBlock(names: set<string>, c: Conn, scripts: seq<seq<Incoming>>, response: string, now: nat,
                            r: RequestValue)
    requires IsReading(c) && c.read == "" && scripts != []
    requires forall i :: 0 <= i < |scripts| ==> Stop(scripts[i]).NoData?
    requires BlockComplete(names, Arrived(scripts[0])) && Arrived(scripts[|scripts| - 1]) != ""
    requires ParseRequest(names, AllArrived(scripts)) == Ok(r)
    ensures var d := Run(names, c, InputEvents(scripts, response, now));
            d.requests == c.requests + [r] && d.responses == c.responses + [response] && IsAnswering(d, r, response)
    ensures forall i :: 0 <= i < |scripts| ==>
              Run(names, c, InputEvents(scripts[..i], response, now)).requests == c.requests
  {
    hide ParseRequest, IsReading, IsAnswering, Run, BlockComplete;
    assert forall t: string :: c.read + t == t;
    forall i | 0 < i < |scripts|
      ensures ParseRequest(names, c.read + AllArrived(scripts[..i])).Expecting?
    {
      StillWaiting(names, scripts, i);
    }
    DeliveryInPieces(names, c, scripts, response, now, r);
  }

  lemma StillWaiting(names: set<string>, scripts: seq<seq<Incoming>>, i: nat)
    requires 0 < i < |scripts|
    requires BlockComplete(names, Arrived(scripts[0])) && Arrived(scripts[|scripts| - 1]) != ""
    requires ParseRequest(names, AllArrived(scripts)).Ok?
    ensures ParseRequest(names, AllArrived(scripts[..i])).Expecting?
  {
    hide ParseRequest, BlockComplete, ReadHead, LengthHeader, Stoul;
    var first := Arrived(scripts[0]);
    assert scripts[..i][0] == scripts[0];
    PrefixOfAll(scripts, i);
    CompleteBlockDecides(names, first, AllArrived(scripts[..i][1..]));
    CompleteBlockDecides(names, first, AllArrived(scripts[1..]));
  }

  /** Delivery in pieces, second form: a canonical request cut at resumable points only. */
  lemma DeliveryOfCanonical(names: set<string>, c: Conn, scripts: seq<seq<Incoming>>, response: string, now: nat,
                            r: RequestValue)
    requires IsReading(c) && c.read == "" && scripts != []
    requires forall i :: 0 <= i < |scripts| ==> Stop(scripts[i]).NoData?
    requires GoodRequest(names, r) && AllArrived(scripts) == PrintRequest(r)
    requires Arrived(scripts[|scripts| - 1]) != ""
    requires forall i :: 0 < i < |scripts| ==> IsResumable(r, |AllArrived(scripts[..i])|)
    ensures var d := Run(names, c, InputEvents(scripts, response, now));
            d.requests == c.requests + [r] && d.responses == c.responses + [response] && IsAnswering(d, r, response)
    ensures forall i :: 0 <= i < |scripts| ==>
              Run(names, c, InputEvents(scripts[..i], response, now)).requests == c.requests
  {
    hide ParseRequest, IsReading, IsAnswering, Run, GoodRequest, PrintRequest, IsResumable;
    assert forall t: string :: c.read + t == t;
    forall i | 0 < i < |scripts|
      ensures ParseRequest(names, c.read + AllArrived(scripts[..i])).Expecting?
    {
      PrefixOfAll(scripts, i);
      var n := |AllArrived(scripts[..i])|;
      assert AllArrived(scripts[..i]) == PrintRequest(r)[..n];
      ResumableCutsWait(names, r, n);
    }
    RequestRoundTrip(names, r);
    DeliveryInPieces(names, c, scripts, response, now, r);
  }

  // ---- a response that is lost ----

  const KEPT := RequestValue("GET", "/", "1.1", [Header("Connection", "Keep-Alive")], "")

  lemma KeptIsGood()
    ensures GoodRequest({"Connection"}, KEPT)
    ensures IsKeepAlive(KEPT.headers)
  {
    assert "GET" <= METHODS[2] && "1.1" <= VERSIONS[2];
    assert IsToken("Connection" + ":");
    assert "Keep-Alive" <= "Keep-Alive";
  }

  lemma KeptIsServed(c: Conn, response: string)
    requires c.valid && c.read == "" && READ in c.option
    ensures var d := Work({"Connection"}, c, Ready(true, false), [Bytes(PrintRequest(KEPT))], [], response, 0);
            && d.valid && d.read == "" && READ in d.option && READ in d.armed
            && d.keepAlive && d.write == response && d.lost == c.lost + |c.write|
  {
    var names := {"Connection"};
    var text := PrintRequest(KEPT);
    KeptIsGood();
    RequestRoundTrip(names, KEPT);
    PrintedIsNotEmpty(KEPT);
    hide ParseRequest, PrintRequest, IsKeepAlive, GoodRequest;
    var script := [Bytes(text)];
    assert script[1..] == [];
    assert Arrived(script) == text + Arrived([]) == text;
    assert Stop(script) == Stop([]) == NoData;
    assert c.read + text == text;
    var c1 := TryReadRequest(names, c.(start := 0, armed := {}), script).0;
    assert READ in Answer(c1, KEPT, response).option && WRITE in Answer(c1, KEPT, response).option;
  }

  lemma KeptIsDefined(c: Conn)
    requires c.read == ""
    ensures IsDefined({"Connection"}, c, Ready(true, false), [Bytes(PrintRequest(KEPT))])
  {
    var script := [Bytes(PrintRequest(KEPT))];
    KeptIsGood();
    RequestRoundTrip({"Connection"}, KEPT);
    hide ParseRequest, GoodRequest;
    PrintedIsNotEmpty(KEPT);
    hide PrintRequest;
    assert script[1..] == [];
    assert c.read + Arrived(script) == PrintRequest(KEPT);
  }

  lemma PrintedIsNotEmpty(r: RequestValue)
    ensures PrintRequest(r) != ""
  {
  }

  /** Two kept-alive requests, the second read before the response to the first is written: the
      two bytes of that response are lost. */
  lemma PipeliningOverwrites()
    ensures var e := Event(Ready(true, false), [Bytes(PrintRequest(KEPT))], [], "ab", 0);
            var names := {"Connection"};
            && IsPossible(names, Accepted(0), [e, e])
            && Run(names, Accepted(0), [e, e]).lost == 2
            && Run(names, Accepted(0), [e, e]).valid
  {
    var e := Event(Ready(true, false), [Bytes(PrintRequest(KEPT))], [], "ab", 0);
    var names := {"Connection"};
    hide Work, PrintRequest, IsDefined;
    var c := Accepted(0);
    KeptIsServed(c, "ab");
    KeptIsDefined(c);
    var d := Handle(names, c, e);
    KeptIsServed(d, "ab");
    KeptIsDefined(d);
    assert [e, e][1..] == [e] && [e][1..] == [];
    var f := Handle(names, d, e);
    assert Run(names, d, [e]) == f by {
      assert Run(names, f, []) == f;
    }
    assert IsPossible(names, f, []);
    assert IsPossible(names, d, [e]);
  }

  lemma NoMethod()
    ensures ParseRequest({"Connection"}, "x").Incorrect?
  {
    LastToken("", "x");
    assert "" + "x" == "x";
    Words.MethodsAreWords();
    assert forall k :: 0 <= k < |METHODS| ==> METHODS[k] == "" || METHODS[k][0] != 'x';
    Words.FindInRangeDecides(METHODS, "x", "", "");
    hide FindInRange, ReadToken, ReadProtocol, ReadLineEnd, ReadRest;
  }

  const BAD := Event(Ready(true, false), [Bytes("x")], [], "", 0)

  lemma BadRequestCloses(c: Conn)
    requires c.valid && ConnInv(c) && READ in c.armed && c.read == ""
    ensures var d := Handle({"Connection"}, c, BAD);
            CanReport(c, BAD.ready) && IsDefined({"Connection"}, c, BAD.ready, BAD.incoming)
            && !d.valid && d.write == c.write
  {
    var names := {"Connection"};
    hide ParseRequest, Work;
    NoMethod();
    assert BAD.incoming[1..] == [];
    assert Arrived(BAD.incoming) == "x" + Arrived([]) == "x";
    assert Stop(BAD.incoming) == Stop([]) == NoData;
    assert c.read + "x" == "x";
    hide ConnInv, Arrived, Stop;
    ClosesExactly(names, c, BAD.ready, BAD.incoming, [], "", 0);
    InputClose(names, c, BAD.incoming, "", 0);
  }

  /** A kept-alive request, and behind it text that is no request: the response to the first is
      cut off, all of it here. */
  lemma BadRequestClosesEarly()
    ensures var names := {"Connection"};
            var events := [Event(Ready(true, false), [Bytes(PrintRequest(KEPT))], [], "ab", 0), BAD];
            var d := Run(names, Accepted(0), events);
            IsPossible(names, Accepted(0), events) && !d.valid && d.write == "ab"
  {
    var names := {"Connection"};
    var e := Event(Ready(true, false), [Bytes(PrintRequest(KEPT))], [], "ab", 0);
    var c := Accepted(0);
    AcceptedInv(0);
    hide PrintRequest, Work, ConnInv, IsDefined;
    KeptIsServed(c, "ab");
    KeptIsDefined(c);
    WorkKeepsInv(names, c, e.ready, e.incoming, [], "ab", 0);
    var d := Handle(names, c, e);
    BadRequestCloses(d);
    hide BAD;
    assert [e, BAD][1..] == [BAD] && [BAD][1..] == [];
    var g := Handle(names, d, BAD);
    assert Run(names, g, []) == g && IsPossible(names, g, []);
    assert Run(names, d, [BAD]) == g && IsPossible(names, d, [BAD]);
  }
}
