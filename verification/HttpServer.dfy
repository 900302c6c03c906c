/** The server as objects: connections with their buffers, and the service whose containers hold
    them. Each method is tied to the step it takes in Connection and Service. */
module HttpServer {
  import opened Text
  import opened Message
  import opened Connection
  import opened Service

  /** How a call of `read` or `write` on the socket ends: with a byte count, or with one of the
      two exceptions the worker catches. */
  datatype IoResult = Size(n: nat) | TimeOutError | DescriptorError

  class HttpConnection {
    var valid: bool
    var start: nat
    var keepAlive: bool
    var option: set<Opt>
    /** What epoll has been told last and not reported since. */
    var armed: set<Opt>
    var read: string
    var write: string
    ghost var requests: seq<RequestValue>
    ghost var responses: seq<string>
    ghost var sent: string
    ghost var wire: string
    ghost var lost: nat

    ghost function State(): Conn
      reads this
    {
      Conn(valid, start, keepAlive, option, armed, read, write, requests, responses, sent, wire, lost)
    }

    /** A connection that has been accepted and added to epoll. */
    constructor (now: nat)
      ensures State() == Accepted(now)
    {
      valid, start, keepAlive := true, now, false;
      option, armed := {READ, ONESHOT}, {READ, ONESHOT};
      read, write := "", "";
      requests, responses, sent, wire, lost := [], [], "", "", 0;
    }

    method ReadToBuffer(next: Incoming) returns (r: IoResult)
      modifies this`read
      ensures match next {
                case Bytes(data) => r == Size(|data|) && State() == old(State()).(read := old(read) + data)
                case Eof => r == Size(0) && State() == old(State())
                case NoData => r == TimeOutError && State() == old(State())
                case BadRead => r == DescriptorError && State() == old(State())
              }
    {
      match next
      case Bytes(data) => read := read + data; return Size(|data|);
      case Eof => return Size(0);
      case NoData => return TimeOutError;
      case BadRead => return DescriptorError;
    }

    method WriteFromBuffer(next: Outgoing) returns (r: IoResult)
      modifies this`write, this`sent, this`wire
      ensures match next {
                case Taken(count) => r.Size? && State() == Send(old(State()), count)
                case Full => r == TimeOutError && State() == old(State())
                case BadWrite => r == DescriptorError && State() == old(State())
              }
    {
      match next
      case Full => return TimeOutError;
      case BadWrite => return DescriptorError;
      case Taken(count) =>
        var size := if count < |write| then count else |write|;
        sent, wire := sent + write[..size], wire + write[..size];
        write := write[size..];
        return Size(size);
    }

    method SubscribeTo(opts: set<Opt>)
      modifies this`option
      ensures State() == Subscribe(old(State()), opts)
    {
      option := option + opts + {ONESHOT};
    }

    method UnsubscribeFrom(opts: set<Opt>)
      modifies this`option
      ensures State() == Unsubscribe(old(State()), opts)
    {
      option := option - opts + {ONESHOT};
    }

    /** Subscribes and modifies the epoll registration. */
    method RearmFor(opts: set<Opt>)
      modifies this`option, this`armed
      ensures State() == Rearm(old(State()), opts)
    {
      SubscribeTo(opts);
      armed := option;
    }

    /** What the listener does in `OnRequest`: it sets the response. */
    method Respond(r: RequestValue, response: string)
      modifies this`write, this`requests, this`responses, this`sent, this`lost
      ensures State() == old(State()).(requests := old(requests) + [r], responses := old(responses) + [response],
                                       lost := old(lost) + |old(write)|, write := response, sent := "")
    {
      requests, responses, lost, sent := requests + [r], responses + [response], lost + |write|, "";
      write := response;
    }
  }

  class HttpService {
    var connections: seq<HttpConnection>
    /** The iterator each place holds into the list of activity. */
    var iters: seq<nat>
    var closed: seq<nat>
    var timeod: seq<Node>
    var nextId: nat
    const limits: Timeouts

    ghost predicate Valid()
      reads this
    {
      && |iters| == |connections|
      && (forall i, j :: 0 <= i < j < |connections| ==> connections[i] != connections[j])
      && (forall i :: 0 <= i < |closed| ==> closed[i] < |connections|)
      && (forall i :: 0 <= i < |timeod| ==> timeod[i].place < |connections|)
    }

    ghost function Conns(): (r: seq<Conn>)
      reads this, connections
      ensures |r| == |connections| && forall i :: 0 <= i < |r| ==> r[i] == connections[i].State()
    {
      seq(|connections|, i requires 0 <= i < |connections| reads this, connections => connections[i].State())
    }

    ghost function State(now: nat): (t: Table)
      requires Valid()
      reads this, connections
      ensures InRange(t)
    {
      Table(Conns(), iters, closed, timeod, nextId, now)
    }

    constructor (limits: Timeouts)
      ensures Valid() && connections == [] && State(0) == Start() && this.limits == limits
    {
      this.limits := limits;
      connections, iters, closed, timeod, nextId := [], [], [], [], 0;
    }

    method ConnectionsSize() returns (n: int)
      ensures n == |connections| - |closed|
    {
      n := |connections| - |closed|;
    }

    /** `close_client`: only an open socket is queued and closed. */
    method CloseClient(p: nat)
      requires Valid() && p < |connections|
      modifies this`closed, connections[p]
      ensures Valid()
      ensures connections[p].State() == Close(old(connections[p].State()))
      ensures closed == if old(connections[p].valid) then old(closed) + [p] else old(closed)
    {
      var c := connections[p];
      if c.valid {
        closed := closed + [p];
        c.option := {ONESHOT};
        c.armed := {};
        c.valid := false;
      }
    }

    /** Some when `try_read_request` returns true. */
    method ReadRequest(names: set<string>, p: nat, script: seq<Incoming>) returns (request: Option<RequestValue>)
      requires Valid() && p < |connections| && connections[p].valid
      modifies this`closed, connections[p]
      ensures Valid()
      ensures (connections[p].State(), request) == TryReadRequest(names, old(connections[p].State()), script)
      ensures closed == if connections[p].valid then old(closed) else old(closed) + [p]
    {
      hide ParseRequest, IsKeepAlive, Arrived, Stop;
      var c := connections[p];
      var i := 0;
      assert script[0..] == script;
      while true
        invariant 0 <= i <= |script|
        invariant closed == old(closed) && connections == old(connections)
        invariant c.State() == old(c.State()).(read := c.read)
        invariant c.read + Arrived(script[i..]) == old(c.read) + Arrived(script)
        invariant Stop(script[i..]) == Stop(script)
        decreases |script| - i
      {
        var next := if i < |script| then script[i] else NoData;
        NextRead(script, i);
        var r := c.ReadToBuffer(next);
        if r == TimeOutError {
          assert c.State() == old(c.State()).(read := old(c.read) + Arrived(script));
          break;
        }
        if r == Size(0) || r == DescriptorError {
          assert c.read + Arrived(script[i..]) == c.read;
          assert c.State() == old(c.State()).(read := old(c.read) + Arrived(script));
          CloseClient(p);
          return None;
        }
        i := i + 1;
      }
      ghost var before := c.State();
      match ParseRequest(names, c.read)
      case Ok(parsed) =>
        c.keepAlive := IsKeepAlive(parsed.headers);
        assert c.State() == before.(keepAlive := IsKeepAlive(parsed.headers));
        return Some(parsed);
      case Expecting(_) =>
        c.RearmFor({READ});
        return None;
      case _ =>
        CloseClient(p);
        return None;
    }

    method WriteResponce(p: nat, script: seq<Outgoing>) returns (done: bool)
      requires Valid() && p < |connections| && connections[p].valid
      modifies this`closed, connections[p]
      ensures Valid()
      ensures (connections[p].State(), done) == TryWriteResponce(old(connections[p].State()), script)
      ensures closed == if connections[p].valid then old(closed) else old(closed) + [p]
    {
      var c := connections[p];
      var i := 0;
      while true
        invariant 0 <= i <= |script|
        invariant closed == old(closed) && connections == old(connections) && c.valid
        invariant TryWriteResponce(c.State(), script[i..]) == TryWriteResponce(old(c.State()), script)
        decreases |script| - i
      {
        var next := if i < |script| then script[i] else Full;
        assert i < |script| ==> script[i..][1..] == script[i + 1..];
        var r := c.WriteFromBuffer(next);
        if r == TimeOutError {
          return false;
        }
        if r == DescriptorError {
          CloseClient(p);
          return false;
        }
        if c.write == "" {
          return true;
        }
        i := i + 1;
      }
    }

    /** `shift_to_back`. */
    method ShiftToBack(id: nat)
      requires Valid() && HasNode(timeod, id)
      requires iters[timeod[IndexOf(timeod, id)].place] == id
      modifies this`timeod, this`iters
      ensures timeod == MoveToBack(old(timeod), IndexOf(old(timeod), id))
      ensures iters == old(iters) && Valid()
    {
      var i := IndexOf(timeod, id);
      timeod := timeod[..i] + timeod[i + 1..] + [timeod[i]];
      var back := timeod[|timeod| - 1];
      iters := iters[back.place := back.id];
    }

    method AnswerRequest(c: HttpConnection, r: RequestValue, response: string)
      modifies c
      ensures c.State() == Answer(old(c.State()), r, response)
    {
      c.Respond(r, response);
      if c.keepAlive {
        c.read := "";
      } else {
        c.UnsubscribeFrom({READ});
      }
      c.SubscribeTo({WRITE});
    }

    /** The end of the loop body: nothing left to wait for, or another one-shot registration. */
    method FinishEvent(p: nat)
      requires Valid() && p < |connections|
      modifies this`closed, connections[p]
      ensures Valid()
      ensures connections[p].State() == Finish(old(connections[p].State()))
      ensures closed == if old(connections[p].valid) && !connections[p].valid then old(closed) + [p] else old(closed)
    {
      if connections[p].option == {ONESHOT} {
        CloseClient(p);
      } else {
        connections[p].RearmFor({});
      }
    }

    /** The part of an event behind the reset of the activity time. */
    method Serve(names: set<string>, r: Report, now: nat)
      requires Valid() && r.place < |connections|
      requires connections[r.place].valid && connections[r.place].start == now && connections[r.place].armed == {}
      modifies this`closed, connections[r.place]
      ensures Valid()
      ensures connections[r.place].State()
              == Work(names, old(connections[r.place].State()), r.ready, r.incoming, r.outgoing, r.response, now)
      ensures closed == if connections[r.place].valid then old(closed) else old(closed) + [r.place]
    {
      hide TryReadRequest, TryWriteResponce, Answer, Finish;
      var p := r.place;
      var c := connections[p];
      assert c.State() == c.State().(start := now, armed := {});
      if r.ready.input {
        var request := ReadRequest(names, p, r.incoming);
        if request.None? {
          return;
        }
        ReadLeavesValid(names, old(c.State()), r.incoming);
        AnswerLeavesValid(c.State(), request.value, r.response);
        AnswerRequest(c, request.value, r.response);
      } else if r.ready.output {
        var done := WriteResponce(p, r.outgoing);
        if done {
          c.UnsubscribeFrom({WRITE});
        }
      }
      FinishLeavesClosed(c.State());
      FinishEvent(p);
    }

    /** The report has disarmed the connection; its activity time is reset, and it is served. */
    method Process(names: set<string>, r: Report, now: nat)
      requires Valid() && r.place < |connections| && connections[r.place].valid
      requires HasNode(timeod, iters[r.place])
      requires timeod[IndexOf(timeod, iters[r.place])].place == r.place
      modifies this`closed, this`timeod, this`iters, connections[r.place]
      ensures Valid() && iters == old(iters)
      ensures timeod == MoveToBack(old(timeod), IndexOf(old(timeod), old(iters[r.place])))
      ensures connections[r.place].State()
              == Work(names, old(connections[r.place].State()), r.ready, r.incoming, r.outgoing, r.response, now)
      ensures closed == if connections[r.place].valid then old(closed) else old(closed) + [r.place]
    {
      hide Work, MoveToBack, HasNode;
      var c := connections[r.place];
      c.armed := {};
      c.start := now;
      WorkResets(names, old(c.State()), r, now);
      ShiftToBack(iters[r.place]);
      Serve(names, r, now);
    }

    /** Handling of one epoll event by a worker, under the mutex of the place. */
    method HandleEvent(names: set<string>, r: Report, now: nat)
      requires Valid() && TableInv(State(now)) && CanHandle(names, State(now), r)
      modifies this`closed, this`timeod, this`iters, connections[r.place]
      ensures Valid() && connections == old(connections)
      ensures State(now) == Service.HandleEvent(names, old(State(now)), r)
    {
      hide TableInv, Work, CanReport, IsDefined, HasNode, MoveToBack;
      ghost var before := State(now);
      var c := connections[r.place];
      if !c.valid {
        return;
      }
      OwnNode(before, r.place);
      Process(names, r, now);
      assert forall q :: 0 <= q < |connections| && q != r.place ==> connections[q].State() == before.conns[q];
      assert Conns() == before.conns[r.place := c.State()];
    }

    /** A connection accepted at `now`: the first closed place is reused, or a place is added. */
    method EmplaceConnection(now: nat)
      requires Valid() && CanRecycle(State(now))
      modifies this`connections, this`iters, this`closed, this`timeod, this`nextId
      ensures Valid()
      ensures State(now) == Accept(old(State(now)))
    {
      hide HasNode, MoveToBack;
      ghost var before := State(now);
      var c := new HttpConnection(now);
      var reused := TryReplaceClosed(c, now);
      if reused {
        return;
      }
      timeod := timeod + [Node(nextId, |connections|)];
      connections := connections + [c];
      iters := iters + [nextId];
      nextId := nextId + 1;
      assert Conns() == before.conns + [Accepted(now)];
    }

    method TryReplaceClosed(c: HttpConnection, now: nat) returns (reused: bool)
      requires Valid() && CanRecycle(State(now))
      requires c !in connections && c.State() == Accepted(now)
      modifies this`connections, this`iters, this`closed, this`timeod, this`nextId
      ensures reused <==> old(closed) != []
      ensures Valid()
      ensures if reused then State(now) == Accept(old(State(now)))
              else connections == old(connections) && iters == old(iters) && closed == old(closed)
                   && timeod == old(timeod) && nextId == old(nextId)
    {
      hide HasNode;
      ghost var before := State(now);
      if closed == [] {
        return false;
      }
      var p := closed[0];
      connections := connections[p := c];
      assert Conns() == before.conns[p := Accepted(now)];
      closed := closed[1..];
      if timeod != [] {
        var i := IndexOf(timeod, iters[p]);
        timeod := MoveToBack(timeod, i);
      } else {
        timeod := [Node(nextId, p)];
        iters := iters[p := nextId];
        nextId := nextId + 1;
      }
      return true;
    }

    method CloseIfTimedOut(p: nat, now: nat) returns (gone: bool)
      requires Valid() && p < |connections|
      modifies this`closed, connections[p]
      ensures Valid()
      ensures gone <==> IsTimedOut(old(connections[p].State()), limits, now)
      ensures connections[p].State() == if gone then Close(old(connections[p].State())) else old(connections[p].State())
      ensures closed == if gone then old(closed) + [p] else old(closed)
    {
      var c := connections[p];
      var timeo := if c.keepAlive then limits.keepAlive else limits.conn;
      if c.valid && now > c.start + timeo {
        CloseClient(p);
        return true;
      }
      return false;
    }

    /** One round of the sweep. */
    method PopIfTimedOut(now: nat) returns (gone: bool)
      requires Valid() && timeod != []
      modifies this`closed, this`timeod, connections
      ensures Valid() && connections == old(connections)
      ensures gone <==> FrontIsTimedOut(old(State(now)), limits)
      ensures State(now) == if gone then CloseFront(old(State(now))) else old(State(now))
      ensures |timeod| == |old(timeod)| - if gone then 1 else 0
    {
      ghost var before := State(now);
      var p := timeod[0].place;
      gone := CloseIfTimedOut(p, now);
      if gone {
        timeod := timeod[1..];
      }
      assert forall q :: 0 <= q < |connections| && q != p ==> connections[q].State() == before.conns[q];
      assert Conns() == if gone then before.conns[p := Close(before.conns[p])] else before.conns;
    }

    /** Closes the front of the list while it is timed out, and pops it. */
    method DumpTimedOutConnections(now: nat)
      requires Valid()
      modifies this`closed, this`timeod, connections
      ensures Valid() && connections == old(connections)
      ensures State(now) == Dump(old(State(now)), limits)
    {
      hide Dump, CloseFront, FrontIsTimedOut;
      while timeod != []
        invariant Valid() && connections == old(connections)
        invariant Dump(State(now), limits) == Dump(old(State(now)), limits)
        decreases |timeod|
      {
        DumpStep(State(now), limits);
        var gone := PopIfTimedOut(now);
        if !gone {
          return;
        }
      }
      EmptyListIsDone(State(now), limits);
    }
  }

  lemma AnswerLeavesValid(c: Conn, r: RequestValue, response: string)
    ensures Answer(c, r, response).valid == c.valid
  {
  }

  /** Only the first close of an event counts. */
  lemma FinishLeavesClosed(c: Conn)
    ensures !c.valid ==> !Finish(c).valid
  {
  }

  lemma ReadLeavesValid(names: set<string>, c: Conn, script: seq<Incoming>)
    ensures TryReadRequest(names, c, script).1.Some? ==> TryReadRequest(names, c, script).0.valid == c.valid
  {
    hide ParseRequest, IsKeepAlive;
  }

  lemma WorkResets(names: set<string>, c: Conn, r: Report, now: nat)
    requires c.valid
    ensures Work(names, c.(start := now, armed := {}), r.ready, r.incoming, r.outgoing, r.response, now)
            == Work(names, c, r.ready, r.incoming, r.outgoing, r.response, now)
  {
    hide TryReadRequest, TryWriteResponce, Finish, Answer;
  }
}
