/** The clients as objects. `SocketClient` stands for the abstract base
    class and both of its subclasses, told apart by `protocol`: its
    `socket` attribute is updated in place by `connect`, and each socket
    call it makes is recorded in a ghost trace. The network is a parameter
    of every call: whether the call raises `socket.error`, and what the
    server answers. */
module Clients {
  import opened Wrappers
  import opened Transport

  class SocketClient {
    const protocol: Protocol
    const host: string
    const port: int
    /** `self.socket`. */
    var socket: Option<SocketId>
    /** How many sockets the client has created; the next one gets this id. */
    var created: nat
    /** Every socket call the client has made, in order. */
    ghost var trace: seq<Event>

    function State(): Conn
      reads this
    {
      Conn(socket, created)
    }

    /** What holds between messages. A TCP client has closed every socket it
        created and never held two at once. A UDP client holds at most one
        socket, the first it created, and has only sent and received on it. */
    ghost predicate Valid()
      reads this
    {
      (socket.Some? ==> socket.value < created) &&
      match protocol
      case TCP => Live(trace) == {} && AtMostOneOpen(trace)
      case UDP =>
        if socket.None? then trace == []
        else |trace| > 0 && trace[0] == Open(socket.value) && OnlyTraffic(trace[1..], socket.value)
    }

    /** `SocketClient.__init__`: no socket yet. */
    constructor (protocol: Protocol, host: string, port: int)
      ensures this.protocol == protocol && this.host == host && this.port == port
      ensures socket == None && created == 0 && trace == []
      ensures Valid()
    {
      this.protocol := protocol;
      this.host := host;
      this.port := port;
      socket := None;
      created := 0;
      trace := [];
    }

    /** `UDPClient.connect`: create the datagram socket. When creating it
        raises, the program exits; `ok == false` reports that. */
    method UdpConnect(fails: bool) returns (ok: bool)
      modifies this
      ensures ok == !fails
      ensures ok ==> socket == Some(old(created)) && created == old(created) + 1 &&
                     trace == old(trace) + [Open(old(created))]
      ensures !ok ==> socket == old(socket) && created == old(created) && trace == old(trace)
    {
      if fails {
        return false;
      }
      socket := Some(created);
      trace := trace + [Open(created)];
      created := created + 1;
      ok := true;
    }

    /** `TCPClient.connect`: create a stream socket, store it, connect it.
        `fault` says which of the two calls raises, if either does. */
    method TcpConnect(fault: Option<Stage>) returns (raised: Option<Stage>)
      modifies this
      ensures fault == Some(AtCreate) ==>
                raised == fault && socket == old(socket) && created == old(created) && trace == old(trace)
      ensures fault != Some(AtCreate) ==>
                socket == Some(old(created)) && created == old(created) + 1 &&
                trace == old(trace) + [Open(old(created)), Connect(old(created))] &&
                raised == (if fault == Some(AtConnect) then fault else None)
    {
      if fault == Some(AtCreate) {
        return fault;
      }
      var s := created;
      socket := Some(s);
      created := created + 1;
      trace := trace + [Open(s), Connect(s)];
      raised := if fault == Some(AtConnect) then fault else None;
    }

    /** `send_message`: send on the socket if there is one. */
    method SendMessage(msg: string, fails: bool) returns (raised: bool)
      modifies this`trace
      ensures socket.Some? ==> trace == old(trace) + [Send(socket.value, msg)] && raised == fails
      ensures socket.None? ==> trace == old(trace) && !raised
    {
      raised := false;
      if socket.Some? {
        trace := trace + [Send(socket.value, msg)];
        raised := fails;
      }
    }

    /** `receive_message`: the server's answer, or the empty text without a
        socket. */
    method ReceiveMessage(reply: string, fails: bool) returns (text: string, raised: bool)
      modifies this`trace
      ensures socket.Some? ==> trace == old(trace) + [Recv(socket.value)] && raised == fails && (!raised ==> text == reply)
      ensures socket.None? ==> trace == old(trace) && !raised && text == ""
    {
      text, raised := "", false;
      if socket.Some? {
        trace := trace + [Recv(socket.value)];
        if fails {
          raised := true;
        } else {
          text := reply;
        }
      }
    }

    /** `close`: close the socket if there is one. The attribute keeps the
        closed socket. */
    method Close()
      modifies this`trace
      ensures trace == old(trace) + if socket.Some? then [Event.Close(socket.value)] else []
    {
      if socket.Some? {
        trace := trace + [Event.Close(socket.value)];
      }
    }

    /** Send a message and read the answer, then report how that went: the
        body both `_handle_message` methods share. */
    method Converse(msg: string, f: Fate) returns (outcome: Outcome)
      modifies this`trace
      ensures socket.Some? ==>
                var calls := if f.fault == Some(AtSend) then [Send(socket.value, msg)] else [Send(socket.value, msg), Recv(socket.value)];
                trace == old(trace) + calls &&
                outcome == (if f.fault == Some(AtSend) then Failed(AtSend)
                            else if f.fault == Some(AtRecv) then Failed(AtRecv) else Answered(f.reply))
      ensures socket.None? ==> trace == old(trace) && outcome == Answered("")
    {
      var sendRaised := SendMessage(msg, f.fault == Some(AtSend));
      if sendRaised {
        return Failed(AtSend);
      }
      var text, recvRaised := ReceiveMessage(f.reply, f.fault == Some(AtRecv));
      outcome := if recvRaised then Failed(AtRecv) else Answered(text);
    }

    /** `TCPClient._handle_message`: connect a new socket, send, receive,
        and in the `finally` close the socket whatever happened. */
    method TcpHandleMessage(msg: string, f: Fate) returns (outcome: Outcome)
      requires protocol == TCP && Valid()
      modifies this
      ensures Valid()
      ensures var st := TcpExchange(old(State()), msg, f);
              State() == st.conn && trace == old(trace) + st.events && outcome == st.outcome
    {
      ghost var t0 := trace;
      var raised := TcpConnect(f.fault);
      if raised.None? {
        outcome := Converse(msg, f);
      } else {
        outcome := Failed(raised.value);
      }
      Close();
      ghost var st := TcpExchange(old(State()), msg, f);
      assert trace == t0 + st.events;
      TcpExchangeReleases(old(State()), msg, f);
      AppendReleased(t0, st.events);
    }

    /** `UDPClient._handle_message`: send and receive on the socket created
        with the client. */
    method UdpHandleMessage(msg: string, f: Fate) returns (outcome: Outcome)
      requires protocol == UDP && Valid()
      modifies this
      ensures Valid()
      ensures var st := UdpExchange(old(State()), msg, f);
              State() == st.conn && trace == old(trace) + st.events && outcome == st.outcome
    {
      ghost var t0 := trace;
      outcome := Converse(msg, f);
      if socket.Some? {
        assert trace[1..] == t0[1..] + trace[|t0|..];
      }
    }

    /** `self._handle_message(msg)`, dispatched on the client's class. */
    method HandleMessage(msg: string, f: Fate) returns (outcome: Outcome)
      requires Valid()
      modifies this
      ensures Valid()
      ensures var st := Exchange(protocol, old(State()), msg, f);
              State() == st.conn && trace == old(trace) + st.events && outcome == st.outcome
    {
      if protocol == TCP {
        outcome := TcpHandleMessage(msg, f);
      } else {
        outcome := UdpHandleMessage(msg, f);
      }
    }

    /** `_message_loop`: read a line, handle it, stop after an exit command
        or on `socket.error`; the lines are `turns[i].line` in order, and a
        loop that runs out of lines stops as `input()` does at end of file. */
    method MessageLoop(turns: seq<Turn>) returns (end: LoopEnd, handled: nat)
      requires Valid()
      modifies this
      ensures Valid()
      ensures var r := Session(protocol, old(State()), turns);
              State() == r.conn && trace == old(trace) + r.events && end == r.end && handled == r.handled
    {
      ghost var c0 := State();
      ghost var t0 := trace;
      ghost var done: seq<Event> := [];
      var i := 0;
      while true
        invariant 0 <= i <= |turns|
        invariant Valid()
        invariant trace == t0 + done
        invariant Session(protocol, c0, turns) == Resume(done, i, Session(protocol, State(), turns[i..]))
        decreases |turns| - i
      {
        if i == |turns| {
          LoopEndOfInput(protocol, c0, turns, done, State());
          return InputEnded, i;
        }
        LoopStep(protocol, c0, turns, done, i, State());
        ghost var st := Exchange(protocol, State(), turns[i].line, turns[i].fate);
        var outcome := HandleMessage(turns[i].line, turns[i].fate);
        AppendAssoc(t0, done, st.events);
        done := done + st.events;
        if outcome.Failed? {
          return SocketError(outcome.stage), i + 1;
        }
        if IsExitCommand(turns[i].line) {
          return Quit, i + 1;
        }
        i := i + 1;
      }
    }
  }

  /** `ClientFactory.create_client` with the constructor it calls. A UDP
      client creates its socket in its constructor; when that raises, the
      program exits, and no client is returned. */
  method CreateClient(protocol: Protocol, host: string, port: int, udpSocketFails: bool) returns (client: Option<SocketClient>)
    ensures client.None? <==> protocol == UDP && udpSocketFails
    ensures client.Some? ==> fresh(client.value) && client.value.Valid() &&
                             client.value.protocol == protocol && client.value.host == host && client.value.port == port
    ensures client.Some? && protocol == TCP ==> client.value.socket == None && client.value.trace == []
    ensures client.Some? && protocol == UDP ==> client.value.socket == Some(0) && client.value.trace == [Open(0)]
  {
    var c := new SocketClient(protocol, host, port);
    if protocol == UDP {
      var ok := c.UdpConnect(udpSocketFails);
      if !ok {
        return None;
      }
    }
    client := Some(c);
  }
}
