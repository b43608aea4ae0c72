/** What one client session does on the network, as values: the socket calls
    it makes (a trace of events), the socket it holds between messages, and
    why its message loop stops. The network is a parameter: for each message
    a `Fate` says which socket call, if any, raises `socket.error`, and what
    the server answers otherwise. */
module Transport {
  import opened Wrappers
  import opened PyText

  datatype Protocol = TCP | UDP

  /** Sockets are told apart by the order in which the client created them. */
  type SocketId = nat

  /** A call the client makes on one of its sockets. `Open` is the creation
      of the socket; the other calls are made on an existing one. */
  datatype Event =
    | Open(sock: SocketId)
    | Connect(sock: SocketId)
    | Send(sock: SocketId, msg: string)
    | Recv(sock: SocketId)
    | Close(sock: SocketId)

  /** The socket calls that can raise `socket.error`. */
  datatype Stage = AtCreate | AtConnect | AtSend | AtRecv

  /** What the network does to one message: the call that raises, if any,
      and the text the server answers when none does. */
  datatype Fate = Fate(fault: Option<Stage>, reply: string)

  /** One line typed at the prompt, and what the network does with it. */
  datatype Turn = Turn(line: string, fate: Fate)

  /** The client's `socket` attribute, and how many sockets it has created. */
  datatype Conn = Conn(socket: Option<SocketId>, created: nat)

  /** How `_handle_message` returns: with the server's answer, or by raising
      `socket.error` from the call at `stage`. */
  datatype Outcome = Answered(text: string) | Failed(stage: Stage)

  datatype Step = Step(conn: Conn, events: seq<Event>, outcome: Outcome)

  /** `msg.lower() in ['exit', 'quit']`: the line is `exit` or `quit` in
      any ASCII case, and nothing else. */
  predicate IsExitCommand(msg: string): (b: bool)
    ensures b <==> SameIgnoringCase(msg, "exit") || SameIgnoringCase(msg, "quit")
  {
    LowerMatchesIgnoringCase(msg, "exit");
    LowerMatchesIgnoringCase(msg, "quit");
    Lower(msg) == "exit" || Lower(msg) == "quit"
  }

  // ---------------------------------------------------------------------
  // One message
  // ---------------------------------------------------------------------

  /** The calls `TCPClient._handle_message` makes on a new socket `s`:
      create it, connect it, send the message, receive the answer. */
  function TcpCalls(s: SocketId, msg: string): seq<Event>
  {
    [Open(s), Connect(s), Send(s, msg), Recv(s)]
  }

  /** How many of those calls are made once the socket exists: the calls up
      to and including the one that raises. */
  function CallsMade(fault: Option<Stage>): nat
  {
    match fault
    case Some(AtConnect) => 2
    case Some(AtSend) => 3
    case _ => 4
  }

  function OutcomeOf(fate: Fate): Outcome
  {
    if fate.fault.Some? then Failed(fate.fault.value) else Answered(fate.reply)
  }

  /** `TCPClient._handle_message`: a new socket per message, closed in the
      `finally` whatever happens. When creating the socket raises, the
      attribute still holds the previous (already closed) socket, and that
      one is closed again. */
  function TcpExchange(c: Conn, msg: string, f: Fate): (st: Step)
    ensures st.outcome.Answered? <==> f.fault.None?
    ensures st.outcome.Answered? ==> st.outcome.text == f.reply
    ensures st.outcome.Failed? ==> f.fault == Some(st.outcome.stage)
    ensures f.fault != Some(AtCreate) ==>
              st.conn == Conn(Some(c.created), c.created + 1) && |st.events| > 1 &&
              st.events[0] == Open(c.created) && st.events[|st.events| - 1] == Close(c.created)
    ensures f.fault == Some(AtCreate) ==>
              st.conn == c && st.events == (if c.socket.Some? then [Close(c.socket.value)] else [])
  {
    if f.fault == Some(AtCreate) then
      Step(c, if c.socket.Some? then [Close(c.socket.value)] else [], Failed(AtCreate))
    else
      var s := c.created;
      Step(Conn(Some(s), c.created + 1), TcpCalls(s, msg)[..CallsMade(f.fault)] + [Close(s)], OutcomeOf(f))
  }

  /** `UDPClient._handle_message`: send and receive on the socket created
      with the client, which stays open. Without a socket, `send_message`
      does nothing and `receive_message` returns the empty text. Creating
      and connecting are not part of a UDP exchange, so a fault at those
      stages cannot happen here. */
  function UdpExchange(c: Conn, msg: string, f: Fate): (st: Step)
    ensures st.conn == c
    ensures st.outcome.Failed? <==> c.socket.Some? && (f.fault == Some(AtSend) || f.fault == Some(AtRecv))
    ensures st.outcome.Failed? ==> f.fault == Some(st.outcome.stage)
    ensures st.outcome.Answered? && c.socket.Some? ==> st.outcome.text == f.reply
    ensures c.socket.None? ==> st.outcome == Answered("") && st.events == []
    ensures forall e :: e in st.events ==> (e.Send? || e.Recv?) && Some(e.sock) == c.socket
  {
    match c.socket
    case None => Step(c, [], Answered(""))
    case Some(u) =>
      if f.fault == Some(AtSend) then Step(c, [Send(u, msg)], Failed(AtSend))
      else if f.fault == Some(AtRecv) then Step(c, [Send(u, msg), Recv(u)], Failed(AtRecv))
      else Step(c, [Send(u, msg), Recv(u)], Answered(f.reply))
  }

  /** `self._handle_message(msg)`, dispatched on the client's class. */
  function Exchange(p: Protocol, c: Conn, msg: string, f: Fate): (st: Step)
    ensures st.outcome.Failed? ==> f.fault == Some(st.outcome.stage)
    ensures st.outcome.Answered? && (p == TCP || c.socket.Some?) ==> st.outcome.text == f.reply
    ensures p == UDP ==> st.conn == c
  {
    match p
    case TCP => TcpExchange(c, msg, f)
    case UDP => UdpExchange(c, msg, f)
  }

  /** Whether the message's exchange raises: for TCP any fault does, for a
      UDP client only a fault while sending or receiving. */
  predicate Faulty(p: Protocol, f: Fate)
  {
    match p
    case TCP => f.fault.Some?
    case UDP => f.fault == Some(AtSend) || f.fault == Some(AtRecv)
  }

  /** A client that has the sockets it needs: any TCP client, and a UDP
      client whose socket was created. */
  predicate Ready(p: Protocol, c: Conn)
  {
    p == TCP || c.socket.Some?
  }

  /** For a ready client the exchange raises exactly on a faulty fate, and
      the client stays ready. */
  lemma ExchangeFailsIffFaulty(p: Protocol, c: Conn, msg: string, f: Fate)
    requires Ready(p, c)
    ensures Exchange(p, c, msg, f).outcome.Failed? <==> Faulty(p, f)
    ensures Ready(p, Exchange(p, c, msg, f).conn)
  {
  }

  // ---------------------------------------------------------------------
  // The message loop
  // ---------------------------------------------------------------------

  /** Why `_message_loop` stops: an exit command was handled, a socket call
      raised `socket.error`, or there were no more lines to read (`input()`
      raises `EOFError`, which the loop does not catch). */
  datatype LoopEnd = Quit | SocketError(stage: Stage) | InputEnded

  /** A whole loop: the client's socket state afterwards, the socket calls
      made, why the loop stopped, and how many lines it handled. */
  datatype Run = Run(conn: Conn, events: seq<Event>, end: LoopEnd, handled: nat)

  /** `SocketClient._message_loop` on the lines `turns`: each line is
      handled (sent, even an exit command) before the exit test; a
      `socket.error` ends the loop, so does an exit command. */
  function Session(p: Protocol, c: Conn, turns: seq<Turn>): (r: Run)
    ensures r.handled <= |turns|
    ensures r.end == InputEnded ==> r.handled == |turns|
    ensures r.end != InputEnded ==> r.handled > 0
    decreases |turns|
  {
    if |turns| == 0 then Run(c, [], InputEnded, 0)
    else
      var st := Exchange(p, c, turns[0].line, turns[0].fate);
      if st.outcome.Failed? then Run(st.conn, st.events, SocketError(st.outcome.stage), 1)
      else if IsExitCommand(turns[0].line) then Run(st.conn, st.events, Quit, 1)
      else
        var rest := Session(p, st.conn, turns[1..]);
        Run(rest.conn, st.events + rest.events, rest.end, rest.handled + 1)
  }

  /** The rest of a session that has already made the calls `done` and
      handled `i` lines. */
  function Resume(done: seq<Event>, i: nat, rest: Run): (r: Run)
    ensures r.conn == rest.conn && r.end == rest.end
  {
    Run(rest.conn, done + rest.events, rest.end, i + rest.handled)
  }

  /** The session on the lines from `i` on, one line handled: the first
      exchange, then either the end of the loop or the session on the lines
      after it. */
  lemma SessionStep(p: Protocol, c: Conn, turns: seq<Turn>, i: nat)
    requires i < |turns|
    ensures var st := Exchange(p, c, turns[i].line, turns[i].fate);
            Session(p, c, turns[i..]) ==
              if st.outcome.Failed? then Run(st.conn, st.events, SocketError(st.outcome.stage), 1)
              else if IsExitCommand(turns[i].line) then Run(st.conn, st.events, Quit, 1)
              else Resume(st.events, 1, Session(p, st.conn, turns[i + 1..]))
  {
    assert turns[i..][0] == turns[i];
    assert turns[i..][1..] == turns[i + 1..];
  }

  /** One turn of the message loop, as the loop's invariant sees it: the
      whole session is what has been done, then the session on the lines
      not yet read. After handling line `i` either the loop stops, with the
      whole session's result, or the invariant holds for line `i + 1`. */
  lemma LoopStep(p: Protocol, c0: Conn, turns: seq<Turn>, done: seq<Event>, i: nat, c: Conn)
    requires i < |turns|
    requires Session(p, c0, turns) == Resume(done, i, Session(p, c, turns[i..]))
    ensures var st := Exchange(p, c, turns[i].line, turns[i].fate);
            var whole := Session(p, c0, turns);
            (st.outcome.Failed? ==> whole == Run(st.conn, done + st.events, SocketError(st.outcome.stage), i + 1)) &&
            (!st.outcome.Failed? && IsExitCommand(turns[i].line) ==> whole == Run(st.conn, done + st.events, Quit, i + 1)) &&
            (!st.outcome.Failed? && !IsExitCommand(turns[i].line) ==>
               whole == Resume(done + st.events, i + 1, Session(p, st.conn, turns[i + 1..])))
  {
    SessionStep(p, c, turns, i);
    var st := Exchange(p, c, turns[i].line, turns[i].fate);
    var rest := Session(p, st.conn, turns[i + 1..]);
    AppendAssoc(done, st.events, rest.events);
  }

  /** The loop stops when the lines run out. */
  lemma LoopEndOfInput(p: Protocol, c0: Conn, turns: seq<Turn>, done: seq<Event>, c: Conn)
    requires Session(p, c0, turns) == Resume(done, |turns|, Session(p, c, turns[|turns|..]))
    ensures Session(p, c0, turns) == Run(c, done, InputEnded, |turns|)
  {
    assert turns[|turns|..] == [];
    assert done + [] == done;
  }

  lemma AppendAssoc(a: seq<Event>, b: seq<Event>, c: seq<Event>)
    ensures a + b + c == a + (b + c)
  {
  }

  /** Whether the loop stops after handling this line. */
  predicate Stops(p: Protocol, t: Turn)
  {
    Faulty(p, t.fate) || IsExitCommand(t.line)
  }

  /** The index of the first line after which the loop stops, or `|turns|`:
      a reference for where a ready client's loop ends. */
  function StopIndex(p: Protocol, turns: seq<Turn>): (k: nat)
    ensures k <= |turns|
    ensures forall j :: 0 <= j < k ==> !Stops(p, turns[j])
    ensures k < |turns| ==> Stops(p, turns[k])
    decreases |turns|
  {
    if |turns| == 0 then 0
    else if Stops(p, turns[0]) then 0
    else 1 + StopIndex(p, turns[1..])
  }

  /** The loop of a ready client handles every line up to and including
      the first exit command or the first line whose exchange raises, and
      stops there for that reason; with neither, it handles every line and
      stops when the input ends. */
  lemma {:induction false} SessionStopsAtFirstStop(p: Protocol, c: Conn, turns: seq<Turn>)
    requires Ready(p, c)
    ensures var r := Session(p, c, turns);
            var k := StopIndex(p, turns);
            (k == |turns| ==> r.end == InputEnded && r.handled == |turns|) &&
            (k < |turns| ==> r.handled == k + 1 &&
                             r.end == (if Faulty(p, turns[k].fate) then SocketError(turns[k].fate.fault.value) else Quit))
    decreases |turns|
  {
    if |turns| > 0 {
      var st := Exchange(p, c, turns[0].line, turns[0].fate);
      ExchangeFailsIffFaulty(p, c, turns[0].line, turns[0].fate);
      if !Stops(p, turns[0]) {
        SessionStopsAtFirstStop(p, st.conn, turns[1..]);
      }
    }
  }

  /** Lines after the one that stops the loop are never read: the session
      is the same whatever follows. */
  lemma {:induction false} LinesAfterStopIgnored(p: Protocol, c: Conn, turns: seq<Turn>, more: seq<Turn>)
    requires Session(p, c, turns).end != InputEnded
    ensures Session(p, c, turns + more) == Session(p, c, turns)
    decreases |turns|
  {
    var st := Exchange(p, c, turns[0].line, turns[0].fate);
    assert (turns + more)[0] == turns[0];
    if !st.outcome.Failed? && !IsExitCommand(turns[0].line) {
      assert (turns + more)[1..] == turns[1..] + more;
      LinesAfterStopIgnored(p, st.conn, turns[1..], more);
    }
  }

  // ---------------------------------------------------------------------
  // What is sent
  // ---------------------------------------------------------------------

  /** The messages handed to send calls, in order. */
  function Sent(events: seq<Event>): seq<string>
    decreases |events|
  {
    if |events| == 0 then []
    else (if events[0].Send? then [events[0].msg] else []) + Sent(events[1..])
  }

  lemma {:induction false} SentConcat(a: seq<Event>, b: seq<Event>)
    ensures Sent(a + b) == Sent(a) + Sent(b)
    decreases |a|
  {
    if |a| == 0 {
      assert a + b == b;
    } else {
      assert (a + b)[0] == a[0];
      assert (a + b)[1..] == a[1..] + b;
      SentConcat(a[1..], b);
    }
  }

  /** The typed lines of some turns. */
  function Lines(turns: seq<Turn>): (lines: seq<string>)
    ensures |lines| == |turns| && forall i :: 0 <= i < |turns| ==> lines[i] == turns[i].line
  {
    seq(|turns|, i requires 0 <= i < |turns| => turns[i].line)
  }

  /** Whether the message was handed to a send call before the exchange
      stopped: unless creating or connecting the socket raised. */
  predicate SendReached(st: Step)
  {
    !(st.outcome.Failed? && (st.outcome.stage == AtCreate || st.outcome.stage == AtConnect))
  }

  lemma SentOne(e: Event)
    ensures Sent([e]) == if e.Send? then [e.msg] else []
  {
    assert [e][1..] == [];
  }

  /** The first `n` calls of a TCP exchange send the message once they
      reach the send call. */
  lemma {:induction false} SentOfTcpCalls(s: SocketId, msg: string, n: nat)
    requires n <= 4
    ensures Sent(TcpCalls(s, msg)[..n]) == if n >= 3 then [msg] else []
  {
    var calls := TcpCalls(s, msg);
    if n > 0 {
      assert calls[..n] == calls[..n - 1] + [calls[n - 1]];
      SentOfTcpCalls(s, msg, n - 1);
      SentConcat(calls[..n - 1], [calls[n - 1]]);
      SentOne(calls[n - 1]);
    }
  }

  /** A ready client's exchange sends its message once, unless creating or
      connecting the socket raised, and sends nothing else. */
  lemma ExchangeSends(p: Protocol, c: Conn, msg: string, f: Fate)
    requires Ready(p, c)
    ensures var st := Exchange(p, c, msg, f);
            Sent(st.events) == if SendReached(st) then [msg] else []
  {
    var st := Exchange(p, c, msg, f);
    if p == TCP {
      if f.fault != Some(AtCreate) {
        var s := c.created;
        var n := CallsMade(f.fault);
        SentConcat(TcpCalls(s, msg)[..n], [Close(s)]);
        SentOfTcpCalls(s, msg, n);
        SentOne(Close(s));
      } else if c.socket.Some? {
        SentOne(Close(c.socket.value));
      }
    } else {
      var u := c.socket.value;
      SentOne(Send(u, msg));
      if f.fault != Some(AtSend) {
        assert st.events == [Send(u, msg)] + [Recv(u)];
        SentConcat([Send(u, msg)], [Recv(u)]);
        SentOne(Recv(u));
      }
    }
  }

  lemma LinesCons(turns: seq<Turn>, n: nat)
    requires n < |turns|
    ensures Lines(turns[..n + 1]) == [turns[0].line] + Lines(turns[1..][..n])
  {
    assert turns[1..][..n] == turns[1..n + 1];
  }

  /** How many of the handled lines reached a send call: all of them,
      except a last one whose socket could not be created or connected. */
  function Delivered(r: Run): nat
  {
    if (r.end == SocketError(AtCreate) || r.end == SocketError(AtConnect)) && r.handled > 0
    then r.handled - 1 else r.handled
  }

  /** The calls of run `r` send exactly the lines it delivered, in order. */
  predicate SentDelivered(r: Run, turns: seq<Turn>)
  {
    Delivered(r) <= r.handled <= |turns| && Sent(r.events) == Lines(turns[..Delivered(r)])
  }

  /** A ready client's loop sends every line it handled, exit commands
      included, in order; only a last line whose socket could not be
      created or connected is left unsent. */
  lemma {:induction false} SessionSendsHandledLines(p: Protocol, c: Conn, turns: seq<Turn>)
    requires Ready(p, c)
    ensures SentDelivered(Session(p, c, turns), turns)
    decreases |turns|
  {
    if |turns| > 0 {
      var st := Exchange(p, c, turns[0].line, turns[0].fate);
      ExchangeSends(p, c, turns[0].line, turns[0].fate);
      ExchangeFailsIffFaulty(p, c, turns[0].line, turns[0].fate);
      if st.outcome.Failed? || IsExitCommand(turns[0].line) {
        assert Lines(turns[..1]) == [turns[0].line];
        assert Lines(turns[..0]) == [];
      } else {
        SessionSendsHandledLines(p, st.conn, turns[1..]);
        SendsAfterFirstLine(p, c, turns);
      }
    }
  }

  /** The inductive step: a first line that does not stop the loop is sent,
      then the rest of the session's lines. */
  lemma {:induction false} SendsAfterFirstLine(p: Protocol, c: Conn, turns: seq<Turn>)
    requires |turns| > 0 && Ready(p, c)
    requires var st := Exchange(p, c, turns[0].line, turns[0].fate);
             !st.outcome.Failed? && !IsExitCommand(turns[0].line) &&
             SentDelivered(Session(p, st.conn, turns[1..]), turns[1..])
    ensures SentDelivered(Session(p, c, turns), turns)
  {
    var st := Exchange(p, c, turns[0].line, turns[0].fate);
    var rest := Session(p, st.conn, turns[1..]);
    var r := Session(p, c, turns);
    assert r == Run(rest.conn, st.events + rest.events, rest.end, rest.handled + 1);
    DeliveredStep(rest, r);
    ExchangeSends(p, c, turns[0].line, turns[0].fate);
    assert Sent(st.events) == [turns[0].line];
    SentConcat(st.events, rest.events);
    LinesCons(turns, Delivered(rest));
  }

  /** One more handled line in front of a run that ends the same way is
      one more delivered line. */
  lemma DeliveredStep(rest: Run, r: Run)
    requires rest.end != InputEnded ==> rest.handled > 0
    requires r.end == rest.end && r.handled == rest.handled + 1
    ensures Delivered(r) == Delivered(rest) + 1
  {
  }

  // ---------------------------------------------------------------------
  // Sockets held
  // ---------------------------------------------------------------------

  function Apply(live: set<SocketId>, e: Event): set<SocketId>
  {
    match e
    case Open(s) => live + {s}
    case Close(s) => live - {s}
    case _ => live
  }

  /** The sockets open after `events`, starting from `live`. */
  function LiveAfter(live: set<SocketId>, events: seq<Event>): set<SocketId>
    decreases |events|
  {
    if |events| == 0 then live else LiveAfter(Apply(live, events[0]), events[1..])
  }

  /** The sockets created and not yet closed after `events`. */
  function Live(events: seq<Event>): set<SocketId>
  {
    LiveAfter({}, events)
  }

  /** At no point of `events` are two sockets open at once. */
  ghost predicate AtMostOneOpen(events: seq<Event>)
  {
    forall k, a, b :: 0 <= k <= |events| && a in Live(events[..k]) && b in Live(events[..k]) ==> a == b
  }

  lemma {:induction false} LiveAfterConcat(live: set<SocketId>, a: seq<Event>, b: seq<Event>)
    ensures LiveAfter(live, a + b) == LiveAfter(LiveAfter(live, a), b)
    decreases |a|
  {
    if |a| == 0 {
      assert a + b == b;
    } else {
      assert (a + b)[0] == a[0];
      assert (a + b)[1..] == a[1..] + b;
      LiveAfterConcat(Apply(live, a[0]), a[1..], b);
    }
  }

  lemma LiveAfterSingle(live: set<SocketId>, e: Event)
    ensures LiveAfter(live, [e]) == Apply(live, e)
  {
    assert [e][1..] == [];
  }

  /** Calls on one socket `s` can open no socket but `s`. */
  lemma {:induction false} LiveAfterOneSocket(live: set<SocketId>, events: seq<Event>, s: SocketId)
    requires forall i :: 0 <= i < |events| ==> events[i].sock == s
    ensures LiveAfter(live, events) <= live + {s}
    decreases |events|
  {
    if |events| > 0 {
      LiveAfterOneSocket(Apply(live, events[0]), events[1..], s);
    }
  }

  /** A TCP exchange leaves no socket open, and holds at most one at a
      time, starting from none. */
  lemma TcpExchangeReleases(c: Conn, msg: string, f: Fate)
    ensures var ev := TcpExchange(c, msg, f).events;
            Live(ev) == {} && AtMostOneOpen(ev)
  {
    var ev := TcpExchange(c, msg, f).events;
    if f.fault == Some(AtCreate) {
      if c.socket.Some? {
        var o := c.socket.value;
        LiveAfterSingle({}, Close(o));
        assert Apply({}, Close(o)) == {};
        forall k | 0 <= k <= |ev| ensures Live(ev[..k]) == {} {
          if k == 1 { assert ev[..k] == [Close(o)]; }
        }
      }
    } else {
      var s := c.created;
      var n := CallsMade(f.fault);
      var calls := TcpCalls(s, msg);
      assert forall i :: 0 <= i < n ==> ev[i] == calls[i];
      assert ev[n] == Close(s);
      forall k | 0 <= k <= |ev| ensures Live(ev[..k]) <= {s} {
        LiveAfterOneSocket({}, ev[..k], s);
      }
      LiveAfterConcat({}, calls[..n], [Close(s)]);
      LiveAfterOneSocket({}, calls[..n], s);
      assert [Close(s)][1..] == [];
    }
  }

  /** Appending a trace that releases everything it opens to one that does
      keeps both properties. */
  lemma AppendReleased(a: seq<Event>, b: seq<Event>)
    requires Live(a) == {} && AtMostOneOpen(a)
    requires Live(b) == {} && AtMostOneOpen(b)
    ensures Live(a + b) == {} && AtMostOneOpen(a + b)
  {
    LiveAfterConcat({}, a, b);
    forall k | |a| < k <= |a + b| ensures Live((a + b)[..k]) == Live(b[..k - |a|]) {
      assert (a + b)[..k] == a + b[..k - |a|];
      LiveAfterConcat({}, a, b[..k - |a|]);
    }
    forall k | 0 <= k <= |a| ensures (a + b)[..k] == a[..k] {
    }
  }

  /** `TCPClient`: a session leaves no socket open and never holds two
      sockets at once. */
  lemma {:induction false} TcpSessionReleasesSockets(c: Conn, turns: seq<Turn>)
    ensures var ev := Session(TCP, c, turns).events;
            Live(ev) == {} && AtMostOneOpen(ev)
    decreases |turns|
  {
    if |turns| > 0 {
      var st := Exchange(TCP, c, turns[0].line, turns[0].fate);
      TcpExchangeReleases(c, turns[0].line, turns[0].fate);
      if !st.outcome.Failed? && !IsExitCommand(turns[0].line) {
        TcpSessionReleasesSockets(st.conn, turns[1..]);
        AppendReleased(st.events, Session(TCP, st.conn, turns[1..]).events);
      }
    }
  }

  /** The send calls of a TCP exchange: at most one, on the socket created
      for it. */
  lemma TcpExchangeSend(c: Conn, msg: string, f: Fate)
    ensures var ev := TcpExchange(c, msg, f).events;
            forall i :: 0 <= i < |ev| && ev[i].Send? ==> i == 2 && ev[i].sock == c.created && f.fault != Some(AtCreate)
  {
    var ev := TcpExchange(c, msg, f).events;
    if f.fault != Some(AtCreate) {
      var n := CallsMade(f.fault);
      var calls := TcpCalls(c.created, msg);
      assert forall i :: 0 <= i < n ==> ev[i] == calls[i];
    }
  }

  /** Every send call of `events` is on socket `n` or a newer one. */
  predicate SendsFrom(events: seq<Event>, n: nat)
  {
    forall i :: 0 <= i < |events| && events[i].Send? ==> events[i].sock >= n
  }

  /** The send calls of a TCP session use sockets created during it. */
  lemma {:induction false} TcpSessionSendsFrom(c: Conn, turns: seq<Turn>)
    ensures SendsFrom(Session(TCP, c, turns).events, c.created)
    decreases |turns|
  {
    if |turns| > 0 {
      var st := Exchange(TCP, c, turns[0].line, turns[0].fate);
      TcpExchangeSend(c, turns[0].line, turns[0].fate);
      if !st.outcome.Failed? && !IsExitCommand(turns[0].line) {
        assert st == TcpExchange(c, turns[0].line, turns[0].fate);
        assert st.conn.created == c.created + 1;
        var rest := Session(TCP, st.conn, turns[1..]).events;
        TcpSessionSendsFrom(st.conn, turns[1..]);
        var ev := st.events + rest;
        forall i | 0 <= i < |ev| && ev[i].Send? ensures ev[i].sock >= c.created {
          if i < |st.events| {
            assert ev[i] == st.events[i];
            assert st.events[i].sock == c.created;
          } else {
            assert ev[i] == rest[i - |st.events|];
            var k := i - |st.events|;
            assert 0 <= k < |rest| && rest[k].Send?;
            assert rest[k].sock >= st.conn.created;
          }
        }
      }
    }
  }

  /** Each send call of `events` is on a socket newer than that of the
      send call before it. */
  predicate SendSocketsIncrease(events: seq<Event>)
  {
    forall i, j :: 0 <= i < j < |events| && events[i].Send? && events[j].Send? ==> events[i].sock < events[j].sock
  }

  /** `TCPClient` makes a new connection for every message: each send call
      of a session is on a socket newer than that of the one before. */
  lemma {:induction false} TcpNewSocketPerMessage(c: Conn, turns: seq<Turn>)
    ensures SendSocketsIncrease(Session(TCP, c, turns).events)
    decreases |turns|
  {
    if |turns| > 0 {
      var st := Exchange(TCP, c, turns[0].line, turns[0].fate);
      TcpExchangeSend(c, turns[0].line, turns[0].fate);
      if !st.outcome.Failed? && !IsExitCommand(turns[0].line) {
        assert st == TcpExchange(c, turns[0].line, turns[0].fate);
        assert st.conn.created == c.created + 1;
        var rest := Session(TCP, st.conn, turns[1..]).events;
        TcpNewSocketPerMessage(st.conn, turns[1..]);
        TcpSessionSendsFrom(st.conn, turns[1..]);
        assert SendsFrom(rest, st.conn.created);
        assert SendSocketsIncrease(rest);
        var ev := st.events + rest;
        forall i, j | 0 <= i < j < |ev| && ev[i].Send? && ev[j].Send? ensures ev[i].sock < ev[j].sock {
          if j < |st.events| {
            assert false;
          } else if i < |st.events| {
            assert ev[i] == st.events[i] && ev[j] == rest[j - |st.events|];
          } else {
            assert ev[i] == rest[i - |st.events|] && ev[j] == rest[j - |st.events|];
          }
        }
      }
    }
  }

  /** Only send and receive calls, all on socket `u`. */
  predicate OnlyTraffic(events: seq<Event>, u: SocketId)
  {
    forall i :: 0 <= i < |events| ==> (events[i].Send? || events[i].Recv?) && events[i].sock == u
  }

  /** `UDPClient`: a session keeps the client's one socket, and makes only
      send and receive calls on it: it neither creates nor closes a socket. */
  lemma {:induction false} UdpSessionKeepsSocket(c: Conn, turns: seq<Turn>)
    requires c.socket.Some?
    ensures Session(UDP, c, turns).conn == c
    ensures OnlyTraffic(Session(UDP, c, turns).events, c.socket.value)
    decreases |turns|
  {
    if |turns| > 0 {
      var st := Exchange(UDP, c, turns[0].line, turns[0].fate);
      assert forall i :: 0 <= i < |st.events| ==> st.events[i] in st.events;
      if !st.outcome.Failed? && !IsExitCommand(turns[0].line) {
        UdpSessionKeepsSocket(st.conn, turns[1..]);
        var rest := Session(UDP, st.conn, turns[1..]).events;
        assert OnlyTraffic(rest, c.socket.value);
        var ev := st.events + rest;
        forall i | 0 <= i < |ev| ensures (ev[i].Send? || ev[i].Recv?) && ev[i].sock == c.socket.value {
          if i >= |st.events| {
            assert ev[i] == rest[i - |st.events|];
          }
        }
      }
    }
  }
}
