/**
 * The accept loop of `serve()`. Each turn of the loop is driven by one
 * event: what `accept` did, whether the TLS wrap succeeded, and what the
 * request read gave. What the loop does to the outside world is recorded as
 * a trace of actions on connections and on the listening socket.
 *
 * `Step` and `Run` are the specification; `Server.Serve` is the loop itself,
 * proved to produce exactly what `Run` says. `Inv` is the ownership rule for
 * connections, kept by every step.
 */
module AcceptLoop {
  import opened Gemini
  import opened Resource
  import opened Response

  /** The outcome of `conn.recv(1024).decode()`: the request text, or an exception. */
  datatype Received = Request(text: string) | ReadFailed

  datatype Event =
    | AcceptTimeout               // `sock.accept()` raised TimeoutError
    | AcceptFailed                // `sock.accept()` raised another exception
    | HandshakeFailed             // `wrap_socket` raised
    | Wrapped(received: Received, docs: Docs)
                                  // `wrap_socket` returned a connection, which was then read;
                                  // `docs` is the directory as the handler finds it
    | Interrupt                   // KeyboardInterrupt while waiting in `accept`

  datatype Action =
    | Open(conn: nat)             // a TLS connection was established
    | Send(conn: nat, data: string)
    | Close(conn: nat)
    | CloseListener               // the listening socket was closed

  datatype Status = Listening | Stopped | Crashed

  datatype Machine = Machine(trace: seq<Action>, next: nat, status: Status)

  /** The writes made on a connection, or `None` when an exception escapes the handler. */
  function Writes(docs: Docs, received: Received): (w: Option<seq<string>>)
    ensures w.None? <==> (received.ReadFailed?
      || (RequestedFile(received.text) in docs && docs[RequestedFile(received.text)].Unreadable?))
  {
    match received
    case ReadFailed => None
    case Request(text) => Respond(docs, RequestedFile(text))
  }

  function Sends(conn: nat, writes: seq<string>): (acts: seq<Action>)
    ensures |acts| == |writes|
    ensures forall i :: 0 <= i < |acts| ==> acts[i] == Send(conn, writes[i])
  {
    seq(|writes|, i requires 0 <= i < |writes| => Send(conn, writes[i]))
  }

  /**
   * One turn of the loop. The trace only grows, and the connection counter
   * counts the connections that were wrapped.
   */
  function Step(m: Machine, e: Event): (r: Machine)
    ensures m.status != Listening ==> r == m
    ensures m.trace <= r.trace
    ensures r.next == if m.status == Listening && e.Wrapped? then m.next + 1 else m.next
  {
    if m.status != Listening then m
    else
      match e
      case AcceptTimeout => m
      case AcceptFailed => m
      case HandshakeFailed => m
      case Interrupt => Machine(m.trace + [CloseListener], m.next, Stopped)
      case Wrapped(received, docs) =>
        var conn := m.next;
        match Writes(docs, received)
        case Some(writes) =>
          Machine(m.trace + [Open(conn)] + Sends(conn, writes) + [Close(conn)], conn + 1, Listening)
        case None =>
          Machine(m.trace + [Open(conn), Close(conn), CloseListener], conn + 1, Crashed)
  }

  /** The loop fed with a sequence of events. */
  function Run(m: Machine, events: seq<Event>): Machine
    decreases |events|
  {
    if events == [] then m else Run(Step(m, events[0]), events[1..])
  }

  /** Nothing the loop records is ever taken back, and connection numbers are never reused. */
  lemma {:induction false} RunOnlyAppends(m: Machine, events: seq<Event>)
    ensures m.trace <= Run(m, events).trace && m.next <= Run(m, events).next
    decreases |events|
  {
    if events != [] {
      var m' := Step(m, events[0]);
      RunOnlyAppends(m', events[1..]);
      var r := Run(m', events[1..]);
      assert m'.trace[..|m.trace|] == m.trace;
      assert r.trace[..|m'.trace|][..|m.trace|] == r.trace[..|m.trace|];
    }
  }

  // ---------------------------------------------------------------------------
  // The ownership rule for connections

  /** `a` may come before `b` in the trace: connections are handled one after another. */
  predicate Before(a: Action, b: Action)
    requires !a.CloseListener? && !b.CloseListener?
  {
    a.conn < b.conn || (a.conn == b.conn && !a.Close? && !b.Open?)
  }

  ghost predicate Serial(t: seq<Action>) {
    forall i, j :: 0 <= i < j < |t| && !t[i].CloseListener? && !t[j].CloseListener? ==> Before(t[i], t[j])
  }

  ghost predicate ConnsBelow(t: seq<Action>, n: nat) {
    forall i :: 0 <= i < |t| && !t[i].CloseListener? ==> t[i].conn < n
  }

  ghost predicate ListenerLast(t: seq<Action>) {
    forall i :: 0 <= i < |t| && t[i].CloseListener? ==> i == |t| - 1
  }

  ghost predicate AllClosed(t: seq<Action>, n: nat) {
    forall id :: 0 <= id < n ==> Open(id) in t && Close(id) in t
  }

  /**
   * Every connection numbered below `next` was opened and closed; the
   * actions of one connection are an open, its sends, and a close, with no
   * other connection's action in between; the listening socket is closed
   * last, and exactly when the loop has ended.
   */
  ghost predicate Inv(m: Machine) {
    Serial(m.trace) && ConnsBelow(m.trace, m.next) && ListenerLast(m.trace)
    && AllClosed(m.trace, m.next)
    && (m.status == Listening <==> CloseListener !in m.trace)
  }

  lemma SerialAppend(t: seq<Action>, b: seq<Action>, n: nat)
    requires Serial(t) && ConnsBelow(t, n) && Serial(b)
    requires forall k :: 0 <= k < |b| && !b[k].CloseListener? ==> b[k].conn == n
    ensures Serial(t + b)
  {
    var s := t + b;
    forall i, j | 0 <= i < j < |s| && !s[i].CloseListener? && !s[j].CloseListener?
      ensures Before(s[i], s[j])
    {
      if j < |t| {
        assert s[i] == t[i] && s[j] == t[j];
      } else if i < |t| {
        assert s[i] == t[i] && s[j] == b[j - |t|];
      } else {
        assert s[i] == b[i - |t|] && s[j] == b[j - |t|];
      }
    }
  }

  /** A served connection keeps the invariant. */
  lemma ServedKeepsInv(m: Machine, writes: seq<string>)
    requires Inv(m) && m.status == Listening
    ensures Inv(Machine(m.trace + [Open(m.next)] + Sends(m.next, writes) + [Close(m.next)], m.next + 1, Listening))
  {
    var n := m.next;
    var b := [Open(n)] + Sends(n, writes) + [Close(n)];
    assert forall k :: 0 < k < |b| - 1 ==> b[k] == Send(n, writes[k - 1]);
    assert b[0] == Open(n) && b[|b| - 1] == Close(n);
    SerialAppend(m.trace, b, n + 0);
    var t := m.trace + b;
    assert t == m.trace + [Open(n)] + Sends(n, writes) + [Close(n)];
    assert t[|m.trace|] == Open(n) && t[|t| - 1] == Close(n);
    forall id | 0 <= id < n + 1 ensures Open(id) in t && Close(id) in t {
      if id < n {
        assert Open(id) in m.trace && Close(id) in m.trace;
      }
    }
    assert forall k :: 0 <= k < |t| ==> !t[k].CloseListener? by {
      forall k | 0 <= k < |t| ensures !t[k].CloseListener? {
        if k < |m.trace| { assert t[k] == m.trace[k]; } else { assert t[k] == b[k - |m.trace|]; }
      }
    }
  }

  /** A connection whose handler raises keeps the invariant too. */
  lemma CrashKeepsInv(m: Machine)
    requires Inv(m) && m.status == Listening
    ensures Inv(Machine(m.trace + [Open(m.next), Close(m.next), CloseListener], m.next + 1, Crashed))
  {
    var n := m.next;
    var b := [Open(n), Close(n), CloseListener];
    SerialAppend(m.trace, b, n);
    var t := m.trace + b;
    forall id | 0 <= id < n + 1 ensures Open(id) in t && Close(id) in t {
      if id < n {
        assert Open(id) in m.trace && Close(id) in m.trace;
      } else {
        assert t[|m.trace|] == Open(n) && t[|m.trace| + 1] == Close(n);
      }
    }
  }

  /** Every turn of the loop keeps the invariant. */
  lemma StepKeepsInv(m: Machine, e: Event)
    requires Inv(m)
    ensures Inv(Step(m, e))
  {
    if m.status == Listening {
      match e
      case Interrupt =>
        var t := m.trace + [CloseListener];
        SerialAppend(m.trace, [CloseListener], m.next);
        forall id | 0 <= id < m.next ensures Open(id) in t && Close(id) in t {
          assert Open(id) in m.trace && Close(id) in m.trace;
        }
      case Wrapped(received, docs) =>
        if Writes(docs, received).Some? {
          ServedKeepsInv(m, Writes(docs, received).value);
        } else {
          CrashKeepsInv(m);
        }
      case AcceptTimeout =>
      case AcceptFailed =>
      case HandshakeFailed =>
    }
  }

  lemma {:induction false} RunKeepsInv(m: Machine, events: seq<Event>)
    requires Inv(m)
    ensures Inv(Run(m, events))
    decreases |events|
  {
    if events != [] {
      StepKeepsInv(m, events[0]);
      RunKeepsInv(Step(m, events[0]), events[1..]);
    }
  }

  /** Every connection that was opened is closed, exactly once. */
  lemma ClosedExactlyOnce(m: Machine, id: nat)
    requires Inv(m) && id < m.next
    ensures Close(id) in m.trace
    ensures forall i, j ::
      0 <= i < |m.trace| && 0 <= j < |m.trace| && m.trace[i] == Close(id) && m.trace[j] == Close(id)
      ==> i == j
  {
  }

  /** Every send happens while its connection is open: after its open and before its close. */
  lemma SendWhileOpen(m: Machine, k: nat)
    requires Inv(m) && k < |m.trace| && m.trace[k].Send?
    ensures exists i :: 0 <= i < k && m.trace[i] == Open(m.trace[k].conn)
    ensures exists j :: k < j < |m.trace| && m.trace[j] == Close(m.trace[k].conn)
  {
    var t := m.trace;
    var id := t[k].conn;
    assert Open(id) in t && Close(id) in t;
    var i :| 0 <= i < |t| && t[i] == Open(id);
    var j :| 0 <= j < |t| && t[j] == Close(id);
  }

  /** Between the open and the close of a connection there are only sends on that connection. */
  lemma NoInterleaving(m: Machine, i: nat, j: nat, k: nat)
    requires Inv(m) && i < j < k < |m.trace|
    requires m.trace[i].Open? && m.trace[k] == Close(m.trace[i].conn)
    ensures m.trace[j] == Send(m.trace[i].conn, m.trace[j].data)
  {
    var t := m.trace;
    assert !t[j].CloseListener?;
    assert Before(t[i], t[j]) && Before(t[j], t[k]);
  }

  // ---------------------------------------------------------------------------
  // How the loop moves on

  /** Once the loop has ended, no later event has any effect. */
  lemma {:induction false} HaltedIsFinal(m: Machine, events: seq<Event>)
    requires m.status != Listening
    ensures Run(m, events) == m
    decreases |events|
  {
    if events != [] {
      HaltedIsFinal(m, events[1..]);
    }
  }

  /** An event that ends in the accept or the TLS handshake. */
  predicate Dropped(e: Event) {
    e.AcceptTimeout? || e.AcceptFailed? || e.HandshakeFailed?
  }

  function Unfiltered(events: seq<Event>): (rest: seq<Event>)
    ensures forall k :: 0 <= k < |rest| ==> !Dropped(rest[k])
    decreases |events|
  {
    if events == [] then []
    else if Dropped(events[0]) then Unfiltered(events[1..])
    else [events[0]] + Unfiltered(events[1..])
  }

  /**
   * Accept timeouts, accept errors and failed handshakes send nothing and
   * close nothing: the loop behaves as if they had not happened.
   */
  lemma {:induction false} DroppedEventsIgnored(m: Machine, events: seq<Event>)
    ensures Run(m, events) == Run(m, Unfiltered(events))
    decreases |events|
  {
    if events != [] {
      DroppedEventsIgnored(Step(m, events[0]), events[1..]);
      if Dropped(events[0]) {
        DroppedEventsIgnored(m, events[1..]);
      } else {
        var rest := [events[0]] + Unfiltered(events[1..]);
        assert rest[0] == events[0] && rest[1..] == Unfiltered(events[1..]);
      }
    }
  }

  /**
   * An exception while handling a connection closes that connection, then
   * the listening socket, and ends the loop: no later event is handled.
   */
  lemma CrashEndsLoop(docs: Docs, m: Machine, received: Received, rest: seq<Event>)
    requires m.status == Listening && Writes(docs, received).None?
    ensures Run(m, [Wrapped(received, docs)] + rest)
      == Machine(m.trace + [Open(m.next), Close(m.next), CloseListener], m.next + 1, Crashed)
  {
    var events := [Wrapped(received, docs)] + rest;
    assert events[0] == Wrapped(received, docs) && events[1..] == rest;
    HaltedIsFinal(Step(m, Wrapped(received, docs)), rest);
  }

  /** An interrupt while waiting for a client closes the listening socket and ends the loop. */
  lemma InterruptEndsLoop(m: Machine, rest: seq<Event>)
    requires m.status == Listening
    ensures Run(m, [Interrupt] + rest) == Machine(m.trace + [CloseListener], m.next, Stopped)
  {
    var events := [Interrupt] + rest;
    assert events[0] == Interrupt && events[1..] == rest;
    HaltedIsFinal(Step(m, Interrupt), rest);
  }

  /** A request for a name that is not a file: one `51 Not Found` line, no body, then close. */
  lemma NotFoundSession(docs: Docs, m: Machine, text: string)
    requires m.status == Listening && RequestedFile(text) !in docs
    ensures Step(m, Wrapped(Request(text), docs))
      == Machine(m.trace + [Open(m.next), Send(m.next, NotFoundLine), Close(m.next)], m.next + 1, Listening)
  {
    assert Writes(docs, Request(text)) == Some([NotFoundLine]);
    assert Sends(m.next, [NotFoundLine]) == [Send(m.next, NotFoundLine)];
  }

  /** A request for a readable file: the success line, then the contents, then close. */
  lemma FoundSession(docs: Docs, m: Machine, text: string)
    requires m.status == Listening
    requires RequestedFile(text) in docs && docs[RequestedFile(text)].Readable?
    ensures var contents := docs[RequestedFile(text)].contents;
      Step(m, Wrapped(Request(text), docs))
      == Machine(m.trace + [Open(m.next), Send(m.next, SuccessLine), Send(m.next, contents), Close(m.next)],
                 m.next + 1, Listening)
  {
    var contents := docs[RequestedFile(text)].contents;
    assert Sends(m.next, [SuccessLine, contents]) == [Send(m.next, SuccessLine), Send(m.next, contents)];
  }

  /**
   * The directory is looked up afresh for every request: when a file is
   * edited between two requests for it, the second one gets the new contents.
   */
  lemma EditSeenByNextRequest(m: Machine, text: string, before: Docs, after: Docs)
    requires m.status == Listening
    requires RequestedFile(text) in before && before[RequestedFile(text)].Readable?
    requires RequestedFile(text) in after && after[RequestedFile(text)].Readable?
    ensures var n := m.next;
      Run(m, [Wrapped(Request(text), before), Wrapped(Request(text), after)]).trace
      == m.trace
         + [Open(n), Send(n, SuccessLine), Send(n, before[RequestedFile(text)].contents), Close(n)]
         + [Open(n + 1), Send(n + 1, SuccessLine), Send(n + 1, after[RequestedFile(text)].contents), Close(n + 1)]
  {
    var events := [Wrapped(Request(text), before), Wrapped(Request(text), after)];
    FoundSession(before, m, text);
    var m1 := Step(m, events[0]);
    FoundSession(after, m1, text);
    var m2 := Step(m1, events[1]);
    assert Run(m, events) == Run(m1, events[1..]);
    assert events[1..] == [events[1]];
    assert Run(m1, [events[1]]) == Run(m2, []) == m2;
    assert m2.trace == m1.trace + [Open(m1.next), Send(m1.next, SuccessLine),
                                   Send(m1.next, after[RequestedFile(text)].contents), Close(m1.next)];
  }

  // ---------------------------------------------------------------------------
  // The loop itself

  class Server {
    var trace: seq<Action>
    var next: nat
    var status: Status

    ghost function State(): Machine
      reads this
    {
      Machine(trace, next, status)
    }

    ghost predicate Valid()
      reads this
    {
      Inv(State())
    }

    constructor ()
      ensures State() == Machine([], 0, Listening) && Valid()
    {
      trace, next, status := [], 0, Listening;
    }

    method SendOn(conn: nat, data: string)
      modifies this`trace
      ensures trace == old(trace) + [Send(conn, data)]
    {
      trace := trace + [Send(conn, data)];
    }

    method CloseConnection(conn: nat)
      modifies this`trace
      ensures trace == old(trace) + [Close(conn)]
    {
      trace := trace + [Close(conn)];
    }

    method CloseListeningSocket()
      modifies this`trace
      ensures trace == old(trace) + [CloseListener]
    {
      trace := trace + [CloseListener];
    }

    /**
     * The body of the inner `try`/`finally`: read the request, answer it,
     * and close the connection whatever happened. `raised` is true when an
     * exception escapes.
     */
    method Handle(conn: nat, received: Received, docs: Docs) returns (raised: bool)
      modifies this`trace
      ensures raised <==> Writes(docs, received).None?
      ensures !raised ==> trace == old(trace) + Sends(conn, Writes(docs, received).value) + [Close(conn)]
      ensures raised ==> trace == old(trace) + [Close(conn)]
    {
      raised := false;
      match received {
        case ReadFailed =>
          raised := true;
        case Request(text) =>
          var name := RequestedFile(text);
          if name !in docs {
            SendOn(conn, NotFoundLine);
            assert Sends(conn, [NotFoundLine]) == [Send(conn, NotFoundLine)];
          } else {
            match docs[name] {
              case Unreadable =>
                raised := true;
              case Readable(contents) =>
                SendOn(conn, SuccessLine);
                SendOn(conn, contents);
                assert Sends(conn, [SuccessLine, contents]) == [Send(conn, SuccessLine), Send(conn, contents)];
            }
          }
      }
      CloseConnection(conn);
    }

    /** The `while True` loop, fed with `events` until they run out or the loop ends. */
    method Serve(events: seq<Event>)
      requires Valid()
      modifies this
      ensures Valid()
      ensures State() == Run(old(State()), events)
    {
      var i := 0;
      while i < |events| && status == Listening
        invariant 0 <= i <= |events|
        invariant Run(State(), events[i..]) == Run(old(State()), events)
      {
        ghost var before := State();
        var e := events[i];
        match e {
          case AcceptTimeout =>
          case AcceptFailed =>
          case HandshakeFailed =>
          case Interrupt =>
            CloseListeningSocket();
            status := Stopped;
          case Wrapped(received, docs) =>
            var conn := next;
            next := next + 1;
            trace := trace + [Open(conn)];
            var raised := Handle(conn, received, docs);
            if raised {
              CloseListeningSocket();
              status := Crashed;
              assert trace == before.trace + [Open(conn), Close(conn), CloseListener];
            } else {
              assert trace == before.trace + [Open(conn)] + Sends(conn, Writes(docs, received).value) + [Close(conn)];
            }
        }
        assert State() == Step(before, e);
        assert events[i..][0] == e && events[i..][1..] == events[i + 1..];
        i := i + 1;
      }
      if i < |events| {
        HaltedIsFinal(State(), events[i..]);
      }
      RunKeepsInv(old(State()), events);
    }
  }
}
