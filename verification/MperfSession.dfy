/** The test session of one client and one server over a control and a data connection. */
module MperfSession {
  import opened Bytes
  import opened JsonValue
  import opened MperfConfig

  // Test states, which are also the messages of the control connection.
  const CREATE_STREAM: byte := 1
  const START: byte := 2
  const RUNNING: byte := 3
  const END: byte := 4
  const ERROR: byte := 7

  /** Who opened a connection; the server sees the address only. */
  datatype Opener = ClientControl | ClientData | Outsider

  datatype Conn = Conn(ip: int, opener: Opener)

  type Message = seq<byte>

  // ---- Server ----

  datatype Server = Server(state: byte, ctl: Option<Conn>, data: Option<Conn>, clientIp: int, conf: Config)

  /** What a handler leaves behind: the new state, messages for the control connection, the returned value. */
  datatype Outcome<T> = Outcome(next: T, sent: seq<Message>, ret: int)

  /** mperf_init_server */
  const FRESH := Server(START, None, None, 0, DEFAULTS)

  /** mperf_accept */
  function Accepted(s: Server, c: Conn): Outcome<Server> {
    if s.ctl.None? then
      Outcome(s.(ctl := Some(c), state := PARAM_EXCHANGE, clientIp := c.ip), [[PARAM_EXCHANGE]], 0)
    else if s.state == CREATE_STREAM && s.data.None? && c.ip == s.clientIp then
      Outcome(s.(data := Some(c), state := RUNNING), [[RUNNING]], 0)
    else
      Outcome(s, [], -1)
  }

  /** mperf_handle_server_msg; nothing to read means that the peer has closed the connection. */
  function ServerHandles(s: Server, m: Message): Outcome<Server> {
    if m == [] then Outcome(s.(state := END), [], 0)
    else if m[0] == PARAM_EXCHANGE && s.state == PARAM_EXCHANGE then
      match Read(m[1..])
      case None => Outcome(s.(state := ERROR), [[ERROR]], -1)
      case Some(json) =>
        var t := s.(conf := Applied(s.conf, Named(json)));
        if VersionMatches(Named(json)) then Outcome(t.(state := CREATE_STREAM), [[CREATE_STREAM]], 0)
        else Outcome(t.(state := ERROR), [[ERROR]], -1)
    else if m[0] == PARAM_EXCHANGE then Outcome(s.(state := ERROR), [[ERROR]], -1)
    else if m[0] == ERROR then Outcome(s.(state := ERROR), [], 1)
    else if m[0] == END then Outcome(s.(state := END), [], 1)
    else Outcome(s, [], -1)
  }

  predicate Over(state: byte) {
    state == END || state == ERROR
  }

  /** What the server's loop finds ready: a connection, a message, or data or the end of the data. */
  datatype ServerEvent = Listener(sock: Conn) | Controller(m: Message) | DataReady(closed: bool)

  function ServerEventHandled(s: Server, e: ServerEvent): Outcome<Server> {
    match e
    case Listener(sock) => Accepted(s, sock)
    case Controller(m) => ServerHandles(s, m)
    case DataReady(closed) => if closed then Outcome(s.(state := ERROR), [], -1) else Outcome(s, [], 0)
  }

  /** The first `n` events, one after the other. */
  function RoundOf(s: Server, events: seq<ServerEvent>, n: nat): Outcome<Server>
    requires n <= |events|
  {
    if n == 0 then Outcome(s, [], 0)
    else
      var before := RoundOf(s, events, n - 1);
      var o := ServerEventHandled(before.next, events[n - 1]);
      Outcome(o.next, before.sent + o.sent, 0)
  }

  /** What handling event `i` returns, after the ones before it. */
  function ReturnedAt(s: Server, events: seq<ServerEvent>, i: nat): int
    requires i < |events|
  {
    ServerEventHandled(RoundOf(s, events, i).next, events[i]).ret
  }

  /** The server's worker context. */
  class ServerWorker {
    var testState: byte
    var ctlfd: Option<Conn>
    var datafd: Option<Conn>
    var cliIp: int
    const conf: ConnConfig

    function State(): Server
      reads this, conf
    {
      Server(testState, ctlfd, datafd, cliIp, conf.Settings())
    }

    constructor ()
      ensures State() == FRESH && fresh(conf)
    {
      testState, ctlfd, datafd, cliIp := START, None, None, 0;
      conf := new ConnConfig(DEFAULTS);
    }

    method SetTestState(state: byte) returns (sent: seq<Message>)
      modifies this`testState
      ensures State() == old(State()).(state := state) && sent == [[state]]
    {
      testState := state;
      sent := [[state]];
    }

    method Accept(sock: Conn) returns (sent: seq<Message>, ret: int)
      modifies this
      ensures Outcome(State(), sent, ret) == Accepted(old(State()), sock)
    {
      sent := [];
      if ctlfd == None {
        ctlfd := Some(sock);
        sent := SetTestState(PARAM_EXCHANGE);
        cliIp := sock.ip;
        return sent, 0;
      } else if testState == CREATE_STREAM && datafd == None {
        if cliIp != sock.ip {
          return sent, -1;
        }
        sent := SetTestState(RUNNING);
        datafd := Some(sock);
        return sent, 0;
      }
      return sent, -1;
    }

    method HandleMessage(m: Message) returns (sent: seq<Message>, ret: int)
      modifies this, conf
      ensures Outcome(State(), sent, ret) == ServerHandles(old(State()), m)
    {
      hide Read, Applied, VersionMatches;
      sent := [];
      if m == [] {
        testState := END;
        return sent, 0;
      }
      if m[0] == PARAM_EXCHANGE {
        if testState == PARAM_EXCHANGE {
          var ok := conf.RecvConf(m[1..], [NUL, NUL, NUL, NUL]);
          if !ok {
            sent := SetTestState(ERROR);
            return sent, -1;
          }
          sent := SetTestState(CREATE_STREAM);
        } else {
          sent := SetTestState(ERROR);
          return sent, -1;
        }
      } else if m[0] == ERROR {
        testState := ERROR;
        return sent, 1;
      } else if m[0] == END {
        testState := END;
        return sent, 1;
      } else {
        return sent, -1;
      }
      return sent, 0;
    }

    /** The events of one round of mperf_server_loop: the first one that does not return zero ends the round. */
    method HandleEvents(events: seq<ServerEvent>) returns (sent: seq<Message>, handled: nat, done: bool)
      modifies this, conf
      ensures handled <= |events| && RoundOf(old(State()), events, handled) == Outcome(State(), sent, 0)
      ensures forall i :: 0 <= i < handled - 1 ==> ReturnedAt(old(State()), events, i) == 0
      ensures handled < |events| ==> handled > 0 && ReturnedAt(old(State()), events, handled - 1) != 0
      ensures done == Over(testState)
    {
      hide Accepted, ServerHandles;
      sent, handled := [], 0;
      while handled < |events|
        invariant handled <= |events| && RoundOf(old(State()), events, handled) == Outcome(State(), sent, 0)
        invariant forall i :: 0 <= i < handled ==> ReturnedAt(old(State()), events, i) == 0
      {
        var more, ret;
        match events[handled] {
          case Listener(sock) =>
            more, ret := Accept(sock);
          case Controller(m) =>
            more, ret := HandleMessage(m);
          case DataReady(closed) =>
            more, ret := [], 0;
            if closed {
              testState := ERROR;
              ret := -1;
            }
        }
        sent, handled := sent + more, handled + 1;
        if ret != 0 {
          break;
        }
      }
      done := Over(testState);
    }
  }

  // ---- Client ----

  /** `version` is what the client announces, the package string of its build. */
  datatype Client = Client(state: byte, data: bool, conf: Config, version: seq<byte>)

  /** mperf_handle_client_msg; `data` is set when the data connection is opened. */
  function ClientHandles(c: Client, m: Message): Outcome<Client>
    requires InRange(c.conf) && Announced(c.version)
  {
    if m == [] then
      Outcome(c.(state := END), [], 0)
    else if m[0] == PARAM_EXCHANGE && c.state == START then
      Outcome(c.(state := PARAM_EXCHANGE), [Frame(c.conf, c.version)], 0)
    else if m[0] == CREATE_STREAM && c.state == PARAM_EXCHANGE then
      Outcome(c.(state := CREATE_STREAM, data := true), [], 0)
    else if m[0] == RUNNING && c.state == CREATE_STREAM then
      Outcome(c.(state := RUNNING), [], 0)
    else if m[0] == ERROR then
      Outcome(c.(state := ERROR), [], 1)
    else
      Outcome(c, [], -1)
  }

  /** The client's data event: a block is written, and the test is over. */
  function ClientSends(c: Client): Outcome<Client> {
    Outcome(c.(state := END), [[END]], 0)
  }

  /** The client's worker context. */
  class ClientWorker {
    var testState: byte
    var datafd: bool
    const conf: Config
    const version: seq<byte>

    function State(): Client
      reads this
    {
      Client(testState, datafd, conf, version)
    }

    constructor (c: Config, v: seq<byte>)
      ensures State() == Client(START, false, c, v)
    {
      testState, datafd, conf, version := START, false, c, v;
    }

    method HandleMessage(m: Message) returns (sent: seq<Message>, ret: int)
      requires InRange(conf) && Announced(version)
      modifies this
      ensures Outcome(State(), sent, ret) == ClientHandles(old(State()), m)
    {
      hide Frame;
      sent := [];
      if m == [] {
        testState := END;
        return sent, 0;
      }
      if m[0] == PARAM_EXCHANGE {
        if testState != START {
          return sent, -1;
        }
        var frame := SendConf(conf, version);
        sent := [frame];
        testState := PARAM_EXCHANGE;
      } else if m[0] == CREATE_STREAM {
        if testState != PARAM_EXCHANGE {
          return sent, -1;
        }
        datafd := true;
        testState := CREATE_STREAM;
      } else if m[0] == RUNNING {
        if testState != CREATE_STREAM {
          return sent, -1;
        }
        testState := RUNNING;
      } else if m[0] == ERROR {
        testState := ERROR;
        return sent, 1;
      } else {
        return sent, -1;
      }
      return sent, 0;
    }

    /** The data event of mperf_client_loop. */
    method SendData() returns (sent: seq<Message>)
      modifies this
      ensures Outcome(State(), sent, 0) == ClientSends(old(State()))
    {
      testState := END;
      sent := [[END]];
    }
  }

  // ---- What a message can do ----

  /**
   * Whatever arrives: the server keeps its connections, tells the client every state it moves to by itself, and
   * moves on only from the exchange of parameters. A second configuration is an error; the end and an error
   * are taken over in silence, like the loss of the connection; other messages change nothing, and data does not
   * either, but the end of the data is an error.
   */
  lemma ServerDiscipline(s: Server, m: Message)
    ensures var o := ServerHandles(s, m);
            && o.next.ctl == s.ctl && o.next.data == s.data && o.next.clientIp == s.clientIp
            && (o.sent == [] || o.sent == [[o.next.state]])
            && (!Over(o.next.state) && o.next != s ==> s.state == PARAM_EXCHANGE && o.next.state == CREATE_STREAM)
            && (o.next.conf != s.conf ==> s.state == PARAM_EXCHANGE && m != [] && m[0] == PARAM_EXCHANGE)
            && (o.ret < 0 && o.next != s ==> o.sent == [[ERROR]] && o.next.state == ERROR)
    ensures var o := ServerHandles(s, m);
            if m == [] || m[0] == END || m[0] == ERROR then
              o == Outcome(s.(state := if m == [] then END else m[0]), [], if m == [] then 0 else 1)
            else if m[0] != PARAM_EXCHANGE then o == Outcome(s, [], -1)
            else s.state != PARAM_EXCHANGE ==> o.sent == [[ERROR]] && o.next.conf == s.conf && o.ret < 0
    ensures ServerEventHandled(s, DataReady(false)) == Outcome(s, [], 0)
    ensures ServerEventHandled(s, DataReady(true)) == Outcome(s.(state := ERROR), [], -1)
  {
    hide Read, Applied, VersionMatches;
  }

  /**
   * Whatever arrives: the client moves by one state at a time, and only on the message that names the state the
   * server is in; it answers nothing but the request for its configuration. An error is final.
   */
  lemma ClientDiscipline(c: Client, m: Message)
    requires InRange(c.conf) && Announced(c.version)
    ensures var o := ClientHandles(c, m);
            && o.next.conf == c.conf && o.next.version == c.version
            && (o.sent != [] <==> m != [] && m[0] == PARAM_EXCHANGE && c.state == START)
            && (o.sent != [] ==> o.sent == [Frame(c.conf, c.version)] && o.next.state == PARAM_EXCHANGE)
            && (!Over(o.next.state) && o.next.state != c.state ==>
                  m != [] && o.next.state == m[0] && Stage(m[0]) == Stage(c.state) + 1 <= 3)
            && (o.next.data != c.data ==> o.next.state == CREATE_STREAM && o.next.data)
            && (m != [] && m[0] in {PARAM_EXCHANGE, CREATE_STREAM, RUNNING} && Stage(m[0]) == Stage(c.state) + 1 ==>
                  o.next.state == m[0] && o.ret == 0 && (m[0] == CREATE_STREAM ==> o.next.data))
            && (o.ret < 0 ==> o.next == c)
    ensures m == [] ==> ClientHandles(c, m) == Outcome(c.(state := END), [], 0)
    ensures m != [] && m[0] == ERROR ==> ClientHandles(c, m) == Outcome(c.(state := ERROR), [], 1)
  {
    hide Frame;
  }

  /** Order of the test states before the end. */
  function Stage(state: byte): nat {
    if state == START then 0
    else if state == PARAM_EXCHANGE then 1
    else if state == CREATE_STREAM then 2
    else if state == RUNNING then 3
    else 4
  }

  // ---- The system ----

  /** Both workers, the messages under way, the connections waiting to be accepted and the ones turned away. */
  datatype System = System(
    server: Server, client: Client,
    toServer: seq<Message>, toClient: seq<Message>,
    backlog: seq<Conn>, denied: seq<Conn>)

  /** The client's address, configuration and version. */
  datatype Setup = Setup(ip: int, conf: Config, version: seq<byte>) {
    const Control := Conn(ip, ClientControl)
    const Data := Conn(ip, ClientData)

    predicate Valid() { InRange(conf) && Announced(version) }

    /** The client's version starts with the server's package string. */
    predicate Compatible() { PACKAGE <= version }
  }

  datatype Event =
    | Arrive(ip: int)            // somebody else connects
    | Accept                     // the server's listener is ready
    | ServerMessage              // the server's end of the control connection is ready
    | ClientMessage              // the client's end of it is ready
    | SendData                   // the client's data connection takes data
    | DataClosed                 // the server finds the data connection closed
    | ClosedAtServer             // the server finds the control connection closed
    | ClosedAtClient             // the client finds it closed

  /** The client has opened its control connection. */
  function Initial(u: Setup): System {
    System(FRESH, Client(START, false, u.conf, u.version), [], [], [u.Control], [])
  }

  /** A worker whose test is over handles nothing more. */
  predicate Enabled(s: System, u: Setup, e: Event) {
    && InRange(s.client.conf) && Announced(s.client.version)
    && match e
       case Arrive(ip) => ip != u.ip
       case Accept => !Over(s.server.state) && s.backlog != []
       case ServerMessage => !Over(s.server.state) && s.server.ctl.Some? && s.toServer != [] && s.toServer[0] != []
       case ClientMessage => !Over(s.client.state) && s.toClient != [] && s.toClient[0] != []
       case SendData => s.client.state == RUNNING
       case DataClosed => !Over(s.server.state) && s.server.data.Some? && Over(s.client.state)
       case ClosedAtServer =>
         !Over(s.server.state) && s.server.ctl.Some? && Over(s.client.state) && s.toServer == []
       case ClosedAtClient => !Over(s.client.state) && Over(s.server.state) && s.toClient == []
  }

  function Next(s: System, u: Setup, e: Event): System
    requires Enabled(s, u, e)
  {
    match e
    case Arrive(ip) => s.(backlog := s.backlog + [Conn(ip, Outsider)])
    case Accept => AcceptNext(s)
    case ServerMessage =>
      var o := ServerHandles(s.server, s.toServer[0]);
      s.(server := o.next, toServer := s.toServer[1..], toClient := s.toClient + o.sent)
    case ClientMessage => ClientNext(s, u)
    case SendData =>
      var o := ClientSends(s.client);
      s.(client := o.next, toServer := s.toServer + o.sent)
    case DataClosed => s.(server := ServerEventHandled(s.server, DataReady(true)).next)
    case ClosedAtServer => s.(server := ServerHandles(s.server, []).next)
    case ClosedAtClient => s.(client := ClientHandles(s.client, []).next)
  }

  /** The first waiting connection is accepted, or turned away. */
  function AcceptNext(s: System): System
    requires s.backlog != []
  {
    var o := Accepted(s.server, s.backlog[0]);
    s.(server := o.next, toClient := s.toClient + o.sent, backlog := s.backlog[1..],
       denied := if o.ret < 0 then s.denied + [s.backlog[0]] else s.denied)
  }

  /** The client handles a message; a data connection it opens starts to wait. */
  function ClientNext(s: System, u: Setup): System
    requires s.toClient != [] && s.toClient[0] != [] && InRange(s.client.conf) && Announced(s.client.version)
  {
    var o := ClientHandles(s.client, s.toClient[0]);
    s.(client := o.next, toClient := s.toClient[1..], toServer := s.toServer + o.sent,
       backlog := if o.next.data && !s.client.data then s.backlog + [u.Data] else s.backlog)
  }

  /** The states a run goes through, first to last. */
  predicate IsRun(run: seq<System>, events: seq<Event>, u: Setup) {
    && |run| == |events| + 1
    && run[0] == Initial(u)
    && forall i :: 0 <= i < |events| ==> Enabled(run[i], u, events[i]) && run[i + 1] == Next(run[i], u, events[i])
  }

  // ---- The invariant ----

  predicate Others(conns: seq<Conn>, u: Setup) {
    forall c :: c in conns ==> c.opener == Outsider && c.ip != u.ip
  }

  /** What the server makes of the client's configuration. */
  function Agreed(c: Config): Config {
    Config(Kept(c.blksize, DEFAULTS.blksize), c.rate, c.burst, c.bytes, c.blocks, c.duration)
  }

  /** How far the session has come. */
  datatype Phase =
    Connecting | Asked | Answered | Configured | Opening | Opened | Sending | Closing | Done | Refused | Failed

  function PhaseOf(s: System): Phase {
    if s.server.ctl.None? then Connecting
    else if s.client.state == START then Asked
    else if s.client.state == PARAM_EXCHANGE then
      if s.server.state == PARAM_EXCHANGE then Answered
      else if s.server.state == ERROR then Refused
      else Configured
    else if s.client.state == ERROR then Failed
    else if s.client.state == CREATE_STREAM then (if s.server.state == CREATE_STREAM then Opening else Opened)
    else if s.client.state == RUNNING then Sending
    else if s.toServer != [] then Closing
    else Done
  }

  ghost predicate Inv(s: System, u: Setup) {
    && s.client.conf == u.conf && s.client.version == u.version && u.Valid()
    && Others(s.denied, u)
    && (u.Compatible() ==> !PhaseOf(s).Refused? && !PhaseOf(s).Failed?)
    && (!u.Compatible() ==> PhaseOf(s) in {Connecting, Asked, Answered, Refused, Failed})
    && match PhaseOf(s)
       case Connecting =>
         && s.server == FRESH && s.client.state == START && !s.client.data && s.toServer == [] && s.toClient == []
         && s.backlog != [] && s.backlog[0] == u.Control && Others(s.backlog[1..], u)
       case Asked =>
         && s.server == Server(PARAM_EXCHANGE, Some(u.Control), None, u.ip, DEFAULTS)
         && !s.client.data && s.toServer == [] && s.toClient == [[PARAM_EXCHANGE]] && Others(s.backlog, u)
       case Answered =>
         && s.server == Server(PARAM_EXCHANGE, Some(u.Control), None, u.ip, DEFAULTS)
         && !s.client.data && s.toServer == [Frame(u.conf, u.version)] && s.toClient == [] && Others(s.backlog, u)
       case Configured =>
         && s.server == Server(CREATE_STREAM, Some(u.Control), None, u.ip, Agreed(u.conf))
         && !s.client.data && s.toServer == [] && s.toClient == [[CREATE_STREAM]] && Others(s.backlog, u)
       case Opening =>
         && s.server == Server(CREATE_STREAM, Some(u.Control), None, u.ip, Agreed(u.conf))
         && s.client.data && s.toServer == [] && s.toClient == [] && Waiting(s.backlog, u)
       case Opened =>
         && s.server == Server(RUNNING, Some(u.Control), Some(u.Data), u.ip, Agreed(u.conf))
         && s.client.data && s.toServer == [] && s.toClient == [[RUNNING]] && Others(s.backlog, u)
       case Sending =>
         && s.server == Server(RUNNING, Some(u.Control), Some(u.Data), u.ip, Agreed(u.conf))
         && s.client.data && s.toServer == [] && s.toClient == [] && Others(s.backlog, u)
       case Closing =>
         && (s.server.state == RUNNING || s.server.state == ERROR)
         && s.server == Server(s.server.state, Some(u.Control), Some(u.Data), u.ip, Agreed(u.conf))
         && s.client.state == END && s.client.data && s.toServer == [[END]] && s.toClient == [] && Others(s.backlog, u)
       case Done =>
         && Over(s.server.state)
         && s.server == Server(s.server.state, Some(u.Control), Some(u.Data), u.ip, Agreed(u.conf))
         && s.client.state == END && s.client.data && s.toClient == [] && Others(s.backlog, u)
       case Refused =>
         && s.server == Server(ERROR, Some(u.Control), None, u.ip, Agreed(u.conf))
         && !s.client.data && s.toServer == [] && s.toClient == [[ERROR]] && Others(s.backlog, u)
       case Failed =>
         && s.server == Server(ERROR, Some(u.Control), None, u.ip, Agreed(u.conf))
         && !s.client.data && s.toServer == [] && s.toClient == [] && Others(s.backlog, u)
  }

  /** Exactly one of the waiting connections is the client's data connection. */
  ghost predicate Waiting(backlog: seq<Conn>, u: Setup) {
    exists i :: DataAt(backlog, u, i)
  }

  predicate DataAt(backlog: seq<Conn>, u: Setup, i: int) {
    0 <= i < |backlog| && backlog[i] == u.Data && Others(backlog[..i], u) && Others(backlog[i + 1..], u)
  }

  /**
   * Any frame of members, whatever their layout: the server goes on if and only if the first member called
   * client_version, letter case aside, is a string that starts with the package string.
   */
  lemma AnyFrameHandled(s: Server, ms: Members)
    requires s.state == PARAM_EXCHANGE
    requires Framable(ms) && RawFreeMembers(ms) && Nesting(Object(ms)) <= NESTING_LIMIT
    ensures FrameOf(ms) != []
    ensures var o, v := ServerHandles(s, FrameOf(ms)), Find(ms, K_VERSION);
            if v.Some? && v.value.String? && PACKAGE <= CString(v.value.s)
            then o == Outcome(s.(state := CREATE_STREAM, conf := o.next.conf), [[CREATE_STREAM]], 0)
            else o == Outcome(s.(state := ERROR, conf := o.next.conf), [[ERROR]], -1)
  {
    hide FrameOf, Read, Applied, Find, CString;
    AnyFrameRead(ms);
  }

  /**
   * The server takes over the client's settings, and goes on if and only if the client's version starts with
   * the package string.
   */
  lemma FrameHandled(s: Server, c: Config, version: seq<byte>)
    requires InRange(c) && Announced(version) && s.state == PARAM_EXCHANGE && s.conf == DEFAULTS
    ensures Frame(c, version) != []
    ensures ServerHandles(s, Frame(c, version))
         == if PACKAGE <= version
            then Outcome(s.(state := CREATE_STREAM, conf := Agreed(c)), [[CREATE_STREAM]], 0)
            else Outcome(s.(state := ERROR, conf := Agreed(c)), [[ERROR]], -1)
  {
    hide Frame, Read, Applied, VersionMatches, Described;
    FrameRead(c, version);
    TakenDescribed(c, version, DEFAULTS);
  }

  lemma OthersNext(conns: seq<Conn>, u: Setup, ip: int)
    requires Others(conns, u) && ip != u.ip
    ensures Others(conns + [Conn(ip, Outsider)], u)
  {
  }

  lemma WaitingNext(backlog: seq<Conn>, u: Setup, ip: int)
    requires Waiting(backlog, u) && ip != u.ip
    ensures Waiting(backlog + [Conn(ip, Outsider)], u)
  {
    var i :| DataAt(backlog, u, i);
    var more := backlog + [Conn(ip, Outsider)];
    assert more[..i] == backlog[..i] && more[i + 1..] == backlog[i + 1..] + [Conn(ip, Outsider)];
    assert DataAt(more, u, i);
  }

  lemma ArriveKeepsInv(s: System, u: Setup, ip: int)
    requires Inv(s, u) && Enabled(s, u, Arrive(ip))
    ensures Inv(Next(s, u, Arrive(ip)), u)
  {
    hide Frame, Others, Waiting;
    var c := Conn(ip, Outsider);
    if PhaseOf(s).Connecting? {
      OthersNext(s.backlog[1..], u, ip);
      assert (s.backlog + [c])[1..] == s.backlog[1..] + [c];
    } else if PhaseOf(s).Opening? {
      WaitingNext(s.backlog, u, ip);
    } else {
      OthersNext(s.backlog, u, ip);
    }
  }

  lemma StrangerStep(s: System, u: Setup)
    requires s.backlog != [] && s.server.ctl.Some? && s.server.clientIp == u.ip && Others(s.backlog[..1], u)
    ensures AcceptNext(s) == s.(backlog := s.backlog[1..], denied := s.denied + s.backlog[..1])
  {
    assert s.backlog[..1] == [s.backlog[0]];
    assert s.backlog[0] in s.backlog[..1];
  }

  lemma WaitingAccept(backlog: seq<Conn>, u: Setup)
    requires Waiting(backlog, u)
    ensures backlog != []
    ensures if backlog[0] == u.Data then Others(backlog[1..], u)
            else Others(backlog[..1], u) && Waiting(backlog[1..], u)
  {
    var i :| DataAt(backlog, u, i);
    if i > 0 {
      assert backlog[0] == backlog[..i][0];
      var rest := backlog[1..];
      assert rest[..i - 1] == backlog[..i][1..] && rest[i..] == backlog[i + 1..];
      assert DataAt(rest, u, i - 1);
    }
  }

  lemma OthersTail(conns: seq<Conn>, u: Setup)
    requires Others(conns, u) && conns != []
    ensures Others(conns[..1], u) && Others(conns[1..], u)
  {
  }

  lemma OthersJoin(conns: seq<Conn>, more: seq<Conn>, u: Setup)
    requires Others(conns, u) && Others(more, u)
    ensures Others(conns + more, u)
  {
  }

  lemma AcceptKeepsInv(s: System, u: Setup)
    requires Inv(s, u) && Enabled(s, u, Accept)
    ensures Inv(Next(s, u, Accept), u)
  {
    hide Frame, Others, Waiting;
    if PhaseOf(s).Opening? {
      WaitingAccept(s.backlog, u);
    } else if !PhaseOf(s).Connecting? {
      OthersTail(s.backlog, u);
    }
    if !PhaseOf(s).Connecting? && s.backlog[0] != u.Data {
      StrangerStep(s, u);
      OthersJoin(s.denied, s.backlog[..1], u);
    }
  }

  lemma ServerMessageKeepsInv(s: System, u: Setup)
    requires Inv(s, u) && Enabled(s, u, ServerMessage)
    ensures Inv(Next(s, u, ServerMessage), u)
  {
    hide Frame, Others, Waiting, Read, Applied, Named, VersionMatches;
    if PhaseOf(s).Answered? {
      FrameHandled(s.server, u.conf, u.version);
    }
  }

  lemma ClientMessageKeepsInv(s: System, u: Setup)
    requires Inv(s, u) && Enabled(s, u, ClientMessage)
    ensures Inv(Next(s, u, ClientMessage), u)
  {
    hide Frame, Others;
    if PhaseOf(s).Configured? {
      assert (s.backlog + [u.Data])[..|s.backlog|] == s.backlog;
      assert (s.backlog + [u.Data])[|s.backlog| + 1..] == [];
      assert Others([], u) by { NoOthers(u); }
      assert DataAt(s.backlog + [u.Data], u, |s.backlog|);
    }
  }

  lemma NoOthers(u: Setup)
    ensures Others([], u)
  {
  }

  lemma NextKeepsInv(s: System, u: Setup, e: Event)
    requires Inv(s, u) && Enabled(s, u, e)
    ensures Inv(Next(s, u, e), u)
  {
    match e
    case Arrive(ip) => ArriveKeepsInv(s, u, ip);
    case Accept => AcceptKeepsInv(s, u);
    case ServerMessage => ServerMessageKeepsInv(s, u);
    case ClientMessage => ClientMessageKeepsInv(s, u);
    case _ => CloseKeepsInv(s, u, e);
  }

  lemma CloseKeepsInv(s: System, u: Setup, e: Event)
    requires Inv(s, u) && Enabled(s, u, e) && (e.SendData? || e.DataClosed? || e.ClosedAtServer? || e.ClosedAtClient?)
    ensures Inv(Next(s, u, e), u)
  {
    hide Frame, Others, Waiting;
  }

  /** The invariant holds throughout every run. */
  lemma {:induction false} RunKeepsInv(run: seq<System>, events: seq<Event>, u: Setup, n: nat)
    requires u.Valid() && IsRun(run, events, u) && n < |run|
    ensures Inv(run[n], u)
  {
    hide Inv, Next, Enabled;
    if n == 0 {
      InitialInv(u);
    } else {
      RunKeepsInv(run, events, u, n - 1);
      assert run[n - 1 + 1] == Next(run[n - 1], u, events[n - 1]);
      NextKeepsInv(run[n - 1], u, events[n - 1]);
    }
  }

  lemma InitialInv(u: Setup)
    requires u.Valid()
    ensures Inv(Initial(u), u)
  {
  }

  // ---- What every run guarantees ----

  /**
   * Until the client is done, the server stands where the client stands or one state further, and at most
   * one message is under way.
   */
  lemma Lockstep(run: seq<System>, events: seq<Event>, u: Setup, n: nat)
    requires u.Valid() && IsRun(run, events, u) && n < |run|
    ensures var s := run[n];
            && |s.toServer| + |s.toClient| <= 1
            && (s.client.state != END && (u.Compatible() || !Over(s.server.state)) ==>
                  Stage(s.client.state) <= Stage(s.server.state) <= Stage(s.client.state) + 1
                  && Stage(s.server.state) <= 3)
  {
    hide Frame, Others, Waiting, IsRun;
    RunKeepsInv(run, events, u, n);
  }

  /** Only the client gets in, and the client always gets in. */
  lemma OnlyTheClient(run: seq<System>, events: seq<Event>, u: Setup, n: nat)
    requires u.Valid() && IsRun(run, events, u) && n < |run|
    ensures var s := run[n];
            && (s.server.ctl.Some? ==> s.server.ctl.value == u.Control)
            && (s.server.data.Some? ==> s.server.data.value == u.Data)
            && u.Control !in s.denied && u.Data !in s.denied
  {
    hide Frame, Waiting, IsRun;
    RunKeepsInv(run, events, u, n);
  }

  /** A stranger who is accepted is turned away, and nothing else about the session changes. */
  lemma StrangerDenied(run: seq<System>, events: seq<Event>, u: Setup, n: nat)
    requires u.Valid() && IsRun(run, events, u) && n < |events|
    requires events[n] == Accept && run[n].backlog != [] && run[n].backlog[0].opener == Outsider
    ensures var s := run[n]; run[n + 1] == s.(backlog := s.backlog[1..], denied := s.denied + [s.backlog[0]])
  {
    hide Frame, Waiting, Others;
    RunKeepsInv(run, events, u, n);
    var s := run[n];
    assert run[n + 1] == Next(s, u, Accept);
    FirstIsOther(s, u);
    StrangerStep(s, u);
  }

  lemma FirstIsOther(s: System, u: Setup)
    requires Inv(s, u) && s.backlog != [] && s.backlog[0].opener == Outsider
    ensures s.server.ctl.Some? && s.server.clientIp == u.ip && Others(s.backlog[..1], u)
    ensures s.backlog[..1] == [s.backlog[0]]
  {
    hide Frame, Waiting, Others;
    if PhaseOf(s).Opening? {
      WaitingAccept(s.backlog, u);
    } else if !PhaseOf(s).Connecting? {
      OthersTail(s.backlog, u);
    }
  }

  /** From the creation of streams on, both sides run the same test exactly when the client asked for a block size. */
  lemma SameSettings(run: seq<System>, events: seq<Event>, u: Setup, n: nat)
    requires u.Valid() && IsRun(run, events, u) && n < |run|
    requires run[n].server.state in {CREATE_STREAM, RUNNING, END}
    ensures run[n].server.conf == run[n].client.conf <==> u.conf.blksize != 0
  {
    hide Frame, Others, Waiting, IsRun;
    RunKeepsInv(run, events, u, n);
  }

  /** A client of a matching version never fails, and no message meets a worker that does not expect it. */
  lemma NothingUnexpected(run: seq<System>, events: seq<Event>, u: Setup, n: nat)
    requires u.Valid() && IsRun(run, events, u) && n < |run|
    ensures var s := run[n];
            u.Compatible() ==>
            && s.client.state != ERROR
            && (s.server.state == ERROR ==> s.client.state == END)
            && (Enabled(s, u, ServerMessage) ==> ServerHandles(s.server, s.toServer[0]).ret >= 0)
            && (Enabled(s, u, ClientMessage) ==> ClientHandles(s.client, s.toClient[0]).ret >= 0)
  {
    hide Frame, Others, Waiting, IsRun, Read, Applied, Named, VersionMatches;
    RunKeepsInv(run, events, u, n);
    var s := run[n];
    if PhaseOf(s).Answered? {
      FrameHandled(s.server, u.conf, u.version);
    }
  }

  /**
   * A client of another version never gets past the exchange of parameters: it opens no data connection, and it
   * has failed like the server as soon as it has read the server's answer.
   */
  lemma OtherVersion(run: seq<System>, events: seq<Event>, u: Setup, n: nat)
    requires u.Valid() && IsRun(run, events, u) && n < |run| && !u.Compatible()
    ensures var s := run[n];
            && s.server.state in {START, PARAM_EXCHANGE, ERROR} && s.client.state in {START, PARAM_EXCHANGE, ERROR}
            && s.server.data == None && !s.client.data
            && (s.server.state == ERROR ==>
                  if s.client.state == ERROR then s.toClient == []
                  else s.client.state == PARAM_EXCHANGE && s.toClient == [[ERROR]])
            && (s.client.state == ERROR ==> s.server.state == ERROR)
  {
    hide Frame, Others, Waiting, IsRun;
    RunKeepsInv(run, events, u, n);
  }

  /** The events lead from one state to another. */
  ghost predicate Leads(s: System, u: Setup, events: seq<Event>, t: System)
    decreases |events|
  {
    if events == [] then s == t
    else Enabled(s, u, events[0]) && Leads(Next(s, u, events[0]), u, events[1..], t)
  }

  function PhaseNumber(p: Phase): nat {
    match p
    case Connecting => 0
    case Asked => 1
    case Answered => 2
    case Configured => 3
    case Opening => 4
    case Opened => 5
    case Sending => 6
    case Closing => 7
    case Done => 8
    case Refused => 3
    case Failed => 4
  }

  /** The event that takes the session further. */
  function Forward(s: System): Event {
    match PhaseOf(s)
    case Connecting => Accept
    case Opening => Accept
    case Answered => ServerMessage
    case Closing => ServerMessage
    case Sending => SendData
    case _ => ClientMessage
  }

  /** The session is over on the server's side, and no answer is under way. */
  predicate Finished(s: System, u: Setup) {
    if u.Compatible() then Over(s.server.state) else s.client.state == ERROR
  }

  lemma ForwardStep(s: System, u: Setup)
    requires Inv(s, u) && !Finished(s, u)
    ensures Enabled(s, u, Forward(s))
    ensures var t := Next(s, u, Forward(s));
            if PhaseOf(s).Closing? then t.server.state == END && t.client.state == END
            else if PhaseOf(s).Refused? then t.server.state == ERROR && t.client.state == ERROR
            else !Finished(t, u)
                 && (PhaseNumber(PhaseOf(s)) < PhaseNumber(PhaseOf(t))
                     || (PhaseOf(s) == PhaseOf(t) && |t.backlog| < |s.backlog|))
  {
    hide Frame, Others, Waiting, Read, Applied, Named, VersionMatches;
    if PhaseOf(s).Answered? {
      FrameHandled(s.server, u.conf, u.version);
    } else if PhaseOf(s).Opening? {
      WaitingAccept(s.backlog, u);
      if s.backlog[0] != u.Data {
        StrangerStep(s, u);
      }
    }
  }

  /**
   * From every state of a run in which the server is still serving, the session can be finished on both sides;
   * a client of another version fails, together with the server.
   */
  lemma {:induction false} CanFinish(s: System, u: Setup) returns (events: seq<Event>, t: System)
    requires Inv(s, u) && !Finished(s, u)
    ensures Leads(s, u, events, t)
    ensures t.client.state == t.server.state == if u.Compatible() then END else ERROR
    decreases 8 - PhaseNumber(PhaseOf(s)), |s.backlog|
  {
    hide Inv, Next, Enabled, Forward, Finished;
    ForwardStep(s, u);
    CloseMeans(s, u);
    var e := Forward(s);
    NextKeepsInv(s, u, e);
    if PhaseOf(s).Closing? || PhaseOf(s).Refused? {
      events, t := [e], Next(s, u, e);
      assert events[1..] == [];
    } else {
      var rest;
      rest, t := CanFinish(Next(s, u, e), u);
      events := [e] + rest;
      assert events[1..] == rest;
    }
  }

  lemma CloseMeans(s: System, u: Setup)
    requires Inv(s, u)
    ensures PhaseOf(s).Closing? ==> u.Compatible()
    ensures PhaseOf(s).Refused? ==> !u.Compatible()
  {
  }
}
