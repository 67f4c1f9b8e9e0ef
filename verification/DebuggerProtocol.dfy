/** The debugger server of jerry-core/debugger/debugger.c and its client of jerry-debugger/jerry_client_main.py,
    talking over two ordered streams. Messages are whole packets; what the fragments of a payload carry is the
    subject of module Fragments. */
module DebuggerProtocol {

  // ---------------------------------------------------------------- messages

  /** Messages of the client. `whole` and `last` tell whether a payload ends with the message. */
  datatype ToServer =
    | FreeByteCode(cp: nat)
    | UpdateBreakpoint
    | ExceptionConfig(enable: bool)
    | ParserConfig(enable: bool)
    | Memstats
    | Stop
    | ParserResume
    | ClientSource(whole: bool)
    | ClientSourcePart(last: bool)
    | NoMoreSources
    | ContextReset
    | Continue
    | Step
    | Next
    | Finish
    | GetBacktrace
    | Eval(whole: bool)
    | EvalPart(last: bool)
    | GetScopeChain
    | GetScopeVariables

  function TypeCode(m: ToServer): nat {
    match m
    case FreeByteCode(_) => 1
    case UpdateBreakpoint => 2
    case ExceptionConfig(_) => 3
    case ParserConfig(_) => 4
    case Memstats => 5
    case Stop => 6
    case ParserResume => 7
    case ClientSource(_) => 8
    case ClientSourcePart(_) => 9
    case NoMoreSources => 10
    case ContextReset => 11
    case Continue => 12
    case Step => 13
    case Next => 14
    case Finish => 15
    case GetBacktrace => 16
    case Eval(_) => 17
    case EvalPart(_) => 18
    case GetScopeChain => 19
    case GetScopeVariables => 20
  }

  const CONTINUE := 12 // the first message type that needs breakpoint mode

  /** Messages of the server. Printing stands for output, parser and exception-string messages. */
  datatype ToClient =
    | BreakpointHit
    | ExceptionHit
    | ReleaseByteCode(cp: nat)
    | WaitingAfterParse
    | WaitForSource
    | MemstatsReceive
    | BacktraceTotal
    | Backtrace
    | BacktraceEnd
    | EvalResult
    | EvalResultEnd
    | ScopeChain
    | ScopeChainEnd
    | ScopeVariables
    | ScopeVariablesEnd
    | Printing

  // ---------------------------------------------------------------- the server

  datatype Expected = Nothing | MoreEval | MoreSource

  /** Where the engine is: running, in the loop of jerry_debugger_breakpoint_hit, in the loop of
      jerry_debugger_wait_for_client_source, or waiting after a parse. */
  datatype Phase = Running | AtBreakpoint | AwaitingSource | AwaitingParser

  /** `debugger_flags` */
  datatype Flags = Flags(
    connected: bool,
    breakpointMode: bool,
    vmStop: bool,
    ignoreException: bool,
    parserWait: bool,
    parserWaitMode: bool,
    sourceMode: bool,
    noSource: bool,
    resetMode: bool)

  /** The flags, the byte code that waits to be freed, and, of the receive call that is under way, its resume
      flag and its expected type. */
  datatype Server = Server(flags: Flags, released: seq<nat>, resume: bool, expected: Expected, phase: Phase)

  /** What the engine makes of a request: whether an evaluation ends in a raised exception, and how many
      messages a reply takes before its last one. */
  datatype Outcome = Outcome(raises: bool, parts: nat)

  /** `jerry_debugger_transport_close` */
  function Close(s: Server): Server {
    s.(flags := Flags(false, false, false, false, false, false, false, false, false))
  }

  function Repeat<T>(n: nat, m: T): seq<T> {
    seq(n, _ => m)
  }

  /** The cases in which jerry_debugger_process_message closes the connection: the message needs breakpoint mode,
      it is not the part that must follow, byte code is freed out of order, or a mode is not on. */
  predicate Refuses(s: Server, m: ToServer) {
    || (TypeCode(m) >= CONTINUE && !s.flags.breakpointMode)
    || (s.expected == MoreEval && !m.EvalPart?)
    || (s.expected == MoreSource && !m.ClientSourcePart?)
    || (s.expected == Nothing &&
          (|| m.EvalPart? || m.ClientSourcePart?
           || (m.FreeByteCode? && (s.released == [] || s.released[0] != m.cp))
           || (m.ParserResume? && !s.flags.parserWaitMode)
           || ((m.ClientSource? || m.NoMoreSources? || m.ContextReset?) && !s.flags.sourceMode)))
  }

  /** What must follow a message. */
  function Opens(m: ToServer): Expected {
    if (m.Eval? && !m.whole) || (m.EvalPart? && !m.last) then MoreEval
    else if (m.ClientSource? && !m.whole) || (m.ClientSourcePart? && !m.last) then MoreSource
    else Nothing
  }

  /** The message completes a client source, or tells that there is none. */
  predicate EndsSource(m: ToServer) {
    (m.ClientSource? && m.whole) || (m.ClientSourcePart? && m.last) || m.NoMoreSources? || m.ContextReset?
  }

  predicate EndsEval(m: ToServer) {
    (m.Eval? && m.whole) || (m.EvalPart? && m.last)
  }

  predicate Resumes(m: ToServer) {
    m.Continue? || m.Step? || m.Next? || m.Finish?
  }

  /** The effect of a message that is not refused, flag by flag. */
  function AcceptFlags(f: Flags, m: ToServer, outcome: Outcome): Flags {
    f.(vmStop := if m.Continue? then false
                 else if m.Stop? || Resumes(m) || (EndsEval(m) && outcome.raises) then true
                 else f.vmStop,
       ignoreException := if m.ExceptionConfig? then !m.enable else f.ignoreException,
       parserWait := if m.ParserConfig? then m.enable else f.parserWait,
       parserWaitMode := f.parserWaitMode && !m.ParserResume?,
       sourceMode := f.sourceMode && !EndsSource(m),
       noSource := f.noSource || m.NoMoreSources?,
       resetMode := f.resetMode || m.ContextReset?)
  }

  function Accept(s: Server, m: ToServer, outcome: Outcome): Server {
    s.(flags := AcceptFlags(s.flags, m, outcome),
       released := if m.FreeByteCode? && s.released != [] then s.released[1..] else s.released,
       resume := if m.Stop? then false
                 else s.resume || Resumes(m) || EndsSource(m) || (EndsEval(m) && outcome.raises),
       expected := Opens(m))
  }

  /** What the server sends for a message that is not refused. */
  function Reply(m: ToServer, outcome: Outcome): seq<ToClient> {
    if m.Memstats? then [MemstatsReceive]
    else if m.GetBacktrace? then Repeat(outcome.parts, Backtrace) + [BacktraceEnd]
    else if m.GetScopeChain? then Repeat(outcome.parts, ScopeChain) + [ScopeChainEnd]
    else if m.GetScopeVariables? then Repeat(outcome.parts, ScopeVariables) + [ScopeVariablesEnd]
    else if EndsEval(m) && !outcome.raises then Repeat(outcome.parts, EvalResult) + [EvalResultEnd]
    else []
  }

  /** The whole effect of a message: false means that the connection has been closed. */
  datatype Handled = Handled(ok: bool, server: Server, reply: seq<ToClient>)

  function Handle(s: Server, m: ToServer, outcome: Outcome): Handled {
    if Refuses(s, m) then Handled(false, Close(s), []) else Handled(true, Accept(s, m, outcome), Reply(m, outcome))
  }

  /** No message is at hand: the receive call returns, and the loop around it decides what to do. A call that
      waits for the rest of a payload does not return. */
  function EndReceive(s: Server): Server {
    if s.expected != Nothing then s
    else match s.phase
      case Running => s.(resume := false)
      case AtBreakpoint =>
        if s.resume then s.(flags := s.flags.(breakpointMode := false), resume := false, phase := Running) else s
      case AwaitingSource =>
        if !s.resume then s
        else if s.flags.resetMode then s.(flags := s.flags.(resetMode := false), resume := false, phase := Running)
        else if s.flags.noSource then s.(flags := s.flags.(sourceMode := false), resume := false, phase := Running)
        else if !s.flags.sourceMode then s.(resume := false, phase := Running)
        else s.(resume := false)
      case AwaitingParser =>
        if s.flags.parserWaitMode then s.(resume := false) else s.(resume := false, phase := Running)
  }

  // ---------------------------------------------------------------- the client

  /** Of the client: whether it shows its prompt, and how many source files it still has to offer. */
  datatype Client = Client(prompt: bool, sources: nat)

  /** The messages that carry a payload in n + 1 fragments. */
  function SourceFragments(n: nat): seq<ToServer> {
    if n == 0 then [ClientSource(true)] else [ClientSource(false)] + Repeat(n - 1, ClientSourcePart(false)) + [ClientSourcePart(true)]
  }

  function EvalFragments(n: nat): seq<ToServer> {
    if n == 0 then [Eval(true)] else [Eval(false)] + Repeat(n - 1, EvalPart(false)) + [EvalPart(true)]
  }

  /** The messages after which the client shows its prompt. */
  predicate GivesPrompt(m: ToClient) {
    || m.BreakpointHit? || m.ExceptionHit? || m.MemstatsReceive? || m.BacktraceEnd? || m.EvalResultEnd?
    || m.ScopeChainEnd? || m.ScopeVariablesEnd?
  }

  /** `JerryDebugger.process_messages`, for one message; a source file is sent in fragments + 1 messages. */
  function ClientReceive(c: Client, m: ToClient, fragments: nat): (Client, seq<ToServer>) {
    if GivesPrompt(m) then (c.(prompt := true), [])
    else match m
      case ReleaseByteCode(cp) => (c, [FreeByteCode(cp)])
      case WaitingAfterParse => (c, [ParserResume])
      case WaitForSource =>
        if c.sources == 0 then (c, [NoMoreSources]) else (c.(sources := c.sources - 1), SourceFragments(fragments))
      case _ => (c, [])
  }

  /** What the user can ask for at the prompt and takes the prompt away. */
  datatype Command = Resume(m: ToServer) | Ask(m: ToServer) | Evaluate(fragments: nat)

  predicate GoodCommand(command: Command) {
    match command
    case Resume(m) => m.Continue? || m.Step? || m.Next? || m.Finish?
    case Ask(m) => m.GetBacktrace? || m.GetScopeChain? || m.GetScopeVariables? || m.Memstats?
    case Evaluate(_) => true
  }

  function CommandMessages(command: Command): seq<ToServer> {
    match command
    case Resume(m) => [m]
    case Ask(m) => [m]
    case Evaluate(n) => EvalFragments(n)
  }

  // ---------------------------------------------------------------- both ends

  datatype World = World(server: Server, client: Client, toServer: seq<ToServer>, toClient: seq<ToClient>)

  datatype Move =
    | ServerProcesses(outcome: Outcome)
    | ServerPauses
    | EngineHits(exception: bool)
    | EngineAsksSource
    | EngineParses
    | EngineReleases(cp: nat)
    | EnginePrints
    | ClientProcesses(fragments: nat)
    | UserStops
    | UserConfigures(m: ToServer)
    | UserCommands(command: Command)

  /** What can happen next. The engine only acts outside a receive call that waits for a payload. */
  predicate Enabled(w: World, move: Move) {
    match move
    case ServerProcesses(_) => w.server.flags.connected && w.toServer != []
    case ServerPauses => w.server.flags.connected
    case EngineHits(_) => w.server.flags.connected && w.server.phase == Running && w.server.expected == Nothing
    case EngineAsksSource =>
      w.server.flags.connected && w.server.phase == Running && w.server.expected == Nothing && !w.server.flags.breakpointMode
    case EngineParses =>
      w.server.flags.connected && w.server.phase == Running && w.server.expected == Nothing && w.server.flags.parserWait
    case EngineReleases(_) => w.server.flags.connected
    case EnginePrints => w.server.flags.connected
    case ClientProcesses(_) => w.toClient != []
    case UserStops => true
    case UserConfigures(m) => m.UpdateBreakpoint? || m.ExceptionConfig? || m.ParserConfig?
    case UserCommands(command) => w.client.prompt && GoodCommand(command)
  }

  function Do(w: World, move: Move): World
    requires Enabled(w, move)
  {
    match move
    case ServerProcesses(outcome) =>
      var handled := Handle(w.server, w.toServer[0], outcome);
      World(handled.server, w.client, w.toServer[1..], w.toClient + handled.reply)
    case ServerPauses => w.(server := EndReceive(w.server))
    case EngineHits(exception) =>
      w.(server := w.server.(flags := w.server.flags.(breakpointMode := true), resume := false, phase := AtBreakpoint),
         toClient := w.toClient + [if exception then ExceptionHit else BreakpointHit])
    case EngineAsksSource =>
      w.(server := w.server.(flags := w.server.flags.(sourceMode := true), resume := false, phase := AwaitingSource),
         toClient := w.toClient + [WaitForSource])
    case EngineParses =>
      w.(server := w.server.(flags := w.server.flags.(parserWaitMode := true), resume := false, phase := AwaitingParser),
         toClient := w.toClient + [WaitingAfterParse])
    case EngineReleases(cp) =>
      w.(server := w.server.(released := w.server.released + [cp]), toClient := w.toClient + [ReleaseByteCode(cp)])
    case EnginePrints => w.(toClient := w.toClient + [Printing])
    case ClientProcesses(fragments) =>
      var (c, answer) := ClientReceive(w.client, w.toClient[0], fragments);
      World(w.server, c, w.toServer + answer, w.toClient[1..])
    case UserStops => w.(toServer := w.toServer + [Stop])
    case UserConfigures(m) => w.(toServer := w.toServer + [m])
    case UserCommands(command) =>
      w.(client := w.client.(prompt := false), toServer := w.toServer + CommandMessages(command))
  }

  /** After the configuration message: the server runs with VM_STOP set, nothing is under way. */
  predicate Initial(w: World) {
    && w.server == Server(Flags(true, false, true, false, false, false, false, false, false), [], false, Nothing, Running)
    && !w.client.prompt && w.toServer == [] && w.toClient == []
  }

  /** The moves can be made one after the other from w on. */
  predicate Run(w: World, moves: seq<Move>)
    decreases |moves|
  {
    moves == [] || (Enabled(w, moves[0]) && Run(Do(w, moves[0]), moves[1..]))
  }

  function After(w: World, moves: seq<Move>): World
    requires Run(w, moves)
    decreases |moves|
  {
    if moves == [] then w else After(Do(w, moves[0]), moves[1..])
  }

  // ---------------------------------------------------------------- counting what is in flight

  function Count<T>(q: seq<T>, test: T -> bool): nat {
    if q == [] then 0 else (if test(q[0]) then 1 else 0) + Count(q[1..], test)
  }

  lemma {:induction false} CountConcat<T>(a: seq<T>, b: seq<T>, test: T -> bool)
    ensures Count(a + b, test) == Count(a, test) + Count(b, test)
  {
    if a == [] {
      assert a + b == b;
    } else {
      CountConcat(a[1..], b, test);
      assert (a + b)[1..] == a[1..] + b;
    }
  }

  lemma {:induction false} CountRepeat<T>(n: nat, m: T, test: T -> bool)
    requires !test(m)
    ensures Count(Repeat(n, m), test) == 0
  {
    if n > 0 {
      CountRepeat(n - 1, m, test);
      assert Repeat(n, m)[1..] == Repeat(n - 1, m);
    }
  }

  lemma CountOne<T>(m: T, test: T -> bool)
    ensures Count([m], test) == if test(m) then 1 else 0
  {
    assert [m][1..] == [];
  }

  lemma {:induction false} CountMember<T>(q: seq<T>, m: T, test: T -> bool)
    requires m in q && test(m)
    ensures Count(q, test) >= 1
  {
    if q[0] != m {
      CountMember(q[1..], m, test);
    }
  }

  /** The message that completes a request or a command to resume. */
  function IsCommand(): ToServer -> bool {
    (m: ToServer) =>
      || m.Continue? || m.Step? || m.Next? || m.Finish? || m.GetBacktrace? || m.GetScopeChain? || m.GetScopeVariables?
      || m.Memstats? || (m.Eval? && m.whole) || (m.EvalPart? && m.last)
  }

  function IsPrompting(): ToClient -> bool {
    (m: ToClient) => GivesPrompt(m)
  }

  function IsSourceAnswer(): ToServer -> bool {
    (m: ToServer) => (m.ClientSource? && m.whole) || (m.ClientSourcePart? && m.last) || m.NoMoreSources?
  }

  function IsSourceAsk(): ToClient -> bool {
    (m: ToClient) => m.WaitForSource?
  }

  function IsParserAnswer(): ToServer -> bool {
    (m: ToServer) => m.ParserResume?
  }

  function IsParserAsk(): ToClient -> bool {
    (m: ToClient) => m.WaitingAfterParse?
  }

  /** Who may act: the user at the prompt, the server on a command, the client on a hit or a reply, or the engine.
      It is one token. */
  function Tokens(w: World): nat {
    (if w.client.prompt then 1 else 0) + Count(w.toServer, IsCommand()) + Count(w.toClient, IsPrompting())
    + (if w.server.phase == AtBreakpoint && !w.server.resume then 0 else 1)
  }

  /** The token of the source dialogue. */
  function SourceTokens(w: World): nat {
    Count(w.toServer, IsSourceAnswer()) + Count(w.toClient, IsSourceAsk())
    + (if w.server.phase == AwaitingSource && w.server.flags.sourceMode then 0 else 1)
  }

  /** The token of the wait after a parse. */
  function ParserTokens(w: World): nat {
    Count(w.toServer, IsParserAnswer()) + Count(w.toClient, IsParserAsk())
    + (if w.server.phase == AwaitingParser && w.server.flags.parserWaitMode then 0 else 1)
  }

  function Frees(q: seq<ToServer>): seq<nat> {
    if q == [] then [] else (if q[0].FreeByteCode? then [q[0].cp] else []) + Frees(q[1..])
  }

  function Releases(q: seq<ToClient>): seq<nat> {
    if q == [] then [] else (if q[0].ReleaseByteCode? then [q[0].cp] else []) + Releases(q[1..])
  }

  /** Payloads in the stream are complete and their parts follow each other. */
  predicate Framed(expected: Expected, q: seq<ToServer>)
    decreases |q|
  {
    if q == [] then expected == Nothing
    else match expected
      case MoreEval => q[0].EvalPart? && Framed(Opens(q[0]), q[1..])
      case MoreSource => q[0].ClientSourcePart? && Framed(Opens(q[0]), q[1..])
      case Nothing =>
        && !q[0].EvalPart? && !q[0].ClientSourcePart? && !q[0].ContextReset?
        && Framed(Opens(q[0]), q[1..])
  }

  // ---------------------------------------------------------------- what every step keeps

  predicate Inv(w: World) {
    && ModesAgree(w.server)
    && Tokens(w) <= 1 && SourceTokens(w) <= 1 && ParserTokens(w) <= 1
    && Framed(w.server.expected, w.toServer)
    && w.server.released == Frees(w.toServer) + Releases(w.toClient)
  }

  /** The mode flags are those of the loop that the engine is in. */
  predicate ModesAgree(s: Server) {
    && s.flags.connected
    && (s.flags.breakpointMode <==> s.phase == AtBreakpoint)
    && (s.flags.sourceMode ==> s.phase == AwaitingSource)
    && (s.flags.parserWaitMode ==> s.phase == AwaitingParser)
    && (s.phase == AwaitingSource && s.resume ==> !s.flags.sourceMode)
    && !s.flags.resetMode
  }

  // ---------------------------------------------------------------- helpers about streams

  lemma {:induction false} FreesConcat(a: seq<ToServer>, b: seq<ToServer>)
    ensures Frees(a + b) == Frees(a) + Frees(b)
  {
    if a == [] {
      assert a + b == b;
    } else {
      FreesConcat(a[1..], b);
      assert (a + b)[1..] == a[1..] + b;
      var first := if a[0].FreeByteCode? then [a[0].cp] else [];
      assert first + (Frees(a[1..]) + Frees(b)) == (first + Frees(a[1..])) + Frees(b);
    }
  }

  lemma {:induction false} ReleasesConcat(a: seq<ToClient>, b: seq<ToClient>)
    ensures Releases(a + b) == Releases(a) + Releases(b)
  {
    if a == [] {
      assert a + b == b;
    } else {
      ReleasesConcat(a[1..], b);
      assert (a + b)[1..] == a[1..] + b;
      var first := if a[0].ReleaseByteCode? then [a[0].cp] else [];
      assert first + (Releases(a[1..]) + Releases(b)) == (first + Releases(a[1..])) + Releases(b);
    }
  }

  /** Whole messages may follow complete payloads. */
  lemma {:induction false} FramedConcat(expected: Expected, a: seq<ToServer>, b: seq<ToServer>)
    requires Framed(expected, a) && Framed(Nothing, b)
    ensures Framed(expected, a + b)
    decreases |a|
  {
    if a == [] {
      assert a + b == b;
    } else {
      FramedConcat(Opens(a[0]), a[1..], b);
      assert (a + b)[1..] == a[1..] + b && (a + b)[0] == a[0];
    }
  }

  /** While the rest of an evaluation is awaited, its last part is on the way; likewise for a source. */
  lemma {:induction false} RestIsComing(expected: Expected, q: seq<ToServer>)
    requires Framed(expected, q)
    ensures expected == MoreEval ==> Count(q, IsCommand()) >= 1
    ensures expected == MoreSource ==> Count(q, IsSourceAnswer()) >= 1
    decreases |q|
  {
    if q != [] && expected == MoreEval && !q[0].last {
      RestIsComing(MoreEval, q[1..]);
    }
    if q != [] && expected == MoreSource && !q[0].last {
      RestIsComing(MoreSource, q[1..]);
    }
  }

  /** A fragmented payload is one command, or one answer, and is well framed. */
  lemma {:induction false} PartsFramed(n: nat)
    ensures Framed(MoreEval, Repeat(n, EvalPart(false)) + [EvalPart(true)])
    ensures Framed(MoreSource, Repeat(n, ClientSourcePart(false)) + [ClientSourcePart(true)])
  {
    var a, b := Repeat(n, EvalPart(false)) + [EvalPart(true)], Repeat(n, ClientSourcePart(false)) + [ClientSourcePart(true)];
    if n == 0 {
      assert a == [EvalPart(true)] && b == [ClientSourcePart(true)];
      assert a[1..] == [] && b[1..] == [];
    } else {
      PartsFramed(n - 1);
      assert a[1..] == Repeat(n - 1, EvalPart(false)) + [EvalPart(true)];
      assert b[1..] == Repeat(n - 1, ClientSourcePart(false)) + [ClientSourcePart(true)];
    }
  }

  /** A fragmented payload: its first message and its parts. */
  lemma FragmentCounts(first: ToServer, part: ToServer, last: ToServer, n: nat, test: ToServer -> bool)
    requires !test(first) && !test(part)
    ensures Count([first] + (Repeat(n, part) + [last]), test) == if test(last) then 1 else 0
  {
    CountConcat([first], Repeat(n, part) + [last], test);
    CountOne(first, test);
    PartsCount(n, part, last, test);
  }

  lemma FragmentsFramed(first: ToServer, part: ToServer, last: ToServer, n: nat)
    requires (first, part, last) == (Eval(false), EvalPart(false), EvalPart(true))
          || (first, part, last) == (ClientSource(false), ClientSourcePart(false), ClientSourcePart(true))
    ensures Framed(Nothing, [first] + (Repeat(n, part) + [last])) && Frees([first] + (Repeat(n, part) + [last])) == []
  {
    PartsFramed(n);
    PartsFree(n, part, last);
    var q := [first] + (Repeat(n, part) + [last]);
    assert q[1..] == Repeat(n, part) + [last];
  }

  lemma EvalMessages(n: nat)
    ensures Framed(Nothing, EvalFragments(n)) && Frees(EvalFragments(n)) == []
    ensures Count(EvalFragments(n), IsCommand()) == 1
    ensures Count(EvalFragments(n), IsSourceAnswer()) == 0 && Count(EvalFragments(n), IsParserAnswer()) == 0
  {
    if n == 0 {
      OneMessage(Eval(true));
    } else {
      hide Count, Framed, Frees;
      var first, part, last := Eval(false), EvalPart(false), EvalPart(true);
      assert EvalFragments(n) == [first] + (Repeat(n - 1, part) + [last]);
      FragmentsFramed(first, part, last, n - 1);
      FragmentCounts(first, part, last, n - 1, IsCommand());
      FragmentCounts(first, part, last, n - 1, IsSourceAnswer());
      FragmentCounts(first, part, last, n - 1, IsParserAnswer());
    }
  }

  lemma SourceMessages(n: nat)
    ensures Framed(Nothing, SourceFragments(n)) && Frees(SourceFragments(n)) == []
    ensures Count(SourceFragments(n), IsCommand()) == 0 && Count(SourceFragments(n), IsParserAnswer()) == 0
    ensures Count(SourceFragments(n), IsSourceAnswer()) == 1
  {
    if n == 0 {
      OneMessage(ClientSource(true));
    } else {
      hide Count, Framed, Frees;
      var first, part, last := ClientSource(false), ClientSourcePart(false), ClientSourcePart(true);
      assert SourceFragments(n) == [first] + (Repeat(n - 1, part) + [last]);
      FragmentsFramed(first, part, last, n - 1);
      FragmentCounts(first, part, last, n - 1, IsCommand());
      FragmentCounts(first, part, last, n - 1, IsSourceAnswer());
      FragmentCounts(first, part, last, n - 1, IsParserAnswer());
    }
  }

  /** A message that stands for itself. */
  lemma OneMessage(m: ToServer)
    ensures Count([m], IsCommand()) == if IsCommand()(m) then 1 else 0
    ensures Count([m], IsSourceAnswer()) == if IsSourceAnswer()(m) then 1 else 0
    ensures Count([m], IsParserAnswer()) == if IsParserAnswer()(m) then 1 else 0
    ensures Frees([m]) == if m.FreeByteCode? then [m.cp] else []
    ensures Opens(m) == Nothing && !m.EvalPart? && !m.ClientSourcePart? && !m.ContextReset? ==> Framed(Nothing, [m])
  {
    assert [m][1..] == [];
  }

  lemma PartsCount<T>(n: nat, part: T, last: T, test: T -> bool)
    requires !test(part)
    ensures Count(Repeat(n, part) + [last], test) == if test(last) then 1 else 0
  {
    CountConcat(Repeat(n, part), [last], test);
    CountRepeat(n, part, test);
    CountOne(last, test);
  }

  lemma {:induction false} PartsFree(n: nat, part: ToServer, last: ToServer)
    requires !part.FreeByteCode? && !last.FreeByteCode?
    ensures Frees(Repeat(n, part) + [last]) == []
  {
    var q := Repeat(n, part) + [last];
    if n == 0 {
      assert q == [last] && q[1..] == [];
    } else {
      PartsFree(n - 1, part, last);
      assert q[1..] == Repeat(n - 1, part) + [last];
    }
  }

  lemma {:induction false} NoReleases(q: seq<ToClient>)
    requires forall m | m in q :: !m.ReleaseByteCode?
    ensures Releases(q) == []
  {
    if q != [] {
      NoReleases(q[1..]);
    }
  }

  // ---------------------------------------------------------------- what a sent message changes

  /** Messages added to the stream to the server. */
  lemma {:induction false} Sent(w: World, more: seq<ToServer>)
    ensures var v := w.(toServer := w.toServer + more);
            && Tokens(v) == Tokens(w) + Count(more, IsCommand())
            && SourceTokens(v) == SourceTokens(w) + Count(more, IsSourceAnswer())
            && ParserTokens(v) == ParserTokens(w) + Count(more, IsParserAnswer())
            && Frees(v.toServer) == Frees(w.toServer) + Frees(more)
    ensures Framed(w.server.expected, w.toServer) && Framed(Nothing, more)
            ==> Framed(w.server.expected, w.toServer + more)
  {
    hide Count, Framed, Frees;
    CountConcat(w.toServer, more, IsCommand());
    CountConcat(w.toServer, more, IsSourceAnswer());
    CountConcat(w.toServer, more, IsParserAnswer());
    FreesConcat(w.toServer, more);
    if Framed(w.server.expected, w.toServer) && Framed(Nothing, more) {
      FramedConcat(w.server.expected, w.toServer, more);
    }
  }

  /** Messages added to the stream to the client. */
  lemma {:induction false} Told(w: World, more: seq<ToClient>)
    ensures var v := w.(toClient := w.toClient + more);
            && Tokens(v) == Tokens(w) + Count(more, IsPrompting())
            && SourceTokens(v) == SourceTokens(w) + Count(more, IsSourceAsk())
            && ParserTokens(v) == ParserTokens(w) + Count(more, IsParserAsk())
            && Releases(v.toClient) == Releases(w.toClient) + Releases(more)
  {
    hide Count, Releases;
    CountConcat(w.toClient, more, IsPrompting());
    CountConcat(w.toClient, more, IsSourceAsk());
    CountConcat(w.toClient, more, IsParserAsk());
    ReleasesConcat(w.toClient, more);
  }

  /** A reply holds exactly one message that gives the prompt back. */
  lemma ReplyCounts(n: nat, part: ToClient, last: ToClient)
    requires part in {EvalResult, Backtrace, ScopeChain, ScopeVariables}
    requires last in {EvalResultEnd, BacktraceEnd, ScopeChainEnd, ScopeVariablesEnd}
    ensures var q := Repeat(n, part) + [last];
            && Count(q, IsPrompting()) == 1 && Count(q, IsSourceAsk()) == 0 && Count(q, IsParserAsk()) == 0
            && Releases(q) == []
  {
    PartsCount(n, part, last, IsPrompting());
    PartsCount(n, part, last, IsSourceAsk());
    PartsCount(n, part, last, IsParserAsk());
    NoReleases(Repeat(n, part) + [last]);
  }

  // ---------------------------------------------------------------- every step keeps the invariant

  /** What taking the first message off the stream to the server does to the tokens. */
  lemma Taken(w: World)
    requires w.toServer != []
    ensures var m, v := w.toServer[0], w.(toServer := w.toServer[1..]);
            && Tokens(w) == Tokens(v) + (if IsCommand()(m) then 1 else 0)
            && SourceTokens(w) == SourceTokens(v) + (if IsSourceAnswer()(m) then 1 else 0)
            && ParserTokens(w) == ParserTokens(v) + (if IsParserAnswer()(m) then 1 else 0)
            && Frees(w.toServer) == (if m.FreeByteCode? then [m.cp] else []) + Frees(v.toServer)
  {
  }

  /** The message at the head is never refused. */
  lemma HeadAccepted(w: World)
    requires Inv(w) && w.toServer != []
    ensures var m := w.toServer[0];
            && !Refuses(w.server, m) && !m.ContextReset?
            && Framed(Opens(m), w.toServer[1..])
            && (m.FreeByteCode? ==> w.server.released != [] && w.server.released[0] == m.cp)
            && (m.EvalPart? <==> w.server.expected == MoreEval) && (m.ClientSourcePart? <==> w.server.expected == MoreSource)
  {
    Taken(w);
    hide Count, Frees;
    RestIsComing(Opens(w.toServer[0]), w.toServer[1..]);
  }

  /** What an accepted message makes of the server. */
  lemma AcceptedServer(s: Server, m: ToServer, outcome: Outcome)
    requires !m.ContextReset? && (m.EvalPart? <==> s.expected == MoreEval) && (m.ClientSourcePart? <==> s.expected == MoreSource)
    ensures var t := Accept(s, m, outcome);
            && t.flags.connected == s.flags.connected && t.expected == Opens(m) && t.phase == s.phase
            && t.flags.breakpointMode == s.flags.breakpointMode && t.flags.resetMode == s.flags.resetMode
            && t.released == (if m.FreeByteCode? && s.released != [] then s.released[1..] else s.released)
            && (t.flags.sourceMode <==> s.flags.sourceMode && !IsSourceAnswer()(m))
            && (t.flags.parserWaitMode <==> s.flags.parserWaitMode && !m.ParserResume?)
            && (t.resume ==> s.resume || IsCommand()(m) || IsSourceAnswer()(m))
  {
  }

  /** Of a command the server makes a reply or a resumption, not both; other messages have no reply. */
  lemma AcceptedReply(s: Server, m: ToServer, outcome: Outcome)
    ensures var t, reply := Accept(s, m, outcome), Reply(m, outcome);
            && Count(reply, IsSourceAsk()) == 0 && Count(reply, IsParserAsk()) == 0 && Releases(reply) == []
            && (if IsCommand()(m) then
                  Count(reply, IsPrompting()) == 0 || (Count(reply, IsPrompting()) == 1 && t.resume == s.resume)
                else Count(reply, IsPrompting()) == 0)
  {
    hide Count, Releases, Repeat;
    var parts := outcome.parts;
    OneReply();
    ReplyCounts(parts, Backtrace, BacktraceEnd);
    ReplyCounts(parts, ScopeChain, ScopeChainEnd);
    ReplyCounts(parts, ScopeVariables, ScopeVariablesEnd);
    ReplyCounts(parts, EvalResult, EvalResultEnd);
  }

  lemma OneReply()
    ensures Count([MemstatsReceive], IsPrompting()) == 1 && Count([MemstatsReceive], IsSourceAsk()) == 0
    ensures Count([MemstatsReceive], IsParserAsk()) == 0 && Releases([MemstatsReceive]) == []
    ensures Count([], IsPrompting()) == 0 && Count([], IsSourceAsk()) == 0 && Count([], IsParserAsk()) == 0
    ensures Releases([]) == []
  {
    assert [MemstatsReceive][1..] == [];
  }

  /** The tokens after a message: its own is spent, and a reply or a resumption takes it over. */
  lemma ServerTokens(w: World, outcome: Outcome)
    requires Inv(w) && w.toServer != []
    ensures var m := w.toServer[0];
            var v := World(Accept(w.server, m, outcome), w.client, w.toServer[1..], w.toClient + Reply(m, outcome));
            Tokens(v) <= 1 && SourceTokens(v) <= 1 && ParserTokens(v) <= 1
            && Frees(w.toServer) == (if m.FreeByteCode? then [m.cp] else []) + Frees(v.toServer)
            && Releases(v.toClient) == Releases(w.toClient)
  {
    hide Count, Frees, Framed, Releases, Accept, Reply, Refuses;
    var m := w.toServer[0];
    HeadAccepted(w);
    AcceptedServer(w.server, m, outcome);
    AcceptedReply(w.server, m, outcome);
    Taken(w);
    Told(World(Accept(w.server, m, outcome), w.client, w.toServer[1..], w.toClient), Reply(m, outcome));
  }

  lemma ModesKept(s: Server, m: ToServer, outcome: Outcome)
    requires ModesAgree(s) && !Refuses(s, m) && !m.ContextReset?
    requires (m.EvalPart? <==> s.expected == MoreEval) && (m.ClientSourcePart? <==> s.expected == MoreSource)
    ensures ModesAgree(Accept(s, m, outcome))
  {
  }

  lemma ServerKeeps(w: World, outcome: Outcome)
    requires Inv(w) && w.toServer != []
    ensures Inv(Do(w, ServerProcesses(outcome)))
  {
    HeadAccepted(w);
    AcceptedServer(w.server, w.toServer[0], outcome);
    ModesKept(w.server, w.toServer[0], outcome);
    ServerTokens(w, outcome);
    hide Count, Frees, Framed, Releases, Accept, Reply, Refuses, Tokens, SourceTokens, ParserTokens, ModesAgree;
    ReleasesShorter(w.toServer[0], w.server.released, Frees(w.toServer[1..]), Releases(w.toClient));
  }

  lemma ReleasesShorter(m: ToServer, released: seq<nat>, frees: seq<nat>, releases: seq<nat>)
    requires released == ((if m.FreeByteCode? then [m.cp] else []) + frees) + releases
    ensures (if m.FreeByteCode? && released != [] then released[1..] else released) == frees + releases
  {
  }

  /** What taking the first message off the stream to the client does to the tokens. */
  lemma Heard(w: World)
    requires w.toClient != []
    ensures var m, v := w.toClient[0], w.(toClient := w.toClient[1..]);
            && Tokens(w) == Tokens(v) + (if GivesPrompt(m) then 1 else 0)
            && SourceTokens(w) == SourceTokens(v) + (if m.WaitForSource? then 1 else 0)
            && ParserTokens(w) == ParserTokens(v) + (if m.WaitingAfterParse? then 1 else 0)
            && Releases(w.toClient) == (if m.ReleaseByteCode? then [m.cp] else []) + Releases(v.toClient)
  {
  }

  /** What the client answers: a free for a release, one answer for a question, nothing otherwise. */
  lemma AnswerCounts(c: Client, m: ToClient, fragments: nat)
    ensures var (d, answer) := ClientReceive(c, m, fragments);
            && Count(answer, IsCommand()) == 0
            && Count(answer, IsSourceAnswer()) == (if m.WaitForSource? then 1 else 0)
            && Count(answer, IsParserAnswer()) == (if m.WaitingAfterParse? then 1 else 0)
            && Frees(answer) == (if m.ReleaseByteCode? then [m.cp] else []) && Framed(Nothing, answer)
            && d.prompt == (c.prompt || GivesPrompt(m))
  {
    SourceMessages(fragments);
    OneMessage(NoMoreSources);
    OneMessage(ParserResume);
    NoMessage();
    hide SourceFragments, Count, Frees, Framed;
    if m.ReleaseByteCode? {
      OneMessage(FreeByteCode(m.cp));
    }
  }

  lemma NoMessage()
    ensures Count([], IsCommand()) == 0 && Count([], IsSourceAnswer()) == 0 && Count([], IsParserAnswer()) == 0
    ensures Frees([]) == [] && Framed(Nothing, [])
  {
  }

  lemma ClientKeeps(w: World, fragments: nat)
    requires Inv(w) && w.toClient != []
    ensures Inv(Do(w, ClientProcesses(fragments)))
  {
    hide Count, Frees, Framed, Releases, ClientReceive, SourceFragments;
    var m := w.toClient[0];
    AnswerCounts(w.client, m, fragments);
    Heard(w);
    var (c, answer) := ClientReceive(w.client, m, fragments);
    Sent(World(w.server, c, w.toServer, w.toClient[1..]), answer);
    var f := Frees(w.toServer);
    assert f + ((if m.ReleaseByteCode? then [m.cp] else []) + Releases(w.toClient[1..]))
        == (f + (if m.ReleaseByteCode? then [m.cp] else [])) + Releases(w.toClient[1..]);
  }

  lemma UserKeeps(w: World, move: Move)
    requires Inv(w) && Enabled(w, move) && (move.UserStops? || move.UserConfigures? || move.UserCommands?)
    ensures Inv(Do(w, move))
  {
    hide Count, Frees, Framed, Releases;
    if move.UserStops? {
      OneMessage(Stop);
      Sent(w, [Stop]);
    } else if move.UserConfigures? {
      OneMessage(move.m);
      Sent(w, [move.m]);
    } else {
      CommandCounts(move.command);
      Sent(w.(client := w.client.(prompt := false)), CommandMessages(move.command));
    }
    NothingMore(w);
  }

  lemma NothingMore(w: World)
    ensures forall q: seq<nat> :: q + [] == q
  {
  }

  lemma CommandCounts(command: Command)
    requires GoodCommand(command)
    ensures var q := CommandMessages(command);
            && Count(q, IsCommand()) == 1 && Count(q, IsSourceAnswer()) == 0 && Count(q, IsParserAnswer()) == 0
            && Frees(q) == [] && Framed(Nothing, q)
  {
    match command {
      case Resume(m) => OneMessage(m);
      case Ask(m) => OneMessage(m);
      case Evaluate(n) => EvalMessages(n);
    }
  }

  lemma EngineKeeps(w: World, move: Move)
    requires Inv(w) && Enabled(w, move)
    requires move.ServerPauses? || move.EngineHits? || move.EngineAsksSource? || move.EngineParses? || move.EngineReleases?
          || move.EnginePrints?
    ensures Inv(Do(w, move))
  {
    hide Count, Frees, Framed, Releases;
    match move {
      case ServerPauses =>
      case EngineHits(exception) => TellOne(w, if exception then ExceptionHit else BreakpointHit);
      case EngineAsksSource => TellOne(w, WaitForSource);
      case EngineParses => TellOne(w, WaitingAfterParse);
      case EngineReleases(cp) =>
        TellOne(w, ReleaseByteCode(cp));
        assert Frees(w.toServer) + (Releases(w.toClient) + [cp]) == (Frees(w.toServer) + Releases(w.toClient)) + [cp];
      case EnginePrints => TellOne(w, Printing);
    }
  }

  lemma TellOne(w: World, m: ToClient)
    ensures var v := w.(toClient := w.toClient + [m]);
            && Tokens(v) == Tokens(w) + (if GivesPrompt(m) then 1 else 0)
            && SourceTokens(v) == SourceTokens(w) + (if m.WaitForSource? then 1 else 0)
            && ParserTokens(v) == ParserTokens(w) + (if m.WaitingAfterParse? then 1 else 0)
            && Releases(v.toClient) == Releases(w.toClient) + (if m.ReleaseByteCode? then [m.cp] else [])
  {
    assert [m][1..] == [];
    Told(w, [m]);
  }

  // ---------------------------------------------------------------- whole runs

  lemma StepKeeps(w: World, move: Move)
    requires Inv(w) && Enabled(w, move)
    ensures Inv(Do(w, move))
  {
    hide Inv, Do;
    match move {
      case ServerProcesses(outcome) => ServerKeeps(w, outcome);
      case ClientProcesses(fragments) => ClientKeeps(w, fragments);
      case UserStops => UserKeeps(w, move);
      case UserConfigures(_) => UserKeeps(w, move);
      case UserCommands(_) => UserKeeps(w, move);
      case _ => EngineKeeps(w, move);
    }
  }

  lemma InitialInv(w: World)
    requires Initial(w)
    ensures Inv(w)
  {
  }

  lemma {:induction false} RunKeeps(w: World, moves: seq<Move>)
    requires Inv(w) && Run(w, moves)
    ensures Inv(After(w, moves))
    decreases |moves|
  {
    hide Inv, Do;
    if moves != [] {
      StepKeeps(w, moves[0]);
      RunKeeps(Do(w, moves[0]), moves[1..]);
    }
  }

  /** Safety over every run. Whenever the client shows its prompt, the server is in breakpoint mode and about to stay
      there, with no request, reply or resumption in flight; a message that needs breakpoint mode only ever travels to
      a server in breakpoint mode, a client source only to a server that waits for one, a parser resume only to a
      server that waits after a parse, and releases are freed in order; so the connection is never closed. */
  lemma {:induction false} NeverRefused(start: World, moves: seq<Move>)
    requires Initial(start) && Run(start, moves)
    ensures var w := After(start, moves);
            && w.server.flags.connected
            && (w.toServer != [] ==> !Refuses(w.server, w.toServer[0]))
            && (w.client.prompt ==>
                  && w.server.flags.breakpointMode && w.server.phase == AtBreakpoint && !w.server.resume
                  && Count(w.toServer, IsCommand()) == 0 && Count(w.toClient, IsPrompting()) == 0)
            && (forall m | m in w.toServer && TypeCode(m) >= CONTINUE && IsCommand()(m) :: w.server.flags.breakpointMode)
            && (forall m | m in w.toServer && IsSourceAnswer()(m) :: w.server.flags.sourceMode)
            && (forall m | m in w.toServer && m.ParserResume? :: w.server.flags.parserWaitMode)
            && w.server.released == Frees(w.toServer) + Releases(w.toClient)
  {
    InitialInv(start);
    RunKeeps(start, moves);
    var w := After(start, moves);
    if w.toServer != [] {
      HeadAccepted(w);
    }
    hide Count, Frees, Releases, Framed, Refuses;
    forall m | m in w.toServer && TypeCode(m) >= CONTINUE && IsCommand()(m)
      ensures w.server.flags.breakpointMode
    {
      CountMember(w.toServer, m, IsCommand());
    }
    forall m | m in w.toServer && IsSourceAnswer()(m)
      ensures w.server.flags.sourceMode
    {
      CountMember(w.toServer, m, IsSourceAnswer());
    }
    forall m | m in w.toServer && m.ParserResume?
      ensures w.server.flags.parserWaitMode
    {
      CountMember(w.toServer, m, IsParserAnswer());
    }
  }

  // ---------------------------------------------------------------- the server's code

  /** The debugger part of the engine context, changed message by message. */
  class DebuggerContext {
    var server: Server

    /** `jerry_debugger_transport_close` */
    method TransportClose()
      modifies this
      ensures server == Close(old(server))
    {
      server := server.(flags := Flags(false, false, false, false, false, false, false, false, false));
    }

    /** `jerry_debugger_send_eval`, seen from outside. */
    method SendEval(outcome: Outcome) returns (reply: seq<ToClient>)
      modifies this
      ensures outcome.raises ==> server == old(server).(flags := old(server).flags.(vmStop := true), resume := true)
      ensures !outcome.raises ==> server == old(server)
      ensures reply == if outcome.raises then [] else Repeat(outcome.parts, EvalResult) + [EvalResultEnd]
    {
      reply := [];
      if outcome.raises {
        server := server.(flags := server.flags.(vmStop := true));
        server := server.(resume := true);
      } else {
        reply := Repeat(outcome.parts, EvalResult) + [EvalResultEnd];
      }
    }

    /** The cases of the switch in jerry_debugger_process_message, one method each. */
    method OnFree(cp: nat, outcome: Outcome) returns (ok: bool)
      requires server.expected == Nothing
      modifies this
      ensures Handled(ok, server, []) == Handle(old(server), FreeByteCode(cp), outcome)
    {
      if server.released == [] || server.released[0] != cp {
        TransportClose();
        return false;
      }
      server := server.(released := server.released[1..]);
      return true;
    }

    method OnConfig(m: ToServer, outcome: Outcome)
      requires server.expected == Nothing && (m.UpdateBreakpoint? || m.ExceptionConfig? || m.ParserConfig?)
      modifies this
      ensures Handled(true, server, []) == Handle(old(server), m, outcome)
    {
      if m.ExceptionConfig? {
        server := server.(flags := server.flags.(ignoreException := !m.enable));
      } else if m.ParserConfig? {
        server := server.(flags := server.flags.(parserWait := m.enable));
      }
    }

    method OnStop(outcome: Outcome)
      requires server.expected == Nothing
      modifies this
      ensures Handled(true, server, []) == Handle(old(server), Stop, outcome)
    {
      server := server.(flags := server.flags.(vmStop := true), resume := false);
    }

    method OnParserResume(outcome: Outcome) returns (ok: bool)
      requires server.expected == Nothing
      modifies this
      ensures Handled(ok, server, []) == Handle(old(server), ParserResume, outcome)
    {
      if !server.flags.parserWaitMode {
        TransportClose();
        return false;
      }
      server := server.(flags := server.flags.(parserWaitMode := false));
      return true;
    }

    method OnClientSource(whole: bool, outcome: Outcome) returns (ok: bool)
      requires server.expected == Nothing
      modifies this
      ensures Handled(ok, server, []) == Handle(old(server), ClientSource(whole), outcome)
    {
      if !server.flags.sourceMode {
        TransportClose();
        return false;
      }
      if whole {
        server := server.(flags := server.flags.(sourceMode := false), resume := true);
      } else {
        server := server.(expected := MoreSource);
      }
      return true;
    }

    method OnNoMoreSources(outcome: Outcome) returns (ok: bool)
      requires server.expected == Nothing
      modifies this
      ensures Handled(ok, server, []) == Handle(old(server), NoMoreSources, outcome)
    {
      if !server.flags.sourceMode {
        TransportClose();
        return false;
      }
      server := server.(flags := server.flags.(noSource := true, sourceMode := false), resume := true);
      return true;
    }

    method OnContextReset(outcome: Outcome) returns (ok: bool)
      requires server.expected == Nothing
      modifies this
      ensures Handled(ok, server, []) == Handle(old(server), ContextReset, outcome)
    {
      if !server.flags.sourceMode {
        TransportClose();
        return false;
      }
      server := server.(flags := server.flags.(resetMode := true, sourceMode := false), resume := true);
      return true;
    }

    method OnResume(m: ToServer, outcome: Outcome)
      requires server.expected == Nothing && server.flags.breakpointMode && Resumes(m)
      modifies this
      ensures Handled(true, server, []) == Handle(old(server), m, outcome)
    {
      server := server.(flags := server.flags.(vmStop := !m.Continue?), resume := true);
    }

    method OnRequest(m: ToServer, outcome: Outcome) returns (reply: seq<ToClient>)
      requires server.expected == Nothing && (m.Memstats? || server.flags.breakpointMode)
      requires m.Memstats? || m.GetBacktrace? || m.GetScopeChain? || m.GetScopeVariables?
      modifies this
      ensures Handled(true, server, reply) == Handle(old(server), m, outcome)
    {
      if m.Memstats? {
        return [MemstatsReceive];
      } else if m.GetBacktrace? {
        return Repeat(outcome.parts, Backtrace) + [BacktraceEnd];
      } else if m.GetScopeChain? {
        return Repeat(outcome.parts, ScopeChain) + [ScopeChainEnd];
      }
      return Repeat(outcome.parts, ScopeVariables) + [ScopeVariablesEnd];
    }

    method OnEval(whole: bool, outcome: Outcome) returns (reply: seq<ToClient>)
      requires server.expected == Nothing && server.flags.breakpointMode
      modifies this
      ensures Handled(true, server, reply) == Handle(old(server), Eval(whole), outcome)
    {
      if !whole {
        server := server.(expected := MoreEval);
        return [];
      }
      reply := SendEval(outcome);
    }

    /** The rest of a payload, before the switch. */
    method OnPart(m: ToServer, outcome: Outcome) returns (ok: bool, reply: seq<ToClient>)
      requires server.expected != Nothing && (TypeCode(m) >= CONTINUE ==> server.flags.breakpointMode)
      modifies this
      ensures Handled(ok, server, reply) == Handle(old(server), m, outcome)
    {
      if (server.expected == MoreEval && !m.EvalPart?) || (server.expected == MoreSource && !m.ClientSourcePart?) {
        TransportClose();
        return false, [];
      }
      ok, reply := true, [];
      if !m.last {
        return;
      }
      server := server.(expected := Nothing);
      if m.EvalPart? {
        reply := SendEval(outcome);
        return;
      }
      server := server.(flags := server.flags.(sourceMode := false), resume := true);
    }

    /** `jerry_debugger_process_message`: false means that the connection has been closed. */
    method ProcessMessage(m: ToServer, outcome: Outcome) returns (ok: bool, reply: seq<ToClient>)
      modifies this
      ensures Handled(ok, server, reply) == Handle(old(server), m, outcome)
    {
      hide Accept, AcceptFlags, Reply, Repeat;
      if TypeCode(m) >= CONTINUE && !server.flags.breakpointMode {
        TransportClose();
        return false, [];
      }
      if server.expected != Nothing {
        ok, reply := OnPart(m, outcome);
        return;
      }
      ok, reply := true, [];
      match m {
        case FreeByteCode(cp) => ok := OnFree(cp, outcome);
        case UpdateBreakpoint => OnConfig(m, outcome);
        case ExceptionConfig(_) => OnConfig(m, outcome);
        case ParserConfig(_) => OnConfig(m, outcome);
        case Memstats => reply := OnRequest(m, outcome);
        case Stop => OnStop(outcome);
        case ParserResume => ok := OnParserResume(outcome);
        case ClientSource(whole) => ok := OnClientSource(whole, outcome);
        case NoMoreSources => ok := OnNoMoreSources(outcome);
        case ContextReset => ok := OnContextReset(outcome);
        case Continue => OnResume(m, outcome);
        case Step => OnResume(m, outcome);
        case Next => OnResume(m, outcome);
        case Finish => OnResume(m, outcome);
        case GetBacktrace => reply := OnRequest(m, outcome);
        case Eval(whole) => reply := OnEval(whole, outcome);
        case GetScopeChain => reply := OnRequest(m, outcome);
        case GetScopeVariables => reply := OnRequest(m, outcome);
        case ClientSourcePart(_) =>
          TransportClose();
          ok := false;
        case EvalPart(_) =>
          TransportClose();
          ok := false;
      }
    }
  }
}
