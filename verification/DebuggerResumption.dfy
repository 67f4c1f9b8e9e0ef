/** When a resumption is carried out: jerry-core/debugger/debugger.c keeps the resume flag for one receive call, and a stop
    in the same call takes it back. */
module DebuggerResumption {
  import opened DebuggerProtocol

  /** A message and what the engine makes of it. */
  datatype Item = Item(m: ToServer, outcome: Outcome)

  /** The server behind these messages. */
  function HandleAll(s: Server, items: seq<Item>): Server {
    if items == [] then s
    else
      var last := items[|items| - 1];
      Handle(HandleAll(s, items[..|items| - 1]), last.m, last.outcome).server
  }

  /** None of the messages closes the connection. */
  predicate NoneRefused(s: Server, items: seq<Item>) {
    items == []
    || (NoneRefused(s, items[..|items| - 1]) && !Refuses(HandleAll(s, items[..|items| - 1]), items[|items| - 1].m))
  }

  /** A command to resume, an evaluation that raises, or the end of a wait for a source. */
  predicate Raises(item: Item) {
    Resumes(item.m) || EndsSource(item.m) || (EndsEval(item.m) && item.outcome.raises)
  }

  predicate NoStop(items: seq<Item>) {
    forall item | item in items :: !item.m.Stop?
  }

  /** Place i asks for a resumption, and no stop is behind it. */
  predicate Lasts(items: seq<Item>, i: nat)
    requires i < |items|
  {
    Raises(items[i]) && NoStop(items[i + 1..])
  }

  ghost predicate SomeLasts(items: seq<Item>) {
    exists i | 0 <= i < |items| :: Lasts(items, i)
  }

  lemma LastsNext(items: seq<Item>, last: Item)
    ensures SomeLasts(items + [last]) <==> Raises(last) || (SomeLasts(items) && !last.m.Stop?)
    ensures NoStop(items + [last]) <==> NoStop(items) && !last.m.Stop?
  {
    var all := items + [last];
    assert all[|items| + 1..] == [];
    forall i | 0 <= i < |items|
      ensures Lasts(all, i) <==> Lasts(items, i) && !last.m.Stop?
    {
      assert all[i + 1..] == items[i + 1..] + [last];
    }
    if SomeLasts(items) && !last.m.Stop? {
      var i :| 0 <= i < |items| && Lasts(items, i);
      assert Lasts(all, i);
    }
    if Raises(last) {
      assert Lasts(all, |items|);
    }
  }

  /** Behind any messages the resume flag is set if and only if one of them asks for a resumption and has no stop behind it, or it
      was set before and there is no stop. */
  lemma {:induction false} ResumesExactly(s: Server, items: seq<Item>)
    requires NoneRefused(s, items)
    ensures HandleAll(s, items).resume <==> SomeLasts(items) || (s.resume && NoStop(items))
    ensures HandleAll(s, items).phase == s.phase
    ensures HandleAll(s, items).flags.breakpointMode == s.flags.breakpointMode
    ensures HandleAll(s, items).expected == if items == [] then s.expected else Opens(items[|items| - 1].m)
  {
    if items == [] {
      return;
    }
    hide Refuses, EndsSource, EndsEval, SomeLasts, NoStop;
    var most, last := items[..|items| - 1], items[|items| - 1];
    ResumesExactly(s, most);
    LastsNext(most, last);
    assert items == most + [last];
    assert HandleAll(s, items) == Accept(HandleAll(s, most), last.m, last.outcome);
  }

  /** At a breakpoint: when the receive call finds no further message it leaves the breakpoint if and only if no payload is
      under way and some resumption has no stop behind it. */
  lemma LeavesExactly(s: Server, items: seq<Item>)
    requires s.phase == AtBreakpoint && s.flags.breakpointMode && !s.resume && NoneRefused(s, items)
    ensures var t := EndReceive(HandleAll(s, items));
      && (t.phase == Running <==> HandleAll(s, items).expected == Nothing && SomeLasts(items))
      && (t.flags.breakpointMode <==> t.phase == AtBreakpoint) && (t.phase == Running || t.phase == AtBreakpoint)
  {
    ResumesExactly(s, items);
    hide SomeLasts;
  }

  // ---------------------------------------------------------------- in a run

  function Processing(items: seq<Item>): seq<Move> {
    if items == [] then [] else [ServerProcesses(items[0].outcome)] + Processing(items[1..])
  }

  /** The first messages of the queue. */
  predicate Heads(w: World, items: seq<Item>) {
    |items| <= |w.toServer| && forall i | 0 <= i < |items| :: items[i].m == w.toServer[i]
  }

  lemma {:induction false} HandleFirst(s: Server, items: seq<Item>)
    requires items != []
    ensures var t := Handle(s, items[0].m, items[0].outcome).server;
      && HandleAll(s, items) == HandleAll(t, items[1..])
      && (NoneRefused(s, items) <==> !Refuses(s, items[0].m) && NoneRefused(t, items[1..]))
    decreases |items|
  {
    hide Refuses, Handle;
    var n := |items| - 1;
    if n == 0 {
      assert items[..0] == [] && items[1..] == [];
    } else {
      HandleFirst(s, items[..n]);
      assert items[..n][1..] == items[1..][..n - 1] && items[1..][n - 1] == items[n];
    }
  }

  /** Processing the queue of a run is handling its messages, none of which is refused. */
  lemma {:induction false} QueueHandled(w: World, items: seq<Item>)
    requires Inv(w) && Heads(w, items)
    ensures Run(w, Processing(items)) && NoneRefused(w.server, items)
    ensures var v := After(w, Processing(items));
      Inv(v) && v.server == HandleAll(w.server, items) && v.toServer == w.toServer[|items|..]
    decreases |items|
  {
    hide Inv, Handle, Refuses, Accept, Reply, Framed;
    if items == [] {
      return;
    }
    HandleFirst(w.server, items);
    HeadAccepted(w);
    ConnectedNow(w);
    StepKeeps(w, ServerProcesses(items[0].outcome));
    var v := Do(w, ServerProcesses(items[0].outcome));
    QueueHandled(v, items[1..]);
    assert w.toServer[1..][|items| - 1..] == w.toServer[|items|..];
    assert Processing(items)[1..] == Processing(items[1..]);
  }

  lemma ConnectedNow(w: World)
    requires Inv(w)
    ensures w.server.flags.connected
  {
  }

  /** In every run: a server that is at a breakpoint, takes the whole queue in one receive call and finds no further message goes
      on running if and only if some resumption in the queue has no stop behind it. */
  lemma CarriedOutExactly(start: World, moves: seq<Move>, items: seq<Item>)
    requires Initial(start) && Run(start, moves)
    requires var w := After(start, moves);
      w.server.phase == AtBreakpoint && !w.server.resume && Heads(w, items) && |items| == |w.toServer|
    ensures var w := After(start, moves);
      && Run(w, Processing(items))
      && (EndReceive(After(w, Processing(items)).server).phase == Running <==> SomeLasts(items))
  {
    InitialInv(start);
    RunKeeps(start, moves);
    var w := After(start, moves);
    QueueHandled(w, items);
    LeavesExactly(w.server, items);
    var v := After(w, Processing(items));
    assert v.toServer == [];
    assert Framed(v.server.expected, []);
  }

  // ---------------------------------------------------------------- the lost resumption

  const QUIET := Outcome(false, 0)

  /** The user continues from the first breakpoint and stops before the server has read the command. */
  const LOST := [EngineHits(false), ClientProcesses(0), UserCommands(Resume(Continue)), UserStops, ServerProcesses(QUIET), ServerProcesses(QUIET), ServerPauses]

  lemma LostBegins(start: World) returns (w: World)
    requires Initial(start)
    ensures Enabled(start, LOST[0]) && Enabled(Do(start, LOST[0]), LOST[1])
    ensures w == Do(Do(start, LOST[0]), LOST[1])
    ensures w == World(start.server.(flags := start.server.flags.(breakpointMode := true), phase := AtBreakpoint),
                       start.client.(prompt := true), [], [])
  {
    var w1 := Do(start, LOST[0]);
    assert w1.toClient == [BreakpointHit];
    w := Do(w1, LOST[1]);
  }

  lemma LostCommands(w: World) returns (v: World)
    requires w.client.prompt && w.toServer == [] && w.toClient == []
    ensures Enabled(w, LOST[2]) && Enabled(Do(w, LOST[2]), LOST[3])
    ensures v == Do(Do(w, LOST[2]), LOST[3]) == World(w.server, w.client.(prompt := false), [Continue, Stop], [])
  {
    var w1 := Do(w, LOST[2]);
    assert w1.toServer == [Continue];
    v := Do(w1, LOST[3]);
  }

  lemma LostHandled(w: World) returns (v: World)
    requires w.server.flags.connected && w.server.flags.breakpointMode && w.server.phase == AtBreakpoint
    requires w.server.expected == Nothing && w.toServer == [Continue, Stop] && w.toClient == []
    ensures Enabled(w, LOST[4]) && Enabled(Do(w, LOST[4]), LOST[5])
    ensures var u := Do(Do(w, LOST[4]), LOST[5]); Enabled(u, LOST[6]) && v == Do(u, LOST[6])
    ensures v.server.phase == AtBreakpoint && v.server.flags.breakpointMode && !v.server.resume
    ensures v.client == w.client && v.toServer == [] && v.toClient == []
  {
    var w1 := Do(w, LOST[4]);
    assert w1.server.resume && w1.toServer == [Stop] && w1.toClient == [];
    var w2 := Do(w1, LOST[5]);
    assert !w2.server.resume && w2.toServer == [] && w2.toClient == [];
    v := Do(w2, LOST[6]);
  }

  /** This run ends with the server at the breakpoint, the client without its prompt and nothing under way. */
  lemma LostRun(start: World)
    requires Initial(start)
    ensures Run(start, LOST)
    ensures var w := After(start, LOST);
      && w.server.phase == AtBreakpoint && w.server.flags.breakpointMode && !w.server.resume
      && !w.client.prompt && w.toServer == [] && w.toClient == []
  {
    var w2 := LostBegins(start);
    var w4 := LostCommands(w2);
    var w7 := LostHandled(w4);
    var w1, w3 := Do(start, LOST[0]), Do(w2, LOST[2]);
    var w5 := Do(w4, LOST[4]);
    var w6 := Do(w5, LOST[5]);
    hide Do, Enabled, Initial;
    assert LOST[7..] == [] && Run(w7, []) && After(w7, []) == w7;
    RunFrom(w6, 6);
    RunFrom(w5, 5);
    RunFrom(w4, 4);
    RunFrom(w3, 3);
    RunFrom(w2, 2);
    RunFrom(w1, 1);
    RunFrom(start, 0);
    assert LOST[0..] == LOST;
  }

  lemma RunFrom(w: World, i: nat)
    requires i < |LOST| && Enabled(w, LOST[i]) && Run(Do(w, LOST[i]), LOST[i + 1..])
    ensures Run(w, LOST[i..]) && After(w, LOST[i..]) == After(Do(w, LOST[i]), LOST[i + 1..])
  {
    hide Do, Enabled;
    assert LOST[i..][0] == LOST[i] && LOST[i..][1..] == LOST[i + 1..];
  }

  /** Nobody may act: the server is at a breakpoint, and neither a prompt, nor a command, nor a hit or a reply is there. */
  predicate Stuck(w: World) {
    Inv(w) && w.server.phase == AtBreakpoint && Tokens(w) == 0
  }

  /** Then no token is on the way in any of the streams. */
  lemma NoTokens(w: World)
    requires Stuck(w)
    ensures !w.client.prompt && !w.server.resume
    ensures w.toServer != [] ==> !IsCommand()(w.toServer[0]) && !IsSourceAnswer()(w.toServer[0])
    ensures w.toClient != [] ==> !GivesPrompt(w.toClient[0])
  {
    if w.toServer != [] {
      Taken(w);
    }
    if w.toClient != [] {
      Heard(w);
    }
  }

  lemma StuckServer(w: World, outcome: Outcome)
    requires Stuck(w) && w.toServer != []
    ensures Enabled(w, ServerProcesses(outcome)) && Stuck(Do(w, ServerProcesses(outcome)))
  {
    NoTokens(w);
    HeadAccepted(w);
    var m := w.toServer[0];
    AcceptedServer(w.server, m, outcome);
    AcceptedReply(w.server, m, outcome);
    Taken(w);
    Told(World(Accept(w.server, m, outcome), w.client, w.toServer[1..], w.toClient), Reply(m, outcome));
    ConnectedNow(w);
    StepKeeps(w, ServerProcesses(outcome));
    hide Count, Frees, Framed, Releases, Accept, Reply, Refuses, Inv, IsCommand, IsSourceAnswer;
  }

  lemma StuckClient(w: World, fragments: nat)
    requires Stuck(w) && w.toClient != []
    ensures Stuck(Do(w, ClientProcesses(fragments)))
  {
    NoTokens(w);
    var m := w.toClient[0];
    AnswerCounts(w.client, m, fragments);
    Heard(w);
    var (c, answer) := ClientReceive(w.client, m, fragments);
    Sent(World(w.server, c, w.toServer, w.toClient[1..]), answer);
    StepKeeps(w, ClientProcesses(fragments));
    hide Count, Frees, Framed, Releases, ClientReceive, Inv;
  }

  lemma StuckSends(w: World, m: ToServer)
    requires Stuck(w) && (m.Stop? || m.UpdateBreakpoint? || m.ExceptionConfig? || m.ParserConfig?)
    ensures Tokens(w.(toServer := w.toServer + [m])) == 0
  {
    hide Count, Framed, Frees, Inv, Tokens, SourceTokens, ParserTokens;
    OneMessage(m);
    Sent(w, [m]);
  }

  lemma StuckTells(w: World, m: ToClient, s: Server)
    requires Stuck(w) && !GivesPrompt(m) && s.phase == w.server.phase && s.resume == w.server.resume
    ensures Tokens(w.(server := s, toClient := w.toClient + [m])) == 0
  {
    hide Count, Inv;
    TellOne(w, m);
  }

  lemma StuckStep(w: World, move: Move)
    requires Stuck(w) && Enabled(w, move)
    ensures Stuck(Do(w, move))
  {
    NoTokens(w);
    StepKeeps(w, move);
    if move.ServerProcesses? {
      StuckServer(w, move.outcome);
    } else if move.ClientProcesses? {
      StuckClient(w, move.fragments);
    } else {
      StuckOther(w, move);
    }
  }

  lemma StuckOther(w: World, move: Move)
    requires Stuck(w) && Enabled(w, move) && !move.ServerProcesses? && !move.ClientProcesses?
    ensures var v := Do(w, move); v.server.phase == AtBreakpoint && Tokens(v) == 0
  {
    NoTokens(w);
    hide Inv, Tokens, Stuck;
    if move.UserStops? {
      StuckSends(w, Stop);
    } else if move.UserConfigures? {
      StuckSends(w, move.m);
    } else if move.EngineReleases? {
      StuckTells(w, ReleaseByteCode(move.cp), Do(w, move).server);
    } else if move.EnginePrints? {
      StuckTells(w, Printing, w.server);
    } else {
      StuckIs(w);
    }
  }

  lemma StuckIs(w: World)
    requires Stuck(w)
    ensures w.server.phase == AtBreakpoint && Tokens(w) == 0
  {
  }

  /** From there no run leads on: the server stays at the breakpoint and the prompt never comes back. */
  lemma {:induction false} StuckForEver(w: World, moves: seq<Move>)
    requires Stuck(w) && Run(w, moves)
    ensures var v := After(w, moves); v.server.phase == AtBreakpoint && !v.client.prompt
    decreases |moves|
  {
    hide Inv, Do, Enabled;
    if moves != [] {
      StuckStep(w, moves[0]);
      StuckForEver(Do(w, moves[0]), moves[1..]);
    }
  }

  /** The lost resumption is such an end. */
  lemma LostForEver(start: World, moves: seq<Move>)
    requires Initial(start) && Run(start, LOST) && Run(After(start, LOST), moves)
    ensures var v := After(After(start, LOST), moves); v.server.phase == AtBreakpoint && !v.client.prompt
  {
    InitialInv(start);
    RunKeeps(start, LOST);
    LostRun(start);
    StuckForEver(After(start, LOST), moves);
  }
}
