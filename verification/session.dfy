/** Session lifecycle and the two driving modes: initialisation (library
    allocated or caller supplied storage), the run loop that dispatches
    every completed line, and the blocking read of a single line.
 */
module CliSession {
  import opened CliTypes
  import opened LineInput
  import opened Registry

  /** The configuration bundle. The three function pointers are modelled by
      whether they are set; what they do is the input sequence, the output
      trace and the allocation outcome given to the operations below. */
  datatype Settings = Settings(
    hasMalloc: bool,
    hasGetChar: bool,
    hasSendChar: bool,
    endChar: char,
    prompt: Option<string>)

  predicate CallbacksSet(st: Settings)
  {
    st.hasMalloc && st.hasGetChar && st.hasSendChar
  }

  /** Fill in a session over `storage`, the buffer contents of the memory it
      lives in: offset zero, help as the only entry, terminator and prompt
      copied from the settings. */
  function InitInternal(st: Settings, storage: seq<char>): (s: Session)
    requires |storage| == CommandBuffSize
    ensures Valid(s)
    ensures Pending(s) == []
    ensures s.commands == [HelpEntry]
    ensures s.endChar == st.endChar && s.prompt == st.prompt
  {
    Session(st.endChar, st.prompt, storage, 0, [HelpEntry])
  }

  /** Library-allocated initialisation. `alloc` is what the allocator
      returns if it is called: None for a NULL result, otherwise the
      contents of the region. */
  function Init(st: Settings, alloc: Option<seq<char>>): (r: Option<Session>)
    requires alloc.Some? ==> |alloc.value| == CommandBuffSize
    ensures r.Some? <==> CallbacksSet(st) && alloc.Some?
    ensures r.Some? ==> r.value == InitInternal(st, alloc.value)
  {
    if !st.hasMalloc || !st.hasGetChar || !st.hasSendChar then None
    else if alloc.None? then None
    else Some(InitInternal(st, alloc.value))
  }

  /** The status code and the usable session, if any, of the
      caller-supplied-storage initialisation. */
  datatype InitStatus = InitStatus(code: nat, cli: Option<Session>)

  /** Caller-supplied-storage initialisation. `cli` is None for a NULL
      session pointer, otherwise the buffer contents of the caller's
      storage. The allocator is never called here, yet a missing one is
      still refused. */
  function InitStatic(cli: Option<seq<char>>, st: Settings): (r: InitStatus)
    requires cli.Some? ==> |cli.value| == CommandBuffSize
    ensures r.code == 0 || r.code == 1
    ensures r.code == 0 <==> cli.Some? && CallbacksSet(st)
    ensures r.cli.Some? <==> r.code == 0
    ensures r.code == 0 ==> r.cli.value == InitInternal(st, cli.value)
  {
    if cli.None? || !st.hasMalloc || !st.hasGetChar || !st.hasSendChar then
      InitStatus(1, None)
    else
      InitStatus(0, Some(InitInternal(st, cli.value)))
  }

  /** A fresh session knows exactly one command: a line runs a handler if
      and only if it reads "help". */
  lemma FreshSessionKnowsOnlyHelp(st: Settings, storage: seq<char>, line: string)
    requires |storage| == CommandBuffSize
    ensures CommandReceivedHandler(InitInternal(st, storage).commands, line).calls != [] <==> CString(line) == "help"
  {
    var cmds := InitInternal(st, storage).commands;
    CStringOfNulFree("help");
    assert NameMatches(cmds[0], line) <==> CString(line) == "help";
  }

  /** What help prints for itself: its name and CR LF, then a tab, its
      description and CR LF. */
  lemma HelpEntryText()
    ensures EntryText(HelpEntry) == "help" + EndSequence + ("\t" + "print out all the commands" + EndSequence)
  {
    CStringOfNulFree("help");
    CStringOfNulFree("print out all the commands");
  }

  /** On a fresh session help lists only itself. */
  lemma FreshHelpText(st: Settings, storage: seq<char>)
    requires |storage| == CommandBuffSize
    ensures HelpText(InitInternal(st, storage).commands) ==
              "help" + EndSequence + ("\t" + "print out all the commands" + EndSequence)
  {
    var cmds := InitInternal(st, storage).commands;
    assert cmds[1..] == [];
    assert HelpText(cmds) == EntryText(HelpEntry) + HelpText([]);
    HelpEntryText();
  }

  /** What the prompt pointer makes echo_string send. */
  function PromptEcho(prompt: Option<string>): seq<char>
  {
    match prompt
    case None => []
    case Some(p) => CString(p)
  }

  /** The observable result of running a session over some input. */
  datatype RunTrace = RunTrace(session: Session, out: seq<char>, calls: seq<Call>)

  /** One iteration of the run loop: feed the character; if a line
      completes, dispatch it and then echo the prompt. */
  function RunStep(s: Session, c: char): (r: RunTrace)
    requires Valid(s)
    ensures r.session == HandleInput(s, c).session
    ensures |r.calls| <= (if c == s.endChar then 1 else 0)
  {
    var st := HandleInput(s, c);
    if st.line.Some? then
      var e := CommandReceivedHandler(st.session.commands, st.line.value);
      RunTrace(st.session, st.echo + e.out + PromptEcho(st.session.prompt), e.calls)
    else
      RunTrace(st.session, st.echo, [])
  }

  /** The run loop over a finite input, as a fold of RunStep. */
  function Replay(s: Session, input: seq<char>): (r: RunTrace)
    requires Valid(s)
    ensures Valid(r.session) && SameConfig(s, r.session)
    ensures |r.calls| <= multiset(input)[s.endChar]
    decreases |input|
  {
    if input == [] then RunTrace(s, [], [])
    else
      var a := RunStep(s, input[0]);
      var b := Replay(a.session, input[1..]);
      assert input == [input[0]] + input[1..];
      RunTrace(b.session, a.out + b.out, a.calls + b.calls)
  }

  lemma ReplayCons(s: Session, input: seq<char>)
    requires Valid(s) && input != []
    ensures var a := RunStep(s, input[0]);
            Replay(s, input) == RunTrace(Replay(a.session, input[1..]).session,
                                         a.out + Replay(a.session, input[1..]).out,
                                         a.calls + Replay(a.session, input[1..]).calls)
  {
  }

  /** The handler calls that dispatching each line in turn makes. */
  function DispatchCalls(cmds: seq<Entry>, lines: seq<string>): seq<Call>
    decreases |lines|
  {
    if lines == [] then []
    else CommandReceivedHandler(cmds, lines[0]).calls + DispatchCalls(cmds, lines[1..])
  }

  /** The run loop edits exactly as the bare state machine does, and the
      handlers it calls are those of the completed lines, dispatched in
      order, each at most once. */
  lemma {:induction false} ReplayFollowsFeed(s: Session, input: seq<char>)
    requires Valid(s)
    ensures Replay(s, input).session == Feed(s, input).session
    ensures Replay(s, input).calls == DispatchCalls(s.commands, Feed(s, input).lines)
    decreases |input|
  {
    if input != [] {
      var st := HandleInput(s, input[0]);
      ReplayCons(s, input);
      FeedCons(s, input);
      ReplayFollowsFeed(st.session, input[1..]);
      var rest := Feed(st.session, input[1..]).lines;
      if st.line.Some? {
        assert ([st.line.value] + rest)[0] == st.line.value;
        assert ([st.line.value] + rest)[1..] == rest;
      } else {
        assert [] + rest == rest;
      }
    }
  }

  /** Input with no terminator in it is only echoed: no handler runs and
      no prompt appears. */
  lemma {:induction false} ReplayWithoutTerminator(s: Session, input: seq<char>)
    requires Valid(s)
    requires s.endChar !in input
    ensures Replay(s, input) == RunTrace(Feed(s, input).session, Feed(s, input).echo, [])
    decreases |input|
  {
    if input != [] {
      var st := HandleInput(s, input[0]);
      ReplayCons(s, input);
      FeedCons(s, input);
      assert input[0] in input;
      assert s.endChar !in input[1..] by {
        assert forall k :: 0 <= k < |input[1..]| ==> input[1..][k] == input[k + 1];
      }
      ReplayWithoutTerminator(st.session, input[1..]);
    }
  }

  /** Running the loop over two inputs in turn is running it over their
      concatenation. */
  lemma {:induction false} ReplayAppend(s: Session, a: seq<char>, b: seq<char>)
    requires Valid(s)
    ensures Replay(s, a + b).session == Replay(Replay(s, a).session, b).session
    ensures Replay(s, a + b).out == Replay(s, a).out + Replay(Replay(s, a).session, b).out
    ensures Replay(s, a + b).calls == Replay(s, a).calls + Replay(Replay(s, a).session, b).calls
    decreases |a|
  {
    if a == [] {
      assert a + b == b;
    } else {
      var st := RunStep(s, a[0]);
      assert (a + b)[0] == a[0];
      assert (a + b)[1..] == a[1..] + b;
      ReplayAppend(st.session, a[1..], b);
      ReplayCons(s, a);
      ReplayCons(s, a + b);
      var x := Replay(st.session, a[1..]);
      var y := Replay(x.session, b);
      AppendAssoc(st.out, x.out, y.out);
      AppendAssoc(st.calls, x.calls, y.calls);
    }
  }

  /** The run-loop iteration on the terminator: CR LF, then what the
      dispatch of the pending line sends, then the prompt; the calls are
      those of that dispatch, and the next line starts empty. */
  lemma TerminatorStep(t: Session)
    requires Valid(t)
    ensures var e := CommandReceivedHandler(t.commands, CString(Pending(t)));
            && RunStep(t, t.endChar) == RunTrace(HandleInput(t, t.endChar).session,
                                                 EndSequence + e.out + PromptEcho(t.prompt), e.calls)
            && HandleInput(t, t.endChar).session.index == 0
  {
    HandleInputCases(t, t.endChar);
  }

  /** One line typed and terminated: the echo of the typing, CR LF, what
      the dispatched handler printed, then the prompt; the handler calls are
      those of dispatching the edited line. */
  lemma OneLine(s: Session, typed: seq<char>)
    requires Valid(s)
    requires s.endChar !in typed
    ensures var line := CString(EditAll(Pending(s), typed));
            var e := CommandReceivedHandler(s.commands, line);
            && Replay(s, typed + [s.endChar]).out ==
                 Feed(s, typed).echo + EndSequence + e.out + PromptEcho(s.prompt)
            && Replay(s, typed + [s.endChar]).calls == e.calls
            && Replay(s, typed + [s.endChar]).session.index == 0
  {
    ReplayAppend(s, typed, [s.endChar]);
    ReplayWithoutTerminator(s, typed);
    FeedRefinesEdit(s, typed);
    var t := Feed(s, typed).session;
    ReplayCons(t, [s.endChar]);
    assert [s.endChar][1..] == [];
    var line := CString(EditAll(Pending(s), typed));
    var e := CommandReceivedHandler(s.commands, line);
    TerminatorStep(t);
    assert RunStep(t, s.endChar) == RunTrace(HandleInput(t, s.endChar).session, EndSequence + e.out + PromptEcho(s.prompt), e.calls);
    AppendAssoc(Feed(s, typed).echo, EndSequence + e.out, PromptEcho(s.prompt));
    AppendAssoc(Feed(s, typed).echo, EndSequence, e.out);
  }

  /** The fold unfolded at position `i` of the input. */
  lemma ReplayAt(s: Session, input: seq<char>, i: nat)
    requires Valid(s) && i < |input|
    ensures var step := RunStep(s, input[i]);
            && Replay(s, input[i..]).session == Replay(step.session, input[i + 1..]).session
            && Replay(s, input[i..]).out == step.out + Replay(step.session, input[i + 1..]).out
            && Replay(s, input[i..]).calls == step.calls + Replay(step.session, input[i + 1..]).calls
  {
    assert input[i..] == [input[i]] + input[i + 1..];
    ReplayCons(s, input[i..]);
  }

  /** One iteration of Run keeps its loop invariant. */
  lemma RunLoopStep(s0: Session, input: seq<char>, i: nat, s: Session, out: seq<char>, calls: seq<Call>)
    requires Valid(s0) && Valid(s) && i < |input|
    requires Replay(s0, input).session == Replay(s, input[i..]).session
    requires Replay(s0, input).out == out + Replay(s, input[i..]).out
    requires Replay(s0, input).calls == calls + Replay(s, input[i..]).calls
    ensures var step := RunStep(s, input[i]);
            && Replay(s0, input).session == Replay(step.session, input[i + 1..]).session
            && Replay(s0, input).out == (out + step.out) + Replay(step.session, input[i + 1..]).out
            && Replay(s0, input).calls == (calls + step.calls) + Replay(step.session, input[i + 1..]).calls
  {
    var step := RunStep(s, input[i]);
    ReplayAt(s, input, i);
    AppendAssoc(out, step.out, Replay(step.session, input[i + 1..]).out);
    AppendAssoc(calls, step.calls, Replay(step.session, input[i + 1..]).calls);
  }

  /** pico_cli_run: status 1 for a NULL session; otherwise read until the
      input is exhausted, dispatching every completed line and echoing the
      prompt after it, and return status 0. */
  method Run(cli: Option<Session>, input: seq<char>)
      returns (status: nat, final: Option<Session>, out: seq<char>, calls: seq<Call>)
    requires cli.Some? ==> Valid(cli.value)
    ensures cli.None? ==> status == 1 && final == None && out == [] && calls == []
    ensures cli.Some? ==>
              && status == 0
              && final == Some(Replay(cli.value, input).session)
              && out == Replay(cli.value, input).out
              && calls == Replay(cli.value, input).calls
  {
    if cli.None? {
      return 1, None, [], [];
    }
    var s := cli.value;
    out, calls := [], [];
    var i := 0;
    while i < |input|
      invariant 0 <= i <= |input|
      invariant Valid(s)
      invariant Replay(cli.value, input).session == Replay(s, input[i..]).session
      invariant Replay(cli.value, input).out == out + Replay(s, input[i..]).out
      invariant Replay(cli.value, input).calls == calls + Replay(s, input[i..]).calls
      decreases |input| - i
    {
      var step := RunStep(s, input[i]);
      RunLoopStep(cli.value, input, i, s, out, calls);
      s, out, calls := step.session, out + step.out, calls + step.calls;
      i := i + 1;
    }
    assert input[i..] == [];
    return 0, Some(s), out, calls;
  }

  /** The result of the blocking single-line read over a finite input. The
      source polls forever when no terminator ever arrives; `Waiting` is
      where that happens, with everything the input did up to then. */
  datatype LineRead =
    | NoSession
    | Waiting(session: Session, echo: seq<char>)
    | LineReady(line: string, consumed: nat, session: Session, echo: seq<char>)

  /** Feed characters until one completes a line. */
  function ReadLine(s: Session, input: seq<char>): (r: LineRead)
    requires Valid(s)
    ensures !r.NoSession?
    ensures r.LineReady? <==> s.endChar in input
    ensures r.LineReady? ==>
              && 0 < r.consumed <= |input|
              && input[r.consumed - 1] == s.endChar
              && s.endChar !in input[..r.consumed - 1]
    decreases |input|
  {
    if input == [] then Waiting(s, [])
    else
      var st := HandleInput(s, input[0]);
      if st.line.Some? then
        LineReady(st.line.value, 1, st.session, st.echo)
      else
        assert input == [input[0]] + input[1..];
        match ReadLine(st.session, input[1..])
        case Waiting(t, echo) => Waiting(t, st.echo + echo)
        case LineReady(line, n, t, echo) =>
          assert input[..n] == [input[0]] + input[1..][..n - 1];
          LineReady(line, n + 1, t, st.echo + echo)
        case NoSession => NoSession
  }

  /** pico_cli_get_user_input: NULL for a NULL session, otherwise the first
      completed line. */
  function GetUserInput(cli: Option<Session>, input: seq<char>): (r: LineRead)
    requires cli.Some? ==> Valid(cli.value)
    ensures cli.None? <==> r.NoSession?
    ensures cli.Some? ==> (r.LineReady? <==> cli.value.endChar in input)
  {
    if cli.None? then NoSession else ReadLine(cli.value, input)
  }

  /** The session and echo are those of feeding exactly the consumed
      characters. */
  lemma {:induction false} ReadLineFeeds(s: Session, input: seq<char>)
    requires Valid(s)
    requires ReadLine(s, input).LineReady?
    ensures var r := ReadLine(s, input);
            && r.session == Feed(s, input[..r.consumed]).session
            && r.echo == Feed(s, input[..r.consumed]).echo
    decreases |input|
  {
    var r := ReadLine(s, input);
    var st := HandleInput(s, input[0]);
    var pre := input[..r.consumed];
    FeedCons(s, pre);
    assert pre[0] == input[0];
    if st.line.Some? {
      assert pre[1..] == [];
    } else {
      var rec := ReadLine(st.session, input[1..]);
      ReadLineFeeds(st.session, input[1..]);
      assert pre[1..] == input[1..][..rec.consumed];
    }
  }

  /** The line handed back is the C string of what the reference editor
      makes of the characters before the first terminator. */
  lemma {:induction false} ReadLineIsFirstLine(s: Session, input: seq<char>)
    requires Valid(s)
    requires ReadLine(s, input).LineReady?
    ensures var r := ReadLine(s, input);
            r.line == CString(EditAll(Pending(s), input[..r.consumed - 1]))
    decreases |input|
  {
    var r := ReadLine(s, input);
    var st := HandleInput(s, input[0]);
    if st.line.Some? {
      HandleInputCases(s, input[0]);
      assert input[..r.consumed - 1] == [];
    } else {
      var rec := ReadLine(st.session, input[1..]);
      ReadLineIsFirstLine(st.session, input[1..]);
      StepRefinesEdit(s, input[0]);
      var pre := input[..r.consumed - 1];
      assert pre[0] == input[0];
      assert pre[1..] == input[1..][..rec.consumed - 1];
    }
  }
}
