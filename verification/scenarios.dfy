/** Concrete sessions and inputs taken from the unit tests and a worked
    editing example, each stated as a lemma about the model. Each scenario
    asks only for the buffer room its line needs, so it holds for the
    default capacity of 32 and for every other capacity that large.
 */
module Scenarios {
  import opened CliTypes
  import opened LineInput
  import opened Registry
  import opened CliSession

  /** The configuration the unit tests set up: every callback present,
      LF as terminator, "cli>" as prompt. */
  const TestSettings: Settings := Settings(true, true, true, '\n', Some("cli>"))

  const F01: Entry := Entry(1, "f01", Some("test function description 01"), UserFunction(1))
  const F02: Entry := Entry(2, "f02", Some("test function description 02"), UserFunction(2))

  /** Initialisation succeeds with every callback present and an allocation
      that succeeds, and fails when any one callback is missing or the
      allocation fails. */
  lemma InitOutcomes(storage: seq<char>)
    requires |storage| == CommandBuffSize
    ensures Init(TestSettings, Some(storage)).Some?
    ensures Init(TestSettings.(hasMalloc := false), Some(storage)).None?
    ensures Init(TestSettings.(hasGetChar := false), Some(storage)).None?
    ensures Init(TestSettings.(hasSendChar := false), Some(storage)).None?
    ensures Init(TestSettings, None).None?
    ensures InitStatic(Some(storage), TestSettings.(hasMalloc := false)).code == 1
  {
  }

  /** Typing "ab", a backspace, "c" and LF on a fresh session echoes
      "ab", BS SP BS, "c", CR LF and completes the line "ac" on the LF only. */
  lemma EditingExample(storage: seq<char>)
    requires |storage| == CommandBuffSize
    requires CommandBuffSize > 2  // room for "ab" and the NUL
    ensures var s0 := InitInternal(TestSettings, storage);
            var s1 := HandleInput(s0, 'a');
            var s2 := HandleInput(s1.session, 'b');
            var s3 := HandleInput(s2.session, Backspace);
            var s4 := HandleInput(s3.session, 'c');
            var s5 := HandleInput(s4.session, '\n');
            && s1.echo + s2.echo + s3.echo + s4.echo + s5.echo == ['a'] + ['b'] + EraseSequence + ['c'] + EndSequence
            && s1.line == s2.line == s3.line == s4.line == None
            && s5.line == Some(['a', 'c'])
  {
    var s0 := InitInternal(TestSettings, storage);
    var s1 := HandleInput(s0, 'a');
    assert Pending(s1.session) == ['a'] && s1.echo == ['a'] by {
      HandleInputCases(s0, 'a');
    }
    var s2 := HandleInput(s1.session, 'b');
    assert Pending(s2.session) == ['a', 'b'] && s2.echo == ['b'] by {
      HandleInputCases(s1.session, 'b');
    }
    var s3 := HandleInput(s2.session, Backspace);
    assert Pending(s3.session) == ['a'] && s3.echo == EraseSequence by {
      HandleInputCases(s2.session, Backspace);
    }
    var s4 := HandleInput(s3.session, 'c');
    assert Pending(s4.session) == ['a', 'c'] && s4.echo == ['c'] by {
      HandleInputCases(s3.session, 'c');
    }
    var s5 := HandleInput(s4.session, '\n');
    assert s5.line == Some(CString(['a', 'c'])) && s5.echo == EndSequence by {
      HandleInputCases(s4.session, '\n');
    }
    CStringOfNulFree(['a', 'c']);
  }

  /** Each character of "test" is echoed and completes nothing; LF then
      hands back "test". */
  lemma HandleInputTest(storage: seq<char>)
    requires |storage| == CommandBuffSize
    requires CommandBuffSize > 4  // room for "test" and the NUL
    ensures var s0 := InitInternal(TestSettings, storage);
            var s1 := HandleInput(s0, 't');
            var s2 := HandleInput(s1.session, 'e');
            var s3 := HandleInput(s2.session, 's');
            var s4 := HandleInput(s3.session, 't');
            var s5 := HandleInput(s4.session, '\n');
            && s1.echo == ['t'] && s2.echo == ['e'] && s3.echo == ['s'] && s4.echo == ['t']
            && s1.line == s2.line == s3.line == s4.line == None
            && s5.line == Some("test")
  {
    var s0 := InitInternal(TestSettings, storage);
    var s1 := HandleInput(s0, 't');
    assert Pending(s1.session) == "t" && s1.echo == ['t'] by {
      HandleInputCases(s0, 't');
    }
    var s2 := HandleInput(s1.session, 'e');
    assert Pending(s2.session) == "te" && s2.echo == ['e'] by {
      HandleInputCases(s1.session, 'e');
    }
    var s3 := HandleInput(s2.session, 's');
    assert Pending(s3.session) == "tes" && s3.echo == ['s'] by {
      HandleInputCases(s2.session, 's');
    }
    var s4 := HandleInput(s3.session, 't');
    assert Pending(s4.session) == "test" && s4.echo == ['t'] by {
      HandleInputCases(s3.session, 't');
    }
    var s5 := HandleInput(s4.session, '\n');
    assert s5.line == Some(CString("test")) by {
      HandleInputCases(s4.session, '\n');
    }
    CStringOfNulFree("test");
  }

  /** After 'a', deleting the last character rubs it out with BS SP BS. */
  lemma DeleteLastCharTest(storage: seq<char>)
    requires |storage| == CommandBuffSize
    requires CommandBuffSize > 1  // room for "a" and the NUL
    ensures var s := InitInternal(TestSettings, storage);
            var a := HandleInput(s, 'a');
            var d := DeleteLastEchoedChar(a.session);
            && a.echo == ['a']
            && d.echo == EraseSequence
            && d.session.index == 0
  {
  }

  /** Adding f01 then f02 links them after help, in that order. */
  lemma AddCmdTest(storage: seq<char>)
    requires |storage| == CommandBuffSize
    ensures var s := InitInternal(TestSettings, storage);
            var r1 := AddCmd(Some(s), Some(F01));
            && r1.ok && r1.cli.value.commands == [HelpEntry, F01]
            && var r2 := AddCmd(r1.cli, Some(F02));
               r2.ok && r2.cli.value.commands == [HelpEntry, F01, F02]
  {
  }

  /** A NULL session or a NULL entry is refused and changes nothing. */
  lemma AddCmdRefusesNull(storage: seq<char>)
    requires |storage| == CommandBuffSize
    ensures var s := InitInternal(TestSettings, storage);
            && AddCmd(None, Some(F01)) == AddResult(false, None)
            && AddCmd(Some(s), None) == AddResult(false, Some(s))
  {
  }

  /** f01 is found once added; f02 is not, as it has not been added. */
  lemma SearchCommandTest()
    ensures SearchCommand([HelpEntry, F01], "f01") == Some(F01)
    ensures SearchCommand([HelpEntry, F01], "f02") == None
  {
    CStringOfNulFree("f01");
    CStringOfNulFree("f02");
    CStringOfNulFree("help");
    assert !NameMatches(HelpEntry, "f01") by {
      assert "help"[0] != "f01"[0];
    }
    assert !NameMatches(HelpEntry, "f02") by {
      assert "help"[0] != "f02"[0];
    }
    assert !NameMatches(F01, "f02") by {
      assert "f01"[2] != "f02"[2];
    }
    assert [HelpEntry, F01][1..] == [F01];
  }

  /** Once f02 is added too, it is found behind help and f01. */
  lemma SearchCommandAfterSecondAdd()
    ensures SearchCommand([HelpEntry, F01, F02], "f02") == Some(F02)
  {
    SearchCommandTest();
    CStringOfNulFree("f02");
    assert [HelpEntry, F01] + [F02] == [HelpEntry, F01, F02];
    SearchAppend([HelpEntry, F01], F02, "f02");
  }

  /** With f01 and f02 registered, the line "f01" calls f01's handler once
      with that line and calls nothing else. */
  lemma CommandReceivedHandlerTest()
    ensures CommandReceivedHandler([HelpEntry, F01, F02], "f01") == Effect([], [Call(UserFunction(1), "f01")])
  {
    CStringOfNulFree("f01");
    CStringOfNulFree("help");
    assert !NameMatches(HelpEntry, "f01") by {
      assert "help"[0] != "f01"[0];
    }
    assert SearchCommand([HelpEntry, F01, F02], "f01") == Some(F01) by {
      assert [HelpEntry, F01, F02][1..] == [F01, F02];
    }
  }

  /** A later entry with the same name as an earlier one is never found:
      the earlier one shadows it. */
  lemma DuplicateNameShadowed(dup: Entry)
    requires dup.name == F01.name
    ensures SearchCommand([HelpEntry, F01, F02, dup], "f01") == Some(F01)
  {
    CommandReceivedHandlerTest();
    assert [HelpEntry, F01, F02] + [dup] == [HelpEntry, F01, F02, dup];
    SearchAppend([HelpEntry, F01, F02], dup, "f01");
  }
}
