/** The line-input state machine: one character in, at most one echo action
    and at most one buffer write out, and a completed line on the terminator.
 */
module LineInput {
  import opened CliTypes

  /** What one call of the state machine produces: the session afterwards,
      the characters sent to the terminal, and the completed line if any. */
  datatype StepResult = StepResult(session: Session, echo: seq<char>, line: Option<string>)

  /** The parts of a session that editing never touches. */
  predicate SameConfig(s: Session, t: Session)
  {
    && t.endChar == s.endChar
    && t.prompt == s.prompt
    && t.commands == s.commands
  }

  /** A character that none of the three special rules applies to. */
  predicate IsOrdinary(s: Session, c: char)
  {
    c != s.endChar && c != Backspace && c != CarriageReturn
  }

  /** Backspace handling: step back one slot and rub the character out on
      the terminal, or do nothing when the line is empty. */
  function DeleteLastEchoedChar(s: Session): (r: StepResult)
    requires s.index <= |s.buffer|
    ensures r.line == None
    ensures r.session.buffer == s.buffer && SameConfig(s, r.session)
    ensures s.index == 0 ==> r.session == s && r.echo == []
    ensures s.index > 0 ==> r.session.index + 1 == s.index && r.echo == EraseSequence
    ensures s.index > 0 ==> Pending(r.session) + [s.buffer[s.index - 1]] == Pending(s)
  {
    if s.index != 0 then
      StepResult(s.(index := s.index - 1), CString(EraseSequence), None)
    else
      StepResult(s, [], None)
  }

  /** One character of input. The rules are tried in this order: the
      terminator, backspace, carriage return, then an ordinary character,
      which is kept only while one slot remains for the closing NUL.
      HandleInputCases states what each rule does. */
  function HandleInput(s: Session, c: char): (r: StepResult)
    requires Valid(s)
    ensures Valid(r.session) && SameConfig(s, r.session)
    ensures r.line.Some? <==> c == s.endChar
  {
    if c == s.endChar then
      var buf := s.buffer[s.index := Nul];
      StepResult(s.(buffer := buf, index := 0), CString(EndSequence), Some(CString(buf)))
    else if c == Backspace then
      DeleteLastEchoedChar(s)
    else if c == CarriageReturn then
      StepResult(s, [], None)
    else if s.index + 1 < CommandBuffSize then
      StepResult(s.(buffer := s.buffer[s.index := c], index := s.index + 1), [c], None)
    else
      StepResult(s, [], None)
  }

  /** What each rule of the state machine does: only the slot under the
      cursor is ever written; the terminator hands back the pending line as
      a C string, echoes CR LF and rewinds the cursor; backspace rubs out
      the last character, if there is one; carriage return is dropped; an
      ordinary character is stored and echoed while there is room and
      silently dropped when there is none. */
  lemma HandleInputCases(s: Session, c: char)
    requires Valid(s)
    ensures var r := HandleInput(s, c);
            && (forall i :: 0 <= i < |s.buffer| && i != s.index ==> r.session.buffer[i] == s.buffer[i])
            && (c == s.endChar ==>
                  && r.line == Some(CString(Pending(s)))
                  && r.echo == EndSequence
                  && r.session.index == 0)
            && (c != s.endChar && c == Backspace && s.index == 0 ==> r.session == s && r.echo == [])
            && (c != s.endChar && c == Backspace && s.index > 0 ==>
                  && Pending(r.session) == Pending(s)[..s.index - 1]
                  && r.echo == EraseSequence)
            && (c != s.endChar && c == CarriageReturn ==> r.session == s && r.echo == [])
            && (IsOrdinary(s, c) && s.index + 1 < CommandBuffSize ==>
                  && Pending(r.session) == Pending(s) + [c]
                  && r.echo == [c])
            && (IsOrdinary(s, c) && s.index + 1 >= CommandBuffSize ==> r.session == s && r.echo == [])
  {
    if c == s.endChar {
      assert s.buffer[s.index := Nul] == Pending(s) + [Nul] + s.buffer[s.index + 1..];
      CStringStopsAtNul(Pending(s), s.buffer[s.index + 1..]);
    }
  }

  /** The reference line editor on a plain sequence, for characters other
      than the terminator: backspace drops the last character, carriage
      return is ignored, anything else is appended while the line is
      shorter than the capacity less one. */
  function Edit(line: seq<char>, c: char): seq<char>
  {
    if c == Backspace then
      if |line| == 0 then line else line[..|line| - 1]
    else if c == CarriageReturn then line
    else if |line| + 1 < CommandBuffSize then line + [c]
    else line
  }

  function EditAll(line: seq<char>, cs: seq<char>): seq<char>
    decreases |cs|
  {
    if cs == [] then line else EditAll(Edit(line, cs[0]), cs[1..])
  }

  /** Any character but the terminator changes the buffered line exactly
      as the reference editor changes a plain sequence. */
  lemma StepRefinesEdit(s: Session, c: char)
    requires Valid(s) && c != s.endChar
    ensures Pending(HandleInput(s, c).session) == Edit(Pending(s), c)
  {
  }

  /** What feeding a whole input sequence produces. */
  datatype FeedResult = FeedResult(session: Session, echo: seq<char>, lines: seq<string>)

  function LineOf(r: StepResult): seq<string>
  {
    if r.line.Some? then [r.line.value] else []
  }

  /** The state machine folded over a finite input: the concatenated echo
      and the lines completed, in order. One line per terminator. */
  function Feed(s: Session, cs: seq<char>): (r: FeedResult)
    requires Valid(s)
    ensures Valid(r.session) && SameConfig(s, r.session)
    ensures |r.lines| == multiset(cs)[s.endChar]
    decreases |cs|
  {
    if cs == [] then FeedResult(s, [], [])
    else
      var st := HandleInput(s, cs[0]);
      var rest := Feed(st.session, cs[1..]);
      assert cs == [cs[0]] + cs[1..];
      FeedResult(rest.session, st.echo + rest.echo, LineOf(st) + rest.lines)
  }

  /** One step of the fold, spelled out. */
  lemma FeedCons(s: Session, cs: seq<char>)
    requires Valid(s) && cs != []
    ensures var st := HandleInput(s, cs[0]);
            Feed(s, cs) == FeedResult(Feed(st.session, cs[1..]).session,
                                      st.echo + Feed(st.session, cs[1..]).echo,
                                      LineOf(st) + Feed(st.session, cs[1..]).lines)
  {
  }

  /** Feeding two inputs in turn is feeding their concatenation. */
  lemma {:induction false} FeedAppend(s: Session, a: seq<char>, b: seq<char>)
    requires Valid(s)
    ensures Feed(s, a + b).session == Feed(Feed(s, a).session, b).session
    ensures Feed(s, a + b).echo == Feed(s, a).echo + Feed(Feed(s, a).session, b).echo
    ensures Feed(s, a + b).lines == Feed(s, a).lines + Feed(Feed(s, a).session, b).lines
    decreases |a|
  {
    if a == [] {
      assert a + b == b;
    } else {
      var st := HandleInput(s, a[0]);
      assert (a + b)[0] == a[0];
      assert (a + b)[1..] == a[1..] + b;
      FeedAppend(st.session, a[1..], b);
      FeedCons(s, a);
      FeedCons(s, a + b);
      var x := Feed(st.session, a[1..]);
      var y := Feed(x.session, b);
      AppendAssoc(st.echo, x.echo, y.echo);
      AppendAssoc(LineOf(st), x.lines, y.lines);
    }
  }

  /** Without a terminator no line completes, and the buffered characters
      are exactly what the reference editor makes of the input. */
  lemma {:induction false} FeedRefinesEdit(s: Session, cs: seq<char>)
    requires Valid(s)
    requires s.endChar !in cs
    ensures Feed(s, cs).lines == []
    ensures Pending(Feed(s, cs).session) == EditAll(Pending(s), cs)
    decreases |cs|
  {
    if cs != [] {
      var st := HandleInput(s, cs[0]);
      StepRefinesEdit(s, cs[0]);
      FeedRefinesEdit(st.session, cs[1..]);
    }
  }

  /** Typing `typed` and then the terminator completes exactly one line:
      the C string of what the reference editor made of `typed`. The echo
      ends with CR LF and the next line starts empty. */
  lemma FeedCompletesLine(s: Session, typed: seq<char>)
    requires Valid(s)
    requires s.endChar !in typed
    ensures Feed(s, typed + [s.endChar]).lines == [CString(EditAll(Pending(s), typed))]
    ensures Feed(s, typed + [s.endChar]).echo == Feed(s, typed).echo + EndSequence
    ensures Feed(s, typed + [s.endChar]).session.index == 0
  {
    FeedAppend(s, typed, [s.endChar]);
    FeedRefinesEdit(s, typed);
    var t := Feed(s, typed).session;
    var st := HandleInput(t, s.endChar);
    HandleInputCases(t, s.endChar);
    FeedCons(t, [s.endChar]);
    assert [s.endChar][1..] == [];
    assert Feed(t, [s.endChar]) == FeedResult(st.session, st.echo + [], LineOf(st) + []);
  }

  /** When no NUL was typed, the completed line is the reference editor's
      line itself. */
  lemma CompletedLineIsEdited(s: Session, typed: seq<char>)
    requires Valid(s)
    requires s.endChar !in typed
    requires Nul !in Pending(s) && Nul !in typed
    ensures Feed(s, typed + [s.endChar]).lines == [EditAll(Pending(s), typed)]
  {
    FeedCompletesLine(s, typed);
    EditAllNulFree(Pending(s), typed);
    CStringOfNulFree(EditAll(Pending(s), typed));
  }

  lemma {:induction false} EditAllNulFree(line: seq<char>, cs: seq<char>)
    requires Nul !in line && Nul !in cs
    ensures Nul !in EditAll(line, cs)
    decreases |cs|
  {
    if cs != [] {
      var l := Edit(line, cs[0]);
      assert cs[0] in cs;
      assert Nul !in l by {
        if |line| > 0 && l == line[..|line| - 1] {
          assert forall k :: 0 <= k < |l| ==> l[k] == line[k];
        }
      }
      assert forall k :: 0 <= k < |cs[1..]| ==> cs[1..][k] == cs[k + 1];
      EditAllNulFree(l, cs[1..]);
    }
  }

  /** Plain typing (no backspace, no carriage return) keeps the longest
      prefix that fits in the capacity less one; the rest is dropped. */
  lemma {:induction false} TypingKeepsPrefix(line: seq<char>, cs: seq<char>)
    requires |line| < CommandBuffSize
    requires Backspace !in cs && CarriageReturn !in cs
    ensures var all := line + cs;
            EditAll(line, cs) == all[..if |all| < CommandBuffSize then |all| else CommandBuffSize - 1]
    decreases |cs|
  {
    var all := line + cs;
    if cs == [] {
      assert all == line;
    } else {
      assert cs[0] in cs;
      assert Backspace !in cs[1..] && CarriageReturn !in cs[1..] by {
        assert forall k :: 0 <= k < |cs[1..]| ==> cs[1..][k] == cs[k + 1];
      }
      var l := Edit(line, cs[0]);
      TypingKeepsPrefix(l, cs[1..]);
      if |line| + 1 < CommandBuffSize {
        assert l + cs[1..] == all;
      } else {
        assert l == line;
        assert (l + cs[1..])[..CommandBuffSize - 1] == line;
        assert all[..CommandBuffSize - 1] == line;
      }
    }
  }

  /** How many of `count` ordinary characters typed at offset `index` are
      kept: all of them while the buffer has room, otherwise as many as fit
      before the slot reserved for the NUL. */
  function KeptCount(index: nat, count: nat): (k: nat)
    requires index < CommandBuffSize
    ensures k <= count
    ensures index + k < CommandBuffSize
    ensures k < count ==> index + k == CommandBuffSize - 1
  {
    if index + count < CommandBuffSize then count else CommandBuffSize - 1 - index
  }

  /** One ordinary character: stored and echoed while there is room,
      dropped without echo otherwise; never a line. */
  lemma TypeOrdinary(s: Session, c: char)
    requires Valid(s) && IsOrdinary(s, c)
    ensures var st := HandleInput(s, c);
            && st.line == None
            && (s.index + 1 < CommandBuffSize ==>
                  st.session.index == s.index + 1 && Pending(st.session) == Pending(s) + [c] && st.echo == [c])
            && (s.index + 1 >= CommandBuffSize ==> st.session == s && st.echo == [])
  {
    HandleInputCases(s, c);
  }

  /** Typing ordinary characters stores and echoes each of them exactly
      once until one slot is left; every later one is dropped without any
      echo, and no line completes. */
  lemma {:induction false} TypingEchoesUntilFull(s: Session, cs: seq<char>)
    requires Valid(s)
    requires s.endChar !in cs && Backspace !in cs && CarriageReturn !in cs
    ensures var keep := KeptCount(s.index, |cs|);
            && Feed(s, cs).echo == cs[..keep]
            && Pending(Feed(s, cs).session) == Pending(s) + cs[..keep]
            && Feed(s, cs).lines == []
    decreases |cs|
  {
    if cs == [] {
      assert Pending(s) + [] == Pending(s);
    } else {
      var c := cs[0];
      var st := HandleInput(s, c);
      TypeOrdinary(s, c);
      FeedCons(s, cs);
      var rest := cs[1..];
      assert c in cs;
      assert s.endChar !in rest && Backspace !in rest && CarriageReturn !in rest by {
        assert forall k :: 0 <= k < |rest| ==> rest[k] == cs[k + 1];
      }
      TypingEchoesUntilFull(st.session, rest);
      var keep := KeptCount(s.index, |cs|);
      var r := Feed(s, cs);
      var t := Feed(st.session, rest);
      assert r.echo == st.echo + t.echo && r.session == t.session && r.lines == t.lines;
      if s.index + 1 < CommandBuffSize {
        assert KeptCount(st.session.index, |rest|) == keep - 1;
        assert [c] + rest[..keep - 1] == cs[..keep];
        AppendAssoc(Pending(s), [c], rest[..keep - 1]);
      } else {
        assert keep == 0;
        assert KeptCount(s.index, |rest|) == 0;
      }
    }
  }
}
