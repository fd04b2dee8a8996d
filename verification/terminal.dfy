/** A minimal terminal on the receiving end of send_char, used to state what
    the echo protocol is for: after every keystroke the text left of the
    cursor is exactly the line held in the input buffer.
 */
module Terminal {
  import opened CliTypes
  import opened LineInput

  /** The current screen line and the cursor column. */
  datatype Screen = Screen(cells: seq<char>, cursor: nat)

  predicate Sane(t: Screen)
  {
    t.cursor <= |t.cells|
  }

  /** Backspace moves the cursor one column left (not past the margin);
      every other character is printed in the cell under the cursor, which
      then advances. */
  function Put(t: Screen, c: char): (r: Screen)
    requires Sane(t)
    ensures Sane(r)
  {
    if c == Backspace then
      if t.cursor == 0 then t else t.(cursor := t.cursor - 1)
    else if t.cursor < |t.cells| then
      Screen(t.cells[t.cursor := c], t.cursor + 1)
    else
      Screen(t.cells + [c], t.cursor + 1)
  }

  function Render(t: Screen, out: seq<char>): (r: Screen)
    requires Sane(t)
    ensures Sane(r)
    decreases |out|
  {
    if out == [] then t else Render(Put(t, out[0]), out[1..])
  }

  /** The text left of the cursor is `line`. */
  predicate Shows(t: Screen, line: seq<char>)
  {
    && t.cursor == |line|
    && |line| <= |t.cells|
    && t.cells[..|line|] == line
  }

  lemma {:induction false} RenderAppend(t: Screen, a: seq<char>, b: seq<char>)
    requires Sane(t)
    ensures Render(t, a + b) == Render(Render(t, a), b)
    decreases |a|
  {
    if a == [] {
      assert a + b == b;
    } else {
      assert (a + b)[0] == a[0];
      assert (a + b)[1..] == a[1..] + b;
      RenderAppend(Put(t, a[0]), a[1..], b);
    }
  }

  /** Rubbing out with BS SP BS leaves the screen showing the line less its
      last character. */
  lemma EraseRubsOut(t: Screen, line: seq<char>)
    requires Sane(t) && Shows(t, line) && |line| > 0
    ensures Shows(Render(t, EraseSequence), line[..|line| - 1])
  {
    var n := |line|;
    var t1 := Put(t, Backspace);
    var t2 := Put(t1, ' ');
    var t3 := Put(t2, Backspace);
    assert t2.cells == t.cells[n - 1 := ' '];
    assert t3.cells[..n - 1] == t.cells[..n - 1];
    assert Render(t, EraseSequence) == t3 by {
      assert EraseSequence == [Backspace, ' ', Backspace];
      assert EraseSequence[1..] == [' ', Backspace];
      assert EraseSequence[1..][1..] == [Backspace];
      assert EraseSequence[1..][1..][1..] == [];
    }
  }

  /** Echoing one printable character appends it to what the screen shows. */
  lemma EchoPrints(t: Screen, line: seq<char>, c: char)
    requires Sane(t) && Shows(t, line) && c != Backspace
    ensures Shows(Render(t, [c]), line + [c])
  {
    assert [c][1..] == [];
    var t1 := Put(t, c);
    assert Render(t, [c]) == t1;
    assert t1.cells[..|line| + 1] == line + [c];
  }

  /** One keystroke other than the terminator keeps the screen in step with
      the buffer. */
  lemma StepMirrors(t: Screen, s: Session, c: char)
    requires Valid(s) && Sane(t) && Shows(t, Pending(s))
    requires c != s.endChar
    ensures Shows(Render(t, HandleInput(s, c).echo), Pending(HandleInput(s, c).session))
  {
    var r := HandleInput(s, c);
    if c == Backspace {
      if s.index > 0 {
        EraseRubsOut(t, Pending(s));
      }
    } else if c == CarriageReturn {
    } else if s.index + 1 < CommandBuffSize {
      EchoPrints(t, Pending(s), c);
    }
  }

  /** Whatever is typed, as long as no line completes, the terminal shows
      exactly the buffered line with the cursor right after it. */
  lemma {:induction false} EchoMirrorsBuffer(t: Screen, s: Session, cs: seq<char>)
    requires Valid(s) && Sane(t) && Shows(t, Pending(s))
    requires s.endChar !in cs
    ensures Shows(Render(t, Feed(s, cs).echo), Pending(Feed(s, cs).session))
    decreases |cs|
  {
    if cs != [] {
      var st := HandleInput(s, cs[0]);
      StepMirrors(t, s, cs[0]);
      var t1 := Render(t, st.echo);
      assert s.endChar !in cs[1..] by {
        assert forall k :: 0 <= k < |cs[1..]| ==> cs[1..][k] == cs[k + 1];
      }
      EchoMirrorsBuffer(t1, st.session, cs[1..]);
      FeedCons(s, cs);
      RenderAppend(t, st.echo, Feed(st.session, cs[1..]).echo);
    }
  }
}
