/** The command registry and dispatcher: an insertion-ordered chain of
    entries headed by the built-in help entry, searched by whole-line
    string equality, and the help listing.
 */
module Registry {
  import opened CliTypes

  /** strcmp(e.name, key) == 0: the two C strings are equal. */
  predicate NameMatches(e: Entry, key: string)
  {
    CString(e.name) == CString(key)
  }

  /** Entry `i` matches `key` and no entry before it does. */
  predicate IsFirstMatch(cmds: seq<Entry>, key: string, i: int)
  {
    && 0 <= i < |cmds|
    && NameMatches(cmds[i], key)
    && forall j :: 0 <= j < i ==> !NameMatches(cmds[j], key)
  }

  /** The outcome of registering an entry: the boolean the caller gets and
      the session afterwards (None stands for a NULL session pointer). */
  datatype AddResult = AddResult(ok: bool, cli: Option<Session>)

  /** Registering an entry links it after the current tail. A NULL session
      or NULL entry is refused and nothing changes. Linking a struct that is
      already in the chain would make the chain cyclic, so callers must not. */
  function AddCmd(cli: Option<Session>, c: Option<Entry>): (r: AddResult)
    requires cli.Some? ==> Valid(cli.value)
    requires cli.Some? && c.Some? ==> NotRegistered(cli.value.commands, c.value)
    ensures r.ok <==> cli.Some? && c.Some?
    ensures !r.ok ==> r.cli == cli
    ensures r.ok ==> r.cli.Some? && Valid(r.cli.value)
    ensures r.ok ==>
              && |r.cli.value.commands| == |cli.value.commands| + 1
              && r.cli.value.commands[..|cli.value.commands|] == cli.value.commands
              && r.cli.value.commands[|cli.value.commands|] == c.value
              && r.cli.value.(commands := cli.value.commands) == cli.value
  {
    if cli.None? || c.None? then
      AddResult(false, cli)
    else
      var s := cli.value;
      var cmds := s.commands + [c.value];
      assert cmds[..|s.commands|] == s.commands;
      AddResult(true, Some(s.(commands := cmds)))
  }

  /** Linear search from the head: the first entry, in list order, whose
      name equals the whole key; None when no entry does. */
  function SearchCommand(cmds: seq<Entry>, key: string): (r: Option<Entry>)
    ensures r.None? <==> forall i :: 0 <= i < |cmds| ==> !NameMatches(cmds[i], key)
    ensures r.Some? ==> exists i :: IsFirstMatch(cmds, key, i) && cmds[i] == r.value
    decreases |cmds|
  {
    if |cmds| == 0 then None
    else if NameMatches(cmds[0], key) then
      assert IsFirstMatch(cmds, key, 0);
      Some(cmds[0])
    else
      var r := SearchCommand(cmds[1..], key);
      assert forall i :: 1 <= i < |cmds| ==> cmds[i] == cmds[1..][i - 1];
      assert r.Some? ==> exists i :: IsFirstMatch(cmds, key, i) && cmds[i] == r.value by {
        if r.Some? {
          var k :| IsFirstMatch(cmds[1..], key, k) && cmds[1..][k] == r.value;
          assert IsFirstMatch(cmds, key, k + 1);
        }
      }
      r
  }

  /** Whatever entries are appended later, a key that already had a match
      keeps it, and a key without one finds the new entry only if its name
      matches. */
  lemma {:induction false} SearchAppend(cmds: seq<Entry>, e: Entry, key: string)
    ensures SearchCommand(cmds + [e], key) ==
              match SearchCommand(cmds, key)
              case Some(x) => Some(x)
              case None => if NameMatches(e, key) then Some(e) else None
    decreases |cmds|
  {
    if |cmds| == 0 {
      assert cmds + [e] == [e];
      assert [e][1..] == [];
    } else {
      assert (cmds + [e])[0] == cmds[0];
      assert (cmds + [e])[1..] == cmds[1..] + [e];
      SearchAppend(cmds[1..], e, key);
    }
  }

  /** What help prints for one entry: its name and CR LF, then, when a
      description is present, a tab, the description and CR LF. */
  function EntryText(e: Entry): seq<char>
  {
    CString(e.name) + EndSequence +
    match e.description
    case None => []
    case Some(d) => "\t" + CString(d) + EndSequence
  }

  /** The whole help listing: every entry's text, in list order. */
  function HelpText(cmds: seq<Entry>): seq<char>
    decreases |cmds|
  {
    if cmds == [] then [] else EntryText(cmds[0]) + HelpText(cmds[1..])
  }

  /** The listing of a registry is the listing of any prefix, then the
      chosen entry's text, then the listing of the rest: every entry is
      listed once, in order. */
  lemma {:induction false} HelpTextSplit(cmds: seq<Entry>, i: nat)
    requires i < |cmds|
    ensures HelpText(cmds) == HelpText(cmds[..i]) + EntryText(cmds[i]) + HelpText(cmds[i + 1..])
    decreases i
  {
    if i == 0 {
      assert cmds[..0] == [];
    } else {
      HelpTextSplit(cmds[1..], i - 1);
      assert cmds[1..][..i - 1] == cmds[1..i];
      assert cmds[1..][i - 1] == cmds[i];
      assert cmds[1..][i..] == cmds[i + 1..];
      assert cmds[..i][1..] == cmds[1..i];
      assert cmds[..i][0] == cmds[0];
      AppendAssoc(EntryText(cmds[0]), HelpText(cmds[1..i]) + EntryText(cmds[i]), HelpText(cmds[i + 1..]));
      AppendAssoc(EntryText(cmds[0]), HelpText(cmds[1..i]), EntryText(cmds[i]));
    }
  }

  /** Appending an entry appends its text to the listing. */
  lemma HelpTextAppend(cmds: seq<Entry>, e: Entry)
    ensures HelpText(cmds + [e]) == HelpText(cmds) + EntryText(e)
  {
    var all := cmds + [e];
    HelpTextSplit(all, |cmds|);
    assert all[..|cmds|] == cmds;
    assert all[|cmds| + 1..] == [];
  }

  /** The outcome of handing a completed line to the dispatcher: what was
      sent to the terminal and which handlers were called. */
  datatype Effect = Effect(out: seq<char>, calls: seq<Call>)

  /** Dispatch a completed line: call the first entry whose name equals the
      whole line, once, with the line. The built-in help handler prints the
      listing; an unmatched line does nothing at all. */
  function CommandReceivedHandler(cmds: seq<Entry>, line: string): (r: Effect)
    ensures |r.calls| <= 1
    ensures r.calls == [] <==> forall i :: 0 <= i < |cmds| ==> !NameMatches(cmds[i], line)
    ensures r.calls == [] ==> r.out == []
    ensures r.calls != [] ==>
              && r.calls[0].line == line
              && exists i :: IsFirstMatch(cmds, line, i) && cmds[i].handler == r.calls[0].handler
    ensures r.calls != [] ==>
              r.out == (if r.calls[0].handler == HelpFunction then HelpText(cmds) else [])
  {
    match SearchCommand(cmds, line)
    case None => Effect([], [])
    case Some(e) => Effect(if e.handler == HelpFunction then HelpText(cmds) else [], [Call(e.handler, line)])
  }

  /** Registering an entry leaves earlier matches alone and extends the
      help listing by the new entry's text. */
  lemma AddCmdThenSearch(cli: Option<Session>, c: Option<Entry>, key: string)
    requires cli.Some? ==> Valid(cli.value)
    requires cli.Some? && c.Some? ==> NotRegistered(cli.value.commands, c.value)
    requires AddCmd(cli, c).ok
    ensures var before := cli.value.commands;
            var after := AddCmd(cli, c).cli.value.commands;
            && SearchCommand(after, key) ==
                 (match SearchCommand(before, key)
                  case Some(x) => Some(x)
                  case None => if NameMatches(c.value, key) then Some(c.value) else None)
            && HelpText(after) == HelpText(before) + EntryText(c.value)
  {
    var before := cli.value.commands;
    var after := AddCmd(cli, c).cli.value.commands;
    assert after == before + [c.value];
    SearchAppend(before, c.value, key);
    HelpTextAppend(before, c.value);
  }

  /** The help entry heads every registry, so the line "help" always runs
      the built-in help, whatever was registered after it. */
  lemma HelpAlwaysFound(cmds: seq<Entry>)
    requires WellFormedRegistry(cmds)
    ensures CommandReceivedHandler(cmds, "help") == Effect(HelpText(cmds), [Call(HelpFunction, "help")])
  {
    assert NameMatches(cmds[0], "help");
  }
}
