/** Data model of the pico_cli command-line interpreter: the session record,
    command entries, the characters of the echo protocol and C-string reading.
 */
module CliTypes {

  datatype Option<+T> = None | Some(value: T)

  /** A buffer capacity: at least one slot, for the closing NUL. */
  type Capacity = n: nat | n >= 1 witness 1

  /** Capacity of the input buffer, a build-time setting (32 unless the
      build overrides CLI_COMMAND_BUFF_SIZE). The buffer is declared with
      CLI_COMMAND_BUFF_SIZE while the bound check uses
      PICO_CLI_COMMAND_BUFF_SIZE; the model assumes both macros are equal.
      Nothing below depends on its value. */
  const CommandBuffSize: Capacity

  const Nul: char := '\0'
  const Backspace: char := '\U{0008}'
  const CarriageReturn: char := '\r'

  /** What the terminal receives at the end of a line: CR LF. */
  const EndSequence: string := "\r\n"

  /** What the terminal receives to rub out the last echoed character: BS SP BS. */
  const EraseSequence: string := "\U{0008} \U{0008}"

  /** The function pointer stored in an entry: the built-in help, or one of
      the embedder's handlers told apart by an identifier. */
  datatype Handler = HelpFunction | UserFunction(id: nat)

  /** One caller-owned command struct. `addr` stands for its storage location,
      which is what the intrusive `next` links refer to; `description` is
      None for a NULL description pointer. */
  datatype Entry = Entry(addr: nat, name: string, description: Option<string>, handler: Handler)

  /** The storage location reserved for the help entry embedded in the session. */
  const HelpAddr: nat := 0

  const HelpEntry: Entry := Entry(HelpAddr, "help", Some("print out all the commands"), HelpFunction)

  /** The live session. `buffer` is the fixed character array, `index` the
      write offset, `commands` the registry in list order from its head. */
  datatype Session = Session(
    endChar: char,
    prompt: Option<string>,
    buffer: seq<char>,
    index: nat,
    commands: seq<Entry>)

  /** One invocation of a command handler with the line it was given. */
  datatype Call = Call(handler: Handler, line: string)

  /** No storage location occurs twice: the linked chain is acyclic. */
  predicate DistinctAddrs(cmds: seq<Entry>)
  {
    forall i, j :: 0 <= i < j < |cmds| ==> cmds[i].addr != cmds[j].addr
  }

  /** The entry's struct is not already linked into the chain. */
  predicate NotRegistered(cmds: seq<Entry>, e: Entry)
  {
    forall i :: 0 <= i < |cmds| ==> cmds[i].addr != e.addr
  }

  /** A registry whose permanent head is the built-in help entry. */
  predicate WellFormedRegistry(cmds: seq<Entry>)
  {
    && |cmds| >= 1
    && cmds[0] == HelpEntry
    && DistinctAddrs(cmds)
  }

  /** The session invariants: the buffer has the configured capacity, the
      write offset leaves the last slot free for the NUL, and the registry
      is well formed. */
  predicate Valid(s: Session)
  {
    && |s.buffer| == CommandBuffSize
    && s.index < |s.buffer|
    && WellFormedRegistry(s.commands)
  }

  /** The characters entered since the last completed line. */
  function Pending(s: Session): seq<char>
    requires s.index <= |s.buffer|
  {
    s.buffer[..s.index]
  }

  /** The C string held by a character array: everything before the first
      NUL, or the whole array when there is none. This is what echo_string
      sends and what strcmp compares. */
  function CString(s: seq<char>): (r: seq<char>)
    ensures |r| <= |s| && r == s[..|r|]
    ensures Nul !in r
    ensures |r| < |s| ==> s[|r|] == Nul
  {
    if |s| == 0 || s[0] == Nul then []
    else [s[0]] + CString(s[1..])
  }

  lemma AppendAssoc<T>(a: seq<T>, b: seq<T>, c: seq<T>)
    ensures a + (b + c) == (a + b) + c
  {
  }

  /** A sequence without NUL reads back as itself. */
  lemma CStringOfNulFree(s: seq<char>)
    requires Nul !in s
    ensures CString(s) == s
  {
  }

  /** A NUL written right after `p` cuts the C string there, whatever follows. */
  lemma CStringStopsAtNul(p: seq<char>, rest: seq<char>)
    ensures CString(p + [Nul] + rest) == CString(p)
  {
    var r2 := CString(p);
    if |r2| < |p| {
      assert (p + [Nul] + rest)[|r2|] == p[|r2|];
      assert r2 == (p + [Nul] + rest)[..|r2|];
      CStringUnique(p + [Nul] + rest, r2);
    } else {
      assert r2 == p;
      assert (p + [Nul] + rest)[..|p|] == p;
      CStringUnique(p + [Nul] + rest, r2);
    }
  }

  /** The three facts in CString's contract pin its result down. */
  lemma {:induction false} CStringUnique(s: seq<char>, r: seq<char>)
    requires |r| <= |s| && r == s[..|r|]
    requires Nul !in r
    requires |r| < |s| ==> s[|r|] == Nul
    ensures CString(s) == r
  {
    if |s| == 0 {
    } else if s[0] == Nul {
    } else {
      assert |r| > 0;
      assert r[1..] == s[1..][..|r| - 1];
      assert Nul !in r[1..] by {
        forall k | 0 <= k < |r[1..]| ensures r[1..][k] != Nul {
          assert r[1..][k] == r[k + 1];
        }
      }
      CStringUnique(s[1..], r[1..]);
      assert r == [s[0]] + r[1..];
    }
  }
}
