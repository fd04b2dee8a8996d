# pico_cli in Dafny

A model of pico_cli, a small line-oriented command interpreter for embedded
targets. The model covers the two parts of `src/pico_cli.c` that hold logic.

- **Line-input state machine.** One character per call. A bounded buffer and a
  write offset are updated, an exact echo trace is produced, and a completed
  line is handed back only on the configured terminator. The rules are tried
  in a fixed order: terminator, backspace, carriage return, ordinary character.
- **Command registry and dispatcher.** An insertion-ordered chain headed by the
  built-in `help` entry. The search is first-match on whole-line string
  equality. A dispatch calls the matched handler once. `help` prints a fixed
  listing. The run loop feeds every character, dispatches every completed line
  and then echoes the prompt.

Everything is pure. A session is an immutable record:
- a buffer of exactly `CommandBuffSize` characters, plus a write offset;
- the terminator and the prompt;
- the registry, a `seq<Entry>` in list order.

`get_char` becomes a finite input sequence. `send_char` becomes an output
trace. Handler calls are recorded as `Call(handler, line)` events.

Files:
- `cli_types.dfy` (`CliTypes`): the data model, the session invariant `Valid`
  and C-string reading (`CString`). `CString` is what `echo_string` sends and
  what `strcmp` compares.
- `line_input.dfy` (`LineInput`): `pico_cli_handle_input` and
  `delete_last_echoed_char`. It also holds a reference line editor on plain
  sequences (`Edit`/`EditAll`), which the fixed buffer is proved against, and
  the fold `Feed`.
- `terminal.dfy` (`Terminal`): a minimal terminal that receives the echo. It
  is used to prove the point of the echo protocol: what the screen shows left
  of the cursor is exactly the buffered line. The terminal is an ideal one:
  backspace moves the cursor left and every other character fills exactly one
  cell. On a real terminal a typed tab, a line feed that is not the
  terminator, or another control character is stored and echoed as ordinary
  input, and the screen then no longer mirrors the buffer.
- `registry.dfy` (`Registry`): `pico_cli_add_cmd`, `pico_cli_search_command`,
  `help_function` and `pico_cli_command_received_handler`.
- `session.dfy` (`CliSession`): `pico_cli_init_internal`, both variants of
  `pico_cli_init`, `pico_cli_run` and `pico_cli_get_user_input`.
- `scenarios.dfy` (`Scenarios`): the unit-test cases and a worked editing
  example, "ab, backspace, c, LF", stated as lemmas.

Three facts about the source shape the model.

- The bound check in `pico_cli_handle_input` uses `PICO_CLI_COMMAND_BUFF_SIZE`.
- The buffer is declared with `CLI_COMMAND_BUFF_SIZE`, which defaults to 32.
- None of the source files defines `PICO_CLI_COMMAND_BUFF_SIZE`.

The model has one capacity, `CommandBuffSize`, and assumes the two macros are
equal. Like the macro, the capacity is a build-time setting: `CommandBuffSize`
is an arbitrary constant of at least 1, and every property below holds for
every such value. The default build uses 32. The scenarios ask only for as
much room as their lines need. Under that assumption, `Valid` keeps the write offset at most
capacity − 1. So the NUL store made on the terminator is in range: Dafny checks
the `buffer[index := NUL]` update against `Valid`.

Three further facts about the code:
- Dispatch compares the whole line with each command name using `strcmp`. It
  does not split off a leading token (`src/pico_cli.c:53`, `src/pico_cli.c:64`).
- The caller-supplied-storage `pico_cli_init` never calls the allocator. It
  still refuses a settings bundle without one (`src/pico_cli.c:205`).
- Each command entry has only a `next` link, so the registry is singly linked
  (`src/pico_cli.h:20`).

## Model

| member | source | states |
|---|---|---|
| CliTypes.CString | src/pico_cli.c:23-29 | `echo_string` sends exactly the characters before the first NUL: the result is a NUL-free prefix of the input, and it is followed by a NUL whenever it is shorter than the input |
| CliTypes.CStringStopsAtNul | src/pico_cli.c:77-78 | storing NUL right after the buffered characters makes the returned C string exactly those characters, whatever stale data follows in the buffer |
| LineInput.DeleteLastEchoedChar | src/pico_cli.c:36-43 | at offset 0 nothing changes and nothing is sent; otherwise the offset drops by one, the line loses exactly its last character, and BS SP BS is sent |
| LineInput.HandleInput | src/pico_cli.c:72-98 | every keystroke keeps the session invariant and leaves the terminator, prompt and registry untouched; a line comes back if and only if the character is the terminator |
| LineInput.HandleInputCases | src/pico_cli.c:72-98 | the terminator wins over every other rule: it returns the C string of the buffered line, sends CR LF and resets the offset to 0. Backspace erases one character, or does nothing on an empty line. A non-terminator CR is dropped silently. An ordinary character is stored and echoed once only while offset + 1 < capacity, and is discarded silently otherwise. At most the slot at the offset is written |
| LineInput.StepRefinesEdit | src/pico_cli.c:82-96 | one keystroke other than the terminator changes the buffered line exactly as the reference sequence editor changes a plain sequence |
| LineInput.Feed | src/pico_cli.c:125-128 | feeding a finite input keeps the session invariant and yields exactly one completed line per terminator in the input |
| LineInput.FeedAppend | src/pico_cli.c:126-128 | feeding two inputs one after the other is the same as feeding their concatenation: the session, echo and lines compose |
| LineInput.FeedRefinesEdit | src/pico_cli.c:82-96 | without a terminator no line completes, and the buffered characters equal what the reference sequence editor makes of the input: the array-plus-offset buffer implements the editor |
| LineInput.FeedCompletesLine | src/pico_cli.c:75-81 | typed characters followed by the terminator complete exactly one line, the C string of the edited text. The echo ends in CR LF and the next line starts at offset 0 |
| LineInput.CompletedLineIsEdited | src/pico_cli.c:75-96 | when no NUL was typed, the completed line is exactly the characters entered since the last line, as edited |
| LineInput.TypingKeepsPrefix | src/pico_cli.c:90-96 | on the reference editor, plain typing keeps the longest prefix that fits in capacity − 1 characters and drops the rest |
| LineInput.TypeOrdinary | src/pico_cli.c:90-96 | one ordinary character completes no line; it is stored, echoed once and advances the offset while offset + 1 < capacity, and is otherwise dropped with no echo and no change |
| LineInput.TypingEchoesUntilFull | src/pico_cli.c:90-96 | feeding ordinary characters stores and echoes exactly the first ones, up to one slot short of capacity, each once; the later ones are neither stored nor echoed, and no line completes |
| Terminal.EraseRubsOut | src/pico_cli.c:36-43 | BS SP BS makes a terminal that shows a line show that line less its last character, with the cursor after it |
| Terminal.StepMirrors | src/pico_cli.c:72-98 | after any non-terminator keystroke, the terminal still shows exactly the buffered line |
| Terminal.EchoMirrorsBuffer | src/pico_cli.c:72-98 | for any input without a terminator, the echo leaves the terminal showing exactly the buffered line, with the cursor right after it |
| Registry.AddCmd | src/pico_cli.c:143-157 | a NULL session or NULL entry gives false and changes nothing. Otherwise the result is true, the registry is the old chain with the entry appended as its new last element, help stays first, the chain stays acyclic and nothing else in the session changes |
| Registry.SearchCommand | src/pico_cli.c:45-59 | the result is None if and only if no entry's name equals the whole key; otherwise it is the first entry in list order whose name does |
| Registry.SearchAppend | src/pico_cli.c:150-155 | appending an entry never changes a key's existing match; a key with no match finds the new entry exactly when its name matches |
| Registry.HelpTextSplit | src/pico_cli.c:100-116 | the help listing is every entry's text, each once, in list order. Each entry's text is its name and CR LF, then a tab, the description and CR LF when a description is present |
| Registry.HelpTextAppend | src/pico_cli.c:105-115 | the listing of a registry with one more entry is the old listing followed by that entry's text |
| Registry.CommandReceivedHandler | src/pico_cli.c:61-70 | at most one handler call. A call is made if and only if some entry's name equals the whole line, and it is made to the first such entry's handler, with the full line. An unmatched line sends nothing; a matched user handler sends nothing of its own; help sends the listing |
| Registry.AddCmdThenSearch | src/pico_cli.c:143-157 | after a successful registration, every key keeps its earlier match, and the help listing gains exactly the new entry's text |
| Registry.HelpAlwaysFound | src/pico_cli.c:190-194 | help heads every registry, so the line "help" always runs the built-in help once, whatever else is registered |
| CliSession.InitInternal | src/pico_cli.c:182-198 | a freshly filled session satisfies the invariant, has an empty line and help as its only entry, and carries the configured terminator and prompt |
| CliSession.Init | src/pico_cli.c:217-235 | the library-allocated variant yields a session if and only if the allocator, get_char and send_char are all set and the allocation succeeds |
| CliSession.InitStatic | src/pico_cli.c:200-214 | the caller-storage variant returns 0 (usable) if and only if the session pointer is non-NULL and all three callbacks, the allocator included, are set; otherwise it returns 1 |
| CliSession.FreshSessionKnowsOnlyHelp | src/pico_cli.c:190-194 | on a fresh session a line runs a handler if and only if it reads "help" |
| CliSession.HelpEntryText | src/pico_cli.c:105-115 | help's own listing entry is "help", CR LF, a tab, "print out all the commands", CR LF |
| CliSession.FreshHelpText | src/pico_cli.c:190-194 | on a fresh session help prints "help", CR LF, a tab, "print out all the commands", CR LF |
| CliSession.RunStep | src/pico_cli.c:126-137 | one run-loop iteration edits exactly as the state machine does, and calls a handler only on the terminator, at most once |
| CliSession.Replay | src/pico_cli.c:118-141 | over a finite input the run loop keeps the invariant and the configuration, and calls handlers no more often than there are terminators |
| CliSession.ReplayFollowsFeed | src/pico_cli.c:126-138 | the run loop leaves the same session as bare feeding. Its handler calls are those of dispatching each completed line, in order |
| CliSession.ReplayWithoutTerminator | src/pico_cli.c:126-138 | input without a terminator is only echoed: no handler runs and no prompt is sent |
| CliSession.ReplayAppend | src/pico_cli.c:126-138 | running over two inputs in turn is running over their concatenation |
| CliSession.TerminatorStep | src/pico_cli.c:126-137 | the run-loop iteration on the terminator sends CR LF, then the dispatch output for the pending line, then the prompt; its calls are that dispatch's calls, and the next line starts at offset 0 |
| CliSession.OneLine | src/pico_cli.c:126-137 | one terminated line sends the echo of the typing, CR LF, the dispatch output and then the prompt, in that order. The handler calls are those of dispatching the edited line, and the next line starts empty |
| CliSession.Run | src/pico_cli.c:118-141 | status 1 and no effect for a NULL session. Otherwise status 0, with the imperative loop producing exactly the session, output and handler calls of the run-loop fold |
| CliSession.ReadLine | src/pico_cli.c:166-177 | a line is returned if and only if the input holds a terminator; exactly the characters up to and including the first terminator are consumed |
| CliSession.GetUserInput | src/pico_cli.c:159-179 | NULL for a NULL session; otherwise a line comes back if and only if a terminator arrives |
| CliSession.ReadLineFeeds | src/pico_cli.c:166-177 | after a line comes back, the session and echo are those of feeding exactly the consumed characters |
| CliSession.ReadLineIsFirstLine | src/pico_cli.c:166-177 | the line handed back is the C string of the edited characters before the first terminator |
| Scenarios.InitOutcomes | unit_tests/Test_cli.c:99-127 | init succeeds with every callback set and fails when the allocator, get_char or send_char is missing, or the allocation fails |
| Scenarios.EditingExample | src/pico_cli.c:72-98 | "ab", backspace, "c", LF echoes "ab", BS SP BS, "c", CR LF and completes the line "ac" on the LF only |
| Scenarios.HandleInputTest | unit_tests/Test_cli.c:226-248 | each character of "test" is echoed and completes nothing; LF then returns "test" |
| Scenarios.DeleteLastCharTest | unit_tests/Test_cli.c:153-180 | 'a' is echoed; deleting it sends BS SP BS and returns the offset to 0 |
| Scenarios.AddCmdTest | unit_tests/Test_cli.c:182-194 | adding f01 then f02 links them after help in that order |
| Scenarios.AddCmdRefusesNull | src/pico_cli.c:143-148 | a NULL session or NULL entry is refused with the session unchanged |
| Scenarios.SearchCommandTest | unit_tests/Test_cli.c:196-207 | f01 is found once added; f02 is not found before it is added |
| Scenarios.SearchCommandAfterSecondAdd | unit_tests/Test_cli.c:208-210 | once f02 is added after f01, searching for it finds it |
| Scenarios.CommandReceivedHandlerTest | unit_tests/Test_cli.c:213-224 | the line "f01" calls f01's handler once and nothing else |
| Scenarios.DuplicateNameShadowed | src/pico_cli.c:51-57 | a later entry with an earlier entry's name is never found |

## Left out

- Callback I/O: `get_char` is a finite input sequence and `send_char` an output trace. A `get_char` that returns "no character yet" inside `pico_cli_get_user_input` changes nothing and is not modelled. In `pico_cli_run` the end of the sequence is the `get_char` that returns false.
- `pico_cli_get_user_input` polls forever when no terminator ever arrives. The finite model returns `Waiting` with the session and echo reached so far.
- Memory: `my_malloc` and the caller-supplied storage are given as an outcome (NULL, or the region's buffer contents). Sizes and pointers are not modelled.
- Command handlers: only their invocation is recorded. The model assumes a user handler neither sends output nor changes the session, although the source passes it the session pointer.
- Registry.AddCmd: requires the entry not to be registered yet, so re-registering a linked entry is not modelled. In the source, `next` is cleared and the current tail is then linked to the entry. If the entry is the tail, this makes a self-loop. Otherwise the chain is cut short after the entry, and every entry that followed it is lost.
- The returned line pointer aliases the input buffer and is only valid until the next character. The model hands back the line's value.
- The unused global `cli_tmp`.
- Capacity: `PICO_CLI_COMMAND_BUFF_SIZE` is assumed equal to `CLI_COMMAND_BUFF_SIZE` (any capacity of at least 1; 32 by default). If it were larger, the store at the write offset could run past the buffer; the model does not cover that configuration.
- Integer widths: the write offset never exceeds capacity − 1, so `size_t` wrap-around cannot occur and is not modelled.
