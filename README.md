# Serial command console (mid_cli) in Dafny

This project models the command-line console of `APP/cli/mid_cli.c` and
`APP/cli/mid_cli.h`: a FreeRTOS task that reads bytes from a debug serial line,
edits them into a line, checks a password, splits the line into at most seven
space-separated arguments, dispatches the line to the first registered command
whose name is a prefix of it, and sends back what the handler writes, chunk by
chunk, while the handler asks to be called again.

Modules (one file each):

- `CliDefs` (`cli_defs.dfy`) — the `command_t` descriptor, the handler reply
  (`dest` text plus pdTRUE/pdFALSE), the buffer sizes and the fixed messages.
  It also has `Bounded`, the 4096-byte output buffer's limit on `sprintf_s` and
  `strcat_s`.
- `Tokenizer` (`tokenizer.dfy`) — `mid_cli_string_split`:
  - `SplitFrom` mirrors the loop over the line.
  - `Tokens` is an independent definition of the tokens, used as reference.
  - The lemmas relate the two, slot by slot.
  - `StringSplit` is the in-place loop over a 7x30 `array2<char>`, proved equal to `Split`.
- `Dispatch` (`dispatch.dfy`) — `mid_cli_parse_command` and the `help`
  handler as values:
  - the first-prefix search
  - the not-recognised message
  - the help pages and the help cursor
  - one parser call (`ParseOnce`), and the handler a line reaches (`Selected`)
  - everything one line produces over the whole call sequence (`LinePages`)

  `Selected` and `HelpPages` are reference definitions: `ParseSelects`,
  `FirstPrefixDecides` and `HelpPagination` state what they mean for the parser.
- `Console` (`console.dfy`) — one iteration of the console task's loop as a
  function `Step` over a session: the stored line, the permission latch and
  the slots. It takes one input byte and yields the bytes sent. `Feed` runs it
  over a sequence of bytes. It also holds the line editor as the source writes
  it, with its 8-bit index (see Findings).
- `MidCli` (`midcli.dfy`) — the console object as classes:
  - the registry is a singly linked list of `ListNode`s with `help` at its head
  - `Cli` holds the prefix, the permission, the 257-cell input buffer, the 7x30
    argument slots, the input index and the help handler's static cursor
  - `Register` walks to the tail and links a node
  - `Help`, `ParseCommand` and the phases of `ConsoleStep` are loops and
    updates, each proved against the functions of `Dispatch` and `Console`

The input byte stream and the output byte stream of the transport are
parameters and results. An application handler's successive replies are a
parameter `appPages`: its chunks in order, with pdTRUE after every chunk but the last.

## Model

| member | source | states |
|---|---|---|
| CliDefs.Bounded | APP/cli/mid_cli.c:354-358 | text written into the 4096-byte output buffer is shorter than 4096, a prefix of what was written, and all of it when it fits |
| CliDefs.HelpHeaderText | APP/cli/mid_cli.c:350 | the header built from version 0 and 2 with `%d.%d` is the fixed text ending in "[VER:0.2]" and CR LF |
| Tokenizer.SplitFrom | APP/cli/mid_cli.c:301-337 | the boundary count returned lies between the boundaries already counted and 7; the slots stay seven rows of 30, so no slot index of 7 or more is written |
| Tokenizer.PiecesJoin | APP/cli/mid_cli.c:306-335 | the reference tokens lose nothing: joined with one space between them they give back the line |
| Tokenizer.PiecesSpaces | APP/cli/mid_cli.c:309-332 | a space inside a token can only be its first character, right after a boundary space; runs of spaces do not collapse |
| Tokenizer.SplitFromPieces | APP/cli/mid_cli.c:303-336 | from any loop state, the count and every slot the loop leaves are those of writing each remaining token into its slot, with the count capped at 7 |
| Tokenizer.SplitTokens | APP/cli/mid_cli.c:301-337 | splitting returns the number of boundaries capped at 7; slot i holds token i written over its old contents for every token that has a slot; the other slots are untouched |
| Tokenizer.SplitCountIndependent | APP/cli/mid_cli.c:306-336 | the count depends only on the line, not on what the slots held |
| Tokenizer.SplitIdempotent | APP/cli/mid_cli.c:301-337 | splitting the same line a second time leaves the slots as the first split did |
| Tokenizer.FillTruncates | APP/cli/mid_cli.c:321-331 | a token of 30 or more characters leaves its first 29 and a NUL in column 29 (the rest is dropped); a shorter one is written without a terminator and the slot's old tail stays |
| Tokenizer.FillZeroArgv | APP/cli/mid_cli.c:321-331 | on a zeroed slot the argument string is the token cut to 29 characters |
| Tokenizer.SplitZeroArgv | APP/cli/mid_cli.h:15-17 | from zeroed slots, argv[i] is token i cut to 29 characters |
| Tokenizer.CpTokens | APP/cli/mid_cli.h:17 | "cp -r src dest" has the tokens cp, -r, src, dest |
| Tokenizer.SplitCpExample | APP/cli/mid_cli.h:17 | splitting "cp -r src dest" on zeroed slots counts 3 and gives argv[0..3] = "cp", "-r", "src", "dest" |
| Tokenizer.SplitDoubleSpaceExample | APP/cli/mid_cli.c:309-332 | "a  b" has the tokens "a" and " b" and counts one boundary |
| Tokenizer.TwoWords | APP/cli/mid_cli.c:306-335 | two words without spaces, joined by one space, are exactly the two tokens |
| Tokenizer.InfoTokens | APP/cli/mid_cli.c:306-335 | "info abcdef" and "info xy" each have the tokens "info" and the argument |
| Tokenizer.SecondSlot | APP/cli/mid_cli.c:316-331 | a line of two tokens writes its second token over the old contents of slot 1 |
| Tokenizer.StaleArgvExample | APP/cli/mid_cli.c:321-331 | after "info abcdef", splitting "info xy" leaves argv[1] reading "xycdef": short tokens keep the stale tail |
| Tokenizer.StringSplit | APP/cli/mid_cli.c:301-337 | the in-place loop over the 7x30 array returns the count and leaves the slots that `Split` gives for the old slots and the line |
| Dispatch.FindByPrefix | APP/cli/mid_cli.c:267-279 | the entry found is the first in list order whose name is a prefix of the line; none is found exactly when no name is a prefix |
| Dispatch.NotRecognised | APP/cli/mid_cli.c:290 | the input can be read back from the message, right after the two spaces and the opening quote, and the message ends with the fixed reminder; it fits the output buffer for any stored line |
| Dispatch.HelpStep | APP/cli/mid_cli.c:339-367 | the help handler returns pdTRUE exactly when its cursor is left on a node |
| Dispatch.HelpCursorPosition | APP/cli/mid_cli.c:347-360 | after n calls from NULL, with n at most the number of entries, the cursor is on entry n-1 |
| Dispatch.HelpPagination | APP/cli/mid_cli.c:347-366 | call n of help emits page n and returns pdTRUE exactly while entries remain |
| Dispatch.HelpRestarts | APP/cli/mid_cli.c:347-366 | after one call more than there are entries the cursor is NULL again, and from there on the calls repeat |
| Dispatch.LoopCursorAfter | APP/cli/mid_cli.c:347-366 | within the dispatch loop of one line, the help cursor before call n is the cursor after n help calls when the line selected `help`, and NULL otherwise |
| Dispatch.ParseOnce | APP/cli/mid_cli.c:260-295 | one parser call leaves the slots seven rows of 30 and the help cursor on a node of the list or NULL |
| Dispatch.ParseSelects | APP/cli/mid_cli.c:267-294 | one parser call returns the handler's reply (help's page, return value and cursor, or the application's reply) exactly when `Selected` names a handler, and otherwise the not-recognised message with pdFALSE and the cursor untouched; a prefix match leaves the line split either way |
| Dispatch.SplitAgain | APP/cli/mid_cli.c:244-249 | every parser call of the dispatch loop re-splits the line into the same slots and the same count |
| Dispatch.LineCall | APP/cli/mid_cli.h:84-86 | call n of the dispatch loop emits chunk n of the line, returns pdTRUE exactly while chunks remain, and leaves the slots split |
| Dispatch.NoPrefixUnrecognised | APP/cli/mid_cli.c:282-291 | a line that no name prefixes produces only the not-recognised message |
| Dispatch.FirstPrefixDecides | APP/cli/mid_cli.c:271-279 | once the first prefix match is found, a wrong argument count makes the line unrecognised (later entries are not tried) and the right count selects it |
| Dispatch.PrefixPrecedenceExample | APP/cli/mid_cli.c:267-279 | with `in` registered before `info`, the line "info" goes to `in` |
| Dispatch.UnknownCommandExample | APP/cli/mid_cli.c:290 | "frobnicate" with only `help` registered gives exactly the not-recognised message |
| Dispatch.SevenArgumentsLoseOne | APP/cli/mid_cli.c:316-319 | a count of 7, which registration accepts as an expected count, is only reached by a line with more than seven tokens: the seventh argument never gets a slot |
| Console.InitialSession | APP/cli/mid_cli.c:143-151 | the session starts with an empty line, permission Incorrect and zeroed slots |
| Console.Step | APP/cli/mid_cli.c:158-257 | after every byte the line holds at most 256 printable characters and the slots stay 7x30 |
| Console.Feed | APP/cli/mid_cli.c:164-256 | the same holds after any sequence of bytes |
| Console.FeedAppend | APP/cli/mid_cli.c:164-256 | feeding two byte streams one after the other sends and leaves what feeding their concatenation does |
| Console.FeedCons | APP/cli/mid_cli.c:164-256 | feeding a non-empty stream is one loop iteration on its first byte followed by feeding the rest |
| Console.FeedOne | APP/cli/mid_cli.c:164-256 | feeding a single byte is exactly one loop iteration |
| Console.PermissionLatch | APP/cli/mid_cli.c:187-194 | the permission is Correct after a byte exactly when it was already, or the byte is a line end and the line is the password |
| Console.PermissionStaysCorrect | APP/cli/mid_cli.c:229-233 | once Correct, the permission stays Correct whatever follows |
| Console.LockedNoEcho | APP/cli/mid_cli.c:175-185 | while locked, no byte other than a line end is echoed; only a backspace that erases sends its erase sequence |
| Console.BackspaceOnEmptyLine | APP/cli/mid_cli.c:175-207 | a backspace on an empty line changes nothing and sends nothing |
| Console.BackspaceErases | APP/cli/mid_cli.c:202-207 | a backspace on a non-empty line drops its last character and sends the echo when permitted, then " \b" |
| Console.OrdinaryByte | APP/cli/mid_cli.c:175-214 | any other byte is stored only if printable and fewer than 256 are held (DEL is not a backspace); it is echoed when permitted, stored or not |
| Console.LineEndClears | APP/cli/mid_cli.c:234-251 | every line end leaves an empty line |
| Console.LineDispatched | APP/cli/mid_cli.c:238-255 | a non-empty line ended while permitted sends the echo, CR LF, every chunk the line produces, then the prompt |
| Console.PasswordAccepted | APP/cli/mid_cli.c:218-233 | a line end on a locked session holding the password sends nothing but CR LF and the prompt, empties the line and unlocks |
| Console.LoginExample | APP/cli/mid_cli.c:218-233 | typing "jhg" and a line end on a locked session echoes nothing, sends CR LF and the prompt, and unlocks it |
| Console.LongLineTruncated | APP/cli/mid_cli.c:208-214 | printable bytes are kept until the line holds 256 and dropped after; all of them are echoed when permitted |
| Console.PrintableStep | APP/cli/mid_cli.c:175-214 | a printable byte does what `Typed` describes: stored while fewer than 256 are held, echoed exactly when permitted, nothing else sent or changed |
| Console.RunTyped | APP/cli/mid_cli.c:208-214 | any byte-by-byte transition that treats printable bytes as the console does keeps at most 256 of them on the line and echoes them all when permitted |
| Console.ReceiveAsWritten | APP/cli/mid_cli.c:202-214 | the editing branch as written with an `unsigned char` index, for any byte but a line end; the buffer keeps its 256 cells |
| Console.FeedAsWritten | APP/cli/mid_cli.c:200-215 | as written, editing a run of bytes containing no line end keeps the buffer at 256 cells |
| Console.FeedAsWrittenPrintable | APP/cli/mid_cli.c:208-214 | as written, printable bytes are stored one after another and the index advances modulo 256 |
| Console.FeedAsWrittenAppend | APP/cli/mid_cli.c:200-215 | as written, editing two runs without line ends in turn is editing their concatenation |
| Console.FullLineAsWritten | APP/cli/mid_cli.c:208-213 | as written, 256 printable bytes fill the whole buffer and leave the index at 0 |
| Console.LongLineOverwritesAsWritten | APP/cli/mid_cli.c:208-213 | as written, printable bytes typed after 256 stored ones overwrite the start of the buffer, one cell each, from index 0 |
| Console.LineEndAsWritten | APP/cli/mid_cli.c:238-255 | as written, a line end after login leaves the index at 0, and with the index at 0 it leaves the buffer as it was |
| Console.LongLineWrapsAsWritten | APP/cli/mid_cli.c:208-255 | as written, 256 printable bytes leave the index at 0 and no terminator in the buffer; the line end that follows sends only its echo, CR LF and the prompt, dispatching nothing and leaving the bytes in the buffer; a printable byte typed instead overwrites the first cell |
| MidCli.ListNode.constructor | APP/cli/mid_cli.c:113-115 | a new node holds its descriptor and ends the list |
| MidCli.Cli.Init | APP/cli/mid_cli.c:143-152 | the registry is `help` alone, the permission is Incorrect, the buffers are empty, and the prefix is the given one or "Terminal " |
| MidCli.Cli.Register | APP/cli/mid_cli.c:87-130 | an expected count above 7 fails with only the name and the overflow message sent; otherwise the descriptor becomes the new last node (or the name and the allocation message are sent when no node can be had); earlier nodes, `help` at the head and the rest of the state are unchanged; pdPASS exactly on success; duplicates are accepted |
| MidCli.Cli.Help | APP/cli/mid_cli.c:339-367 | the handler's output, return value and new cursor are those of `HelpStep` on the registry |
| MidCli.Cli.ParseCommand | APP/cli/mid_cli.c:260-295 | the list walk, the split and the handler call return, write and leave exactly what `ParseOnce` gives |
| MidCli.Cli.EditLine | APP/cli/mid_cli.c:200-215 | the stored line loses its last character on a backspace, gains a printable byte while fewer than 256 are held, and is otherwise unchanged |
| MidCli.Cli.ClearLine | APP/cli/mid_cli.c:234-235 | the stored line is erased and the buffer holds only NULs |
| MidCli.Cli.CheckPassword | APP/cli/mid_cli.c:218-236 | the password unlocks and moves on to dispatch; any other line sends the incorrect-password message (when non-empty) and the password prompt; the line is erased |
| MidCli.Cli.ParseCall | APP/cli/mid_cli.c:246-248 | call n of the parser within the loop sends chunk n after those before it, asks for another call exactly while chunks remain, leaves the slots split and moves the help cursor as help paginates |
| MidCli.Cli.CallParser | APP/cli/mid_cli.c:244-249 | calling the parser until it returns pdFALSE sends every chunk of the line in order, leaves the slots split and the help cursor NULL again |
| MidCli.Cli.DispatchLine | APP/cli/mid_cli.c:238-252 | a non-empty line is run through the parser loop and erased; an empty line sends nothing |
| MidCli.Cli.ConsoleStep | APP/cli/mid_cli.c:164-256 | one loop iteration sends and leaves exactly what `Console.Step` gives for the session before it |
| MidCli.CliInit | APP/cli/mid_cli.c:132-156 | returns 0 with an initialised console when allocation succeeds; otherwise sends "struct cli" and the allocation message and returns -1 |

## Left out

- The transport in `APP/cli/hal_cli.c` is not part of this model. Input bytes are parameters and the bytes sent are results.
- The FreeRTOS plumbing is not modelled:
  - `xTaskCreate` and its stack-size and priority arguments
  - the task handle
  - the `vTaskDelay` polling and the delay in `help`
  - the critical section around the append, which is taken as atomic
- `pvPortMalloc` is modelled by a flag that says whether allocation succeeds.
- Uninitialised memory: the model starts the console with zeroed buffers. The allocator does not clear them, and the code relies on them being zero.
- The application handlers of `APP/cli/app_cli.c` are not part of this model. Their replies for one line are the parameter `appPages`. `Console.Feed` and `Console.Step` use the same pages for every line.
- The output buffer is not a field. Each parser call's text is returned as a string. `MidCli.Cli.Help` takes no buffer because the caller always empties it before a call.
- `CliDefs.Bounded`: overflow of `sprintf_s`/`strcat_s` is modelled as truncation to 4095 characters. What the C runtime's constraint handler does on overflow is not modelled.
- `configASSERT` null-pointer checks are not modelled. Descriptors are values and nodes are non-null references.
- The build without `CLI_SUPPORT_PASSWD` is not modelled. The model covers the default build, where password checking is on.
- The `argv` pointer array is not modelled separately: argv[i] is row i of the slots.
- DEL (0x7F): the comment at mid_cli.c:51 says it acts as a backspace, but the code never tests for it. The model follows the code: DEL is echoed when permitted and not stored.
- Integer widths:
  - The tokenizer's `int8_t` counters and the `unsigned short` name length are taken as unbounded. Their values stay at most 30, except for names longer than 65535 characters, which are not modelled.
  - The input index's width is the subject of the finding below.
- The as-written line end (`Console.LineEndAsWritten`) covers only the session after login. Before login, the password check runs `strcmp` on a possibly unterminated buffer, and that is not modelled.
- `Console.LineEndAsWritten`: `strlen` on a buffer without a NUL reads past its 256 cells. The model stops at the end of the buffer.

## Findings

| source | as written | input that shows it | evidently intended | confidence | as-written member | corrected member |
|---|---|---|---|---|---|---|
| APP/cli/mid_cli.c:160-213 | `input_index` is an `unsigned char`, so the capacity test `input_index < 256` always holds. The 256th stored byte wraps the index to 0, and later bytes overwrite the start of the buffer. The buffer then holds no terminator, and a line end sees index 0, so it neither dispatches the line nor clears the buffer. | after logging in, 256 printable bytes and then a carriage return | store at most 256 characters and drop the rest, keeping the line terminated and dispatched | not executed | Console.LongLineWrapsAsWritten | Console.LongLineTruncated |

The rest of the model uses the corrected editor: `Console.Step` and `MidCli.Cli.EditLine`. It keeps the index wide and the buffer one cell longer, so the line always ends in a NUL.
