/** The console object (struct _mid_cli_t) and the operations that change it:
    initialisation, registration into the command list, the help handler with
    its static cursor, command parsing and one iteration of the console task.
    Each operation is proved against the value-level definitions of the
    Tokenizer, Dispatch and Console modules. */
module MidCli {
  import opened CliDefs
  import opened Tokenizer
  import opened Dispatch
  import opened Console

  /** A registry node (list_command_t): a descriptor and the link onwards. */
  class ListNode {
    const entry: Command
    var next: ListNode?

    constructor (c: Command)
      ensures entry == c && next == null
    {
      entry := c;
      next := null;
    }
  }

  class Cli {
    var prefix: string
    const listHead: ListNode
    var permission: PasswdState
    /** The input buffer: 256 characters and room for their terminator. */
    const wholeCommand: array<char>
    /** The argument slots; row i is what argv[i] points to. */
    const vars: array2<char>
    /** input_index: a local of the console task that lives across its iterations. */
    var inputIndex: nat
    /** The help handler's static list cursor. */
    var helpCursor: ListNode?

    /** The registry as a sequence of nodes, head first, and their descriptors. */
    ghost var nodes: seq<ListNode>
    ghost var commands: seq<Command>
    /** The position `helpCursor` stands at. */
    ghost var helpPos: Cursor

    ghost predicate Valid()
      reads this, nodes, wholeCommand
    {
      && |nodes| >= 1 && nodes[0] == listHead && |commands| == |nodes|
      && (forall i :: 0 <= i < |nodes| ==> nodes[i].entry == commands[i])
      && (forall i {:trigger nodes[i].next} :: 0 <= i < |nodes| - 1 ==> nodes[i].next == nodes[i + 1])
      && (forall i {:trigger nodes[i].next} :: 0 <= i < |nodes| ==> (nodes[i].next == null <==> i == |nodes| - 1))
      && commands[0] == HelpCommand
      && (helpPos.Idle? <==> helpCursor == null)
      && (helpPos.At? ==> helpPos.node < |nodes| && helpCursor == nodes[helpPos.node])
      && wholeCommand.Length == MaxInputSize + 1
      && inputIndex <= MaxInputSize
      && (forall k :: 0 <= k < inputIndex ==> Printable(wholeCommand[k]))
      && (forall k :: inputIndex <= k < wholeCommand.Length ==> wholeCommand[k] == NUL)
      && vars.Length0 == MaxVarsSize && vars.Length1 == MaxStringSize
    }

    /** The session the console task is in: the stored line (the C string in
        the input buffer), the permission and the slots. */
    ghost function CurrentSession(): Session
      reads this, wholeCommand, vars
      requires inputIndex <= wholeCommand.Length
    {
      Session(wholeCommand[..inputIndex], permission, Rows(vars))
    }

    lemma SessionValid()
      requires Valid()
      ensures ValidSession(CurrentSession())
    {
    }

    /** The state mid_cli_init leaves: `help` alone in the list, permission
        Incorrect, zeroed buffers, the given prefix or the default one. */
    constructor Init(t: Option<string>)
      ensures Valid() && fresh(wholeCommand) && fresh(vars) && fresh(listHead)
      ensures commands == [HelpCommand] && helpPos == Idle
      ensures prefix == if t.Some? then t.value else DefPrefix
      ensures CurrentSession() == InitialSession()
    {
      var head := new ListNode(HelpCommand);
      listHead := head;
      permission := Incorrect;
      prefix := if t.Some? then t.value else DefPrefix;
      wholeCommand := new char[MaxInputSize + 1](_ => NUL);
      vars := new char[MaxVarsSize, MaxStringSize]((_, _) => NUL);
      inputIndex := 0;
      helpCursor := null;
      nodes := [head];
      commands := [HelpCommand];
      helpPos := Idle;
      new;
      assert Rows(vars) == ZeroSlots() by {
        forall i | 0 <= i < MaxVarsSize ensures Rows(vars)[i] == ZeroSlots()[i] {
          assert forall j :: 0 <= j < MaxStringSize ==> Rows(vars)[i][j] == NUL;
        }
      }
    }

    /** mid_cli_register. A descriptor expecting more than 7 arguments is
        refused with an overflow message; otherwise the list is walked to its
        tail and a new node is linked there, or, when no node can be
        allocated, the allocation message is sent. Nothing else changes;
        duplicates are accepted. */
    method Register(p: Command, allocOk: bool) returns (ret: bool, tx: string)
      requires Valid()
      modifies this, nodes
      ensures Valid()
      ensures ret <==> p.expectParameNum <= MaxVarsSize && allocOk
      ensures commands == if ret then old(commands) + [p] else old(commands)
      ensures nodes[..|old(nodes)|] == old(nodes)
      ensures tx == if p.expectParameNum > MaxVarsSize then p.command + ParameOverflowError
                    else if !allocOk then p.command + MemoryAllocateError
                    else []
      ensures prefix == old(prefix) && permission == old(permission) && inputIndex == old(inputIndex)
      ensures helpCursor == old(helpCursor) && helpPos == old(helpPos)
    {
      if p.expectParameNum > MaxVarsSize {
        return false, p.command + ParameOverflowError;
      }
      var last := listHead;
      ghost var k := 0;
      while last.next != null
        invariant Valid() && 0 <= k < |nodes| && last == nodes[k]
        decreases |nodes| - k
      {
        last := last.next;
        k := k + 1;
      }
      if !allocOk {
        return false, p.command + MemoryAllocateError;
      }
      var item := new ListNode(p);
      last.next := item;
      nodes := nodes + [item];
      commands := commands + [p];
      ret, tx := true, [];
    }

    /** The help handler (help_main), handed the emptied output buffer: from a
        NULL cursor it writes the version header and moves to the head; from a
        node it writes that node's line and moves on. It asks to be called
        again while the cursor is not NULL. */
    method Help() returns (dest: string, more: bool)
      requires Valid()
      modifies this
      ensures nodes == old(nodes) && commands == old(commands) && prefix == old(prefix)
      ensures permission == old(permission) && inputIndex == old(inputIndex)
      ensures Valid()
      ensures HelpStep(commands, old(helpPos)) == HelpResult(dest, more, helpPos)
    {
      if helpCursor == null {
        helpCursor := listHead;
        helpPos := At(0);
        dest := HelpHeader;
      } else {
        ghost var i := helpPos.node;
        assert helpCursor == nodes[i] && helpCursor.entry == commands[i];
        assert i + 1 < |nodes| ==> helpCursor.next == nodes[i + 1];
        dest := HelpLine(helpCursor.entry);
        helpCursor := helpCursor.next;
        helpPos := if i + 1 < |nodes| then At(i + 1) else Idle;
      }
      more := helpCursor != null;
    }

    /** mid_cli_parse_command: walks the list for the first name that is a
        prefix of the input; on a match splits the input into the slots and
        calls the handler when the boundary count equals the expected
        argument count. Otherwise the output is the not-recognised message.
        `app` is the reply of an application handler, should one be called. */
    method ParseCommand(input: seq<char>, app: HandlerReply) returns (ret: bool, dest: string)
      requires Valid() && CString(input) && |input| <= MaxInputSize
      modifies this, vars
      ensures nodes == old(nodes) && commands == old(commands) && prefix == old(prefix)
      ensures permission == old(permission) && inputIndex == old(inputIndex)
      ensures Valid()
      ensures ParseOnce(commands, old(Rows(vars)), old(helpPos), input, app)
        == Dispatched(ret, dest, Rows(vars), helpPos)
    {
      var cmd: ListNode? := listHead;
      ghost var k := 0;
      ret := false;
      while cmd != null
        invariant 0 <= k <= |nodes|
        invariant k < |nodes| ==> cmd == nodes[k]
        invariant k == |nodes| ==> cmd == null
        invariant forall j :: 0 <= j < k ==> !(commands[j].command <= input)
        invariant Rows(vars) == old(Rows(vars)) && !ret
        invariant Valid() && unchanged(this)
        decreases |nodes| - k
      {
        if cmd.entry.command <= input {
          FirstMatchAt(commands, input, k);
          var segment := StringSplit(vars, input);
          ret := segment == cmd.entry.expectParameNum;
          break;
        }
        cmd := cmd.next;
        k := k + 1;
      }
      if cmd == null {
        FirstMatchAt(commands, input, k);
      }
      if cmd != null && ret {
        match cmd.entry.handle
        case HelpMain =>
          dest, ret := Help();
        case AppHandler(_) =>
          dest, ret := app.dest, app.more;
      } else {
        dest := NotRecognised(input);
        ret := false;
      }
    }

    /** Status 0 on a byte other than a line end: a backspace with a
        character stored erases it and sends " \b"; a printable byte is stored
        while fewer than 256 are held; anything else is ignored. */
    method EditLine(inputChar: char) returns (tx: string)
      requires Valid() && !IsLineEnd(inputChar)
      modifies this, wholeCommand
      ensures nodes == old(nodes) && commands == old(commands) && prefix == old(prefix)
      ensures permission == old(permission) && helpPos == old(helpPos)
      ensures Valid()
      ensures var line := old(wholeCommand[..inputIndex]);
        if inputChar == BS && |line| > 0 then
          wholeCommand[..inputIndex] == line[..|line| - 1] && tx == Backspace
        else if inputChar != BS && Printable(inputChar) && |line| < MaxInputSize then
          wholeCommand[..inputIndex] == line + [inputChar] && tx == []
        else
          wholeCommand[..inputIndex] == line && tx == []
    {
      tx := [];
      if inputChar == BS && inputIndex > 0 {
        inputIndex := inputIndex - 1;
        wholeCommand[inputIndex] := NUL;
        tx := Backspace;
      } else if Printable(inputChar) && inputIndex < MaxInputSize {
        wholeCommand[inputIndex] := inputChar;
        inputIndex := inputIndex + 1;
      }
    }

    /** memset over strlen(whole_command), then input_index = 0: the stored
        line is erased. */
    method ClearLine()
      requires Valid()
      modifies this, wholeCommand
      ensures nodes == old(nodes) && commands == old(commands) && prefix == old(prefix)
      ensures permission == old(permission) && helpPos == old(helpPos)
      ensures Valid() && inputIndex == 0
    {
      forall k | 0 <= k < inputIndex {
        wholeCommand[k] := NUL;
      }
      inputIndex := 0;
    }

    /** Status 1: the stored line is compared with the password. A match
        latches the permission and moves on to status 2; a mismatch sends the
        incorrect-password message (for a non-empty line) and the password
        prompt, back to status 0. The line is erased either way. */
    method CheckPassword() returns (status: nat, tx: string)
      requires Valid() && permission == Incorrect
      modifies this, wholeCommand
      ensures nodes == old(nodes) && commands == old(commands) && prefix == old(prefix)
      ensures helpPos == old(helpPos)
      ensures Valid() && inputIndex == 0
      ensures var line := old(wholeCommand[..inputIndex]);
        if line == Passwd then permission == Correct && status == 2 && tx == []
        else (permission == Incorrect && status == 0
              && tx == (if line != [] then IncorrectPasswdMsg else []) + InputPasswdMsg)
    {
      // The stored line is the C string strcmp reads: it ends at inputIndex.
      if wholeCommand[..inputIndex] != Passwd {
        tx := [];
        if inputIndex != 0 {
          tx := IncorrectPasswdMsg;
        }
        tx := tx + InputPasswdMsg;
        status := 0;
      } else {
        permission := Correct;
        status := 2;
        tx := [];
      }
      ClearLine();
    }

    /** Call number `n` of the parser within the dispatch loop for `line`,
        from the slots `slots0` the line started with, followed by sending its
        output after the `sent` pages before it: it emits page n of the line,
        asks to be called again exactly while pages remain, leaves the slots
        split and advances the help cursor only while help paginates. */
    method ParseCall(line: seq<char>, appPages: seq<string>, n: nat, ghost slots0: seq<seq<char>>,
                     ghost pages: seq<string>, ghost final: seq<seq<char>>, sent: string)
      returns (more: bool, tx: string)
      requires Valid() && CString(line) && |line| <= MaxInputSize && |appPages| >= 1
      requires WellShaped(slots0) && pages == LinePages(commands, line, appPages) && n < |pages|
      requires final == SlotsAfterLine(commands, slots0, line)
      requires Rows(vars) == if n == 0 then slots0 else final
      requires helpPos == LoopCursor(commands, line, n)
      requires sent == Concat(pages[..n])
      modifies this, vars
      ensures nodes == old(nodes) && commands == old(commands) && prefix == old(prefix)
      ensures permission == old(permission) && inputIndex == old(inputIndex)
      ensures Valid()
      ensures more == (n + 1 < |pages|)
      ensures tx == Concat(pages[..n + 1])
      ensures Rows(vars) == final
      ensures helpPos == LoopCursor(commands, line, n + 1)
    {
      LineCall(commands, slots0, line, appPages, n);
      if HelpInvoked(commands, line) {
        LoopCursorAfter(commands, line, n);
        LoopCursorAfter(commands, line, n + 1);
      }
      var dest;
      more, dest := ParseCommand(line, AppReply(appPages, n));
      ConcatPrefix(pages, n);
      tx := sent + dest;
    }

    /** The do-while loop of status 2: the parser is called on `line` until
        it returns pdFALSE, each call's output sent as it comes. Call n of an
        application handler replies with page n of `appPages`. */
    method CallParser(line: seq<char>, appPages: seq<string>) returns (tx: string)
      requires Valid() && helpPos == Idle && |appPages| >= 1
      requires CString(line) && |line| <= MaxInputSize
      modifies this, vars
      ensures nodes == old(nodes) && commands == old(commands) && prefix == old(prefix)
      ensures permission == old(permission) && inputIndex == old(inputIndex)
      ensures Valid() && helpPos == Idle
      ensures tx == Concat(LinePages(commands, line, appPages))
      ensures Rows(vars) == SlotsAfterLine(commands, old(Rows(vars)), line)
    {
      ghost var slots0 := Rows(vars);
      ghost var pages := LinePages(commands, line, appPages);
      ghost var final := SlotsAfterLine(commands, slots0, line);
      var more;
      more, tx := ParseCall(line, appPages, 0, slots0, pages, final, []);
      var calls: nat := 1;
      while more
        invariant Valid() && nodes == old(nodes) && commands == old(commands) && prefix == old(prefix)
        invariant permission == old(permission) && inputIndex == old(inputIndex)
        invariant 1 <= calls <= |pages| && (more <==> calls < |pages|)
        invariant tx == Concat(pages[..calls])
        invariant Rows(vars) == final
        invariant helpPos == LoopCursor(commands, line, calls)
        decreases |pages| - calls
      {
        more, tx := ParseCall(line, appPages, calls, slots0, pages, final, tx);
        calls := calls + 1;
      }
      assert pages[..calls] == pages;
      LoopCursorDone(commands, line, appPages);
    }

    /** Status 2: a non-empty line goes through the parser loop and is then
        erased; an empty one is left alone. */
    method DispatchLine(appPages: seq<string>) returns (tx: string)
      requires Valid() && helpPos == Idle && |appPages| >= 1
      modifies this, wholeCommand, vars
      ensures nodes == old(nodes) && commands == old(commands) && prefix == old(prefix)
      ensures permission == old(permission) && helpPos == Idle
      ensures Valid() && inputIndex == 0
      ensures var line := old(wholeCommand[..inputIndex]);
        if line == [] then tx == [] && Rows(vars) == old(Rows(vars))
        else (tx == Concat(LinePages(commands, line, appPages))
              && Rows(vars) == SlotsAfterLine(commands, old(Rows(vars)), line))
    {
      tx := [];
      if inputIndex != 0 {
        var line := wholeCommand[..inputIndex];
        tx := CallParser(line, appPages);
        ClearLine();
      }
    }

    /** One iteration of the console task's loop, on input byte `inputChar`:
        the echo, then line editing, or at a line end the password check
        while locked and the dispatch of the line otherwise, then the prompt.
        `status` starts and ends at 0. */
    method ConsoleStep(inputChar: char, appPages: seq<string>) returns (tx: string)
      requires Valid() && helpPos == Idle && |appPages| >= 1
      modifies this, wholeCommand, vars
      ensures nodes == old(nodes) && commands == old(commands) && prefix == old(prefix)
      ensures Valid() && helpPos == Idle
      ensures Step(commands, prefix, old(CurrentSession()), inputChar, appPages) == Stepped(CurrentSession(), tx)
    {
      SessionValid();
      var status := 0;
      if inputChar != BS || inputIndex != 0 {
        tx := if permission != Incorrect then [inputChar] else [];
      } else {
        tx := [];
      }
      if IsLineEnd(inputChar) {
        status := if permission == Incorrect then 1 else 2;
        tx := tx + NewLine;
      } else {
        var erase := EditLine(inputChar);
        tx := tx + erase;
      }
      if status == 1 {
        var msg;
        status, msg := CheckPassword();
        tx := tx + msg;
      }
      if status == 2 {
        var out := DispatchLine(appPages);
        tx := tx + (out + prefix);
        status := 0;
      }
    }
  }

  /** mid_cli_init: with the console allocated it returns 0 and the
      initialised console; otherwise it sends the allocation error and
      returns -1. `allocOk` stands for the allocator's success. */
  method CliInit(t: Option<string>, allocOk: bool) returns (cli: Cli?, status: int, tx: string)
    ensures allocOk ==> (cli != null && fresh(cli) && cli.Valid() && cli.commands == [HelpCommand]
      && cli.helpPos == Idle && cli.prefix == (if t.Some? then t.value else DefPrefix)
      && cli.CurrentSession() == InitialSession() && status == 0 && tx == [])
    ensures !allocOk ==> cli == null && status == -1 && tx == AllocateCliError + MemoryAllocateError
  {
    if !allocOk {
      return null, -1, AllocateCliError + MemoryAllocateError;
    }
    cli := new Cli.Init(t);
    status, tx := 0, [];
  }
}
