/** mid_cli_parse_command and the built-in help handler, as functions of the
    registry (the commands in list order), the slots and the help cursor. */
module Dispatch {
  import opened CliDefs
  import opened Tokenizer

  /** The first entry, in list order, whose name is a prefix of the line
      (strncmp over the name's length). */
  function FindByPrefix(reg: seq<Command>, line: seq<char>): (r: Option<nat>)
    ensures r.Some? ==> r.value < |reg| && reg[r.value].command <= line
    ensures r.Some? ==> forall j :: 0 <= j < r.value ==> !(reg[j].command <= line)
    ensures r.None? ==> forall j :: 0 <= j < |reg| ==> !(reg[j].command <= line)
  {
    if reg == [] then None
    else if reg[0].command <= line then Some(0)
    else match FindByPrefix(reg[1..], line)
      case None => None
      case Some(i) => Some(i + 1)
  }

  /** The first prefix match is at k, or there is none when k is past the end. */
  lemma FirstMatchAt(reg: seq<Command>, line: seq<char>, k: nat)
    requires k <= |reg| && forall j :: 0 <= j < k ==> !(reg[j].command <= line)
    requires k < |reg| ==> reg[k].command <= line
    ensures FindByPrefix(reg, line) == if k < |reg| then Some(k) else None
  {
  }

  /** The message for a line no command accepts: the line can be read back
      from between its quotes, and the reminder ends it. */
  function NotRecognised(input: seq<char>): (s: string)
    ensures |s| == |input| + 4 + |ErrorRemind|
    ensures s[3..3 + |input|] == input && s[|s| - |ErrorRemind|..] == ErrorRemind
    ensures |s| < MaxOutputSize <== |input| <= MaxInputSize
  {
    "  '" + input + "'" + ErrorRemind
  }

  /** One help line: tab, name, tab, help text, CR LF, within the output buffer. */
  function HelpLine(c: Command): string {
    Bounded("\t" + c.command + "\t" + c.helpInfo + "\r\n")
  }

  /** Everything one complete help call sequence emits, chunk by chunk: the
      header, then one line per registry entry in list order. */
  function HelpPages(reg: seq<Command>): (p: seq<string>)
    ensures |p| == |reg| + 1 && p[0] == HelpHeader
    ensures forall i :: 1 <= i <= |reg| ==> p[i] == HelpLine(reg[i - 1])
  {
    [HelpHeader] + seq(|reg|, i requires 0 <= i < |reg| => HelpLine(reg[i]))
  }

  /** The help handler's static cursor: NULL, or the node at a list position. */
  datatype Cursor = Idle | At(node: nat)

  datatype HelpResult = HelpResult(dest: string, more: bool, cursor: Cursor)

  /** Where one call of the help handler leaves its cursor: on the first node
      from NULL, on the next node from any node, and NULL after the last. */
  function NextCursor(reg: seq<Command>, cur: Cursor): (c: Cursor)
    requires |reg| >= 1 && (cur.At? ==> cur.node < |reg|)
    ensures c.At? ==> c.node < |reg|
  {
    match cur
    case Idle => At(0)
    case At(i) => if i + 1 < |reg| then At(i + 1) else Idle
  }

  /** One call of the help handler. */
  function HelpStep(reg: seq<Command>, cur: Cursor): (r: HelpResult)
    requires |reg| >= 1 && (cur.At? ==> cur.node < |reg|)
    ensures r.more == r.cursor.At? && (r.cursor.At? ==> r.cursor.node < |reg|)
  {
    var next := NextCursor(reg, cur);
    match cur
    case Idle => HelpResult(HelpHeader, true, next)
    case At(i) => HelpResult(HelpLine(reg[i]), next.At?, next)
  }

  /** The cursor after `n` help calls from a NULL cursor. */
  function HelpCursorAfter(reg: seq<Command>, n: nat): (c: Cursor)
    requires |reg| >= 1
    ensures c.At? ==> c.node < |reg|
  {
    if n == 0 then Idle else NextCursor(reg, HelpCursorAfter(reg, n - 1))
  }

  lemma {:induction false} HelpCursorPosition(reg: seq<Command>, n: nat)
    requires |reg| >= 1 && n <= |reg|
    ensures HelpCursorAfter(reg, n) == (if n == 0 then Idle else At(n - 1))
  {
    if n > 0 {
      HelpCursorPosition(reg, n - 1);
      assert HelpCursorAfter(reg, n) == NextCursor(reg, HelpCursorAfter(reg, n - 1));
    }
  }

  /** Help paginates: starting from a NULL cursor, call number n emits page n,
      and it returns pdTRUE for every call but the one printing the last entry. */
  lemma HelpPagination(reg: seq<Command>, n: nat)
    requires |reg| >= 1 && n <= |reg|
    ensures HelpCursorAfter(reg, n) == (if n == 0 then Idle else At(n - 1))
    ensures HelpStep(reg, HelpCursorAfter(reg, n)).dest == HelpPages(reg)[n]
    ensures HelpStep(reg, HelpCursorAfter(reg, n)).more == (n < |reg|)
  {
    HelpCursorPosition(reg, n);
    if n == 0 {
      assert HelpStep(reg, Idle) == HelpResult(HelpHeader, true, At(0));
    } else {
      var next := if n < |reg| then At(n) else Idle;
      assert HelpStep(reg, At(n - 1)) == HelpResult(HelpLine(reg[n - 1]), n < |reg|, next);
      assert HelpPages(reg)[n] == HelpLine(reg[n - 1]);
    }
  }

  /** After the last entry the cursor is NULL again, so the next call sequence
      starts over with the header. */
  lemma {:induction false} HelpRestarts(reg: seq<Command>, n: nat)
    requires |reg| >= 1
    ensures HelpCursorAfter(reg, |reg| + 1) == Idle
    ensures HelpCursorAfter(reg, |reg| + 1 + n) == HelpCursorAfter(reg, n)
  {
    HelpCursorPosition(reg, |reg|);
    assert HelpCursorAfter(reg, |reg| + 1) == NextCursor(reg, HelpCursorAfter(reg, |reg|));
    if n > 0 {
      HelpRestarts(reg, n - 1);
      assert HelpCursorAfter(reg, |reg| + 1 + n) == NextCursor(reg, HelpCursorAfter(reg, |reg| + 1 + n - 1));
      assert HelpCursorAfter(reg, n) == NextCursor(reg, HelpCursorAfter(reg, n - 1));
    }
  }

  /** What one call of mid_cli_parse_command returns, writes to the output
      buffer, leaves in the slots and leaves in the help cursor. `app` is the
      reply of the matched application handler, when one is called. */
  datatype Dispatched = Dispatched(ret: bool, dest: string, slots: seq<seq<char>>, cursor: Cursor)

  function ParseOnce(reg: seq<Command>, slots: seq<seq<char>>, cursor: Cursor, input: seq<char>, app: HandlerReply): (r: Dispatched)
    requires |reg| >= 1 && WellShaped(slots) && (cursor.At? ==> cursor.node < |reg|)
    ensures WellShaped(r.slots) && (r.cursor.At? ==> r.cursor.node < |reg|)
  {
    match FindByPrefix(reg, input)
    case None => Dispatched(false, NotRecognised(input), slots, cursor)
    case Some(i) =>
      var s := Split(slots, input);
      if s.count != reg[i].expectParameNum then Dispatched(false, NotRecognised(input), s.slots, cursor)
      else match reg[i].handle
        case HelpMain =>
          var h := HelpStep(reg, cursor);
          Dispatched(h.more, h.dest, s.slots, h.cursor)
        case AppHandler(_) => Dispatched(app.more, app.dest, s.slots, cursor)
  }

  /** The handler a line reaches, if any: the first prefix match, provided the
      number of boundaries equals its expected argument count. */
  function Selected(reg: seq<Command>, line: seq<char>): (r: Option<Command>)
    ensures r.Some? <==> exists i :: 0 <= i < |reg| && FindByPrefix(reg, line) == Some(i)
                                      && Min(|Tokens(line)| - 1, MaxVarsSize) == reg[i].expectParameNum
  {
    match FindByPrefix(reg, line)
    case None => None
    case Some(i) =>
      if Min(|Tokens(line)| - 1, MaxVarsSize) == reg[i].expectParameNum then Some(reg[i]) else None
  }

  /** Every chunk a complete line produces, in order. An application handler's
      chunks are `appPages`: it returns pdTRUE after each but the last. */
  function LinePages(reg: seq<Command>, line: seq<char>, appPages: seq<string>): (p: seq<string>)
    requires |appPages| >= 1
    ensures |p| >= 1
  {
    match Selected(reg, line)
    case None => [NotRecognised(line)]
    case Some(c) =>
      match c.handle
      case HelpMain => HelpPages(reg)
      case AppHandler(_) => appPages
  }

  /** The slots once a line has been dispatched: split, if some name matched. */
  function SlotsAfterLine(reg: seq<Command>, slots: seq<seq<char>>, line: seq<char>): (r: seq<seq<char>>)
    requires WellShaped(slots)
    ensures WellShaped(r)
  {
    if FindByPrefix(reg, line).Some? then Split(slots, line).slots else slots
  }

  /** One parser call gives the selected handler's reply exactly when a
      handler is selected, and otherwise the not-recognised message with
      pdFALSE and the help cursor untouched; a prefix match leaves the line
      split whether or not its handler runs. */
  lemma ParseSelects(reg: seq<Command>, slots: seq<seq<char>>, cursor: Cursor, line: seq<char>, app: HandlerReply)
    requires |reg| >= 1 && WellShaped(slots) && (cursor.At? ==> cursor.node < |reg|)
    ensures var r := ParseOnce(reg, slots, cursor, line, app);
      && r.slots == SlotsAfterLine(reg, slots, line)
      && (match Selected(reg, line)
          case None => !r.ret && r.dest == NotRecognised(line) && r.cursor == cursor
          case Some(c) =>
            if c.handle.HelpMain? then HelpStep(reg, cursor) == HelpResult(r.dest, r.ret, r.cursor)
            else r.ret == app.more && r.dest == app.dest && r.cursor == cursor)
  {
    SplitTokens(slots, line);
  }

  /** The reply the application handler gives to call number n. */
  function AppReply(appPages: seq<string>, n: nat): HandlerReply
    requires |appPages| >= 1
  {
    HandlerReply(appPages[Min(n, |appPages| - 1)], n < |appPages| - 1)
  }

  predicate HelpInvoked(reg: seq<Command>, line: seq<char>) {
    Selected(reg, line).Some? && Selected(reg, line).value.handle.HelpMain?
  }

  /** Where the help cursor stands before call number n of the dispatch loop
      for `line`: at entry n - 1 while help is paginating, NULL otherwise. */
  function LoopCursor(reg: seq<Command>, line: seq<char>, n: nat): (c: Cursor)
    ensures c.At? ==> c.node < |reg|
  {
    if HelpInvoked(reg, line) && 0 < n <= |reg| then At(n - 1) else Idle
  }

  /** Within one line's dispatch, the help cursor after n calls is the one
      LoopCursor names, up to the call after the last entry. */
  lemma LoopCursorAfter(reg: seq<Command>, line: seq<char>, n: nat)
    requires |reg| >= 1 && n <= |reg| + 1
    ensures LoopCursor(reg, line, n) == if HelpInvoked(reg, line) then HelpCursorAfter(reg, n) else Idle
  {
    if n <= |reg| {
      HelpCursorPosition(reg, n);
    } else {
      HelpRestarts(reg, 0);
    }
  }

  /** Once every page of a line has been emitted, the help cursor is back at NULL. */
  lemma LoopCursorDone(reg: seq<Command>, line: seq<char>, appPages: seq<string>)
    requires |reg| >= 1 && |appPages| >= 1
    ensures LoopCursor(reg, line, |LinePages(reg, line, appPages)|) == Idle
  {
    if HelpInvoked(reg, line) {
      assert |LinePages(reg, line, appPages)| == |reg| + 1;
    }
  }

  /** Re-splitting during the dispatch loop: every call splits as the first did. */
  lemma SplitAgain(reg: seq<Command>, slots0: seq<seq<char>>, line: seq<char>, n: nat)
    requires WellShaped(slots0) && FindByPrefix(reg, line).Some?
    ensures var slots := if n == 0 then slots0 else SlotsAfterLine(reg, slots0, line);
      Split(slots, line) == SplitResult(SlotsAfterLine(reg, slots0, line), Min(|Tokens(line)| - 1, MaxVarsSize))
  {
    SplitTokens(slots0, line);
    SplitIdempotent(slots0, line);
  }

  /** Call number n of the dispatch loop for one line: it emits page n of the
      line, asks to be called again exactly while pages remain, leaves the
      slots split and advances the help cursor only when help was selected. */
  lemma LineCall(reg: seq<Command>, slots0: seq<seq<char>>, line: seq<char>, appPages: seq<string>, n: nat)
    requires |reg| >= 1 && WellShaped(slots0) && |appPages| >= 1
    requires n < |LinePages(reg, line, appPages)|
    ensures var pages := LinePages(reg, line, appPages);
      var slots := if n == 0 then slots0 else SlotsAfterLine(reg, slots0, line);
      var cur := if HelpInvoked(reg, line) then HelpCursorAfter(reg, n) else Idle;
      var next := if HelpInvoked(reg, line) then HelpCursorAfter(reg, n + 1) else Idle;
      ParseOnce(reg, slots, cur, line, AppReply(appPages, n))
        == Dispatched(n + 1 < |pages|, pages[n], SlotsAfterLine(reg, slots0, line), next)
  {
    if FindByPrefix(reg, line).Some? {
      SplitAgain(reg, slots0, line, n);
      if HelpInvoked(reg, line) {
        HelpPagination(reg, n);
      }
    }
  }

  /** A line no name is a prefix of is not recognised. */
  lemma NoPrefixUnrecognised(reg: seq<Command>, line: seq<char>, appPages: seq<string>)
    requires |appPages| >= 1
    requires forall j :: 0 <= j < |reg| ==> !(reg[j].command <= line)
    ensures LinePages(reg, line, appPages) == [NotRecognised(line)]
  {
  }

  /** The first prefix match decides: with the right argument count its
      handler runs; otherwise the line is not recognised, whatever later
      entries would have matched. */
  lemma FirstPrefixDecides(reg: seq<Command>, line: seq<char>, appPages: seq<string>, i: nat)
    requires |appPages| >= 1
    requires i < |reg| && reg[i].command <= line
    requires forall j :: 0 <= j < i ==> !(reg[j].command <= line)
    ensures Min(|Tokens(line)| - 1, MaxVarsSize) != reg[i].expectParameNum
      ==> LinePages(reg, line, appPages) == [NotRecognised(line)]
    ensures Min(|Tokens(line)| - 1, MaxVarsSize) == reg[i].expectParameNum
      ==> LinePages(reg, line, appPages) == if reg[i].handle.HelpMain? then HelpPages(reg) else appPages
  {
    assert FindByPrefix(reg, line) == Some(i);
  }

  /** Registration order decides between names sharing a prefix: with "in"
      registered before "info", the line "info" reaches "in". */
  lemma PrefixPrecedenceExample(inCmd: Command, infoCmd: Command)
    requires inCmd.command == "in" && infoCmd.command == "info"
    ensures FindByPrefix([HelpCommand, inCmd, infoCmd], "info") == Some(1)
  {
    assert "help"[0] != "info"[0];
    assert "info"[..2] == "in";
  }

  /** The exact message for an unknown command. */
  lemma UnknownCommandExample(appPages: seq<string>)
    requires |appPages| >= 1
    ensures LinePages([HelpCommand], "frobnicate", appPages)
      == ["  'frobnicate'" + ErrorRemind]
  {
    assert "help"[0] != "frobnicate"[0];
    NoPrefixUnrecognised([HelpCommand], "frobnicate", appPages);
    assert "  '" + "frobnicate" + "'" == "  'frobnicate'";

  }

  /** A command declared with 7 arguments is only selected by a line with at
      least 8 tokens, and the 8th never reaches a slot. */
  lemma SevenArgumentsLoseOne(slots: seq<seq<char>>, line: seq<char>)
    requires WellShaped(slots) && Split(slots, line).count == MaxVarsSize
    ensures |Tokens(line)| > MaxVarsSize
  {
    SplitTokens(slots, line);
  }
}
