/** One iteration of the console task's loop (mid_cli_console_task), as a
    function of the session: the line being assembled, the permission latch and
    the argument slots. The byte comes in; the bytes transmitted come out. */
module Console {
  import opened CliDefs
  import opened Tokenizer
  import opened Dispatch

  datatype Session = Session(line: seq<char>, permission: PasswdState, slots: seq<seq<char>>)

  datatype Stepped = Stepped(session: Session, tx: string)

  /** The line holds at most 256 printable characters; the slots are 7x30. */
  predicate ValidSession(s: Session) {
    && |s.line| <= MaxInputSize
    && (forall k :: 0 <= k < |s.line| ==> Printable(s.line[k]))
    && WellShaped(s.slots)
  }

  /** The session right after initialisation. */
  function InitialSession(): (s: Session)
    ensures ValidSession(s)
  {
    Session([], Incorrect, ZeroSlots())
  }

  /** The echo of a byte: every byte but a backspace on an empty line, and
      only once the password has been accepted. */
  function Echo(s: Session, c: char): string {
    if (c != BS || |s.line| != 0) && s.permission == Correct then [c] else []
  }

  /** A byte other than a line end while assembling: a backspace with a
      character stored drops it and sends the erase sequence " \b"; a
      printable byte is stored while fewer than 256 are held; anything else
      leaves the line as it is. */
  function Edit(s: Session, c: char): (r: Stepped)
    requires ValidSession(s)
    ensures ValidSession(r.session)
  {
    if c == BS && |s.line| > 0 then Stepped(s.(line := s.line[..|s.line| - 1]), Backspace)
    else if Printable(c) && |s.line| < MaxInputSize then Stepped(s.(line := s.line + [c]), [])
    else Stepped(s, [])
  }

  /** A line end: while locked, the password check, which unlocks on the
      password and otherwise prompts for it again; when permitted, the
      dispatch of a non-empty line. Both end with an empty line, and every
      path that reaches dispatch ends with the prompt. */
  function EndLine(reg: seq<Command>, prefix: string, s: Session, appPages: seq<string>): (r: Stepped)
    requires ValidSession(s) && |appPages| >= 1
    ensures ValidSession(r.session)
  {
    if s.permission == Incorrect then
      if s.line == Passwd then
        Stepped(Session([], Correct, s.slots), prefix)
      else
        Stepped(Session([], Incorrect, s.slots), (if |s.line| != 0 then IncorrectPasswdMsg else []) + InputPasswdMsg)
    else if |s.line| == 0 then
      Stepped(s, prefix)
    else
      Stepped(Session([], s.permission, SlotsAfterLine(reg, s.slots, s.line)),
              Concat(LinePages(reg, s.line, appPages)) + prefix)
  }

  /** One loop iteration on input byte `c`: the echo, then a new line and
      the end of the line, or the editing of the line. `appPages` are the
      chunks an application handler would emit, should the line select one. */
  function Step(reg: seq<Command>, prefix: string, s: Session, c: char, appPages: seq<string>): (r: Stepped)
    requires |reg| >= 1 && ValidSession(s) && |appPages| >= 1
    ensures ValidSession(r.session)
  {
    var echo := Echo(s, c);
    if IsLineEnd(c) then
      var e := EndLine(reg, prefix, s, appPages);
      Stepped(e.session, echo + NewLine + e.tx)
    else
      var e := Edit(s, c);
      Stepped(e.session, echo + e.tx)
  }

  /** Any one-byte transition run over a byte stream, left to right. */
  function Run(step: (Session, char) -> Stepped, s: Session, input: seq<char>): (r: Stepped)
    decreases |input|
  {
    if input == [] then Stepped(s, [])
    else
      var first := step(s, input[0]);
      var rest := Run(step, first.session, input[1..]);
      Stepped(rest.session, first.tx + rest.tx)
  }

  /** The loop iteration as a transition of any session; one the console
      cannot reach is left alone. */
  function StepOf(reg: seq<Command>, prefix: string, appPages: seq<string>): (Session, char) -> Stepped {
    (s: Session, c: char) =>
      if |reg| >= 1 && ValidSession(s) && |appPages| >= 1 then Step(reg, prefix, s, c, appPages)
      else Stepped(s, [])
  }

  /** A run of the transition keeps the session valid. */
  lemma {:induction false} RunValid(reg: seq<Command>, prefix: string, s: Session, input: seq<char>, appPages: seq<string>)
    requires |reg| >= 1 && ValidSession(s) && |appPages| >= 1
    ensures ValidSession(Run(StepOf(reg, prefix, appPages), s, input).session)
    decreases |input|
  {
    if input != [] {
      var first := Step(reg, prefix, s, input[0], appPages);
      RunValid(reg, prefix, first.session, input[1..], appPages);
    }
  }

  /** The task's loop over a stream of input bytes: one iteration per byte. */
  function Feed(reg: seq<Command>, prefix: string, s: Session, input: seq<char>, appPages: seq<string>): (r: Stepped)
    requires |reg| >= 1 && ValidSession(s) && |appPages| >= 1
    ensures ValidSession(r.session)
  {
    RunValid(reg, prefix, s, input, appPages);
    Run(StepOf(reg, prefix, appPages), s, input)
  }

  /** The permission is a latch: it becomes Correct exactly when a line equal
      to the password ends while it is Incorrect, and never goes back. */
  lemma PermissionLatch(reg: seq<Command>, prefix: string, s: Session, c: char, appPages: seq<string>)
    requires |reg| >= 1 && ValidSession(s) && |appPages| >= 1
    ensures Step(reg, prefix, s, c, appPages).session.permission == Correct
      <==> s.permission == Correct || (IsLineEnd(c) && s.line == Passwd)
  {
  }

  /** Once the password is accepted it stays accepted, whatever is typed later. */
  lemma {:induction false} PermissionStaysCorrect(reg: seq<Command>, prefix: string, s: Session, input: seq<char>, appPages: seq<string>)
    requires |reg| >= 1 && ValidSession(s) && |appPages| >= 1
    requires s.permission == Correct
    ensures Feed(reg, prefix, s, input, appPages).session.permission == Correct
    decreases |input|
  {
    if input != [] {
      var first := Step(reg, prefix, s, input[0], appPages);
      FeedCons(reg, prefix, s, input, appPages);
      PermissionStaysCorrect(reg, prefix, first.session, input[1..], appPages);
    }
  }

  /** While locked out nothing typed is echoed: a byte other than a line end
      transmits nothing, except the erase sequence of a backspace. */
  lemma LockedNoEcho(reg: seq<Command>, prefix: string, s: Session, c: char, appPages: seq<string>)
    requires |reg| >= 1 && ValidSession(s) && |appPages| >= 1
    requires s.permission == Incorrect && !IsLineEnd(c)
    ensures Step(reg, prefix, s, c, appPages).tx == if c == BS && |s.line| > 0 then Backspace else []
  {
  }

  /** Backspace on an empty line changes nothing and transmits nothing. */
  lemma BackspaceOnEmptyLine(reg: seq<Command>, prefix: string, s: Session, appPages: seq<string>)
    requires |reg| >= 1 && ValidSession(s) && |appPages| >= 1 && s.line == []
    ensures Step(reg, prefix, s, BS, appPages) == Stepped(s, [])
  {
  }

  /** Backspace on a non-empty line drops its last character and transmits
      the echo (when permitted) and the erase sequence " \b". */
  lemma BackspaceErases(reg: seq<Command>, prefix: string, s: Session, appPages: seq<string>)
    requires |reg| >= 1 && ValidSession(s) && |appPages| >= 1 && s.line != []
    ensures var r := Step(reg, prefix, s, BS, appPages);
      && r.session == s.(line := s.line[..|s.line| - 1])
      && r.tx == (if s.permission == Correct then [BS] else []) + [SPACE, BS]
  {
  }

  /** Any other byte: a printable one is appended while fewer than 256 are
      held, anything else (DEL included) leaves the line as it is; the byte is
      echoed when permitted, stored or not. */
  lemma OrdinaryByte(reg: seq<Command>, prefix: string, s: Session, c: char, appPages: seq<string>)
    requires |reg| >= 1 && ValidSession(s) && |appPages| >= 1
    requires !IsLineEnd(c) && c != BS
    ensures var r := Step(reg, prefix, s, c, appPages);
      && r.session.line == (if Printable(c) && |s.line| < MaxInputSize then s.line + [c] else s.line)
      && r.session.permission == s.permission && r.session.slots == s.slots
      && r.tx == (if s.permission == Correct then [c] else [])
  {
  }

  /** Every line end clears the line. */
  lemma LineEndClears(reg: seq<Command>, prefix: string, s: Session, c: char, appPages: seq<string>)
    requires |reg| >= 1 && ValidSession(s) && |appPages| >= 1 && IsLineEnd(c)
    ensures Step(reg, prefix, s, c, appPages).session.line == []
  {
  }

  /** A non-empty line ended while permitted is dispatched: the echo, a new
      line, every chunk the line produces, then the prompt. */
  lemma LineDispatched(reg: seq<Command>, prefix: string, s: Session, c: char, appPages: seq<string>)
    requires |reg| >= 1 && ValidSession(s) && |appPages| >= 1
    requires IsLineEnd(c) && s.permission == Correct && s.line != []
    ensures Step(reg, prefix, s, c, appPages).tx
      == [c] + NewLine + (Concat(LinePages(reg, s.line, appPages)) + prefix)
  {
  }

  lemma {:induction false} RunAppend(step: (Session, char) -> Stepped, s: Session, a: seq<char>, b: seq<char>)
    ensures var ra := Run(step, s, a);
      var rb := Run(step, ra.session, b);
      Run(step, s, a + b) == Stepped(rb.session, ra.tx + rb.tx)
    decreases |a|
  {
    if a == [] {
      assert a + b == b;
    } else {
      var first := step(s, a[0]);
      var ra := Run(step, first.session, a[1..]);
      var rb := Run(step, ra.session, b);
      RunAppend(step, first.session, a[1..], b);
      ConsAppend(a, b);
      TxAssoc(first.tx, ra.tx, rb.tx);
    }
  }

  lemma ConsAppend(a: seq<char>, b: seq<char>)
    requires a != []
    ensures a + b != [] && (a + b)[0] == a[0] && (a + b)[1..] == a[1..] + b
  {
  }

  lemma TxAssoc(x: string, y: string, z: string)
    ensures x + (y + z) == (x + y) + z
  {
  }

  /** Feeding two streams one after the other is feeding their concatenation. */
  lemma FeedAppend(reg: seq<Command>, prefix: string, s: Session, a: seq<char>, b: seq<char>, appPages: seq<string>)
    requires |reg| >= 1 && ValidSession(s) && |appPages| >= 1
    ensures var ra := Feed(reg, prefix, s, a, appPages);
      var rb := Feed(reg, prefix, ra.session, b, appPages);
      Feed(reg, prefix, s, a + b, appPages) == Stepped(rb.session, ra.tx + rb.tx)
  {
    RunAppend(StepOf(reg, prefix, appPages), s, a, b);
  }

  /** Feeding a non-empty stream is one iteration on its first byte, then
      the rest of the stream from where that iteration left the session. */
  lemma FeedCons(reg: seq<Command>, prefix: string, s: Session, input: seq<char>, appPages: seq<string>)
    requires |reg| >= 1 && ValidSession(s) && |appPages| >= 1 && input != []
    ensures var first := Step(reg, prefix, s, input[0], appPages);
      var rest := Feed(reg, prefix, first.session, input[1..], appPages);
      Feed(reg, prefix, s, input, appPages) == Stepped(rest.session, first.tx + rest.tx)
  {
    var step := StepOf(reg, prefix, appPages);
    assert step(s, input[0]) == Step(reg, prefix, s, input[0], appPages);
  }

  /** Feeding a single byte is one iteration of the loop. */
  lemma FeedOne(reg: seq<Command>, prefix: string, s: Session, c: char, appPages: seq<string>)
    requires |reg| >= 1 && ValidSession(s) && |appPages| >= 1
    ensures Feed(reg, prefix, s, [c], appPages) == Step(reg, prefix, s, c, appPages)
  {
    var step := StepOf(reg, prefix, appPages);
    var first := step(s, c);
    assert first == Step(reg, prefix, s, c, appPages);
    assert [c][1..] == [] && Run(step, first.session, []) == Stepped(first.session, []);
    assert Run(step, s, [c]) == Stepped(first.session, first.tx + []);
    assert first.tx + [] == first.tx;
  }

  /** Logging in: typing the password and a line end on a locked session
      echoes none of it, transmits a new line and the prompt, and opens the latch. */
  lemma LoginExample(reg: seq<Command>, prefix: string, s: Session, c: char, appPages: seq<string>)
    requires |reg| >= 1 && ValidSession(s) && |appPages| >= 1
    requires s.permission == Incorrect && s.line == [] && IsLineEnd(c)
    ensures var r := Feed(reg, prefix, s, Passwd + [c], appPages);
      r.tx == NewLine + prefix && r.session.permission == Correct && r.session.line == []
  {
    LongLineTruncated(reg, prefix, s, Passwd, appPages);
    assert Min(|Passwd|, MaxInputSize - |s.line|) == |Passwd|;
    assert s.line + Passwd[..|Passwd|] == Passwd;
    var typed := s.(line := Passwd);
    FeedAppend(reg, prefix, s, Passwd, [c], appPages);
    FeedOne(reg, prefix, typed, c, appPages);
    PasswordAccepted(reg, prefix, typed, c, appPages);
  }

  /** The password ended by a line end on a locked session: nothing is echoed,
      a new line and the prompt are sent, the latch opens and the line is
      erased. */
  lemma PasswordAccepted(reg: seq<Command>, prefix: string, s: Session, c: char, appPages: seq<string>)
    requires |reg| >= 1 && ValidSession(s) && |appPages| >= 1
    requires s.permission == Incorrect && s.line == Passwd && IsLineEnd(c)
    ensures Step(reg, prefix, s, c, appPages) == Stepped(Session([], Correct, s.slots), NewLine + prefix)
  {
    assert Echo(s, c) == [];
    assert EndLine(reg, prefix, s, appPages) == Stepped(Session([], Correct, s.slots), prefix);
    assert [] + NewLine + prefix == NewLine + prefix;
  }

  /** The line after one more printable byte, then the rest cut to fit, is
      the line with the input cut to fit. */
  lemma TruncatedLine(line: seq<char>, input: seq<char>)
    requires |line| <= MaxInputSize && input != []
    ensures var next := if |line| < MaxInputSize then line + [input[0]] else line;
      next + input[1..][..Min(|input| - 1, MaxInputSize - |next|)]
        == line + input[..Min(|input|, MaxInputSize - |line|)]
  {
    var m := Min(|input|, MaxInputSize - |line|);
    if |line| < MaxInputSize {
      var tail := input[1..][..m - 1];
      assert input[..m] == [input[0]] + tail;
      assert (line + [input[0]]) + tail == line + ([input[0]] + tail);
    } else {
      assert input[..m] == [];
    }
  }

  /** What a printable byte does to a session: it is stored while fewer than
      256 are held and echoed once the password has been accepted. */
  function Typed(s: Session, c: char): Stepped {
    Stepped(s.(line := if |s.line| < MaxInputSize then s.line + [c] else s.line),
            if s.permission == Correct then [c] else [])
  }

  lemma PrintableStep(reg: seq<Command>, prefix: string, s: Session, c: char, appPages: seq<string>)
    requires |reg| >= 1 && ValidSession(s) && |appPages| >= 1 && Printable(c)
    ensures Step(reg, prefix, s, c, appPages) == Typed(s, c)
  {
  }

  /** Printable bytes typed on a line are kept up to 256 in all; the rest are
      dropped from the line (while still echoed when permitted). */
  lemma LongLineTruncated(reg: seq<Command>, prefix: string, s: Session, input: seq<char>, appPages: seq<string>)
    requires |reg| >= 1 && ValidSession(s) && |appPages| >= 1
    requires forall k :: 0 <= k < |input| ==> Printable(input[k])
    ensures Feed(reg, prefix, s, input, appPages)
      == Stepped(s.(line := s.line + input[..Min(|input|, MaxInputSize - |s.line|)]),
                 if s.permission == Correct then input else [])
  {
    var step := StepOf(reg, prefix, appPages);
    forall t: Session, c: char | ValidSession(t) && Printable(c)
      ensures step(t, c) == Typed(t, c)
    {
      PrintableStep(reg, prefix, t, c, appPages);
    }
    RunTyped(step, s, input);
  }

  /** Any transition that treats printable bytes as the console does keeps
      at most 256 of them on the line. */
  lemma {:induction false} RunTyped(step: (Session, char) -> Stepped, s: Session, input: seq<char>)
    requires ValidSession(s)
    requires forall t: Session, c: char :: ValidSession(t) && Printable(c) ==> step(t, c) == Typed(t, c)
    requires forall k :: 0 <= k < |input| ==> Printable(input[k])
    ensures Run(step, s, input)
      == Stepped(s.(line := s.line + input[..Min(|input|, MaxInputSize - |s.line|)]),
                 if s.permission == Correct then input else [])
    decreases |input|
  {
    if input == [] {
      assert s.line + input[..0] == s.line;
    } else {
      var c := input[0];
      var first := Typed(s, c);
      assert step(s, c) == first;
      RunTyped(step, first.session, input[1..]);
      TruncatedLine(s.line, input);
      assert input == [c] + input[1..];
    }
  }

  /** As written, input_index is an `unsigned char`: the capacity test
      `input_index < 256` always holds, so the 256th stored byte wraps the
      index back to 0 and the following bytes overwrite the start of the
      256-byte buffer. This is the editing branch only: a line end goes
      through `LineEndAsWritten`. */
  function ReceiveAsWritten(buf: seq<char>, index: UChar, c: char): (r: (seq<char>, UChar))
    requires |buf| == MaxInputSize && !IsLineEnd(c)
    ensures |r.0| == MaxInputSize
  {
    if c == BS && index > 0 then (buf[index - 1 := NUL], index - 1)
    else if Printable(c) && index < MaxInputSize then (buf[index := c], (index + 1) % 256)
    else (buf, index)
  }

  /** Bytes the as-written editor handles: anything but a line end. */
  predicate Editing(input: seq<char>) {
    forall k :: 0 <= k < |input| ==> !IsLineEnd(input[k])
  }

  /** A run of printable bytes; no line end is printable. */
  predicate AllPrintable(input: seq<char>)
    ensures AllPrintable(input) ==> Editing(input)
  {
    forall k :: 0 <= k < |input| ==> Printable(input[k])
  }

  /** As written, the editing of a run of bytes containing no line end, one
      byte after the other; the buffer keeps its 256 cells. */
  function FeedAsWritten(buf: seq<char>, index: UChar, input: seq<char>): (r: (seq<char>, UChar))
    requires |buf| == MaxInputSize && Editing(input)
    ensures |r.0| == MaxInputSize
    decreases |input|
  {
    if input == [] then (buf, index)
    else
      var next := ReceiveAsWritten(buf, index, input[0]);
      FeedAsWritten(next.0, next.1, input[1..])
  }

  lemma {:induction false} FeedAsWrittenPrintable(buf: seq<char>, index: UChar, input: seq<char>)
    requires |buf| == MaxInputSize && index + |input| <= MaxInputSize
    requires AllPrintable(input)
    ensures FeedAsWritten(buf, index, input)
      == (buf[..index] + input + buf[index + |input|..], (index + |input|) % 256)
    decreases |input|
  {
    if input == [] {
      assert buf[..index] + input + buf[index..] == buf;
    } else {
      assert Printable(input[0]);
      var next := ReceiveAsWritten(buf, index, input[0]);
      assert next == (buf[index := input[0]], (index + 1) % 256);
      assert FeedAsWritten(buf, index, input) == FeedAsWritten(next.0, next.1, input[1..]);
      if index + 1 < 256 {
        assert next.1 == index + 1;
        FeedAsWrittenPrintable(next.0, next.1, input[1..]);
        assert next.0[..index + 1] + input[1..] == buf[..index] + input;
        assert next.0[index + 1 + |input[1..]|..] == buf[index + |input|..];
        assert (next.1 + |input[1..]|) % 256 == (index + |input|) % 256;
        assert FeedAsWritten(buf, index, input) == (buf[..index] + input + buf[index + |input|..], (index + |input|) % 256);
      } else {
        assert |input| == 1 && input[1..] == [] && next.1 == 0;
        assert buf[..index] + input + buf[index + 1..] == buf[index := input[0]];
        assert FeedAsWritten(buf, index, input) == (buf[..index] + input + buf[index + |input|..], (index + |input|) % 256);
      }
    }
  }

  /** As written, feeding two streams in turn is feeding their concatenation. */
  lemma {:induction false} FeedAsWrittenAppend(buf: seq<char>, index: UChar, a: seq<char>, b: seq<char>)
    requires |buf| == MaxInputSize && Editing(a) && Editing(b)
    ensures var ra := FeedAsWritten(buf, index, a);
      FeedAsWritten(buf, index, a + b) == FeedAsWritten(ra.0, ra.1, b)
    decreases |a|
  {
    if a == [] {
      assert a + b == b;
    } else {
      var next := ReceiveAsWritten(buf, index, a[0]);
      ConsAppend(a, b);
      FeedAsWrittenAppend(next.0, next.1, a[1..], b);
    }
  }

  /** As written, once 256 printable bytes have been stored the index has
      wrapped to 0, and the printable bytes typed after them overwrite the
      start of the buffer. */
  lemma LongLineOverwritesAsWritten(buf: seq<char>, first: seq<char>, more: seq<char>)
    requires |buf| == MaxInputSize && |first| == MaxInputSize && |more| <= MaxInputSize
    requires AllPrintable(first)
    requires AllPrintable(more)
    ensures FeedAsWritten(buf, 0, first + more) == (more + first[|more|..], |more| % 256)
  {
    FeedAsWrittenAppend(buf, 0, first, more);
    FullLineAsWritten(buf, first);
    FeedAsWrittenPrintable(first, 0, more);
    assert first[..0] + more == more;
  }

  /** As written, 256 printable bytes fill the buffer and wrap the index to 0. */
  lemma FullLineAsWritten(buf: seq<char>, first: seq<char>)
    requires |buf| == MaxInputSize && |first| == MaxInputSize
    requires AllPrintable(first)
    ensures FeedAsWritten(buf, 0, first) == (first, 0)
  {
    FeedAsWrittenPrintable(buf, 0, first);
    assert buf[..0] + first + buf[MaxInputSize..] == first;
  }

  datatype EndedAsWritten = EndedAsWritten(buf: seq<char>, index: UChar, tx: string)

  /** A line end after the password has been accepted, as written: the echo
      and CR LF; then, only when the index is not 0, the dispatch of the C
      string in the buffer and the erasure of its strlen cells; then the
      prompt. The index is 0 afterwards. A buffer without a NUL is read up to
      its end. */
  function LineEndAsWritten(reg: seq<Command>, prefix: string, buf: seq<char>, index: UChar, c: char,
                            appPages: seq<string>): (r: EndedAsWritten)
    requires |buf| == MaxInputSize && IsLineEnd(c) && |appPages| >= 1
    ensures |r.buf| == MaxInputSize && r.index == 0
    ensures r.buf == buf <== index == 0
  {
    if index == 0 then EndedAsWritten(buf, 0, [c] + NewLine + prefix)
    else
      var line := ArgvString(buf);
      EndedAsWritten(seq(|line|, _ => NUL) + buf[|line|..], 0,
                     [c] + NewLine + Concat(LinePages(reg, line, appPages)) + prefix)
  }

  /** As written, 256 printable bytes leave the index at 0 and no terminator
      anywhere in the buffer. The line end that follows sends only its echo,
      CR LF and the prompt: nothing is dispatched and the bytes stay in the
      buffer. A printable byte typed instead overwrites the first cell. */
  lemma LongLineWrapsAsWritten(reg: seq<Command>, prefix: string, c: char, d: char, e: char, appPages: seq<string>)
    requires Printable(c) && Printable(d) && IsLineEnd(e) && |appPages| >= 1
    ensures var zero := seq(MaxInputSize, _ => NUL);
      var full := seq(MaxInputSize, _ => c);
      var r := FeedAsWritten(zero, 0, full);
      && r == (full, 0) && NUL !in r.0
      && LineEndAsWritten(reg, prefix, r.0, r.1, e, appPages) == EndedAsWritten(full, 0, [e] + NewLine + prefix)
      && FeedAsWritten(zero, 0, full + [d]) == (full[0 := d], 1)
  {
    var zero := seq(MaxInputSize, _ => NUL);
    var full := seq(MaxInputSize, _ => c);
    FeedAsWrittenPrintable(zero, 0, full);
    assert zero[..0] + full + zero[MaxInputSize..] == full;
    LongLineOverwritesAsWritten(zero, full, [d]);
    assert [d] + full[1..] == full[0 := d];
  }
}
