/** Descriptor type, handler calling contract, buffer sizes and the fixed
    messages of the serial command console (mid_cli.h and the constants at the
    top of mid_cli.c). Characters stand for the bytes the console exchanges
    with its transport. */
module CliDefs {

  datatype Option<T> = None | Some(value: T)

  /** An `unsigned char` value. */
  type UChar = x: int | 0 <= x < 256

  // Buffer dimensions.
  const MaxInputSize: nat := 256    // cmdMAX_INPUT_SIZE
  const MaxOutputSize: nat := 4096  // cmdMAX_OUTPUT_SIZE
  const MaxStringSize: nat := 30    // cmdMAX_STRING_SIZE: 29 characters plus a terminator
  const MaxVarsSize: nat := 7       // cmdMAX_VARS_SIZE: slots, the command name included
  const LastCol: nat := MaxStringSize - 1

  const VersionMajor: nat := 0
  const VersionMinor: nat := 2

  // Characters the line editor and the tokenizer react to.
  const NUL: char := '\0'
  const BS: char := 8 as char
  const NEWLINE: char := '\n'
  const HEADLINE: char := '\r'
  const SPACE: char := ' '
  const TILDE: char := '~'

  // Fixed strings the console transmits.
  const Passwd: string := "jhg"
  const IncorrectPasswdMsg: string := "Password incorrect!\r\n"
  const InputPasswdMsg: string := "Input password: "
  const MemoryAllocateError: string := ": Allocate memory faild!\r\n"
  const ParameOverflowError: string := ": error, parame overflow!\r\n"
  const DefPrefix: string := "Terminal "
  const NewLine: string := "\r\n"
  const Backspace: string := [SPACE, BS]
  const ErrorRemind: string := " not be recognised. Input 'help' to view available commands.\r\n"
  const AllocateCliError: string := "struct cli"
  /** The help header, with the version filled in as `%d.%d` prints it. */
  const HelpHeader: string :=
    "        COMMAND HELP              [VER:" + Decimal(VersionMajor) + "." + Decimal(VersionMinor) + "]\r\n"

  /** The header help prints for version 0.2. */
  lemma HelpHeaderText()
    ensures HelpHeader == "        COMMAND HELP              [VER:0.2]\r\n"
  {
    assert Decimal(VersionMajor) == "0" && Decimal(VersionMinor) == "2";
  }

  /** The decimal digits of a number, as `%d` prints a non-negative int. */
  function Decimal(n: nat): (s: string)
    ensures |s| >= 1 && forall i :: 0 <= i < |s| ==> '0' <= s[i] <= '9'
  {
    if n < 10 then [('0' as int + n) as char] else Decimal(n / 10) + [('0' as int + n % 10) as char]
  }

  /** Session permission: starts Incorrect, latched to Correct by the password. */
  datatype PasswdState = Incorrect | Correct

  /** Which code runs for a command: the built-in help handler, or a handler
      of the application (outside this model). */
  datatype Handler = HelpMain | AppHandler(name: string)

  /** A command descriptor (command_t). `expectParameNum` counts the expected
      arguments, the command name itself excluded. */
  datatype Command = Command(command: string, helpInfo: string, handle: Handler, expectParameNum: UChar)

  /** What one handler call leaves in the output buffer, and whether it asks to be
      called again (pdTRUE) or ends the call sequence (pdFALSE). */
  datatype HandlerReply = HandlerReply(dest: string, more: bool)

  /** The built-in `help` descriptor, the head of every registry. */
  const HelpCommand: Command := Command("help", "Lists all the registered commands.", HelpMain, 0)

  predicate Printable(c: char) {
    SPACE <= c <= TILDE
  }

  predicate IsLineEnd(c: char) {
    c == NEWLINE || c == HEADLINE
  }

  /** The contents of a C string: no NUL before its end. */
  predicate CString(s: seq<char>) {
    forall i :: 0 <= i < |s| ==> s[i] != NUL
  }

  function Min(a: int, b: int): int {
    if a <= b then a else b
  }

  /** Appending to the 4096-byte output buffer keeps at most 4095 characters
      and the terminator. */
  function Bounded(s: string): (r: string)
    ensures |r| < MaxOutputSize
    ensures r <= s
    ensures |s| < MaxOutputSize ==> r == s
  {
    if |s| < MaxOutputSize then s else s[..MaxOutputSize - 1]
  }

  /** The concatenation of successive output chunks, as the transport sees them. */
  function Concat(pages: seq<string>): string {
    if pages == [] then [] else Concat(pages[..|pages| - 1]) + pages[|pages| - 1]
  }

  /** Concatenating one page more of a sequence extends the text by that page. */
  lemma ConcatPrefix(pages: seq<string>, n: nat)
    requires n < |pages|
    ensures Concat(pages[..n + 1]) == Concat(pages[..n]) + pages[n]
  {
    assert pages[..n + 1][..n] == pages[..n];
  }
}
