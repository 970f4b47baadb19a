/** mid_cli_string_split: splitting a command line into the 7 fixed slots of
    30 characters that handlers receive as argv. */
module Tokenizer {
  import opened CliDefs

  /** Seven rows of thirty characters: `char vars[7][30]`. */
  predicate WellShaped(slots: seq<seq<char>>) {
    |slots| == MaxVarsSize && forall i :: 0 <= i < |slots| ==> |slots[i]| == MaxStringSize
  }

  /** The slots of a freshly allocated (zeroed) session. */
  function ZeroSlots(): (slots: seq<seq<char>>)
    ensures WellShaped(slots)
  {
    seq(MaxVarsSize, _ => seq(MaxStringSize, _ => NUL))
  }

  datatype SplitResult = SplitResult(slots: seq<seq<char>>, count: nat)

  /** The tokenizer's loop, continued from a given state: `segment` is the slot
      being filled, `index` the next column in it, `wasSpace` whether the
      previous character was counted as a boundary. A space is a boundary only
      right after a non-boundary character; the loop stops at the 7th
      boundary; a character arriving at column 29 writes the terminator there
      instead and is dropped. (The source also tests `index <= 29` before
      storing; `index` never exceeds 29, so that test always holds.) */
  function SplitFrom(slots: seq<seq<char>>, rest: seq<char>, segment: nat, index: nat, wasSpace: bool): (r: SplitResult)
    requires WellShaped(slots) && segment < MaxVarsSize && index <= LastCol
    ensures WellShaped(r.slots) && segment <= r.count <= MaxVarsSize
    decreases |rest|
  {
    if rest == [] then SplitResult(slots, segment)
    else if rest[0] == SPACE && !wasSpace then
      if segment + 1 >= MaxVarsSize then SplitResult(slots, segment + 1)
      else SplitFrom(slots, rest[1..], segment + 1, 0, true)
    else if index == LastCol then
      SplitFrom(slots[segment := slots[segment][LastCol := NUL]], rest[1..], segment, index, false)
    else
      SplitFrom(slots[segment := slots[segment][index := rest[0]]], rest[1..], segment, index + 1, false)
  }

  /** Splitting a whole line: the slots it leaves and the boundary count it returns. */
  function Split(slots: seq<seq<char>>, line: seq<char>): SplitResult
    requires WellShaped(slots)
  {
    SplitFrom(slots, line, 0, 0, false)
  }

  /** Reference decomposition of a line into tokens, independent of slots and
      limits: a space right after a non-boundary character separates two
      tokens; a space right after a boundary is an ordinary character. */
  function Pieces(s: seq<char>, afterBoundary: bool): (p: seq<seq<char>>)
    ensures |p| >= 1
    decreases |s|
  {
    if s == [] then [[]]
    else if s[0] == SPACE && !afterBoundary then [[]] + Pieces(s[1..], true)
    else
      var r := Pieces(s[1..], false);
      [[s[0]] + r[0]] + r[1..]
  }

  function Tokens(line: seq<char>): (p: seq<seq<char>>)
    ensures |p| >= 1
  {
    Pieces(line, false)
  }

  /** Tokens glued back together with one space between neighbours. */
  function Join(p: seq<seq<char>>): seq<char>
    requires |p| >= 1
  {
    if |p| == 1 then p[0] else p[0] + [SPACE] + Join(p[1..])
  }

  /** Where a space may occur inside the pieces: only as the first character
      of a piece that follows a boundary. */
  predicate SpacesOnlyLeading(p: seq<seq<char>>, afterBoundary: bool) {
    forall i, j :: 0 <= i < |p| && 0 <= j < |p[i]| && p[i][j] == SPACE ==> j == 0 && (i > 0 || afterBoundary)
  }

  /** The pieces glue back to the line. */
  lemma {:induction false} PiecesJoin(s: seq<char>, afterBoundary: bool)
    ensures Join(Pieces(s, afterBoundary)) == s
    decreases |s|
  {
    if s == [] {
    } else if s[0] == SPACE && !afterBoundary {
      PiecesJoin(s[1..], true);
      JoinEmptyFirst(Pieces(s[1..], true));
      assert s == [SPACE] + s[1..];
    } else {
      PiecesJoin(s[1..], false);
      var r := Pieces(s[1..], false);
      JoinExtendFirst(s[0], r[0], r[1..]);
      assert [r[0]] + r[1..] == r;
      assert s == [s[0]] + s[1..];
    }
  }

  /** An empty first piece joins to a leading space. */
  lemma JoinEmptyFirst(r: seq<seq<char>>)
    requires |r| >= 1
    ensures Join([[]] + r) == [SPACE] + Join(r)
  {
    var p := [[]] + r;
    assert p[0] == [] && p[1..] == r;
  }

  /** A character put in front of the first piece is put in front of the join. */
  lemma JoinExtendFirst(c: char, first: seq<char>, rest: seq<seq<char>>)
    ensures Join([[c] + first] + rest) == [c] + Join([first] + rest)
  {
    var p := [[c] + first] + rest;
    var q := [first] + rest;
    if rest == [] {
      assert |p| == 1 && |q| == 1;
    } else {
      assert p[0] == [c] + first && p[1..] == rest;
      assert q[0] == first && q[1..] == rest;
      var tail := Join(rest);
      assert ([c] + first) + [SPACE] + tail == [c] + (first + [SPACE] + tail);
    }
  }

  /** Spaces inside the pieces only lead a piece that follows a boundary. */
  lemma {:induction false} PiecesSpaces(s: seq<char>, afterBoundary: bool)
    ensures SpacesOnlyLeading(Pieces(s, afterBoundary), afterBoundary)
    decreases |s|
  {
    if s == [] {
    } else if s[0] == SPACE && !afterBoundary {
      var r := Pieces(s[1..], true);
      PiecesSpaces(s[1..], true);
      assert forall i :: 1 <= i < |[[]] + r| ==> ([[]] + r)[i] == r[i - 1];
    } else {
      var r := Pieces(s[1..], false);
      PiecesSpaces(s[1..], false);
      var p := [[s[0]] + r[0]] + r[1..];
      assert forall j :: 1 <= j < |p[0]| ==> p[0][j] == r[0][j - 1];
      assert forall i :: 1 <= i < |p| ==> p[i] == r[i];
    }
  }

  /** A 30-character slot after the tokenizer has written token `t` into it
      from column `index` on: the first characters of `t` that fit before column
      29, the slot's old characters after them, and a terminator in column 29
      only if `t` did not fit. */
  function FillFrom(row: seq<char>, index: nat, t: seq<char>): (r: seq<char>)
    requires |row| == MaxStringSize && index <= LastCol
    ensures |r| == MaxStringSize
  {
    var k := Min(|t|, LastCol - index);
    row[..index] + t[..k] + row[index + k..LastCol] + [if index + |t| > LastCol then NUL else row[LastCol]]
  }

  /** A slot after a whole token has been written into it. */
  function Fill(row: seq<char>, t: seq<char>): (r: seq<char>)
    requires |row| == MaxStringSize
    ensures |r| == MaxStringSize
  {
    FillFrom(row, 0, t)
  }

  /** The slots after splitting, in terms of the pieces still to be written:
      the current slot continues its token, the next slots receive the
      following pieces, and all other slots keep their contents. */
  function Expected(slots: seq<seq<char>>, segment: nat, index: nat, p: seq<seq<char>>): (r: seq<seq<char>>)
    requires WellShaped(slots) && segment < MaxVarsSize && index <= LastCol && |p| >= 1
    ensures WellShaped(r)
  {
    seq(MaxVarsSize, i requires 0 <= i < MaxVarsSize =>
      if i == segment then FillFrom(slots[i], index, p[0])
      else if segment < i < segment + |p| then Fill(slots[i], p[i - segment])
      else slots[i])
  }

  lemma FillFromEmpty(row: seq<char>, index: nat)
    requires |row| == MaxStringSize && index <= LastCol
    ensures FillFrom(row, index, []) == row
  {
    assert row == row[..index] + row[index..LastCol] + [row[LastCol]];
  }

  lemma FillFromCons(row: seq<char>, index: nat, c: char, t: seq<char>)
    requires |row| == MaxStringSize && index <= LastCol
    ensures index < LastCol ==> FillFrom(row[index := c], index + 1, t) == FillFrom(row, index, [c] + t)
    ensures index == LastCol ==> FillFrom(row[LastCol := NUL], index, t) == FillFrom(row, index, [c] + t)
  {
    if index < LastCol {
      var row' := row[index := c];
      var k := Min(|t|, LastCol - index - 1);
      assert ([c] + t)[..k + 1] == [c] + t[..k];
      assert row'[..index + 1] == row[..index] + [c];
      assert row'[index + 1 + k..LastCol] == row[index + 1 + k..LastCol];
    }
  }

  /** A boundary moves the writing on to the next slot, leaving the current one as it is. */
  lemma ExpectedAfterBoundary(slots: seq<seq<char>>, segment: nat, index: nat, r: seq<seq<char>>)
    requires WellShaped(slots) && segment + 1 < MaxVarsSize && index <= LastCol && |r| >= 1
    ensures Expected(slots, segment + 1, 0, r) == Expected(slots, segment, index, [[]] + r)
  {
    var p := [[]] + r;
    var e := Expected(slots, segment, index, p);
    var e' := Expected(slots, segment + 1, 0, r);
    FillFromEmpty(slots[segment], index);
    forall i | 0 <= i < MaxVarsSize ensures e'[i] == e[i] {
      if i > segment && i < segment + |p| {
        assert p[i - segment] == r[i - segment - 1];
      }
    }
  }

  /** Writing one character of the current token (or the terminator in column 29). */
  lemma ExpectedAfterChar(slots: seq<seq<char>>, segment: nat, index: nat, c: char, r: seq<seq<char>>)
    requires WellShaped(slots) && segment < MaxVarsSize && index <= LastCol && |r| >= 1
    ensures var slots' := if index == LastCol then slots[segment := slots[segment][LastCol := NUL]]
                          else slots[segment := slots[segment][index := c]];
      var index' := if index == LastCol then index else index + 1;
      Expected(slots', segment, index', r) == Expected(slots, segment, index, [[c] + r[0]] + r[1..])
  {
    var p := [[c] + r[0]] + r[1..];
    var slots' := if index == LastCol then slots[segment := slots[segment][LastCol := NUL]]
                  else slots[segment := slots[segment][index := c]];
    var index' := if index == LastCol then index else index + 1;
    var e := Expected(slots, segment, index, p);
    var e' := Expected(slots', segment, index', r);
    FillFromCons(slots[segment], index, c, r[0]);
    forall i | 0 <= i < MaxVarsSize ensures e'[i] == e[i] {
      if i > segment && i < segment + |p| {
        assert p[i - segment] == r[i - segment];
      }
    }
  }

  /** The tokenizer's loop agrees with the reference decomposition: from any
      loop state, the count it returns and every slot it leaves are given by
      the pieces of the rest of the line. */
  lemma {:induction false} SplitFromPieces(slots: seq<seq<char>>, rest: seq<char>, segment: nat, index: nat, wasSpace: bool)
    requires WellShaped(slots) && segment < MaxVarsSize && index <= LastCol
    ensures var p := Pieces(rest, wasSpace);
      SplitFrom(slots, rest, segment, index, wasSpace)
        == SplitResult(Expected(slots, segment, index, p), Min(segment + |p| - 1, MaxVarsSize))
    decreases |rest|
  {
    if rest == [] {
      FillFromEmpty(slots[segment], index);
      assert Expected(slots, segment, index, [[]]) == slots;
    } else if rest[0] == SPACE && !wasSpace {
      var r := Pieces(rest[1..], true);
      if segment + 1 >= MaxVarsSize {
        FillFromEmpty(slots[segment], index);
        assert Expected(slots, segment, index, [[]] + r) == slots;
      } else {
        SplitFromPieces(slots, rest[1..], segment + 1, 0, true);
        ExpectedAfterBoundary(slots, segment, index, r);
      }
    } else {
      var r := Pieces(rest[1..], false);
      var slots' := if index == LastCol then slots[segment := slots[segment][LastCol := NUL]]
                    else slots[segment := slots[segment][index := rest[0]]];
      var index' := if index == LastCol then index else index + 1;
      SplitFromPieces(slots', rest[1..], segment, index', false);
      ExpectedAfterChar(slots, segment, index, rest[0], r);
    }
  }

  /** What splitting a line leaves, in terms of its tokens: the count is the
      number of boundaries, capped at 7; slot i receives token i for every
      token that fits among the 7 slots; the remaining slots are untouched. */
  lemma SplitTokens(slots: seq<seq<char>>, line: seq<char>)
    requires WellShaped(slots)
    ensures var t := Tokens(line); var r := Split(slots, line);
      && r.count == Min(|t| - 1, MaxVarsSize)
      && WellShaped(r.slots)
      && forall i :: 0 <= i < MaxVarsSize ==> r.slots[i] == if i < |t| then Fill(slots[i], t[i]) else slots[i]
  {
    SplitFromPieces(slots, line, 0, 0, false);
  }

  /** The boundary count does not depend on what the slots held before. */
  lemma SplitCountIndependent(slots1: seq<seq<char>>, slots2: seq<seq<char>>, line: seq<char>)
    requires WellShaped(slots1) && WellShaped(slots2)
    ensures Split(slots1, line).count == Split(slots2, line).count
  {
    SplitTokens(slots1, line);
    SplitTokens(slots2, line);
  }

  /** Splitting the same line again leaves the slots as they are. */
  lemma SplitIdempotent(slots: seq<seq<char>>, line: seq<char>)
    requires WellShaped(slots)
    ensures Split(Split(slots, line).slots, line) == Split(slots, line)
  {
    var t := Tokens(line);
    var once := Split(slots, line);
    SplitTokens(slots, line);
    SplitTokens(once.slots, line);
    var twice := Split(once.slots, line);
    forall i | 0 <= i < MaxVarsSize ensures twice.slots[i] == once.slots[i] {
      if i < |t| {
        var k := Min(|t[i]|, LastCol);
        var f := Fill(slots[i], t[i]);
        assert f[..0] == [] && f[..0] + t[i][..k] == t[i][..k];
        assert f[k..LastCol] == slots[i][k..LastCol];
      }
    }
  }

  /** Each slot receives at most 29 characters of its token; a longer token
      leaves the terminator in column 29 and its remaining characters are
      dropped. A shorter token is not terminated: the columns after it keep
      whatever the slot held before. */
  lemma FillTruncates(row: seq<char>, t: seq<char>)
    requires |row| == MaxStringSize
    ensures var r := Fill(row, t);
      && (|t| >= MaxStringSize ==> r[..LastCol] == t[..LastCol] && r[LastCol] == NUL)
      && (|t| < MaxStringSize ==> r[..|t|] == t && r[|t|..] == row[|t|..])
  {
    var r := Fill(row, t);
    if |t| < MaxStringSize {
      assert r == t + row[|t|..LastCol] + [row[LastCol]];
      assert row[|t|..] == row[|t|..LastCol] + [row[LastCol]];
    }
  }

  /** The C string a handler reads through argv: the slot up to its first terminator. */
  function ArgvString(row: seq<char>): (s: seq<char>)
    ensures s <= row && CString(s)
    ensures |s| < |row| ==> row[|s|] == NUL
  {
    if row == [] || row[0] == NUL then [] else [row[0]] + ArgvString(row[1..])
  }

  lemma ArgvStringOf(s: seq<char>, rest: seq<char>)
    requires CString(s) && |rest| > 0 && rest[0] == NUL
    ensures ArgvString(s + rest) == s
  {
    if s != [] {
      assert (s + rest)[1..] == s[1..] + rest;
      ArgvStringOf(s[1..], rest);
    } else {
      assert s + rest == rest;
    }
  }

  /** On a zeroed slot, a handler reads back the token itself, cut at 29 characters. */
  lemma FillZeroArgv(t: seq<char>)
    requires CString(t)
    ensures ArgvString(Fill(seq(MaxStringSize, _ => NUL), t)) == t[..Min(|t|, LastCol)]
  {
    var row := seq(MaxStringSize, _ => NUL);
    var k := Min(|t|, LastCol);
    var r := Fill(row, t);
    assert r == t[..k] + r[k..];
    ArgvStringOf(t[..k], r[k..]);
  }

  lemma PiecesCons(c: char, s: seq<char>, afterBoundary: bool)
    ensures Pieces([c] + s, afterBoundary) ==
      if c == SPACE && !afterBoundary then [[]] + Pieces(s, true)
      else [[c] + Pieces(s, false)[0]] + Pieces(s, false)[1..]
  {
    assert ([c] + s)[1..] == s;
  }

  /** A word without spaces followed by one space is a whole token. */
  lemma {:induction false} PiecesWord(w: seq<char>, rest: seq<char>)
    requires SPACE !in w
    ensures Pieces(w + [SPACE] + rest, false) == [w] + Pieces(rest, true)
    decreases |w|
  {
    if w == [] {
      PiecesCons(SPACE, rest, false);
    } else {
      PiecesWord(w[1..], rest);
      assert w + [SPACE] + rest == [w[0]] + (w[1..] + [SPACE] + rest);
      PiecesCons(w[0], w[1..] + [SPACE] + rest, false);
      assert [w[0]] + w[1..] == w;
    }
  }

  /** A word without spaces at the end of the line is the last token. */
  lemma {:induction false} PiecesLastWord(w: seq<char>)
    requires SPACE !in w
    ensures Pieces(w, false) == [w]
    decreases |w|
  {
    if w != [] {
      PiecesLastWord(w[1..]);
      PiecesCons(w[0], w[1..], false);
      assert [w[0]] + w[1..] == w;
    }
  }

  /** A boundary flag only matters for a leading space. */
  lemma PiecesAfterBoundary(s: seq<char>)
    requires s == [] || s[0] != SPACE
    ensures Pieces(s, true) == Pieces(s, false)
  {
  }

  /** On zeroed slots a handler reads back each stored token, cut at 29 characters. */
  lemma SplitZeroArgv(line: seq<char>, i: nat)
    requires i < MaxVarsSize && i < |Tokens(line)| && CString(Tokens(line)[i])
    ensures ArgvString(Split(ZeroSlots(), line).slots[i]) == Tokens(line)[i][..Min(|Tokens(line)[i]|, LastCol)]
  {
    SplitTokens(ZeroSlots(), line);
    FillZeroArgv(Tokens(line)[i]);
  }

  /** Two words without spaces, separated by one space, are the tokens. */
  lemma TwoWords(w0: seq<char>, w1: seq<char>)
    requires SPACE !in w0 && SPACE !in w1 && |w1| > 0
    ensures Tokens(w0 + [SPACE] + w1) == [w0, w1]
  {
    PiecesLastWord(w1);
    PiecesAfterBoundary(w1);
    PiecesWord(w0, w1);
  }

  /** Words without spaces, separated by single spaces, are the tokens. */
  lemma FourWords(w0: seq<char>, w1: seq<char>, w2: seq<char>, w3: seq<char>)
    requires SPACE !in w0 && SPACE !in w1 && SPACE !in w2 && SPACE !in w3
    requires |w1| > 0 && |w2| > 0 && |w3| > 0
    ensures Tokens(w0 + [SPACE] + w1 + [SPACE] + w2 + [SPACE] + w3) == [w0, w1, w2, w3]
  {
    PiecesLastWord(w3);
    PiecesAfterBoundary(w3);
    PiecesWord(w2, w3);
    assert (w2 + [SPACE] + w3)[0] == w2[0];
    PiecesAfterBoundary(w2 + [SPACE] + w3);
    assert w1 + [SPACE] + w2 + [SPACE] + w3 == w1 + [SPACE] + (w2 + [SPACE] + w3);
    PiecesWord(w1, w2 + [SPACE] + w3);
    assert (w1 + [SPACE] + w2 + [SPACE] + w3)[0] == w1[0];
    PiecesAfterBoundary(w1 + [SPACE] + w2 + [SPACE] + w3);
    assert w0 + [SPACE] + w1 + [SPACE] + w2 + [SPACE] + w3 == w0 + [SPACE] + (w1 + [SPACE] + w2 + [SPACE] + w3);
    PiecesWord(w0, w1 + [SPACE] + w2 + [SPACE] + w3);
  }

  lemma CpTokens()
    ensures Tokens("cp -r src dest") == ["cp", "-r", "src", "dest"]
  {
    assert "cp -r src dest" == "cp" + [SPACE] + "-r" + [SPACE] + "src" + [SPACE] + "dest";
    FourWords("cp", "-r", "src", "dest");
  }

  /** A line of four words of at most 29 characters, split into zeroed
      slots: three boundaries, and each argv string is its word. */
  lemma SplitFourWords(w0: seq<char>, w1: seq<char>, w2: seq<char>, w3: seq<char>)
    requires SPACE !in w0 && SPACE !in w1 && SPACE !in w2 && SPACE !in w3
    requires |w1| > 0 && |w2| > 0 && |w3| > 0
    requires CString(w0) && CString(w1) && CString(w2) && CString(w3)
    requires |w0| <= LastCol && |w1| <= LastCol && |w2| <= LastCol && |w3| <= LastCol
    ensures var r := Split(ZeroSlots(), w0 + [SPACE] + w1 + [SPACE] + w2 + [SPACE] + w3);
      && r.count == 3
      && ArgvString(r.slots[0]) == w0 && ArgvString(r.slots[1]) == w1
      && ArgvString(r.slots[2]) == w2 && ArgvString(r.slots[3]) == w3
  {
    var line := w0 + [SPACE] + w1 + [SPACE] + w2 + [SPACE] + w3;
    FourWords(w0, w1, w2, w3);
    var t := Tokens(line);
    SplitTokens(ZeroSlots(), line);
    SplitZeroArgv(line, 0);
    assert t[0][..Min(|t[0]|, LastCol)] == t[0];
    SplitZeroArgv(line, 1);
    assert t[1][..Min(|t[1]|, LastCol)] == t[1];
    SplitZeroArgv(line, 2);
    assert t[2][..Min(|t[2]|, LastCol)] == t[2];
    SplitZeroArgv(line, 3);
    assert t[3][..Min(|t[3]|, LastCol)] == t[3];
  }

  /** The documented example: "cp -r src dest" gives argv "cp", "-r", "src",
      "dest" and three boundaries. */
  lemma SplitCpExample()
    ensures var r := Split(ZeroSlots(), "cp -r src dest");
      && r.count == 3
      && ArgvString(r.slots[0]) == "cp" && ArgvString(r.slots[1]) == "-r"
      && ArgvString(r.slots[2]) == "src" && ArgvString(r.slots[3]) == "dest"
  {
    assert "cp -r src dest" == "cp" + [SPACE] + "-r" + [SPACE] + "src" + [SPACE] + "dest";
    SplitFourWords("cp", "-r", "src", "dest");
  }

  /** A space right after a boundary is an ordinary character: "a  b" has one
      boundary and its second token is " b". */
  lemma SplitDoubleSpaceExample()
    ensures Tokens("a  b") == ["a", " b"]
    ensures Split(ZeroSlots(), "a  b").count == 1
  {
    PiecesLastWord(" b"[1..]);
    assert " b" == [SPACE] + "b";
    PiecesCons(SPACE, "b", true);
    assert Pieces(" b", true) == [" b"];
    assert "a  b" == "a" + [SPACE] + " b";
    PiecesWord("a", " b");
    SplitTokens(ZeroSlots(), "a  b");
  }

  lemma InfoTokens()
    ensures Tokens("info abcdef") == ["info", "abcdef"]
    ensures Tokens("info xy") == ["info", "xy"]
  {
    assert "info abcdef" == "info" + [SPACE] + "abcdef";
    TwoWords("info", "abcdef");
    assert "info xy" == "info" + [SPACE] + "xy";
    TwoWords("info", "xy");
  }

  /** Slots are not cleared between lines: after "info abcdef" a shorter
      argument such as "xy" is read back by a handler with the old tail. */
  lemma StaleArgvExample()
    ensures var first := Split(ZeroSlots(), "info abcdef");
      ArgvString(Split(first.slots, "info xy").slots[1]) == "xycdef"
  {
    InfoTokens();
    var zero := seq(MaxStringSize, _ => NUL);
    assert ZeroSlots()[1] == zero;
    var first := Split(ZeroSlots(), "info abcdef");
    SecondSlot(ZeroSlots(), "info abcdef", "info", "abcdef");
    SecondSlot(first.slots, "info xy", "info", "xy");
    StaleRow(zero);
  }

  /** A line of two tokens overwrites the head of the second slot only. */
  lemma SecondSlot(slots: seq<seq<char>>, line: seq<char>, w0: seq<char>, w1: seq<char>)
    requires WellShaped(slots) && Tokens(line) == [w0, w1]
    ensures WellShaped(Split(slots, line).slots)
    ensures Split(slots, line).slots[1] == Fill(slots[1], w1)
  {
    SplitTokens(slots, line);
  }

  lemma StaleRow(zero: seq<char>)
    requires zero == seq(MaxStringSize, _ => NUL)
    ensures ArgvString(Fill(Fill(zero, "abcdef"), "xy")) == "xycdef"
  {
    var once := Fill(zero, "abcdef");
    FillTruncates(zero, "abcdef");
    var row := Fill(once, "xy");
    FillTruncates(once, "xy");
    assert row[..6] == "xycdef" by {
      assert once[2..6] == once[..6][2..6] == "cdef";
      assert row[2..6] == row[2..][..4] == once[2..][..4] == once[2..6];
      assert row[..6] == row[..2] + row[2..6];
    }
    assert row[6] == NUL by {
      assert row[6] == row[2..][4] == once[2..][4] == once[6..][0] == zero[6];
    }
    assert row == row[..6] + row[6..];
    ArgvStringOf("xycdef", row[6..]);
  }

  /** Splitting in place: `dest` is the 7x30 slot array, `cmdString` the
      contents of the C string being split. Returns the boundary count. */
  ghost function Rows(dest: array2<char>): (slots: seq<seq<char>>)
    reads dest
    ensures |slots| == dest.Length0
    ensures forall i :: 0 <= i < dest.Length0 ==> |slots[i]| == dest.Length1
  {
    seq(dest.Length0, i requires 0 <= i < dest.Length0 reads dest =>
      seq(dest.Length1, j requires 0 <= j < dest.Length1 reads dest => dest[i, j]))
  }

  /** The rows of the array after one cell was written. */
  lemma RowsAfterWrite(dest: array2<char>, before: seq<seq<char>>, row: nat, col: nat, c: char)
    requires row < dest.Length0 && col < dest.Length1 && dest[row, col] == c
    requires |before| == dest.Length0 && forall i :: 0 <= i < |before| ==> |before[i]| == dest.Length1
    requires forall i, j :: 0 <= i < dest.Length0 && 0 <= j < dest.Length1 && (i != row || j != col) ==> dest[i, j] == before[i][j]
    ensures Rows(dest) == before[row := before[row][col := c]]
  {
    var now := Rows(dest);
    var want := before[row := before[row][col := c]];
    forall i | 0 <= i < dest.Length0 ensures now[i] == want[i] {
      assert forall j :: 0 <= j < dest.Length1 ==> now[i][j] == want[i][j];
    }
  }

  method StringSplit(dest: array2<char>, cmdString: seq<char>) returns (segment: nat)
    requires dest.Length0 == MaxVarsSize && dest.Length1 == MaxStringSize
    requires CString(cmdString)
    modifies dest
    ensures Split(old(Rows(dest)), cmdString) == SplitResult(Rows(dest), segment)
  {
    segment := 0;
    var index: nat := 0;
    var wasSpace := false;
    var pos := 0;
    while pos < |cmdString|
      invariant 0 <= pos <= |cmdString| && segment < MaxVarsSize && index <= LastCol
      invariant SplitFrom(Rows(dest), cmdString[pos..], segment, index, wasSpace) == Split(old(Rows(dest)), cmdString)
    {
      ghost var before := Rows(dest);
      assert cmdString[pos..][1..] == cmdString[pos + 1..];
      if cmdString[pos] == SPACE && !wasSpace {
        wasSpace := true;
        index := 0;
        segment := segment + 1;
        if segment >= MaxVarsSize {
          break;
        }
      } else {
        if index == LastCol {
          dest[segment, index] := NUL;
          RowsAfterWrite(dest, before, segment, index, NUL);
        } else {
          dest[segment, index] := cmdString[pos];
          RowsAfterWrite(dest, before, segment, index, cmdString[pos]);
          index := index + 1;
        }
        wasSpace := false;
      }
      pos := pos + 1;
    }
  }
}
