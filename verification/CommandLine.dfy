/** Assembly of AT commands from single bytes (cmd_rx_handler): editing, quotes, termination
    and a buffer that grows and shrinks, against an editor that only knows the line. */
module CommandLine {
  import opened Bytes

  const AT_BUF_MIN_SIZE := 128
  const AT_BUF_MAX_SIZE := 8192
  const MAX_LINE := AT_BUF_MAX_SIZE - 2

  const CR: byte := 13
  const LF: byte := 10
  const BACKSPACE: byte := 8
  const DELETE: byte := 127
  const QUOTE: byte := 34

  /** CONFIG_SM_CR_TERMINATION, CONFIG_SM_LF_TERMINATION, CONFIG_SM_CR_LF_TERMINATION */
  datatype Termination = Cr | Lf | CrLf

  function ToUpper(c: byte): byte
  {
    if 97 <= c <= 122 then c - 32 else c
  }

  // ---------------------------------------------------------------------------
  // The line editor
  // ---------------------------------------------------------------------------

  /** The line has an odd number of quotes. */
  predicate InQuotes(line: seq<byte>)
  {
    line != [] && (InQuotes(line[..|line| - 1]) != (line[|line| - 1] == QUOTE))
  }

  /** Nothing is buffered until "AT" has been received. */
  predicate NotYetAt(line: seq<byte>, c: byte)
  {
    (|line| == 0 && ToUpper(c) != 65) || (|line| == 1 && ToUpper(c) != 84)
  }

  /** c ends the command that is on the line. */
  predicate Terminates(t: Termination, line: seq<byte>, c: byte)
  {
    !InQuotes(line) &&
    match t
    case Cr => c == CR
    case Lf => c == LF
    case CrLf => c == LF && line != [] && line[|line| - 1] == CR
  }

  function Command(t: Termination, line: seq<byte>): seq<byte>
  {
    if t == CrLf && line != [] then line[..|line| - 1] else line
  }

  datatype Editor = Editor(line: seq<byte>, sent: seq<seq<byte>>, errors: nat)

  /** One byte. `full` means that the line can take no more. */
  function Edit(t: Termination, e: Editor, c: byte, full: bool): Editor
  {
    if NotYetAt(e.line, c) then e.(line := [])
    else if full then e.(line := [], errors := e.errors + 1)
    else if c == BACKSPACE || c == DELETE then e.(line := e.line[..if |e.line| > 0 then |e.line| - 1 else 0])
    else if Terminates(t, e.line, c) then e.(line := [], sent := e.sent + [Command(t, e.line)])
    else e.(line := e.line + [c])
  }

  /** A whole input. */
  function EditAll(t: Termination, input: seq<byte>): Editor
  {
    if input == [] then Editor([], [], 0)
    else
      var e := EditAll(t, input[..|input| - 1]);
      Edit(t, e, input[|input| - 1], |e.line| >= MAX_LINE)
  }

  /** A whole input, when memory may be short: full[i] means that the line could take no more at byte i. */
  function EditWith(t: Termination, input: seq<byte>, full: seq<bool>): Editor
    requires |full| == |input|
  {
    if input == [] then Editor([], [], 0)
    else
      var n := |input| - 1;
      Edit(t, EditWith(t, input[..n], full[..n]), input[n], full[n])
  }

  /** A line of the greatest length is full. */
  predicate Necessary(t: Termination, input: seq<byte>, full: seq<bool>)
    requires |full| == |input|
  {
    input == [] ||
    var n := |input| - 1;
    Necessary(t, input[..n], full[..n]) && (|EditWith(t, input[..n], full[..n]).line| >= MAX_LINE ==> full[n])
  }

  /** No other line is. */
  predicate Sufficient(t: Termination, input: seq<byte>, full: seq<bool>)
    requires |full| == |input|
  {
    input == [] ||
    var n := |input| - 1;
    Sufficient(t, input[..n], full[..n]) && (full[n] ==> |EditWith(t, input[..n], full[..n]).line| >= MAX_LINE)
  }

  lemma {:induction false} EnoughMemory(t: Termination, input: seq<byte>, full: seq<bool>)
    requires |full| == |input| && Necessary(t, input, full) && Sufficient(t, input, full)
    ensures EditWith(t, input, full) == EditAll(t, input)
  {
    if input == [] {
    } else {
      var n := |input| - 1;
      EnoughMemory(t, input[..n], full[..n]);
    }
  }

  // --- What the editor promises -------------------------------------------------------

  /** A line under construction: it starts with "AT", and no byte of it would have ended it. */
  predicate GoodLine(t: Termination, line: seq<byte>)
  {
    && |line| <= MAX_LINE
    && (|line| >= 1 ==> ToUpper(line[0]) == 65)
    && (|line| >= 2 ==> ToUpper(line[1]) == 84)
    && forall i :: 0 <= i < |line| ==> !Terminates(t, line[..i], line[i])
  }

  /** A command handed on: "AT", balanced quotes, no terminator outside quotes. */
  predicate GoodCommand(t: Termination, cmd: seq<byte>)
  {
    |cmd| >= 2 && GoodLine(t, cmd) && !InQuotes(cmd)
  }

  lemma GoodPrefix(t: Termination, line: seq<byte>, n: nat)
    requires GoodLine(t, line) && n <= |line|
    ensures GoodLine(t, line[..n])
  {
    forall i | 0 <= i < n ensures !Terminates(t, line[..n][..i], line[..n][i]) {
      assert line[..n][..i] == line[..i];
    }
  }

  lemma GoodAppend(t: Termination, line: seq<byte>, c: byte)
    requires GoodLine(t, line) && |line| < MAX_LINE && !NotYetAt(line, c) && !Terminates(t, line, c)
    ensures GoodLine(t, line + [c])
  {
    forall i | 0 <= i < |line| + 1 ensures !Terminates(t, (line + [c])[..i], (line + [c])[i]) {
      if i < |line| {
        assert (line + [c])[..i] == line[..i];
      } else {
        assert (line + [c])[..i] == line;
      }
    }
  }

  lemma GoodEdit(t: Termination, e: Editor, c: byte, full: bool)
    requires GoodLine(t, e.line) && (|e.line| >= MAX_LINE ==> full)
    requires forall k :: 0 <= k < |e.sent| ==> GoodCommand(t, e.sent[k])
    ensures GoodLine(t, Edit(t, e, c, full).line)
    ensures forall k :: 0 <= k < |Edit(t, e, c, full).sent| ==> GoodCommand(t, Edit(t, e, c, full).sent[k])
  {
    if NotYetAt(e.line, c) || full {
    } else if c == BACKSPACE || c == DELETE {
      GoodPrefix(t, e.line, if |e.line| > 0 then |e.line| - 1 else 0);
    } else if Terminates(t, e.line, c) {
      GoodPrefix(t, e.line, |Command(t, e.line)|);
    } else {
      GoodAppend(t, e.line, c);
    }
  }

  /** Every command that any input produces is a good one, however short memory is. */
  lemma {:induction false} CommandsAreGood(t: Termination, input: seq<byte>, full: seq<bool>)
    requires |full| == |input| && Necessary(t, input, full)
    ensures GoodLine(t, EditWith(t, input, full).line)
    ensures forall k :: 0 <= k < |EditWith(t, input, full).sent| ==> GoodCommand(t, EditWith(t, input, full).sent[k])
  {
    if input == [] {
    } else {
      var n := |input| - 1;
      CommandsAreGood(t, input[..n], full[..n]);
      GoodEdit(t, EditWith(t, input[..n], full[..n]), input[n], full[n]);
    }
  }

  /** The byte c goes on the line and leaves room, or is ignored by an empty line. */
  predicate Undoable(t: Termination, line: seq<byte>, c: byte)
  {
    if NotYetAt(line, c) then line == []
    else |line| < MAX_LINE - 1 && c != BACKSPACE && c != DELETE && !Terminates(t, line, c)
  }

  /** A backspace undoes the byte before it exactly if that byte could be undone: it was no edit or
      terminator itself, did not fill the line, and did not throw away an "A" that no "T" followed. */
  lemma BackspaceUndoes(t: Termination, input: seq<byte>, c: byte)
    ensures EditAll(t, input + [c, BACKSPACE]) == EditAll(t, input) <==> Undoable(t, EditAll(t, input).line, c)
  {
    var e := EditAll(t, input);
    EditUndoes(t, e, c);
    EditAllOneMore(t, input, c);
    EditAllOneMore(t, input + [c], BACKSPACE);
    assert input + [c, BACKSPACE] == input + [c] + [BACKSPACE];
  }

  // --- Commands as they are typed ------------------------------------------------------

  function Ending(t: Termination): seq<byte>
  {
    match t
    case Cr => [CR]
    case Lf => [LF]
    case CrLf => [CR, LF]
  }

  /** A command without edits that leaves room for its ending. */
  predicate Typable(t: Termination, cmd: seq<byte>)
  {
    GoodCommand(t, cmd) && |cmd| < MAX_LINE - 1 && BACKSPACE !in cmd && DELETE !in cmd
  }

  predicate LineFull(e: Editor)
  {
    |e.line| >= MAX_LINE
  }

  /** A byte of the command goes on the line as it is. */
  lemma TypeStep(t: Termination, e: Editor, cmd: seq<byte>, k: nat)
    requires Typable(t, cmd) && k < |cmd| && e.line == cmd[..k]
    ensures Edit(t, e, cmd[k], LineFull(e)) == e.(line := cmd[..k + 1])
  {
    assert cmd[k] in cmd && !Terminates(t, cmd[..k], cmd[k]);
    assert cmd[..k + 1] == cmd[..k] + [cmd[k]];
    assert k > 0 ==> cmd[..k][0] == cmd[0];
  }

  /** The ending hands it on. */
  lemma EndStep(t: Termination, e: Editor, cmd: seq<byte>)
    requires Typable(t, cmd) && e.line == cmd
    ensures t != CrLf ==> Edit(t, e, Ending(t)[0], LineFull(e)) == Editor([], e.sent + [cmd], e.errors)
    ensures t == CrLf ==>
      && Edit(t, e, CR, LineFull(e)) == e.(line := cmd + [CR])
      && Edit(t, e.(line := cmd + [CR]), LF, LineFull(e.(line := cmd + [CR]))) == Editor([], e.sent + [cmd], e.errors)
  {
    assert (cmd + [CR])[..|cmd|] == cmd;
  }

  lemma {:induction false} OneMore(t: Termination, input: seq<byte>, more: seq<byte>, c: byte, e: Editor, f: Editor)
    requires EditAll(t, input) == e && Edit(t, e, c, LineFull(e)) == f && more == input + [c]
    ensures EditAll(t, more) == f
  {
    EditAllOneMore(t, input, c);
  }

  /** The bytes of a command go on the line one after the other. */
  lemma {:induction false} LineAsTyped(t: Termination, input: seq<byte>, cmd: seq<byte>, n: nat, e: Editor)
    requires Typable(t, cmd) && n <= |cmd| && EditAll(t, input) == e && e.line == []
    ensures EditAll(t, input + cmd[..n]) == e.(line := cmd[..n])
  {
    if n == 0 {
      assert input + cmd[..0] == input;
    } else {
      LineAsTyped(t, input, cmd, n - 1, e);
      TypeStep(t, e.(line := cmd[..n - 1]), cmd, n - 1);
      assert input + cmd[..n] == input + cmd[..n - 1] + [cmd[n - 1]];
      OneMore(t, input + cmd[..n - 1], input + cmd[..n], cmd[n - 1], e.(line := cmd[..n - 1]), e.(line := cmd[..n]));
    }
  }

  /** A command that is typed with its ending is handed on as it was typed. */
  lemma {:induction false} CommandAsTyped(t: Termination, input: seq<byte>, cmd: seq<byte>, e: Editor)
    requires Typable(t, cmd) && EditAll(t, input) == e && e.line == []
    ensures EditAll(t, input + (cmd + Ending(t))) == Editor([], e.sent + [cmd], e.errors)
  {
    var typed := e.(line := cmd);
    LineAsTyped(t, input, cmd, |cmd|, e);
    assert cmd[..|cmd|] == cmd;
    EndAsTyped(t, input + cmd, cmd, typed);
    assert input + (cmd + Ending(t)) == input + cmd + Ending(t);
  }

  lemma {:induction false} EndAsTyped(t: Termination, input: seq<byte>, cmd: seq<byte>, e: Editor)
    requires Typable(t, cmd) && EditAll(t, input) == e && e.line == cmd
    ensures EditAll(t, input + Ending(t)) == Editor([], e.sent + [cmd], e.errors)
  {
    EndStep(t, e, cmd);
    var done := Editor([], e.sent + [cmd], e.errors);
    if t == CrLf {
      OneMore(t, input, input + [CR], CR, e, e.(line := cmd + [CR]));
      OneMore(t, input + [CR], input + [CR] + [LF], LF, e.(line := cmd + [CR]), done);
      assert input + [CR] + [LF] == input + [CR, LF];
    } else {
      OneMore(t, input, input + Ending(t), Ending(t)[0], e, done);
    }
  }

  function Typed(t: Termination, cmds: seq<seq<byte>>): seq<byte>
  {
    if cmds == [] then [] else Typed(t, cmds[..|cmds| - 1]) + (cmds[|cmds| - 1] + Ending(t))
  }

  predicate AllTypable(t: Termination, cmds: seq<seq<byte>>)
  {
    cmds == [] || (AllTypable(t, cmds[..|cmds| - 1]) && Typable(t, cmds[|cmds| - 1]))
  }

  /** Whatever commands are typed, these and no others are handed on, in this order. */
  lemma {:induction false} CommandsAsTyped(t: Termination, cmds: seq<seq<byte>>)
    requires AllTypable(t, cmds)
    ensures EditAll(t, Typed(t, cmds)) == Editor([], cmds, 0)
  {
    if cmds == [] {
    } else {
      CommandsAsTyped(t, cmds[..|cmds| - 1]);
      OneMoreTyped(t, Typed(t, cmds[..|cmds| - 1]), cmds);
    }
  }

  lemma {:induction false} OneMoreTyped(t: Termination, input: seq<byte>, cmds: seq<seq<byte>>)
    requires cmds != [] && Typable(t, cmds[|cmds| - 1]) && EditAll(t, input) == Editor([], cmds[..|cmds| - 1], 0)
    ensures EditAll(t, input + (cmds[|cmds| - 1] + Ending(t))) == Editor([], cmds, 0)
  {
    CommandAsTyped(t, input, cmds[|cmds| - 1], Editor([], cmds[..|cmds| - 1], 0));
  }

  /** A byte for a full line is answered with one error, and the line is forgotten. */
  lemma FullLineFails(t: Termination, input: seq<byte>, c: byte)
    requires |EditAll(t, input).line| >= MAX_LINE
    ensures var e := EditAll(t, input); EditAll(t, input + [c]) == Editor([], e.sent, e.errors + 1)
  {
    EditAllOneMore(t, input, c);
  }

  lemma EditAllOneMore(t: Termination, input: seq<byte>, c: byte)
    ensures EditAll(t, input + [c]) == Edit(t, EditAll(t, input), c, |EditAll(t, input).line| >= MAX_LINE)
  {
    assert (input + [c])[..|input|] == input;
  }

  lemma EditUndoes(t: Termination, e: Editor, c: byte)
    ensures var typed := Edit(t, e, c, |e.line| >= MAX_LINE);
      Edit(t, typed, BACKSPACE, |typed.line| >= MAX_LINE) == e <==> Undoable(t, e.line, c)
  {
    var typed := Edit(t, e, c, |e.line| >= MAX_LINE);
    var undone := Edit(t, typed, BACKSPACE, |typed.line| >= MAX_LINE);
    assert (e.line + [c])[..|e.line|] == e.line;
    assert |undone.sent| >= |typed.sent| >= |e.sent| && undone.errors >= typed.errors >= e.errors;
    if !NotYetAt(e.line, c) && |e.line| < MAX_LINE && (c == BACKSPACE || c == DELETE) {
      assert |undone.line| <= |typed.line| < |e.line|;
    }
  }

  // ---------------------------------------------------------------------------
  // cmd_rx_handler
  // ---------------------------------------------------------------------------

  class CommandBuffer {
    const termination: Termination
    var atBuf: array<byte>
    var atCmdLen: nat
    var insideQuotes: bool
    var prevCharacter: byte
    ghost var sent: seq<seq<byte>>      // commands passed to cmd_send
    ghost var errors: nat               // ERROR responses for a line that is too long

    ghost predicate SizeOk()
      reads this
    {
      atBuf.Length in {128, 256, 512, 1024, 2048, 4096, 8192}
    }

    /** The flags say what the line says, and two bytes are always left. */
    ghost predicate Consistent()
      reads this, atBuf
    {
      && SizeOk()
      && atCmdLen <= atBuf.Length - 2
      && insideQuotes == InQuotes(atBuf[..atCmdLen])
      && (atCmdLen > 0 ==> prevCharacter == atBuf[atCmdLen - 1])
    }

    ghost predicate Valid()
      reads this, atBuf
    {
      Consistent() && GoodLine(termination, atBuf[..atCmdLen])
    }

    ghost function View(): Editor
      requires atCmdLen <= atBuf.Length
      reads this, atBuf
    {
      Editor(atBuf[..atCmdLen], sent, errors)
    }

    constructor (termination: Termination)
      ensures Valid() && fresh(atBuf) && this.termination == termination && View() == Editor([], [], 0)
    {
      this.termination := termination;
      atBuf := new byte[AT_BUF_MIN_SIZE](_ => 0);
      atCmdLen, insideQuotes, prevCharacter, sent, errors := 0, false, 0, [], 0;
    }

    /** realloc of the command buffer, keeping the line. */
    method Realloc(size: nat)
      requires atCmdLen <= atBuf.Length && atCmdLen <= size
      modifies this`atBuf
      ensures fresh(atBuf) && atBuf.Length == size && atBuf[..atCmdLen] == old(atBuf[..atCmdLen])
    {
      var bigger := new byte[size](_ => 0);
      CopyIn(bigger, 0, atBuf[..atCmdLen]);
      assert bigger[..atCmdLen] == atBuf[..atCmdLen];
      atBuf := bigger;
    }

    /** cmd_finnish_or_fail: forget the line and give back the extra buffer, if realloc can. */
    method Finish(shrinks: bool)
      requires SizeOk()
      modifies this`atBuf, this`atCmdLen, this`insideQuotes
      ensures Consistent() && (fresh(atBuf) || atBuf == old(atBuf)) && atCmdLen == 0
      ensures if shrinks then atBuf.Length == AT_BUF_MIN_SIZE else atBuf == old(atBuf)
    {
      insideQuotes := false;
      atCmdLen := 0;
      if atBuf.Length > AT_BUF_MIN_SIZE && shrinks {
        Realloc(AT_BUF_MIN_SIZE);
      }
    }

    /** Backspace or delete on a line that is not empty. */
    method EraseLast()
      requires Consistent() && atCmdLen > 0
      modifies this`atCmdLen, this`insideQuotes, this`prevCharacter
      ensures Consistent() && atBuf[..atCmdLen] == old(atBuf[..atCmdLen - 1])
    {
      ghost var line := atBuf[..atCmdLen];
      assert line[..atCmdLen - 1] == atBuf[..atCmdLen - 1];
      atCmdLen := atCmdLen - 1;
      if prevCharacter == QUOTE {
        insideQuotes := !insideQuotes;
      }
      prevCharacter := if atCmdLen > 0 then atBuf[atCmdLen - 1] else 0;
    }

    method AppendChar(c: byte)
      requires Consistent() && atCmdLen < atBuf.Length - 2
      modifies this`atCmdLen, this`insideQuotes, this`prevCharacter, atBuf
      ensures Consistent() && atBuf[..atCmdLen] == old(atBuf[..atCmdLen]) + [c]
    {
      ghost var line := atBuf[..atCmdLen];
      atBuf[atCmdLen] := c;
      atCmdLen := atCmdLen + 1;
      assert atBuf[..atCmdLen] == line + [c];
      assert (line + [c])[..|line|] == line;
      if c == QUOTE {
        insideQuotes := !insideQuotes;
      }
      prevCharacter := c;
    }

    /** The switch on termination characters, outside quotes. In CR+LF mode the CR that is
        already on the line is trimmed. */
    method CheckTermination(c: byte) returns (send: bool)
      requires Consistent()
      modifies this`atCmdLen
      ensures send <==> old(Terminates(termination, atBuf[..atCmdLen], c))
      ensures atCmdLen <= old(atCmdLen)
      ensures atBuf[..atCmdLen] == if send then Command(termination, old(atBuf[..atCmdLen])) else old(atBuf[..atCmdLen])
    {
      send := false;
      if !insideQuotes {
        if c == CR && termination == Cr {
          send := true;
        } else if c == LF && termination == Lf {
          send := true;
        } else if c == LF && termination == CrLf && atCmdLen > 0 && prevCharacter == CR {
          assert atBuf[..atCmdLen][..atCmdLen - 1] == atBuf[..atCmdLen - 1];
          atCmdLen := atCmdLen - 1;
          send := true;
        }
      }
    }

    /** cmd_rx_handler. `grows` and `shrinks` say whether realloc succeeds. */
    method Receive(c: byte, grows: bool, shrinks: bool)
      requires Valid()
      modifies this, atBuf
      ensures Valid() && (fresh(atBuf) || atBuf == old(atBuf))
      ensures View() == Edit(termination, old(View()), c,
                              old(atCmdLen >= atBuf.Length - 2 && (2 * atBuf.Length > AT_BUF_MAX_SIZE || !grows)))
    {
      GoodEdit(termination, View().(sent := []), c,
               atCmdLen >= atBuf.Length - 2 && (2 * atBuf.Length > AT_BUF_MAX_SIZE || !grows));
      if (atCmdLen == 0 && ToUpper(c) != 65) || (atCmdLen == 1 && ToUpper(c) != 84) {
        insideQuotes := false;
        atCmdLen := 0;
        return;
      }
      if atCmdLen >= atBuf.Length - 2 {
        if 2 * atBuf.Length > AT_BUF_MAX_SIZE || !grows {
          errors := errors + 1;
          Finish(shrinks);
          return;
        }
        Realloc(2 * atBuf.Length);
      }
      EditLine(c, shrinks);
    }

    /** The rest of cmd_rx_handler, on a line with room for one more byte. */
    method EditLine(c: byte, shrinks: bool)
      requires Valid() && atCmdLen < atBuf.Length - 2 && !NotYetAt(atBuf[..atCmdLen], c)
      modifies this, atBuf
      ensures Consistent() && (fresh(atBuf) || atBuf == old(atBuf))
      ensures View() == Edit(termination, old(View()), c, false)
    {
      if c == BACKSPACE || c == DELETE {
        EraseLast();
        return;
      }
      var send := CheckTermination(c);
      if send {
        // The overflow branch before cmd_send cannot be taken, nor the one for an empty line.
        assert 0 < atCmdLen <= atBuf.Length - 1;
        sent := sent + [atBuf[..atCmdLen]];
        Finish(shrinks);
      } else {
        AppendChar(c);
      }
    }

    /** One byte after those in `before`. */
    method ReceiveNext(ghost before: seq<byte>, ghost full: seq<bool>, c: byte, grows: bool, shrinks: bool)
      returns (ghost now: bool)
      requires Valid() && |full| == |before| && View() == EditWith(termination, before, full)
      requires Necessary(termination, before, full)
      modifies this, atBuf
      ensures Valid() && (fresh(atBuf) || atBuf == old(atBuf))
      ensures View() == EditWith(termination, before + [c], full + [now]) &&
              Necessary(termination, before + [c], full + [now])
      ensures grows && Sufficient(termination, before, full) ==> Sufficient(termination, before + [c], full + [now])
    {
      now := atCmdLen >= atBuf.Length - 2 && (2 * atBuf.Length > AT_BUF_MAX_SIZE || !grows);
      assert (before + [c])[..|before|] == before && (full + [now])[..|before|] == full;
      Receive(c, grows, shrinks);
    }

    /** Any input: the buffer holds what the editor holds, and cmd_send gets the commands that the
        editor sends; memory.0 says whether realloc can grow the buffer at a byte, memory.1 whether
        it can shrink it. Unless growing fails the line is full at its greatest length only. */
    method ReceiveAll(input: seq<byte>, memory: nat -> (bool, bool)) returns (ghost full: seq<bool>)
      requires Valid() && View() == Editor([], [], 0)
      modifies this, atBuf
      ensures Valid() && |full| == |input| && Necessary(termination, input, full)
      ensures View() == EditWith(termination, input, full)
      ensures (forall i :: memory(i).0) ==> View() == EditAll(termination, input)
    {
      full := [];
      var i := 0;
      while i < |input|
        invariant 0 <= i <= |input| && Valid() && |full| == i
        invariant fresh(atBuf) || atBuf == old(atBuf)
        invariant Necessary(termination, input[..i], full) && View() == EditWith(termination, input[..i], full)
        invariant (forall k :: memory(k).0) ==> Sufficient(termination, input[..i], full)
      {
        assert input[..i + 1] == input[..i] + [input[i]];
        var now := ReceiveNext(input[..i], full, input[i], memory(i).0, memory(i).1);
        full := full + [now];
        i := i + 1;
      }
      assert input[..|input|] == input;
      if forall k :: memory(k).0 {
        EnoughMemory(termination, input, full);
      }
    }
  }
}

