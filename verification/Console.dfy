/** The terminal on the screen: the cells that the editor works on are the cursor's line of the store. */
module TerminalScreen {
  import opened Arith
  import opened CommandHistory
  import opened LineEditing
  import opened OutputLog
  import opened ScreenBuffer
  import opened TerminalInput

  /** The log with another last line and cursor. */
  function WithLast(log: Log, line: seq<Cell>, col: nat): Log
    requires log.lines != []
  {
    Log(log.lines[..|log.lines| - 1] + [line], col)
  }

  lemma ItemsSnoc(text: string, color: nat, interactable: bool)
    requires text != [] && Plain(text)
    ensures Items(text, color, interactable)
         == Items(text[..|text| - 1], color, interactable) + [Some(Cell(text[|text| - 1], color, interactable))]
  {
    hide Plain;
    PlainEnd(text);
  }

  lemma PlainEnd(text: string)
    requires text != [] && Plain(text)
    ensures Plain(text[..|text| - 1]) && text[|text| - 1] != '\n' && text[|text| - 1] != '\r'
  {
  }

  lemma CellsSnoc(text: string, color: nat, interactable: bool)
    requires text != []
    ensures CellsFor(text, color, interactable)
         == CellsFor(text[..|text| - 1], color, interactable) + [Cell(text[|text| - 1], color, interactable)]
  {
  }

  lemma PutItemsSnoc(log: Log, items: seq<Item>, item: Item, width: nat)
    requires WellFormed(log, width)
    ensures PutItems(log, items + [item], width) == PutItem(PutItems(log, items, width), item, width)
  {
    assert (items + [item])[..|items|] == items;
  }

  lemma OneMoreCell(log: Log, s: seq<Cell>, cell: Cell, width: nat)
    requires log.lines != [] && |Last(log)| + |s| + 1 < width
    ensures PutCell(WithLast(log, Last(log) + s, |Last(log)| + |s|), cell, width)
         == WithLast(log, Last(log) + (s + [cell]), |Last(log)| + |s| + 1)
  {
    var now := WithLast(log, Last(log) + s, |Last(log)| + |s|);
    assert now.lines[..|now.lines| - 1] == log.lines[..|log.lines| - 1];
    assert Placed(Last(log) + s, |Last(log)| + |s|, cell) == Last(log) + (s + [cell]);
  }

  /** Text without line breaks that stays on the line is appended to it. */
  lemma {:induction false} PlainOnLine(log: Log, text: string, color: nat, interactable: bool, width: nat)
    requires WellFormed(log, width) && log.col == |Last(log)| && log.col + |text| < width && Plain(text)
    ensures PutItems(log, Items(text, color, interactable), width)
         == WithLast(log, Last(log) + CellsFor(text, color, interactable), log.col + |text|)
    decreases |text|
  {
    if text == [] {
      NothingPrinted(log, text, color, interactable, width);
    } else {
      var n := |text| - 1;
      PlainEnd(text);
      ItemsSnoc(text, color, interactable);
      CellsSnoc(text, color, interactable);
      hide Items, CellsFor, PutItems, Plain, WithLast, PutCell;
      PlainOnLine(log, text[..n], color, interactable, width);
      var cell := Cell(text[n], color, interactable);
      PutItemsSnoc(log, Items(text[..n], color, interactable), Some(cell), width);
      OneMoreCell(log, CellsFor(text[..n], color, interactable), cell, width);
    }
  }

  lemma NothingPrinted(log: Log, text: string, color: nat, interactable: bool, width: nat)
    requires WellFormed(log, width) && text == [] && log.col == |Last(log)|
    ensures PutItems(log, Items(text, color, interactable), width)
         == WithLast(log, Last(log) + CellsFor(text, color, interactable), log.col)
  {
    assert Last(log) + CellsFor(text, color, interactable) == Last(log);
    assert log.lines[..|log.lines| - 1] + [Last(log)] == log.lines;
  }

  /** What a command prints: texts with their colours. */
  function OutputItems(output: seq<(string, nat)>): seq<Item> {
    if output == [] then []
    else OutputItems(output[..|output| - 1]) + Items(output[|output| - 1].0, output[|output| - 1].1, false)
  }

  /** What is printed later stands behind what is printed before, and each text is printed as such. */
  lemma {:induction false} OutputConcat(a: seq<(string, nat)>, b: seq<(string, nat)>)
    ensures OutputItems(a + b) == OutputItems(a) + OutputItems(b)
    ensures |b| == 1 ==> OutputItems(b) == Items(b[0].0, b[0].1, false)
    decreases |b|
  {
    hide Items;
    if b == [] {
      assert a + b == a;
    } else {
      var n := |b| - 1;
      assert (a + b)[..|a + b| - 1] == a + b[..n];
      OutputConcat(a, b[..n]);
    }
  }

  /** The column at which the output ends that starts on a new line. */
  function OutputEnd(output: seq<(string, nat)>, width: nat): nat
    requires width > 0
  {
    PutItems(START, OutputItems(output), width).col
  }

  /** The last line of the log shows the input behind its prompt, and the log's cursor is that of the editor. */
  ghost predicate ShowsInput(log: Log, start: nat, z: Zipper) {
    && log.lines != [] && start <= |Last(log)| && Shows(Last(log)[start..], Text(z))
    && log.col == start + |z.left|
  }

  /** Only the part of the last line behind `start` differs. */
  ghost predicate SameBefore(log: Log, log': Log, start: nat) {
    && log.lines != [] && |log'.lines| == |log.lines| && start <= |Last(log)| && start <= |Last(log')|
    && log'.lines[..|log.lines| - 1] == log.lines[..|log.lines| - 1]
    && Last(log')[..start] == Last(log)[..start]
  }

  /** The log after an input line, what its command printed and the next prompt. */
  function Answered(log: Log, output: seq<(string, nat)>, path: string, width: nat): Log
    requires width > 0
  {
    var r := PutItems(START, OutputItems(output) + Items(path + PROMPT_END, 0, false), width);
    Log(log.lines + r.lines, r.col)
  }

  /** The lines above stay, and the output starts on a new one. */
  lemma OutputBelow(log: Log, output: seq<(string, nat)>, width: nat)
    requires width > 0
    ensures WellFormed(NewLine(log), width)
    ensures var r := PutItems(START, OutputItems(output), width);
            && PutItems(NewLine(log), OutputItems(output), width) == Log(log.lines + r.lines, r.col)
            && Last(Log(log.lines + r.lines, r.col)) == Last(r) && |Last(r)| == r.col
  {
    LinesAbove(log.lines, START, OutputItems(output), width);
    LogIsWrappedText(OutputItems(output), width);
    hide Items, OutputItems, PutItem;
  }

  /** The prompt behind the output. */
  lemma PromptBehind(log: Log, output: seq<(string, nat)>, path: string, width: nat)
    requires width > 0 && Plain(path) && PromptEnd(path, OutputEnd(output, width)) < width
    ensures WellFormed(NewLine(log), width)
    ensures var before := PutItems(NewLine(log), OutputItems(output), width);
            && |Last(before)| == before.col == OutputEnd(output, width)
            && WithLast(before, Last(before) + CellsFor(path + PROMPT_END, 0, false), PromptEnd(path, before.col))
               == Answered(log, output, path, width)
  {
    OutputBelow(log, output, width);
    hide PutItems, OutputItems, Items, CellsFor, WithLast;
    var r := PutItems(START, OutputItems(output), width);
    var text := path + PROMPT_END;
    PutItemsConcat(START, OutputItems(output), Items(text, 0, false), width);
    PromptIsPlain(path);
    PlainOnLine(r, text, 0, false, width);
    LastBelow(log.lines, r, Last(r) + CellsFor(text, 0, false), PromptEnd(path, r.col));
  }

  lemma PromptIsPlain(path: string)
    requires Plain(path)
    ensures Plain(path + PROMPT_END) && |path + PROMPT_END| == |path| + |PROMPT_END|
  {
  }

  lemma LastBelow(above: seq<seq<Cell>>, r: Log, line: seq<Cell>, col: nat)
    requires r.lines != []
    ensures WithLast(Log(above + r.lines, r.col), line, col) == Log(above + WithLast(r, line, col).lines, col)
  {
    var full := above + r.lines;
    assert full[..|full| - 1] == above + r.lines[..|r.lines| - 1];
  }

  /** The edited line, in place of the one before. */
  lemma EditedLine(log: Log, before: seq<Cell>, after: seq<Cell>, start: nat, end: nat, end': nat, col: nat)
    requires log.lines != [] && start <= end <= |before| && start <= end' <= |after|
    requires Last(log) == before[..end] && after[..start] == before[..start]
    ensures SameBefore(log, WithLast(log, after[..end'], col), start)
  {
    assert before[..end][..start] == before[..start] && after[..end'][..start] == after[..start];
  }

  lemma EnterAlike(e: Editor, path: string, column: nat)
    requires Browsing(e)
    ensures Press(e, Enter(path, column)) == Press(e, Enter([], 0))
  {
  }

  class Console {
    const screen: Screen
    const terminal: Terminal

    /** `terminal_init` behind the header: the first prompt on an empty line. */
    constructor (screen: Screen, history: History, path: string)
      requires screen.Valid() && history.Valid() && screen.cursorX == 0
      requires Plain(path) && PromptEnd(path, 0) < screen.width
      modifies screen`cursorX, screen`log, screen.lines
      ensures this.screen == screen && Valid()
      ensures screen.log == PutItems(old(screen.log), Items(path + PROMPT_END, 0, false), screen.width)
    {
      var cells := new Cell[screen.width](_ => BLANK);
      this.screen := screen;
      terminal := new Terminal(cells, history, path);
      new;
      ghost var log := screen.log;
      PromptIsPlain(path);
      PlainOnLine(log, path + PROMPT_END, 0, false, screen.width);
      PromptedLine([], path);
      StoreLine();
    }

    /** The cells of the editor's line behind a new prompt. */
    lemma PromptedLine(line: seq<Cell>, path: string)
      requires terminal.Placed() && terminal.lineInputLength == 0 && terminal.Prompted(|line|, path)
      requires terminal.cells[..|line|] == line
      ensures terminal.amountOfCells == terminal.cursorX == PromptEnd(path, |line|)
      ensures terminal.cells[..terminal.amountOfCells] == line + CellsFor(path + PROMPT_END, 0, false)
    {
      var text := path + PROMPT_END;
      forall k | 0 <= k < terminal.amountOfCells
        ensures terminal.cells[k] == (line + CellsFor(text, 0, false))[k]
      {
        if k < |line| {
          assert terminal.cells[..|line|][k] == line[k];
        }
      }
    }

    /** The editor's cells are the cursor's line of the store. */
    ghost predicate OnScreen()
      reads screen, screen.lines, terminal, terminal.cells
    {
      && screen.Printed() && terminal.cells.Length == screen.width && terminal.cursorX == screen.cursorX
      && screen.lines[screen.cursorY] == Line(terminal.cells[..], terminal.amountOfCells)
    }

    ghost predicate Valid()
      reads screen, screen.lines, terminal, terminal.cells, terminal.lineInputBuffer, terminal.history,
            terminal.history.commandHistory
    {
      OnScreen() && terminal.Valid()
    }

    /** The cursor's line of the store after the editor worked on it. */
    method StoreLine()
      requires screen.Printed() && terminal.cells.Length == screen.width && terminal.amountOfCells <= screen.width
      modifies screen`cursorX, screen`log, screen.lines
      ensures OnScreen()
      ensures screen.log == WithLast(old(screen.log), terminal.cells[..terminal.amountOfCells], terminal.cursorX)
    {
      var line := Line(terminal.cells[..], terminal.amountOfCells);
      WindowPut(screen.lines[..], line, screen.cursorY, screen.log, terminal.cursorX, screen.width);
      hide Window;
      ghost var lines := screen.lines[..];
      screen.lines[screen.cursorY] := line;
      screen.cursorX := terminal.cursorX;
      screen.log := WithLast(screen.log, terminal.cells[..terminal.amountOfCells], terminal.cursorX);
      assert screen.lines[..] == lines[screen.cursorY := line];
    }

    /** The cursor went to another line of the store: the editor works on that one. */
    method LoadLine()
      requires screen.Valid() && terminal.cells.Length == screen.width
      modifies terminal`cursorX, terminal`amountOfCells, terminal.cells
      ensures terminal.cursorX == screen.cursorX && terminal.amountOfCells == |Last(screen.log)| <= screen.width
      ensures terminal.cells[..terminal.amountOfCells] == Last(screen.log)
    {
      CursorLine(screen.lines[..], screen.cursorY, screen.log, screen.width);
      hide Window;
      var line := screen.lines[screen.cursorY];
      assert line == screen.lines[..][screen.cursorY];
      for i := 0 to screen.width
        invariant terminal.cells[..i] == line.cells[..i]
      {
        terminal.cells[i] := line.cells[i];
      }
      terminal.cursorX, terminal.amountOfCells := screen.cursorX, line.amount;
    }

    /** Of a valid console the last line of the log shows the input. */
    lemma InputShown()
      requires Valid()
      ensures ShowsInput(screen.log, terminal.lineInputStartX, terminal.State().z)
      ensures Last(screen.log) == terminal.cells[..terminal.amountOfCells]
    {
      CursorLine(screen.lines[..], screen.cursorY, screen.log, screen.width);
      hide Window;
      AtText(terminal.lineInputBuffer[..terminal.lineInputLength], terminal.lineInputCursorPos);
      ArrayPart(terminal.cells, terminal.lineInputStartX, terminal.amountOfCells);
    }

    /**
     * Any key but Enter: the last line of the log shows the edited input behind the same prompt, with the cursor in
     * the same place; everything above and before it stays.
     */
    method OnKey(key: Key)
      requires Valid() && !key.Enter? && terminal.KeyFits(terminal.State(), key, terminal.lineInputStartX)
      modifies screen`cursorX, screen`log, screen.lines, terminal, terminal.lineInputBuffer, terminal.cells,
               terminal.history, terminal.history.commandHistory
      ensures Valid() && terminal.State() == Press(old(terminal.State()), key)
      ensures ShowsInput(screen.log, terminal.lineInputStartX, terminal.State().z)
      ensures SameBefore(old(screen.log), screen.log, terminal.lineInputStartX)
    {
      InputShown();
      ghost var start, log, cells := terminal.lineInputStartX, screen.log, terminal.cells[..];
      ghost var end := terminal.amountOfCells;
      StartOne(start, key);
      EditorBounds();
      hide Press, StartAfter, Window, Shows, SameBefore, WithLast;
      terminal.OnKey(key);
      EditorBounds();
      PartsOf(terminal.cells, cells, start);
      EditedLine(log, cells, terminal.cells[..], start, end, terminal.amountOfCells, terminal.cursorX);
      StoreLine();
      InputShown();
    }

    lemma PartsOf(a: array<Cell>, before: seq<Cell>, start: nat)
      requires start <= |before| == a.Length && a[..start] == before[..start]
      ensures a[..][..start] == before[..start]
    {
    }

    lemma EditorBounds()
      requires terminal.Valid()
      ensures terminal.lineInputStartX <= terminal.amountOfCells <= terminal.cells.Length
    {
    }

    /** The line break and the output of a command. */
    method PrintOutput(output: seq<(string, nat)>)
      requires screen.Printed()
      modifies screen, screen.lines
      ensures screen.Valid()
      ensures screen.log == PutItems(NewLine(old(screen.log)), OutputItems(output), screen.width)
    {
      ghost var log := screen.log;
      screen.NewLine();
      hide Window, BlankGap, Items;
      for i := 0 to |output|
        invariant screen.Valid() && WellFormed(NewLine(log), screen.width)
        invariant screen.log == PutItems(NewLine(log), OutputItems(output[..i]), screen.width)
      {
        assert output[..i + 1][..i] == output[..i];
        PutItemsConcat(NewLine(log), OutputItems(output[..i]), Items(output[i].0, output[i].1, false), screen.width);
        screen.PrintChars(output[i].0, output[i].1, false);
      }
      assert output[..|output|] == output;
    }

    /** The command is recorded and has printed; the editor's line is where the output ended. */
    method InputLineOver(output: seq<(string, nat)>)
      requires Valid() && '\0' !in Text(terminal.State().z)
      modifies screen, screen.lines, terminal, terminal.lineInputBuffer, terminal.cells,
               terminal.history, terminal.history.commandHistory
      ensures screen.Valid() && terminal.cells.Length == screen.width
      ensures screen.log == PutItems(NewLine(old(screen.log)), OutputItems(output), screen.width)
      ensures terminal.cursorX == screen.cursorX && terminal.amountOfCells == |Last(screen.log)| <= screen.width
      ensures terminal.cells[..terminal.amountOfCells] == Last(screen.log)
      ensures terminal.lineInputBuffer.Length == TERMINAL_BUFFER_SIZE && terminal.lineInputBuffer[0] == '\0'
      ensures terminal.lineInputLength == 0 && terminal.lineInputCursorPos == 0
      ensures terminal.history.Valid() && terminal.goThroughHistoryCount == 0
      ensures Editor(Zipper([], []), terminal.history.commandHistory[..terminal.history.cmdHistCount], 0)
              == Press(old(terminal.State()), Enter([], 0))
    {
      hide Shows, PutItems, OutputItems, Window, Press;
      terminal.ProcessLineInputBuffer();
      PrintOutput(output);
      LoadLine();
    }

    /** The prompt behind what stands on the cursor's line. */
    method NewPrompt(path: string)
      requires screen.Valid() && terminal.cells.Length == screen.width && Plain(path)
      requires terminal.cursorX == screen.cursorX && terminal.amountOfCells == |Last(screen.log)| == screen.log.col
      requires terminal.cells[..terminal.amountOfCells] == Last(screen.log)
      requires terminal.lineInputBuffer.Length == TERMINAL_BUFFER_SIZE && terminal.lineInputBuffer[0] == '\0'
      requires terminal.lineInputLength == 0 && terminal.lineInputCursorPos == 0
      requires PromptEnd(path, screen.log.col) < screen.width
      modifies screen`cursorX, screen`log, screen.lines, terminal.cells, terminal`lineInputStartX, terminal`cursorX,
               terminal`amountOfCells
      ensures OnScreen() && terminal.InStep() && terminal.Line() == Zipper([], [])
      ensures var log := old(screen.log);
              screen.log == WithLast(log, Last(log) + CellsFor(path + PROMPT_END, 0, false), PromptEnd(path, log.col))
    {
      hide Shows, CellsFor, Window, WithLast;
      ghost var line := Last(screen.log);
      terminal.NewTerminalInputLine(path);
      PromptedLine(line, path);
      StoreLine();
    }

    /**
     * Enter: the line with the input stays in the log; below it come the output of the command, which starts on a new
     * line, and the prompt, both wrapped, and an empty input behind them.
     */
    method OnEnter(path: string, output: seq<(string, nat)>)
      requires Valid() && Plain(path) && '\0' !in Text(terminal.State().z)
      requires PromptEnd(path, OutputEnd(output, screen.width)) < screen.width
      modifies screen, screen.lines, terminal, terminal.lineInputBuffer, terminal.cells,
               terminal.history, terminal.history.commandHistory
      ensures Valid()
      ensures terminal.State() == Press(old(terminal.State()), Enter(path, OutputEnd(output, screen.width)))
      ensures screen.log == Answered(old(screen.log), output, path, screen.width)
      ensures ShowsInput(screen.log, terminal.lineInputStartX, Zipper([], []))
    {
      ghost var before := screen.log;
      PromptBehind(before, output, path, screen.width);
      EnterAlike(terminal.State(), path, OutputEnd(output, screen.width));
      hide Shows, PutItems, OutputItems, Items, WithLast, Answered, CellsFor, Window, Press, OnScreen, ShowsInput;
      InputLineOver(output);
      hide Terminal.Placed, Terminal.Line, OutputEnd, PromptEnd;
      NewPrompt(path);
      InputShown();
    }
  }
}
