/** The unbounded log of everything printed, wrapped to the width of the screen. */
module OutputLog {
  import opened Arith
  import opened Splitting

  datatype Cell = Cell(text: char, color: nat, interactable: bool)

  const BLANK := Cell('\0', 0, false)

  /** What one printed character does: `None` is a line break. */
  type Item = Option<Cell>

  /** The lines so far; `col` is the cursor column in the last one. */
  datatype Log = Log(lines: seq<seq<Cell>>, col: nat)

  ghost predicate WellFormed(log: Log, width: nat) {
    log.lines != [] && |log.lines[|log.lines| - 1]| <= log.col < width
  }

  function Last(log: Log): seq<Cell>
    requires log.lines != []
  {
    log.lines[|log.lines| - 1]
  }

  function NewLine(log: Log): Log {
    Log(log.lines + [[]], 0)
  }

  /** The last line with a cell put at the cursor; a line not reached yet is filled up with blanks. */
  function Placed(line: seq<Cell>, col: nat, cell: Cell): seq<Cell>
    requires |line| <= col
  {
    line + seq(col - |line|, _ => BLANK) + [cell]
  }

  function PutCell(log: Log, cell: Cell, width: nat): (r: Log)
    requires WellFormed(log, width)
    ensures WellFormed(r, width)
  {
    var n := |log.lines| - 1;
    var r := Log(log.lines[..n] + [Placed(log.lines[n], log.col, cell)], log.col + 1);
    if r.col >= width then NewLine(r) else r
  }

  function PutItem(log: Log, item: Item, width: nat): (r: Log)
    requires WellFormed(log, width)
    ensures WellFormed(r, width)
  {
    match item
    case None => NewLine(log)
    case Some(cell) => PutCell(log, cell, width)
  }

  function PutItems(log: Log, items: seq<Item>, width: nat): (r: Log)
    requires WellFormed(log, width)
    ensures WellFormed(r, width)
  {
    if items == [] then log else PutItem(PutItems(log, items[..|items| - 1], width), items[|items| - 1], width)
  }

  /** The characters of `print_chars`: carriage returns are skipped, line feeds break the line. */
  function Items(text: string, color: nat, interactable: bool): seq<Item> {
    if text == [] then []
    else
      var before, c := Items(text[..|text| - 1], color, interactable), text[|text| - 1];
      if c == '\r' then before else before + [if c == '\n' then None else Some(Cell(c, color, interactable))]
  }

  /** One cell for each character. */
  function CellsFor(text: string, color: nat, interactable: bool): (s: seq<Cell>)
    ensures |s| == |text| && forall i :: 0 <= i < |text| ==> s[i] == Cell(text[i], color, interactable)
  {
    seq(|text|, i requires 0 <= i < |text| => Cell(text[i], color, interactable))
  }

  /** The items that put these cells. */
  function ItemsFor(cells: seq<Cell>): (s: seq<Item>)
    ensures |s| == |cells| && forall i :: 0 <= i < |cells| ==> s[i] == Some(cells[i])
  {
    seq(|cells|, i requires 0 <= i < |cells| => Some(cells[i]))
  }

  lemma {:induction false} ItemsConcat(a: string, b: string, color: nat, interactable: bool)
    ensures Items(a + b, color, interactable) == Items(a, color, interactable) + Items(b, color, interactable)
    decreases |b|
  {
    if b == [] {
      assert a + b == a;
    } else {
      assert (a + b)[..|a + b| - 1] == a + b[..|b| - 1];
      ItemsConcat(a, b[..|b| - 1], color, interactable);
    }
  }

  /** A line feed breaks the line, a carriage return prints nothing, and any other character is one cell. */
  lemma ItemsOfText(a: string, b: string, color: nat, interactable: bool)
    ensures Items(a + "\n" + b, color, interactable)
            == Items(a, color, interactable) + [None] + Items(b, color, interactable)
    ensures Items(a + "\r" + b, color, interactable) == Items(a, color, interactable) + Items(b, color, interactable)
    ensures '\n' !in a && '\r' !in a ==> Items(a, color, interactable) == ItemsFor(CellsFor(a, color, interactable))
  {
    OneItem('\n', color, interactable);
    OneItem('\r', color, interactable);
    if '\n' !in a && '\r' !in a {
      PlainItems(a, color, interactable);
    }
    hide Items;
    ItemsConcat(a + "\n", b, color, interactable);
    ItemsConcat(a, "\n", color, interactable);
    ItemsConcat(a + "\r", b, color, interactable);
    ItemsConcat(a, "\r", color, interactable);
  }

  lemma OneItem(c: char, color: nat, interactable: bool)
    ensures Items([c], color, interactable)
            == if c == '\r' then [] else [if c == '\n' then None else Some(Cell(c, color, interactable))]
  {
    assert [c][..0] == [];
    assert Items([c][..0], color, interactable) == [];
  }

  lemma {:induction false} PlainItems(text: string, color: nat, interactable: bool)
    requires '\n' !in text && '\r' !in text
    ensures Items(text, color, interactable) == ItemsFor(CellsFor(text, color, interactable))
    decreases |text|
  {
    if text != [] {
      var n := |text| - 1;
      assert text == text[..n] + [text[n]] && text[n] in text;
      PlainItems(text[..n], color, interactable);
    }
  }

  /** Printing in two calls is printing once. */
  lemma {:induction false} PutItemsConcat(log: Log, a: seq<Item>, b: seq<Item>, width: nat)
    requires WellFormed(log, width)
    ensures PutItems(log, a + b, width) == PutItems(PutItems(log, a, width), b, width)
    decreases |b|
  {
    if b == [] {
      assert a + b == a;
    } else {
      assert (a + b)[..|a + b| - 1] == a + b[..|b| - 1];
      PutItemsConcat(log, a, b[..|b| - 1], width);
    }
  }

  // ----- the log is the text, split into paragraphs and wrapped -----

  /** A paragraph in pieces of the screen's width; the last piece is shorter, and may be empty. */
  function Wrap(p: seq<Cell>, width: nat): (w: seq<seq<Cell>>)
    requires width > 0
    ensures w != [] && |w[|w| - 1]| < width
    decreases |p|
  {
    if |p| < width then [p] else [p[..width]] + Wrap(p[width..], width)
  }

  function CellsOf(items: seq<Item>): seq<Cell>
    requires None !in items
  {
    if items == [] then [] else CellsOf(items[..|items| - 1]) + [items[|items| - 1].value]
  }

  function WrapAll(pars: seq<seq<Item>>, width: nat): seq<seq<Cell>>
    requires width > 0 && NoneContains(pars, None)
  {
    if pars == [] then [] else WrapAll(pars[..|pars| - 1], width) + Wrap(CellsOf(pars[|pars| - 1]), width)
  }

  /** One more cell in a paragraph goes to its last piece, and a piece that is full opens a new one. */
  lemma {:induction false} WrapSnoc(p: seq<Cell>, c: Cell, width: nat)
    requires width > 0
    ensures var w := Wrap(p, width);
            var l := |w| - 1;
            Wrap(p + [c], width) == w[..l] + (if |w[l]| + 1 < width then [w[l] + [c]] else [w[l] + [c], []])
    decreases |p|
  {
    hide Wrap;
    if |p| < width {
      WrapShort(p, width);
      if |p| + 1 == width {
        WrapLong(p + [c], width);
        assert (p + [c])[..width] == p + [c] && (p + [c])[width..] == [];
        WrapShort([], width);
      } else {
        WrapShort(p + [c], width);
      }
    } else {
      var rest := p[width..];
      assert (p + [c])[..width] == p[..width] && (p + [c])[width..] == rest + [c];
      WrapLong(p, width);
      WrapLong(p + [c], width);
      WrapSnoc(rest, c, width);
      var w := Wrap(rest, width);
      assert ([p[..width]] + w)[..|w|] == [p[..width]] + w[..|w| - 1];
    }
  }

  lemma WrapShort(p: seq<Cell>, width: nat)
    requires |p| < width
    ensures Wrap(p, width) == [p]
  {
  }

  lemma WrapLong(p: seq<Cell>, width: nat)
    requires 0 < width <= |p|
    ensures Wrap(p, width) == [p[..width]] + Wrap(p[width..], width)
  {
  }

  lemma WrapAllSnoc(pars: seq<seq<Item>>, p: seq<Item>, width: nat)
    requires width > 0 && NoneContains(pars, None) && None !in p
    ensures NoneContains(pars + [p], None)
            && WrapAll(pars + [p], width) == WrapAll(pars, width) + Wrap(CellsOf(p), width)
  {
    assert (pars + [p])[..|pars|] == pars;
  }

  const START := Log([[]], 0)

  /** A cell put at the end of the log extends the last paragraph. */
  lemma LastParagraph(log: Log, pars: seq<seq<Item>>, c: Cell, width: nat)
    requires width > 0 && pars != [] && NoneContains(pars, None)
    requires log.lines == WrapAll(pars, width) && log.lines != [] && log.col == |Last(log)| < width
    ensures NoneContains(Extend(pars, [Some(c)]), None)
    ensures PutCell(log, c, width).lines == WrapAll(Extend(pars, [Some(c)]), width)
    ensures var r := PutCell(log, c, width); r.col == |Last(r)|
  {
    hide Wrap, WrapAll, PutCell;
    var l := |pars| - 1;
    var front, p := pars[..l], pars[l];
    assert pars == front + [p];
    WrapAllSnoc(front, p, width);
    WrapAllSnoc(front, p + [Some(c)], width);
    assert (p + [Some(c)])[..|p|] == p;
    WrapSnoc(CellsOf(p), c, width);
    PutAtEnd(log, WrapAll(front, width), Wrap(CellsOf(p), width), c, width);
  }

  lemma PutAtEnd(log: Log, head: seq<seq<Cell>>, w: seq<seq<Cell>>, c: Cell, width: nat)
    requires w != [] && log.lines == head + w && log.col == |w[|w| - 1]| < width
    ensures var l := |w| - 1;
            var r := PutCell(log, c, width);
            && r.lines == head + (w[..l] + (if |w[l]| + 1 < width then [w[l] + [c]] else [w[l] + [c], []]))
            && r.col == |Last(r)|
  {
    var l := |w| - 1;
    assert log.lines[..|log.lines| - 1] == head + w[..l];
    assert Placed(w[l], |w[l]|, c) == w[l] + [c];
    assert [w[l] + [c]] + [[]] == [w[l] + [c], []];
  }

  /**
   * Whatever is printed: the log is the printed text, split at line breaks into paragraphs, each cut
   * into pieces of the screen's width. The cursor stands behind the last piece.
   */
  lemma {:induction false} LogIsWrappedText(items: seq<Item>, width: nat)
    requires width > 0
    ensures NoneContains(Split(items, None), None)
    ensures PutItems(START, items, width).lines == WrapAll(Split(items, None), width)
    ensures var log := PutItems(START, items, width); log.col == |Last(log)|
  {
    SplitJoins(items, None);
    if items == [] {
      WrapNothing(items, [[]], width);
    } else {
      var n := |items| - 1;
      var before, item := items[..n], items[n];
      assert items == before + [item];
      LogIsWrappedText(before, width);
      SplitSnoc(before, item, None);
      hide Split, WrapAll, Extend, PutCell;
      var pars, log := Split(before, None), PutItems(START, before, width);
      if item == None {
        WrapAllSnoc(pars, [], width);
        WrapEmpty(width);
      } else {
        LastParagraph(log, pars, item.value, width);
      }
    }
  }

  lemma WrapEmpty(width: nat)
    requires width > 0
    ensures Wrap(CellsOf([]), width) == [[]]
  {
  }

  lemma WrapNothing(items: seq<Item>, pars: seq<seq<Item>>, width: nat)
    requires width > 0 && items == [] && pars == [[]]
    ensures Split(items, None) == pars && NoneContains(pars, None) && WrapAll(pars, width) == [[]]
  {
    WrapEmpty(width);
    assert pars[..0] == [];
  }

  // ----- the log of a printed text -----

  function Flatten(w: seq<seq<Cell>>): seq<Cell> {
    if w == [] then [] else w[0] + Flatten(w[1..])
  }

  /** The pieces of a paragraph give it back, and all but the last are exactly as wide as the screen. */
  lemma {:induction false} WrapPieces(p: seq<Cell>, width: nat)
    requires width > 0
    ensures var w := Wrap(p, width);
            && Flatten(w) == p && |w[|w| - 1]| < width
            && forall i :: 0 <= i < |w| - 1 ==> |w[i]| == width
    decreases |p|
  {
    hide Wrap;
    if |p| < width {
      WrapShort(p, width);
      assert Flatten([p][1..]) == [];
    } else {
      WrapLong(p, width);
      WrapPieces(p[width..], width);
      var rest := Wrap(p[width..], width);
      assert ([p[..width]] + rest)[1..] == rest;
      assert p == p[..width] + p[width..];
    }
  }

  /** The text without its carriage returns. */
  function NoReturns(text: string): (s: string)
    ensures '\r' !in s
  {
    if text == [] then []
    else
      var n := |text| - 1;
      if text[n] == '\r' then NoReturns(text[..n]) else NoReturns(text[..n]) + [text[n]]
  }

  /** What stays of a text is what stays of its parts, and of a text without carriage returns all of it. */
  lemma {:induction false} NoReturnsMeans(a: string, b: string)
    ensures NoReturns(a + b) == NoReturns(a) + NoReturns(b)
    ensures '\r' !in b ==> NoReturns(b) == b
    decreases |b|
  {
    if b == [] {
      assert a + b == a;
    } else {
      var n := |b| - 1;
      assert (a + b)[..|a + b| - 1] == a + b[..n] && b == b[..n] + [b[n]];
      NoReturnsMeans(a, b[..n]);
    }
  }

  /** The paragraphs of a text, each cut into pieces of the screen's width. */
  function WrapTexts(pars: seq<string>, color: nat, interactable: bool, width: nat): seq<seq<Cell>>
    requires width > 0
  {
    if pars == [] then []
    else WrapTexts(pars[..|pars| - 1], color, interactable, width)
         + Wrap(CellsFor(pars[|pars| - 1], color, interactable), width)
  }

  /** The items of each paragraph. */
  function ItemParts(pars: seq<string>, color: nat, interactable: bool): (s: seq<seq<Item>>)
    ensures |s| == |pars|
    ensures forall i :: 0 <= i < |pars| ==> s[i] == ItemsFor(CellsFor(pars[i], color, interactable))
  {
    seq(|pars|, i requires 0 <= i < |pars| => ItemsFor(CellsFor(pars[i], color, interactable)))
  }

  /** Splitting the items at line breaks is splitting the text at line feeds. */
  lemma {:induction false} ItemsSplit(text: string, color: nat, interactable: bool)
    ensures Split(Items(text, color, interactable), None)
            == ItemParts(Split(NoReturns(text), '\n'), color, interactable)
    decreases |text|
  {
    if text == [] {
      NothingSplit(text, color, interactable);
    } else {
      var n := |text| - 1;
      var before, c := text[..n], text[n];
      ItemsSplit(before, color, interactable);
      assert text == before + [c];
      ItemsConcat(before, [c], color, interactable);
      OneItem(c, color, interactable);
      hide Items, Split, Extend, ItemParts;
      if c != '\r' {
        SplitSnoc(NoReturns(before), c, '\n');
        var item := if c == '\n' then None else Some(Cell(c, color, interactable));
        SplitSnoc(Items(before, color, interactable), item, None);
        OnePartMore(Split(NoReturns(before), '\n'), c, color, interactable);
      } else {
        assert Items(before, color, interactable) + [] == Items(before, color, interactable);
      }
    }
  }

  lemma NothingSplit(text: string, color: nat, interactable: bool)
    requires text == []
    ensures Split(Items(text, color, interactable), None)
            == ItemParts(Split(NoReturns(text), '\n'), color, interactable)
  {
  }

  lemma OnePartMore(pars: seq<string>, c: char, color: nat, interactable: bool)
    requires pars != []
    ensures ItemParts(pars + [[]], color, interactable) == ItemParts(pars, color, interactable) + [[]]
    ensures ItemParts(Extend(pars, [c]), color, interactable)
            == Extend(ItemParts(pars, color, interactable), [Some(Cell(c, color, interactable))])
  {
    var l := |pars| - 1;
    assert ItemsFor(CellsFor(pars[l] + [c], color, interactable))
        == ItemsFor(CellsFor(pars[l], color, interactable)) + [Some(Cell(c, color, interactable))];
  }

  lemma {:induction false} CellsBack(cells: seq<Cell>)
    ensures None !in ItemsFor(cells) && CellsOf(ItemsFor(cells)) == cells
    decreases |cells|
  {
    if cells != [] {
      var n := |cells| - 1;
      CellsBack(cells[..n]);
      assert ItemsFor(cells)[..n] == ItemsFor(cells[..n]);
      assert cells == cells[..n] + [cells[n]];
    }
  }

  lemma {:induction false} WrapParts(pars: seq<string>, color: nat, interactable: bool, width: nat)
    requires width > 0
    ensures NoneContains(ItemParts(pars, color, interactable), None)
    ensures WrapAll(ItemParts(pars, color, interactable), width) == WrapTexts(pars, color, interactable, width)
  {
    hide Wrap, CellsOf;
    if pars != [] {
      var n := |pars| - 1;
      WrapParts(pars[..n], color, interactable, width);
      CellsBack(CellsFor(pars[n], color, interactable));
      assert ItemParts(pars, color, interactable)[..n] == ItemParts(pars[..n], color, interactable);
      var all := ItemParts(pars, color, interactable);
      assert forall i :: 0 <= i < n ==> all[i] == ItemParts(pars[..n], color, interactable)[i];
    }
  }

  /**
   * `print_chars` from the top left: the log is the text without carriage returns, split at its line feeds into
   * paragraphs, each cut into pieces of the screen's width; the cursor stands behind the last piece.
   */
  lemma LogOfText(text: string, color: nat, interactable: bool, width: nat)
    requires width > 0
    ensures var log := PutItems(START, Items(text, color, interactable), width);
            && log.lines == WrapTexts(Split(NoReturns(text), '\n'), color, interactable, width)
            && log.col == |Last(log)|
  {
    LogIsWrappedText(Items(text, color, interactable), width);
    ItemsSplit(text, color, interactable);
    WrapParts(Split(NoReturns(text), '\n'), color, interactable, width);
  }

  // ----- a log that starts with the cursor further down and right -----

  function Blanks(n: nat): seq<Cell> {
    seq(n, _ => BLANK)
  }

  function BlankItems(n: nat): seq<Item> {
    seq(n, _ => Some(BLANK))
  }

  /** What stands above the cursor's line has no influence. */
  lemma {:induction false} LinesAbove(above: seq<seq<Cell>>, log: Log, items: seq<Item>, width: nat)
    requires WellFormed(log, width)
    ensures WellFormed(Log(above + log.lines, log.col), width)
    ensures var r := PutItems(log, items, width);
            PutItems(Log(above + log.lines, log.col), items, width) == Log(above + r.lines, r.col)
    decreases |items|
  {
    var full := Log(above + log.lines, log.col);
    assert full.lines[|full.lines| - 1] == log.lines[|log.lines| - 1];
    if items != [] {
      var n := |items| - 1;
      LinesAbove(above, log, items[..n], width);
      OneItemAbove(above, PutItems(log, items[..n], width), items[n], width);
    }
  }

  lemma OneItemAbove(above: seq<seq<Cell>>, log: Log, item: Item, width: nat)
    requires WellFormed(log, width) && WellFormed(Log(above + log.lines, log.col), width)
    ensures var r := PutItem(log, item, width);
            PutItem(Log(above + log.lines, log.col), item, width) == Log(above + r.lines, r.col)
  {
    var full, l := above + log.lines, |log.lines| - 1;
    assert full[..|full| - 1] == above + log.lines[..l] && full[|full| - 1] == log.lines[l];
    if item == None {
      assert full + [[]] == above + (log.lines + [[]]);
    } else {
      var placed := [Placed(log.lines[l], log.col, item.value)];
      assert above + log.lines[..l] + placed == above + (log.lines[..l] + placed);
      assert above + (log.lines[..l] + placed) + [[]] == above + (log.lines[..l] + placed + [[]]);
    }
  }

  /** Printing blanks is moving the cursor, as long as something follows on the line. */
  ghost predicate SameButFirst(a: Log, b: Log, x: nat, items: seq<Item>) {
    && a.lines != [] && b.lines != [] && a.col == b.col
    && (if items == [] || items[0] == None then
          b.lines[0] == Blanks(x) && a.lines == [[]] + b.lines[1..] && (items == [] <==> |b.lines| == 1)
        else a == b)
  }

  lemma {:induction false} IndentedLine(x: nat, items: seq<Item>, width: nat)
    requires x < width
    ensures SameButFirst(PutItems(Log([[]], x), items, width), PutItems(Log([Blanks(x)], x), items, width), x, items)
    ensures items == [] ==> PutItems(Log([[]], x), items, width).col == x
    decreases |items|
  {
    if items != [] {
      var n := |items| - 1;
      IndentedLine(x, items[..n], width);
      var a, b := PutItems(Log([[]], x), items[..n], width), PutItems(Log([Blanks(x)], x), items[..n], width);
      OneItemIndented(a, b, x, items[..n], items[n], width);
      assert items[..n] + [items[n]] == items;
    }
  }

  lemma OneItemIndented(a: Log, b: Log, x: nat, before: seq<Item>, item: Item, width: nat)
    requires WellFormed(a, width) && WellFormed(b, width) && SameButFirst(a, b, x, before)
             && (before == [] ==> a.col == x)
    ensures SameButFirst(PutItem(a, item, width), PutItem(b, item, width), x, before + [item])
  {
    if before == [] {
      assert a.lines == [[]] && b.lines == [Blanks(x)];
      if item != None {
        assert Placed([], x, item.value) == Placed(Blanks(x), x, item.value);
      }
    } else if before[0] == None {
      assert a.lines[|a.lines| - 1] == b.lines[|b.lines| - 1];
      assert a.lines[..|a.lines| - 1] == [[]] + b.lines[..|b.lines| - 1][1..];
    }
  }

  lemma {:induction false} BlanksMove(x: nat, width: nat)
    requires x < width
    ensures PutItems(START, BlankItems(x), width) == Log([Blanks(x)], x)
  {
    if x == 0 {
      assert Blanks(0) == [] && BlankItems(0) == [];
    } else {
      BlanksMove(x - 1, width);
      assert BlankItems(x)[..x - 1] == BlankItems(x - 1);
      assert Placed(Blanks(x - 1), x - 1, BLANK) == Blanks(x);
    }
  }

  /**
   * The same for the log of a new screen buffer, with the cursor at column `x` of line `y`: the lines above stay
   * empty, and the first paragraph starts with `x` blanks, unless it is empty.
   */
  lemma LogFromCursor(x: nat, y: nat, items: seq<Item>, width: nat)
    requires x < width
    ensures NoneContains(Split(BlankItems(x) + items, None), None)
    ensures var log := PutItems(Log(seq(y + 1, _ => []), x), items, width);
            var wrapped := WrapAll(Split(BlankItems(x) + items, None), width);
            && wrapped != []
            && log.lines == seq(y, _ => []) + (if items == [] || items[0] == None then [[]] + wrapped[1..] else wrapped)
            && log.col == if items == [] then x else |Last(log)|
  {
    var above := seq(y, _ => []);
    assert seq(y + 1, _ => []) == above + [[]];
    LinesAbove(above, Log([[]], x), items, width);
    LogIsWrappedText(BlankItems(x) + items, width);
    hide Split, WrapAll, PutItem;
    IndentedLine(x, items, width);
    BlanksMove(x, width);
    PutItemsConcat(START, BlankItems(x), items, width);
    var a := PutItems(Log([[]], x), items, width);
    assert Last(Log(above + a.lines, a.col)) == Last(a);
  }
}

/** print.cpp: a bounded store of lines that shows the end of the log. */
module ScreenBuffer {
  import opened Arith
  import opened OutputLog

  /** Of `MAX_CHARS` cells the first `amount` are in use. */
  datatype Line = Line(cells: seq<Cell>, amount: nat)

  function Content(line: Line): seq<Cell> {
    if line.amount <= |line.cells| then line.cells[..line.amount] else line.cells
  }

  ghost predicate LineOk(line: Line, width: nat) {
    |line.cells| == width && line.amount <= width
  }

  /** The lines `0 ..= y` show the end of the log; lines below the cursor are empty. */
  ghost predicate Window(lines: seq<Line>, y: nat, log: Log, width: nat) {
    && y < |lines| && (forall i :: 0 <= i < |lines| ==> LineOk(lines[i], width))
    && y + 1 <= |log.lines| && (|log.lines| > y + 1 ==> y + 1 == |lines|)
    && (forall i :: 0 <= i <= y ==> Content(lines[i]) == log.lines[|log.lines| - 1 - y + i])
    && (forall i :: y < i < |lines| ==> lines[i].amount == 0)
  }

  /** A window shows exactly the last lines of the log, as many as there are or as fit. */
  lemma WindowIsSuffix(lines: seq<Line>, y: nat, log: Log, width: nat)
    requires Window(lines, y, log, width)
    ensures y + 1 == if |log.lines| <= |lines| then |log.lines| else |lines|
    ensures seq(y + 1, i requires 0 <= i <= y => Content(lines[i])) == log.lines[|log.lines| - (y + 1)..]
  {
  }

  /** The cursor goes to the next line of the store. */
  lemma WindowDown(lines: seq<Line>, y: nat, log: Log, width: nat)
    requires Window(lines, y, log, width) && y + 1 < |lines|
    ensures Window(lines, y + 1, OutputLog.NewLine(log), width)
  {
    var next := OutputLog.NewLine(log);
    forall i | 0 <= i <= y + 1
      ensures Content(lines[i]) == next.lines[|next.lines| - 1 - (y + 1) + i]
    {
      if i <= y {
        assert Content(lines[i]) == log.lines[|log.lines| - 1 - y + i];
      }
    }
  }

  /** The store is full: its lines move up by one and the last is emptied. */
  lemma WindowShift(lines: seq<Line>, lines': seq<Line>, y: nat, log: Log, width: nat)
    requires Window(lines, y, log, width) && y + 1 == |lines| == |lines'|
    requires forall i :: 0 <= i < |lines| ==> LineOk(lines'[i], width)
    requires forall i :: 0 <= i < y ==> Content(lines'[i]) == Content(lines[i + 1])
    requires lines'[y].amount == 0
    ensures Window(lines', y, OutputLog.NewLine(log), width)
  {
    assert Content(lines'[y]) == [];
    hide LineOk, Content;
    var next := OutputLog.NewLine(log);
    forall i | 0 <= i <= y
      ensures Content(lines'[i]) == next.lines[|next.lines| - 1 - y + i]
    {
      if i < y {
        assert Content(lines[i + 1]) == log.lines[|log.lines| - 1 - y + (i + 1)];
      }
    }
  }

  /** The cursor line changes, and the last line of the log with it. */
  lemma WindowPut(lines: seq<Line>, line: Line, y: nat, log: Log, x: nat, width: nat)
    requires Window(lines, y, log, width) && LineOk(line, width)
    ensures Window(lines[y := line], y, Log(log.lines[..|log.lines| - 1] + [Content(line)], x), width)
  {
  }

  /** Cells between the used ones and the cursor have never been written. */
  ghost predicate BlankGap(line: Line, x: nat) {
    x <= |line.cells| && forall k :: line.amount <= k < x ==> line.cells[k] == BLANK
  }

  lemma WindowLinesOk(lines: seq<Line>, y: nat, log: Log, width: nat)
    requires Window(lines, y, log, width)
    ensures forall i :: 0 <= i < |lines| ==> LineOk(lines[i], width)
  {
  }

  lemma EmptiedLine(line: Line, width: nat)
    requires LineOk(line, width)
    ensures LineOk(line.(amount := 0), width)
  {
  }

  /** The cursor line shows the last line of the log. */
  lemma CursorLine(lines: seq<Line>, y: nat, log: Log, width: nat)
    requires Window(lines, y, log, width)
    ensures y < |lines| && LineOk(lines[y], width) && log.lines != [] && Content(lines[y]) == Last(log)
  {
  }

  lemma WindowCursor(lines: seq<Line>, y: nat, log: Log, width: nat)
    requires Window(lines, y, log, width)
    ensures y < |lines|
  {
  }

  lemma NoGap(line: Line)
    ensures BlankGap(line, 0)
  {
  }

  /** The lines moved up by one; the last one is left as it was. */
  ghost predicate MovedUp(lines: seq<Line>, moved: seq<Line>, width: nat) {
    && |moved| == |lines| && (forall i :: 0 <= i < |moved| ==> LineOk(moved[i], width))
    && (forall i :: 0 <= i < |moved| - 1 ==> Content(moved[i]) == Content(lines[i + 1]))
  }

  lemma WindowMovedUp(lines: seq<Line>, moved: seq<Line>, y: nat, log: Log, width: nat)
    requires Window(lines, y, log, width) && y + 1 == |lines| && MovedUp(lines, moved, width)
    ensures y < |moved| && Window(moved[y := moved[y].(amount := 0)], y, OutputLog.NewLine(log), width)
  {
    hide Window, Content;
    EmptiedLine(moved[y], width);
    WindowShift(lines, moved[y := moved[y].(amount := 0)], y, log, width);
  }

  /** The line of the log at the top of the rendered part: it moves down only as far as the last line needs. */
  function TopAfter(top: int, count: nat, visibleLines: nat): int {
    if count <= top + visibleLines then top else count - visibleLines
  }

  class Screen {
    const width: nat              // MAX_CHARS
    const visibleLines: nat
    const lines: array<Line>      // maxStoredLines of them
    var startRenderLine: nat
    var amountOfLines: nat
    var cursorX: nat
    var cursorY: nat
    ghost var log: Log

    /** As left by printing a character: the cursor may stand right behind the line. */
    ghost predicate Printed()
      reads this, lines
    {
      && log.lines != [] && log.col == cursorX && 0 < width
      && Window(lines[..], cursorY, log, width)
      && startRenderLine <= cursorY < startRenderLine + visibleLines <= lines.Length
      && amountOfLines == cursorY
    }

    ghost predicate Valid()
      reads this, lines
    {
      && Printed() && WellFormed(log, width)
      && BlankGap(lines[cursorY], cursorX)
    }

    /** Which line of the log is rendered at the top. */
    ghost function TopLine(): int
      reads this
    {
      |log.lines| - 1 - cursorY + startRenderLine
    }

    /** `init_empty_screen_buffer`: empty lines, with the cursor where early printing left it. */
    constructor InitEmptyScreenBuffer(width: nat, visibleLines: nat, historyLines: nat, cursorX: nat, cursorY: nat)
      requires cursorX < width && cursorY < visibleLines
      ensures Valid() && fresh(lines) && lines.Length == visibleLines + historyLines && this.width == width
      ensures log == Log(seq(cursorY + 1, _ => []), cursorX) && TopLine() == 0 && this.visibleLines == visibleLines
    {
      this.width, this.visibleLines := width, visibleLines;
      var empty := Line(seq(width, _ => BLANK), 0);
      lines := new Line[visibleLines + historyLines](_ => empty);
      startRenderLine, amountOfLines := 0, cursorY;
      this.cursorX, this.cursorY := cursorX, cursorY;
      log := Log(seq(cursorY + 1, _ => []), cursorX);
    }

    /** The part of `draw_char` that writes the cell buffer, at the cursor. */
    method DrawChar(cell: Cell)
      requires Valid()
      modifies lines
      ensures lines[..] == old(lines[..])[cursorY := lines[cursorY]]
      ensures LineOk(lines[cursorY], width)
              && Content(lines[cursorY]) == Placed(Content(old(lines[cursorY])), cursorX, cell)
      ensures lines[cursorY].amount == cursorX + 1
    {
      var line := lines[cursorY];
      assert line == lines[..][cursorY];
      line := line.(cells := line.cells[cursorX := cell]);
      if cursorX + 1 > line.amount {
        line := line.(amount := cursorX + 1);
      }
      lines[cursorY] := line;
      assert lines[..] == old(lines[..])[cursorY := line];
    }

    /** The shift at the start of `handle_scroll`: every line takes over the used cells of the next one. */
    method DropFirstLine()
      requires lines.Length > 0 && forall i :: 0 <= i < lines.Length ==> LineOk(lines[i], width)
      modifies lines
      ensures MovedUp(old(lines[..]), lines[..], width)
    {
      for line := 0 to lines.Length - 1
        invariant forall i :: 0 <= i < lines.Length ==> LineOk(lines[i], width)
        invariant forall i :: 0 <= i < line ==> Content(lines[i]) == Content(old(lines[i + 1]))
        invariant forall i :: line <= i < lines.Length ==> lines[i] == old(lines[i])
      {
        var copied := CopyCells(lines[line], lines[line + 1]);
        lines[line] := copied;
      }
    }

    /** The inner loop of the shift. */
    method CopyCells(target: Line, source: Line) returns (r: Line)
      requires LineOk(target, width) && LineOk(source, width)
      ensures LineOk(r, width) && Content(r) == Content(source)
    {
      r := target.(amount := source.amount);
      for cell := 0 to source.amount
        invariant LineOk(r, width) && r.amount == source.amount && r.cells[..cell] == source.cells[..cell]
      {
        r := r.(cells := r.cells[cell := source.cells[cell]]);
      }
    }

    /** `newline` and `handle_scroll`: the window moves down the log by one line. */
    method NewLine()
      requires Printed()
      modifies this`cursorX, this`cursorY, this`startRenderLine, this`amountOfLines, this`log, lines
      ensures Valid() && log == OutputLog.NewLine(old(log))
      ensures TopLine() == TopAfter(old(TopLine()), |log.lines|, visibleLines)
    {
      hide Window;
      amountOfLines := amountOfLines + 1;
      cursorX := 0;
      cursorY := cursorY + 1;
      HandleScroll();
    }

    /** `handle_scroll` after the cursor went down. */
    method HandleScroll()
      requires cursorY > 0 && Window(lines[..], cursorY - 1, log, width) && cursorX == 0 && 0 < width
      requires startRenderLine <= cursorY - 1 < startRenderLine + visibleLines <= lines.Length
               && amountOfLines == cursorY
      modifies this`cursorY, this`startRenderLine, this`amountOfLines, this`log, lines
      ensures Valid() && log == OutputLog.NewLine(old(log))
      ensures TopLine() == TopAfter(old(TopLine()) + 1, |log.lines|, visibleLines)
    {
      if cursorY >= lines.Length {
        DropOldestLine();
      } else {
        WindowDown(lines[..], cursorY - 1, log, width);
      }
      WindowCursor(lines[..], cursorY, OutputLog.NewLine(log), width);
      hide Window, BlankGap;
      log := OutputLog.NewLine(log);
      if cursorY >= startRenderLine + visibleLines {
        startRenderLine := startRenderLine + 1;
      }
      assert BlankGap(lines[cursorY], 0) by {
        NoGap(lines[cursorY]);
      }
    }

    /** The branch of `handle_scroll` for a full store. */
    method DropOldestLine()
      requires cursorY > 0 && Window(lines[..], cursorY - 1, log, width) && cursorY >= lines.Length
               && amountOfLines == cursorY
      modifies this`cursorY, this`startRenderLine, this`amountOfLines, lines
      ensures cursorY == old(cursorY) - 1 == amountOfLines
      ensures startRenderLine == if old(startRenderLine) > 0 then old(startRenderLine) - 1 else 0
      ensures Window(lines[..], cursorY, OutputLog.NewLine(log), width)
    {
      ghost var before := lines[..];
      WindowLinesOk(before, cursorY - 1, log, width);
      hide Window, LineOk, Content, MovedUp;
      DropFirstLine();
      amountOfLines := amountOfLines - 1;
      if startRenderLine > 0 {
        startRenderLine := startRenderLine - 1;
      }
      cursorY := cursorY - 1;
      WindowMovedUp(before, lines[..], cursorY, log, width);
      lines[cursorY] := lines[cursorY].(amount := 0);
    }

    /** One printed character: `draw_char`, the cursor step and `handle_automatic_newline`. */
    method PutChar(cell: Cell)
      requires Valid()
      modifies this`cursorX, this`cursorY, this`startRenderLine, this`amountOfLines, this`log, lines
      ensures Valid() && log == PutCell(old(log), cell, width) && |log.lines| >= |old(log).lines|
      ensures TopLine() == TopAfter(old(TopLine()), |log.lines|, visibleLines)
    {
      CursorLine(lines[..], cursorY, log, width);
      hide Window;
      DrawChar(cell);
      WindowPut(old(lines[..]), lines[cursorY], cursorY, log, cursorX + 1, width);
      cursorX := cursorX + 1;
      log := Log(log.lines[..|log.lines| - 1] + [Content(lines[cursorY])], cursorX);
      if cursorX >= width {
        NewLine();
      }
    }

    /** `print_chars` */
    method PrintChars(text: string, color: nat, interactable: bool)
      requires Valid()
      modifies this`cursorX, this`cursorY, this`startRenderLine, this`amountOfLines, this`log, lines
      ensures Valid() && log == PutItems(old(log), Items(text, color, interactable), width)
      ensures |log.lines| >= |old(log).lines| && TopLine() == TopAfter(old(TopLine()), |log.lines|, visibleLines)
    {
      ghost var before := log;
      hide Window, BlankGap, PutItems, PutCell;
      NothingPut(before, text, color, interactable, width);
      for i := 0 to |text|
        invariant Valid() && log == PutItems(before, Items(text[..i], color, interactable), width)
        invariant |log.lines| >= |before.lines| && TopLine() == TopAfter(old(TopLine()), |log.lines|, visibleLines)
      {
        CharacterPut(before, text, i, color, interactable, width);
        if text[i] == '\r' {
          continue;
        }
        if text[i] == '\n' {
          NewLine();
          continue;
        }
        PutChar(Cell(text[i], color, interactable));
      }
      assert text[..|text|] == text;
    }
  }

  lemma NothingPut(log: Log, text: string, color: nat, interactable: bool, width: nat)
    requires WellFormed(log, width)
    ensures PutItems(log, Items(text[..0], color, interactable), width) == log
  {
  }

  /** What one character adds to the log. */
  lemma CharacterPut(log: Log, text: string, i: nat, color: nat, interactable: bool, width: nat)
    requires WellFormed(log, width) && i < |text|
    ensures var before := PutItems(log, Items(text[..i], color, interactable), width);
            PutItems(log, Items(text[..i + 1], color, interactable), width)
            == if text[i] == '\r' then before
               else if text[i] == '\n' then OutputLog.NewLine(before)
               else PutCell(before, Cell(text[i], color, interactable), width)
  {
    assert text[..i + 1][..i] == text[..i];
    var before := Items(text[..i], color, interactable);
    var item := if text[i] == '\n' then None else Some(Cell(text[i], color, interactable));
    assert (before + [item])[..|before|] == before;
    hide PutCell;
  }
}
