/** The input line as text left and right of the cursor, and what each key does to it. */
module LineEditing {
  import opened CommandHistory

  datatype Zipper = Zipper(left: string, right: string)

  function Text(z: Zipper): string {
    z.left + z.right
  }

  function Insert(z: Zipper, c: char): Zipper {
    Zipper(z.left + [c], z.right)
  }

  function DeleteLeft(z: Zipper): Zipper {
    if z.left == [] then z else Zipper(z.left[..|z.left| - 1], z.right)
  }

  function MoveRight(z: Zipper): Zipper {
    if z.right == [] then z else Zipper(z.left + [z.right[0]], z.right[1..])
  }

  function MoveLeft(z: Zipper): Zipper {
    if z.left == [] then z else Zipper(z.left[..|z.left| - 1], [z.left[|z.left| - 1]] + z.right)
  }

  // ----- the token under the cursor -----

  /** The backward search of `getCurrTokenFromBuffer` from index `i`; index 0 is not looked at. */
  function LastSpace(text: string, i: nat): (start: nat)
    requires i < |text| || i == 0
    ensures start <= i + 1
    ensures forall k :: start <= k <= i && k > 0 ==> text[k] != ' '
    ensures start > 0 ==> 1 < start && text[start - 1] == ' '
  {
    if i == 0 then 0 else if text[i] == ' ' then i + 1 else LastSpace(text, i - 1)
  }

  function TokenStart(text: string, cursor: nat): nat
    requires cursor <= |text|
  {
    if cursor == 0 then 0 else LastSpace(text, cursor - 1)
  }

  /** The characters from `i` up to a space or the end. */
  function UntilSpace(text: string, i: nat): (token: string)
    requires i <= |text|
    ensures i + |token| <= |text| && token == text[i..i + |token|] && ' ' !in token
    ensures i + |token| < |text| ==> text[i + |token|] == ' '
    decreases |text| - i
  {
    if i == |text| || text[i] == ' ' then [] else [text[i]] + UntilSpace(text, i + 1)
  }

  /** `getCurrTokenFromBuffer` */
  function CurrToken(text: string, cursor: nat): string
    requires cursor <= |text|
  {
    UntilSpace(text, TokenStart(text, cursor))
  }

  /** A token that is not empty encloses the cursor and is bounded by spaces or the ends of the line. */
  lemma TokenAroundCursor(text: string, cursor: nat)
    requires cursor <= |text| && CurrToken(text, cursor) != []
    ensures var s, t := TokenStart(text, cursor), CurrToken(text, cursor);
            && s <= cursor <= s + |t| <= |text| && text[s..s + |t|] == t && ' ' !in t
            && (s > 0 ==> text[s - 1] == ' ') && (s + |t| < |text| ==> text[s + |t|] == ' ')
  {
    var s, t := TokenStart(text, cursor), CurrToken(text, cursor);
    assert t[0] == text[s] && t[0] in t;
    assert forall k :: s <= k < cursor ==> text[k] != ' ';
  }

  /**
   * An empty line, a line that starts with a space and has none between it and the cursor, since index 0 is not looked
   * at, or the cursor between two spaces or behind a last one.
   */
  ghost predicate NoToken(text: string, cursor: nat)
    requires cursor <= |text|
  {
    || text == []
    || (text[0] == ' ' && forall k :: 0 < k < cursor ==> text[k] != ' ')
    || (cursor > 1 && text[cursor - 1] == ' ' && (cursor == |text| || text[cursor] == ' '))
  }

  lemma TokenEmptyIff(text: string, cursor: nat)
    requires cursor <= |text|
    ensures CurrToken(text, cursor) == [] <==> NoToken(text, cursor)
  {
    var s := TokenStart(text, cursor);
    assert CurrToken(text, cursor) == [] <==> s == |text| || text[s] == ' ';
    assert forall k :: s <= k < cursor && k > 0 ==> text[k] != ' ';
  }

  /** Behind a leading space the token at the end of the line is not found. */
  lemma LeadingSpaceExample()
    ensures CurrToken(" ls", 3) == [] && CurrToken("  ls", 4) == "ls"
  {
    TokenEmptyIff(" ls", 3);
    assert NoToken(" ls", 3);
    var t := "  ls";
    assert t[3] != ' ' && t[2] != ' ' && LastSpace(t, 1) == 2;
    assert LastSpace(t, 2) == 2;
    assert LastSpace(t, 3) == 2;
    assert TokenStart(t, 4) == 2;
    assert UntilSpace(t, 4) == [];
    assert UntilSpace(t, 3) == ['s'];
    assert UntilSpace(t, 2) == ['l', 's'];
  }

  lemma NoTokenInEmptyLine()
    ensures CurrToken([], 0) == []
  {
  }

  // ----- replaceCurrentToken -----

  /** The cursor goes right up to a space or the end. */
  function ToTokenEnd(z: Zipper): Zipper
    decreases |z.right|
  {
    if z.right == [] || z.right[0] == ' ' then z else ToTokenEnd(MoveRight(z))
  }

  function DeleteTimes(z: Zipper, n: nat): Zipper
    decreases n
  {
    if n == 0 then z else DeleteTimes(DeleteLeft(z), n - 1)
  }

  function InsertAll(z: Zipper, s: string): Zipper
    decreases |s|
  {
    if s == [] then z else InsertAll(Insert(z, s[0]), s[1..])
  }

  function ReplaceToken(z: Zipper, oldToken: string, newToken: string): Zipper {
    InsertAll(DeleteTimes(ToTokenEnd(z), |oldToken|), newToken)
  }

  lemma {:induction false} ToTokenEndMoves(z: Zipper)
    ensures var w := UntilSpace(z.right, 0);
            ToTokenEnd(z) == Zipper(z.left + w, z.right[|w|..])
    decreases |z.right|
  {
    hide UntilSpace;
    if z.right == [] || z.right[0] == ' ' {
      UntilSpaceNone(z.right);
      assert z.left + [] == z.left;
    } else {
      ToTokenEndMoves(MoveRight(z));
      UntilSpaceCons(z.right);
      var w := UntilSpace(z.right[1..], 0);
      assert z.left + [z.right[0]] + w == z.left + ([z.right[0]] + w);
      assert z.right[1..][|w|..] == z.right[|w| + 1..];
    }
  }

  lemma UntilSpaceStep(text: string, i: nat)
    requires i < |text|
    ensures UntilSpace(text, i) == if text[i] == ' ' then [] else [text[i]] + UntilSpace(text, i + 1)
  {
  }

  lemma UntilSpaceEnd(text: string)
    ensures UntilSpace(text, |text|) == []
  {
  }

  lemma UntilSpaceNone(text: string)
    requires text == [] || text[0] == ' '
    ensures UntilSpace(text, 0) == []
  {
  }

  lemma UntilSpaceCons(text: string)
    requires text != [] && text[0] != ' '
    ensures UntilSpace(text, 0) == [text[0]] + UntilSpace(text[1..], 0)
  {
    var w := UntilSpace(text[1..], 0);
    assert w == text[1..1 + |w|];
    UntilSpaceUnique(text, 1, w);
  }

  /** A space-free piece that ends at a space or the end is what the scan gives. */
  lemma {:induction false} UntilSpaceUnique(text: string, i: nat, token: string)
    requires i + |token| <= |text| && token == text[i..i + |token|] && ' ' !in token
    requires i + |token| < |text| ==> text[i + |token|] == ' '
    ensures UntilSpace(text, i) == token
    decreases |token|
  {
    if token != [] {
      assert token[0] == text[i] && token[0] in token;
      assert forall c :: c in token[1..] ==> c in token;
      UntilSpaceUnique(text, i + 1, token[1..]);
    }
  }

  lemma {:induction false} DeleteTimesCuts(z: Zipper, n: nat)
    requires n <= |z.left|
    ensures DeleteTimes(z, n) == Zipper(z.left[..|z.left| - n], z.right)
    decreases n
  {
    if n == 0 {
      assert z.left[..|z.left|] == z.left;
    } else {
      DeleteTimesCuts(DeleteLeft(z), n - 1);
    }
  }

  lemma {:induction false} InsertAllAppends(z: Zipper, s: string)
    ensures InsertAll(z, s) == Zipper(z.left + s, z.right)
    decreases |s|
  {
    if s == [] {
      assert z.left + [] == z.left;
    } else {
      InsertAllAppends(Insert(z, s[0]), s[1..]);
      assert z.left + [s[0]] + s[1..] == z.left + s;
    }
  }

  /** The rest of a token from the cursor on is what the scan to the right passes over. */
  lemma EndOfToken(text: string, s: nat, t: string, cursor: nat)
    requires s <= cursor <= s + |t| <= |text| && text[s..s + |t|] == t && ' ' !in t
    requires s + |t| < |text| ==> text[s + |t|] == ' '
    ensures UntilSpace(text[cursor..], 0) == text[cursor..s + |t|]
  {
    var right, rest := text[cursor..], text[cursor..s + |t|];
    assert rest == t[cursor - s..];
    assert forall c :: c in rest ==> c in t;
    assert right[0..|rest|] == rest;
    UntilSpaceUnique(right, 0, rest);
  }

  lemma ZipperAtEnd(z: Zipper, end: nat)
    requires |z.left| <= end <= |Text(z)|
    ensures Zipper(z.left + Text(z)[|z.left|..end], z.right[end - |z.left|..]) == Zipper(Text(z)[..end], Text(z)[end..])
    ensures z.right == Text(z)[|z.left|..]
  {
    assert Text(z)[..|z.left|] == z.left;
  }

  /**
   * Replacing the token that `getCurrTokenFromBuffer` found rewrites exactly that token, and leaves
   * the cursor behind the new one.
   */
  lemma ReplaceTokenRewrites(z: Zipper, newToken: string)
    requires CurrToken(Text(z), |z.left|) != []
    ensures var text, s := Text(z), TokenStart(Text(z), |z.left|);
            var t := CurrToken(text, |z.left|);
            s + |t| <= |text| && ReplaceToken(z, t, newToken) == Zipper(text[..s] + newToken, text[s + |t|..])
  {
    hide UntilSpace, ToTokenEnd, DeleteTimes, InsertAll, CurrToken, TokenStart, Text;
    var text, cursor := Text(z), |z.left|;
    LeftInside(z);
    var s, t := TokenStart(text, cursor), CurrToken(text, cursor);
    TokenAroundCursor(text, cursor);
    AtTokenEnd(z, s, t);
    Rewritten(ToTokenEnd(z), text, s, |t|, newToken);
  }

  lemma LeftInside(z: Zipper)
    ensures |z.left| <= |Text(z)|
  {
  }

  /** Where the cursor stops when it runs to the end of the token. */
  lemma AtTokenEnd(z: Zipper, s: nat, t: string)
    requires var text := Text(z); s <= |z.left| <= s + |t| <= |text| && text[s..s + |t|] == t && ' ' !in t
    requires var text := Text(z); s + |t| < |text| ==> text[s + |t|] == ' '
    ensures ToTokenEnd(z) == Zipper(Text(z)[..s + |t|], Text(z)[s + |t|..])
  {
    hide UntilSpace, ToTokenEnd, Text;
    EndOfToken(Text(z), s, t, |z.left|);
    ZipperAtEnd(z, s + |t|);
    ToTokenEndMoves(z);
  }

  /** Deleting the token and inserting the new one there. */
  lemma Rewritten(e: Zipper, text: string, s: nat, n: nat, newToken: string)
    requires s + n <= |text| && e == Zipper(text[..s + n], text[s + n..])
    ensures InsertAll(DeleteTimes(e, n), newToken) == Zipper(text[..s] + newToken, text[s + n..])
  {
    hide DeleteTimes, InsertAll;
    DeleteTimesCuts(e, n);
    InsertAllAppends(DeleteTimes(e, n), newToken);
    assert text[..s + n][..s] == text[..s];
  }

  // ----- key sequences -----

  datatype Key = Type(c: char) | Backspace | Left | Right | Up | Down | Complete(word: string)
               | Enter(path: string, column: nat)  // the path of the new prompt, and where it starts

  /** The line, the commands that can be recalled, and how far back the arrow keys have gone. */
  datatype Editor = Editor(z: Zipper, history: seq<string>, browse: nat)

  ghost predicate Browsing(e: Editor) {
    e.browse <= |e.history|
  }

  function Recalled(e: Editor, browse: nat): Editor
    requires 0 < browse <= |e.history|
  {
    Editor(Zipper(e.history[|e.history| - browse], []), e.history, browse)
  }

  function Press(e: Editor, key: Key): (r: Editor)
    requires Browsing(e)
    ensures Browsing(r)
  {
    match key
    case Type(c) => if c == '\0' then e else e.(z := Insert(e.z, c))
    case Backspace => e.(z := DeleteLeft(e.z))
    case Left => e.(z := MoveLeft(e.z))
    case Right => e.(z := MoveRight(e.z))
    case Up => if e.browse < |e.history| then Recalled(e, e.browse + 1) else e
    case Down =>
      if e.browse == 0 then e
      else if e.browse == 1 then e.(z := Zipper([], []), browse := 0)
      else Recalled(e, e.browse - 1)
    case Complete(word) =>
      var token := CurrToken(Text(e.z), |e.z.left|);
      if token == [] then e else e.(z := ReplaceToken(e.z, token, word))
    case Enter(_, _) => Editor(Zipper([], []), if Text(e.z) == [] then e.history else Remember(e.history, Text(e.z)), 0)
  }

  lemma PressUpDown(e: Editor)
    requires Browsing(e)
    ensures Press(e, Up) == if e.browse < |e.history| then Recalled(e, e.browse + 1) else e
    ensures Press(e, Down) == if e.browse == 0 then e
                              else if e.browse == 1 then Editor(Zipper([], []), e.history, 0)
                              else Recalled(e, e.browse - 1)
  {
  }

  function PressAll(e: Editor, keys: seq<Key>): (r: Editor)
    requires Browsing(e)
    ensures Browsing(r)
  {
    if keys == [] then e else Press(PressAll(e, keys[..|keys| - 1]), keys[|keys| - 1])
  }

  /** Typing is undone by Backspace. */
  lemma InsertUndo(z: Zipper, c: char)
    ensures DeleteLeft(Insert(z, c)) == z
  {
    assert (z.left + [c])[..|z.left|] == z.left;
  }

  /** Moving left changes no text and is undone by moving right; so is deleting by typing the same character. */
  lemma LeftUndo(z: Zipper)
    requires z.left != []
    ensures Text(MoveLeft(z)) == Text(z) && MoveRight(MoveLeft(z)) == z
    ensures Insert(DeleteLeft(z), z.left[|z.left| - 1]) == z
  {
    var front, l := z.left[..|z.left| - 1], [z.left[|z.left| - 1]];
    assert z.left == front + l && (l + z.right)[1..] == z.right;
    assert front + (l + z.right) == front + l + z.right;
  }

  /** Moving right changes no text and is undone by moving left. */
  lemma RightUndo(z: Zipper)
    requires z.right != []
    ensures Text(MoveRight(z)) == Text(z) && MoveLeft(MoveRight(z)) == z
  {
    var r, rest := [z.right[0]], z.right[1..];
    assert z.right == r + rest && (z.left + r)[..|z.left|] == z.left;
    assert z.left + r + rest == z.left + (r + rest);
  }

  // ----- what each key does to the text, the cursor and the history -----

  /** The arrows to the left and right move the cursor by one, up to the ends of the text. */
  lemma ArrowsMove(e: Editor)
    requires Browsing(e)
    ensures var text, cursor := Text(e.z), |e.z.left|;
            var l, r := Press(e, Left), Press(e, Right);
            && Text(l.z) == text && |l.z.left| == (if cursor > 0 then cursor - 1 else 0)
            && Text(r.z) == text && |r.z.left| == (if cursor < |text| then cursor + 1 else |text|)
            && l.history == r.history == e.history && l.browse == r.browse == e.browse
  {
    if e.z.left != [] {
      LeftUndo(e.z);
    }
    if e.z.right != [] {
      RightUndo(e.z);
    }
  }

  /** A character goes in front of the cursor, and Backspace takes the one there; a NUL does nothing. */
  lemma TypingEdits(e: Editor, c: char)
    requires Browsing(e)
    ensures var text, cursor := Text(e.z), |e.z.left|;
            var t, b := Press(e, Type(c)), Press(e, Backspace);
            && cursor <= |text|
            && Text(t.z) == (if c == '\0' then text else text[..cursor] + [c] + text[cursor..])
            && |t.z.left| == (if c == '\0' then cursor else cursor + 1)
            && Text(b.z) == (if cursor == 0 then text else text[..cursor - 1] + text[cursor..])
            && |b.z.left| == (if cursor == 0 then 0 else cursor - 1)
            && t.history == b.history == e.history && t.browse == b.browse == e.browse
  {
    var text, cursor := Text(e.z), |e.z.left|;
    assert text[..cursor] == e.z.left && text[cursor..] == e.z.right;
    if cursor > 0 {
      assert text[..cursor - 1] == e.z.left[..cursor - 1];
    }
  }

  /** Up and Down go one command back or forth, stop at the oldest one, and end on an empty line. */
  lemma ArrowsBrowse(e: Editor)
    requires Browsing(e)
    ensures var n := |e.history|;
            var u, d := Press(e, Up), Press(e, Down);
            && u.history == d.history == e.history
            && (if e.browse == n then u == e
                else u.browse == e.browse + 1 && Text(u.z) == e.history[n - e.browse - 1] && u.z.right == [])
            && (if e.browse == 0 then d == e
                else d.browse == e.browse - 1 && d.z.right == []
                     && Text(d.z) == if d.browse == 0 then [] else e.history[n - e.browse + 1])
  {
    PressUpDown(e);
  }

  /** Enter leaves an empty line; a command that is not empty is the last of at most a hundred in the history. */
  lemma EnterRecords(e: Editor, path: string, column: nat)
    requires Browsing(e)
    ensures var text, r := Text(e.z), Press(e, Enter(path, column));
            && r.z == Zipper([], []) && r.browse == 0
            && (text == [] ==> r.history == e.history)
            && (text != [] && |e.history| < 100 ==> r.history == e.history + [text])
            && (text != [] && |e.history| >= 100 ==> r.history == e.history[1..] + [text])
  {
  }

  /** The token from `s` to `end` around the cursor gave way to `word`, and the cursor stands behind it. */
  ghost predicate TokenGaveWay(text: string, cursor: nat, word: string, r: Zipper, s: nat, end: nat) {
    && s <= cursor <= end <= |text| && s < end && ' ' !in text[s..end]
    && (s > 0 ==> text[s - 1] == ' ') && (end < |text| ==> text[end] == ' ')
    && Text(r) == text[..s] + word + text[end..] && |r.left| == s + |word|
  }

  /** Tab with one candidate rewrites exactly the token around the cursor, and changes nothing where there is none. */
  lemma CompleteRewrites(e: Editor, word: string)
    requires Browsing(e)
    ensures var text, cursor, r := Text(e.z), |e.z.left|, Press(e, Complete(word));
            && cursor <= |text| && r.history == e.history && r.browse == e.browse
            && (NoToken(text, cursor) ==> r == e)
            && (!NoToken(text, cursor) ==> exists s: nat, end: nat :: TokenGaveWay(text, cursor, word, r.z, s, end))
  {
    hide CurrToken, TokenStart, ReplaceToken, NoToken, Text, TokenGaveWay;
    LeftInside(e.z);
    var text, cursor := Text(e.z), |e.z.left|;
    TokenEmptyIff(text, cursor);
    if CurrToken(text, cursor) != [] {
      TokenAroundCursor(text, cursor);
      ReplaceTokenRewrites(e.z, word);
      var s, end := TokenStart(text, cursor), TokenStart(text, cursor) + |CurrToken(text, cursor)|;
      GaveWay(text, cursor, CurrToken(text, cursor), word, s, end);
    }
  }

  lemma GaveWay(text: string, cursor: nat, token: string, word: string, s: nat, end: nat)
    requires s <= cursor <= end <= |text| && token != [] && token == text[s..end] && ' ' !in token
    requires (s > 0 ==> text[s - 1] == ' ') && (end < |text| ==> text[end] == ' ')
    ensures TokenGaveWay(text, cursor, word, Zipper(text[..s] + word, text[end..]), s, end)
  {
  }

  lemma {:induction false} PressAllConcat(e: Editor, a: seq<Key>, b: seq<Key>)
    requires Browsing(e)
    ensures PressAll(e, a + b) == PressAll(PressAll(e, a), b)
    decreases |b|
  {
    hide Press;
    if b == [] {
      assert a + b == a;
    } else {
      var n := |b| - 1;
      assert (a + b)[..|a + b| - 1] == a + b[..n];
      PressAllConcat(e, a, b[..n]);
    }
  }

  function Times(key: Key, k: nat): seq<Key> {
    seq(k, _ => key)
  }

  lemma TimesSnoc(key: Key, k: nat)
    requires k > 0
    ensures Times(key, k)[..k - 1] == Times(key, k - 1) && Times(key, k)[k - 1] == key
  {
  }

  /** The line after going back `k` commands; the empty line for `k == 0`. */
  function Shown(e: Editor, k: nat): Editor
    requires k <= |e.history|
  {
    Editor(Zipper(if k == 0 then [] else e.history[|e.history| - k], []), e.history, k)
  }

  /** Pressing Up `k` times shows the `k`-th last command, and the oldest one when there are fewer. */
  lemma {:induction false} UpTimes(e: Editor, k: nat)
    requires e.browse == 0 && 0 < k && e.history != []
    ensures PressAll(e, Times(Up, k)) == Shown(e, if k <= |e.history| then k else |e.history|)
  {
    TimesSnoc(Up, k);
    if k == 1 {
      assert PressAll(e, []) == e;
    } else {
      UpTimes(e, k - 1);
    }
  }

  /** From the `k`-th last command, pressing Down `j` times goes back towards the newest one, and to the empty line. */
  lemma {:induction false} DownTimes(e: Editor, k: nat, j: nat)
    requires 0 < k <= |e.history|
    ensures PressAll(Shown(e, k), Times(Down, j)) == Shown(e, if j < k then k - j else 0)
  {
    if j > 0 {
      TimesSnoc(Down, j);
      DownTimes(e, k, j - 1);
    }
  }

  /** However far Up went, as many presses of Down lead back through the newer commands to the empty line. */
  lemma BrowseAndBack(e: Editor, k: nat, j: nat)
    requires e.browse == 0 && 0 < k && e.history != []
    ensures var reached := if k <= |e.history| then k else |e.history|;
            && PressAll(e, Times(Up, k)) == Shown(e, reached)
            && PressAll(e, Times(Up, k) + Times(Down, j)) == Shown(e, if j < reached then reached - j else 0)
  {
    UpTimes(e, k);
    DownTimes(e, if k <= |e.history| then k else |e.history|, j);
    PressAllConcat(e, Times(Up, k), Times(Down, j));
  }
}

/** cmd_history.cpp: the last hundred commands. */
module CommandHistory {

  const MAX_COMMAND_HISTORY := 100

  /** The last `MAX_COMMAND_HISTORY` of all commands. */
  function Latest(all: seq<string>): seq<string> {
    if |all| <= MAX_COMMAND_HISTORY then all else all[|all| - MAX_COMMAND_HISTORY..]
  }

  /** One more command in a history of at most `MAX_COMMAND_HISTORY`. */
  function Remember(history: seq<string>, command: string): seq<string> {
    (if |history| >= MAX_COMMAND_HISTORY then history[1..] else history) + [command]
  }

  class History {
    const commandHistory: array<string>
    var cmdHistCount: nat
    ghost var all: seq<string>       // every command ever added

    ghost predicate Valid()
      reads this, commandHistory
    {
      && commandHistory.Length == MAX_COMMAND_HISTORY && cmdHistCount <= MAX_COMMAND_HISTORY
      && commandHistory[..cmdHistCount] == Latest(all)
    }

    constructor ()
      ensures Valid() && fresh(commandHistory) && all == []
    {
      commandHistory := new string[MAX_COMMAND_HISTORY](_ => "");
      cmdHistCount := 0;
      all := [];
    }

    /** `add_command_to_history`: a full history drops its oldest entry. */
    method AddCommand(command: string)
      requires Valid()
      modifies this, commandHistory
      ensures Valid() && all == old(all) + [command]
      ensures commandHistory[..cmdHistCount] == Remember(old(commandHistory[..cmdHistCount]), command)
    {
      ghost var before := commandHistory[..cmdHistCount];
      LatestNext(all, command);
      if cmdHistCount >= MAX_COMMAND_HISTORY {
        DropOldest();
        cmdHistCount := cmdHistCount - 1;
      }
      Append(command);
      all := all + [command];
      hide Latest;
      assert commandHistory[..cmdHistCount] == Remember(before, command);
    }

    /** The copy of the command behind those that are kept. */
    method Append(command: string)
      requires commandHistory.Length == MAX_COMMAND_HISTORY && cmdHistCount < MAX_COMMAND_HISTORY
      modifies this`cmdHistCount, commandHistory
      ensures cmdHistCount == old(cmdHistCount) + 1 <= MAX_COMMAND_HISTORY
      ensures commandHistory[..cmdHistCount] == old(commandHistory[..cmdHistCount]) + [command]
    {
      commandHistory[cmdHistCount] := command;
      cmdHistCount := cmdHistCount + 1;
    }

    /** The shift of a full history. */
    method DropOldest()
      requires cmdHistCount == MAX_COMMAND_HISTORY == commandHistory.Length
      modifies commandHistory
      ensures commandHistory[..cmdHistCount - 1] == old(commandHistory[1..cmdHistCount])
    {
      for i := 0 to cmdHistCount - 1
        invariant forall k :: 0 <= k < cmdHistCount ==>
                    commandHistory[k] == old(commandHistory[if k < i then k + 1 else k])
      {
        commandHistory[i] := commandHistory[i + 1];
      }
      commandHistory[cmdHistCount - 1] := "";
    }
  }

  lemma LatestNext(all: seq<string>, command: string)
    ensures Latest(all + [command]) == Remember(Latest(all), command)
  {
  }
}

/** terminal.cpp: the character buffer and the screen cells of the input line, kept in step. */
module TerminalInput {
  import opened LineEditing
  import opened CommandHistory
  import opened OutputLog

  const TERMINAL_BUFFER_SIZE := 256
  const PROMPT_END := " >> "

  /** Where the input behind a new prompt starts. */
  function PromptEnd(path: string, column: nat): nat {
    column + |path| + |PROMPT_END|
  }

  ghost predicate Plain(text: string) {
    '\n' !in text && '\r' !in text
  }

  /** Where the input starts after the keys; Enter prints a new prompt. */
  function StartAfter(start: nat, keys: seq<Key>): nat {
    if keys == [] then start
    else if keys[|keys| - 1].Enter? then PromptEnd(keys[|keys| - 1].path, keys[|keys| - 1].column)
    else StartAfter(start, keys[..|keys| - 1])
  }

  /** The line `s` with the cursor at `p`. */
  function At(s: string, p: nat): Zipper
    requires p <= |s|
  {
    Zipper(s[..p], s[p..])
  }

  function Inserted<T>(s: seq<T>, p: nat, x: T): seq<T>
    requires p <= |s|
  {
    s[..p] + [x] + s[p..]
  }

  function Removed<T>(s: seq<T>, p: nat): seq<T>
    requires p < |s|
  {
    s[..p] + s[p + 1..]
  }

  lemma StartOne(start: nat, key: Key)
    ensures StartAfter(start, [key]) == if key.Enter? then PromptEnd(key.path, key.column) else start
  {
    assert [key][..0] == [];
  }

  lemma AtInsert(s: string, p: nat, c: char)
    requires p <= |s|
    ensures At(Inserted(s, p, c), p + 1) == Insert(At(s, p), c)
  {
  }

  lemma AtDelete(s: string, p: nat)
    requires 0 < p <= |s|
    ensures At(Removed(s, p - 1), p - 1) == DeleteLeft(At(s, p))
  {
  }

  lemma AtMove(s: string, p: nat)
    requires p <= |s|
    ensures p < |s| ==> At(s, p + 1) == MoveRight(At(s, p))
    ensures p > 0 ==> At(s, p - 1) == MoveLeft(At(s, p))
  {
    if p < |s| {
      assert s[..p + 1] == s[..p] + [s[p]] && s[p..] == [s[p]] + s[p + 1..];
    }
    if p > 0 {
      assert s[..p] == s[..p - 1] + [s[p - 1]] && s[p - 1..] == [s[p - 1]] + s[p..];
    }
  }

  lemma AtText(s: string, p: nat)
    requires p <= |s|
    ensures Text(At(s, p)) == s && |At(s, p).left| == p
  {
  }

  /** The cells show the characters, and belong to the input. */
  ghost predicate Shows(cells: seq<Cell>, s: string) {
    |cells| == |s| && forall i :: 0 <= i < |s| ==> cells[i].text == s[i] && cells[i].interactable
  }

  lemma ShowsEdits(cells: seq<Cell>, s: string, p: nat, cell: Cell)
    requires Shows(cells, s) && p <= |s| && cell.interactable
    ensures Shows(Inserted(cells, p, cell), Inserted(s, p, cell.text))
    ensures p < |s| ==> Shows(Removed(cells, p), Removed(s, p))
  {
  }

  /** Editing behind a prompt edits the cells of the input. */
  lemma BehindPrompt(line: seq<Cell>, start: nat, p: nat, cell: Cell)
    requires start + p <= |line|
    ensures Inserted(line, start + p, cell)[start..] == Inserted(line[start..], p, cell)
    ensures Inserted(line, start + p, cell)[..start] == line[..start]
    ensures start + p < |line| ==> Removed(line, start + p)[start..] == Removed(line[start..], p)
    ensures start + p < |line| ==> Removed(line, start + p)[..start] == line[..start]
  {
  }

  /** Inserting the same character into the text and behind the prompt keeps them in step. */
  lemma InsertEdits(s: string, line: seq<Cell>, start: nat, p: nat, cell: Cell)
    requires start <= |line| && Shows(line[start..], s) && p <= |s| && cell.interactable
    ensures Shows(Inserted(line, start + p, cell)[start..], Inserted(s, p, cell.text))
    ensures Inserted(line, start + p, cell)[..start] == line[..start]
    ensures At(Inserted(s, p, cell.text), p + 1) == Insert(At(s, p), cell.text)
  {
    ShowsEdits(line[start..], s, p, cell);
    BehindPrompt(line, start, p, cell);
    AtInsert(s, p, cell.text);
  }

  /** Removing the same position from both keeps them in step. */
  lemma RemoveEdits(s: string, line: seq<Cell>, start: nat, p: nat)
    requires start <= |line| && Shows(line[start..], s) && 0 < p <= |s|
    ensures Shows(Removed(line, start + p - 1)[start..], Removed(s, p - 1))
    ensures Removed(line, start + p - 1)[..start] == line[..start] && line[start..][p - 1].interactable
    ensures At(Removed(s, p - 1), p - 1) == DeleteLeft(At(s, p))
  {
    ShowsEdits(line[start..], s, p - 1, line[start..][p - 1]);
    BehindPrompt(line, start, p - 1, line[start..][p - 1]);
    AtDelete(s, p);
  }

  lemma CharAt<T>(s: seq<T>, end: nat, k: nat)
    requires k < end <= |s|
    ensures s[..end][k] == s[k]
  {
  }

  lemma OneMoreChar(text: string, start: nat, k: nat, rest: string)
    requires start <= k < |text|
    ensures text[start..k] + ([text[k]] + rest) == text[start..k + 1] + rest
            && text[start..k + 1] == text[start..k] + [text[k]]
  {
  }

  lemma CellBehindPrompt<T>(s: seq<T>, start: nat, end: nat, i: nat)
    requires start + i < end <= |s|
    ensures s[..end][start..][i] == s[start + i]
  {
  }

  /** The part of an array from `lo` to `hi`, as the end of its first `hi` elements. */
  lemma ArrayPart<T>(a: array<T>, lo: nat, hi: nat)
    requires lo <= hi <= a.Length
    ensures a[..hi][lo..] == a[lo..hi] && a[..hi][..lo] == a[..lo]
  {
  }

  lemma IsInserted<T>(before: seq<T>, after: seq<T>, p: nat, n: nat, x: T)
    requires p <= n < |before| == |after|
    requires after[p] == x && (forall k :: 0 <= k < p || n < k < |after| ==> after[k] == before[k])
    requires forall k :: p < k <= n ==> after[k] == before[k - 1]
    ensures after[..n + 1] == Inserted(before[..n], p, x) && after[n + 1..] == before[n + 1..]
  {
  }

  lemma IsRemoved<T>(before: seq<T>, after: seq<T>, p: nat, n: nat)
    requires p < n <= |before| == |after|
    requires forall k :: 0 <= k < p || n <= k < |after| ==> after[k] == before[k]
    requires forall k :: p <= k < n - 1 ==> after[k] == before[k + 1]
    ensures after[..n - 1] == Removed(before[..n], p) && after[n..] == before[n..]
  {
  }

  /** The shift to the right that makes room for one more element, and the one put there. */
  method InsertAt<T>(a: array<T>, p: nat, n: nat, x: T)
    requires p <= n < a.Length
    modifies a
    ensures a[..n + 1] == Inserted(old(a[..n]), p, x) && a[n + 1..] == old(a[n + 1..])
  {
    ghost var s := a[..];
    var i := n;
    while i > p
      invariant p <= i <= n
      invariant forall k :: 0 <= k <= i || n < k < a.Length ==> a[k] == s[k]
      invariant forall k :: i < k <= n ==> a[k] == s[k - 1]
    {
      a[i] := a[i - 1];
      i := i - 1;
    }
    a[p] := x;
    IsInserted(s, a[..], p, n, x);
  }

  /** The shift to the left that closes the gap of one element. */
  method RemoveAt<T>(a: array<T>, p: nat, n: nat)
    requires p < n <= a.Length
    modifies a
    ensures a[..n - 1] == Removed(old(a[..n]), p) && a[n..] == old(a[n..])
  {
    ghost var s := a[..];
    for i := p to n - 1
      invariant forall k :: 0 <= k < p || i <= k < a.Length ==> a[k] == s[k]
      invariant forall k :: p <= k < i ==> a[k] == s[k + 1]
    {
      a[i] := a[i + 1];
    }
    IsRemoved(s, a[..], p, n);
  }

  class Terminal {
    const lineInputBuffer: array<char>
    const cells: array<Cell>             // the cells of the cursor's screen line
    const history: History
    var lineInputLength: nat
    var lineInputCursorPos: nat
    var lineInputStartX: nat
    var cursorX: nat
    var amountOfCells: nat
    var goThroughHistoryCount: nat

    /** Where the input stands on the line and in the buffer. */
    ghost predicate Placed()
      reads this`lineInputLength, this`lineInputCursorPos, this`lineInputStartX, this`cursorX, this`amountOfCells,
            lineInputBuffer
    {
      && lineInputBuffer.Length == TERMINAL_BUFFER_SIZE
      && lineInputCursorPos <= lineInputLength < TERMINAL_BUFFER_SIZE
      && cursorX == lineInputStartX + lineInputCursorPos
      && amountOfCells == lineInputStartX + lineInputLength <= cells.Length
      && lineInputBuffer[lineInputLength] == '\0'
    }

    /** Every cell of the input shows the character of the buffer. */
    ghost predicate InStep()
      reads this`lineInputLength, this`lineInputCursorPos, this`lineInputStartX, this`cursorX, this`amountOfCells,
            lineInputBuffer, cells
    {
      Placed() && Shows(cells[lineInputStartX..amountOfCells], lineInputBuffer[..lineInputLength])
    }

    /** The line as text left and right of the cursor. */
    ghost function Line(): Zipper
      requires Placed()
      reads this`lineInputLength, this`lineInputCursorPos, this`lineInputStartX, this`cursorX, this`amountOfCells,
            lineInputBuffer
    {
      At(lineInputBuffer[..lineInputLength], lineInputCursorPos)
    }

    /** The input starts on an empty line, behind the prompt. */
    constructor (cells: array<Cell>, history: History, path: string)
      requires history.Valid() && PromptEnd(path, 0) < cells.Length && Plain(path)
      modifies cells
      ensures Valid() && State() == Editor(Zipper([], []), history.commandHistory[..history.cmdHistCount], 0)
      ensures this.cells == cells && this.history == history && fresh(lineInputBuffer)
      ensures lineInputStartX == PromptEnd(path, 0) && Prompted(0, path)
    {
      lineInputBuffer := new char[TERMINAL_BUFFER_SIZE](_ => '\0');
      this.cells, this.history := cells, history;
      lineInputLength, lineInputCursorPos, goThroughHistoryCount := 0, 0, 0;
      cursorX, amountOfCells := 0, 0;
      new;
      NewTerminalInputLine(path);
    }

    /** The cells from `x` to the input show the prompt, and do not belong to the input. */
    ghost predicate Prompted(x: nat, path: string)
      reads this, cells
    {
      && PromptEnd(path, x) == lineInputStartX <= cells.Length
      && forall k :: x <= k < lineInputStartX ==> cells[k] == Cell((path + PROMPT_END)[k - x], 0, false)
    }

    /** `newTerminalInputLine`: the prompt is printed at the cursor, and the empty input starts behind it. */
    method NewTerminalInputLine(path: string)
      requires lineInputBuffer.Length == TERMINAL_BUFFER_SIZE && lineInputBuffer[0] == '\0'
      requires lineInputLength == 0 && lineInputCursorPos == 0
      requires cursorX == amountOfCells && PromptEnd(path, cursorX) < cells.Length && Plain(path)
      modifies cells, this`lineInputStartX, this`cursorX, this`amountOfCells
      ensures InStep() && Line() == Zipper([], [])
      ensures Prompted(old(cursorX), path) && cells[..old(cursorX)] == old(cells[..cursorX])
    {
      Print(path + PROMPT_END, false);
      lineInputStartX := cursorX;
    }

    ghost predicate Valid()
      reads this, lineInputBuffer, cells, history, history.commandHistory
    {
      InStep() && history.Valid() && goThroughHistoryCount <= history.cmdHistCount
    }

    ghost function State(): Editor
      requires Valid()
      reads this, lineInputBuffer, cells, history, history.commandHistory
    {
      Editor(Line(), history.commandHistory[..history.cmdHistCount], goThroughHistoryCount)
    }

    /** The text fits the buffer and the screen line, behind a prompt of `start` cells. */
    ghost predicate Room(z: Zipper, start: nat) {
      |Text(z)| < TERMINAL_BUFFER_SIZE && start + |Text(z)| <= cells.Length
    }

    /** A command that can be recalled without wrapping the line. */
    ghost predicate Showable(h: string, start: nat) {
      |h| < TERMINAL_BUFFER_SIZE && start + |h| < cells.Length && '\0' !in h && '\n' !in h && '\r' !in h
    }

    /**
     * What the code expects of a key, without checking it: the changed input fits the buffer and the screen line, a
     * recalled command and a new prompt fit the screen line, and the input holds no NUL when it becomes a command.
     */
    ghost predicate KeyFits(e: Editor, key: Key, start: nat)
      requires Browsing(e)
    {
      match key
      case Type(_) => Room(Press(e, key).z, start)
      case Complete(_) => Room(Press(e, key).z, start)
      case Up => e.browse < |e.history| ==> Showable(e.history[|e.history| - (e.browse + 1)], start)
      case Down => e.browse > 1 ==> Showable(e.history[|e.history| - (e.browse - 1)], start)
      case Enter(path, column) => '\0' !in Text(e.z) && PromptEnd(path, column) < cells.Length && Plain(path)
      case _ => true
    }

    /** `insert_char_at_cursor`; the line and the buffer have room for one more character. */
    method InsertCharAtCursor(c: char)
      requires InStep() && lineInputLength + 1 < TERMINAL_BUFFER_SIZE && amountOfCells < cells.Length
      modifies lineInputBuffer, cells, this`lineInputLength, this`lineInputCursorPos, this`cursorX, this`amountOfCells
      ensures InStep() && Line() == Insert(old(Line()), c)
      ensures cells[..lineInputStartX] == old(cells[..lineInputStartX])
    {
      ghost var s, line, p := lineInputBuffer[..lineInputLength], cells[..amountOfCells], lineInputCursorPos;
      var start, cell := lineInputStartX, Cell(c, 0, true);
      ArrayPart(cells, start, amountOfCells);
      InsertEdits(s, line, start, p, cell);
      hide Shows, Inserted, At, Insert;
      InsertBoth(cell);
      ghost var after := cells[..amountOfCells];
      assert after == Inserted(line, start + p, cell);
      ArrayPart(cells, start, amountOfCells);
    }

    /** The buffer and the screen part of `insert_char_at_cursor`. */
    method InsertBoth(cell: Cell)
      requires Placed() && lineInputLength + 1 < TERMINAL_BUFFER_SIZE && amountOfCells < cells.Length
      modifies lineInputBuffer, cells, this`lineInputLength, this`lineInputCursorPos, this`cursorX, this`amountOfCells
      ensures Placed() && lineInputCursorPos == old(lineInputCursorPos) + 1
      ensures lineInputBuffer[..lineInputLength] ==
              Inserted(old(lineInputBuffer[..lineInputLength]), old(lineInputCursorPos), cell.text)
      ensures cells[..amountOfCells] == Inserted(old(cells[..amountOfCells]), old(cursorX), cell)
    {
      hide Inserted;
      InsertAt(lineInputBuffer, lineInputCursorPos, lineInputLength, cell.text);
      lineInputLength := lineInputLength + 1;
      lineInputBuffer[lineInputLength] := '\0';
      InsertAt(cells, cursorX, amountOfCells, cell);
      amountOfCells := amountOfCells + 1;
      lineInputCursorPos := lineInputCursorPos + 1;
      cursorX := cursorX + 1;
    }

    /** `handle_input_buffer_deletion` */
    method HandleInputBufferDeletion()
      requires InStep()
      modifies lineInputBuffer, cells, this`lineInputLength, this`lineInputCursorPos, this`cursorX, this`amountOfCells
      ensures InStep() && Line() == DeleteLeft(old(Line()))
      ensures cells[..lineInputStartX] == old(cells[..lineInputStartX])
    {
      if lineInputLength == 0 || lineInputCursorPos == 0 {
        return;
      }
      ghost var s, line, p := lineInputBuffer[..lineInputLength], cells[..amountOfCells], lineInputCursorPos;
      ArrayPart(cells, lineInputStartX, amountOfCells);
      RemoveEdits(s, line, lineInputStartX, p);
      hide Shows, Removed, At;
      CellBehindPrompt(cells[..], lineInputStartX, amountOfCells, p - 1);
      if cursorX == 0 || !cells[cursorX - 1].interactable {
        assert false;
      }
      RemoveBoth();
      ArrayPart(cells, lineInputStartX, amountOfCells);
    }

    /** The buffer and the screen part of `handle_input_buffer_deletion`. */
    method RemoveBoth()
      requires Placed() && lineInputCursorPos > 0
      modifies lineInputBuffer, cells, this`lineInputLength, this`lineInputCursorPos, this`cursorX, this`amountOfCells
      ensures Placed() && lineInputCursorPos == old(lineInputCursorPos) - 1
      ensures lineInputBuffer[..lineInputLength]
              == Removed(old(lineInputBuffer[..lineInputLength]), old(lineInputCursorPos) - 1)
      ensures cells[..amountOfCells] == Removed(old(cells[..amountOfCells]), old(cursorX) - 1)
    {
      hide Removed;
      RemoveAt(lineInputBuffer, lineInputCursorPos - 1, lineInputLength);
      lineInputLength := lineInputLength - 1;
      lineInputBuffer[lineInputLength] := '\0';
      RemoveAt(cells, cursorX - 1, amountOfCells);
      cells[amountOfCells - 1] := Cell('\0', cells[amountOfCells - 1].color, false);
      amountOfCells := amountOfCells - 1;
      lineInputCursorPos := lineInputCursorPos - 1;
      cursorX := cursorX - 1;
    }

    /** `cursor_move_inline` */
    method CursorMoveInline(moveRight: bool)
      requires InStep()
      modifies this`lineInputCursorPos, this`cursorX
      ensures InStep() && Line() == if moveRight then MoveRight(old(Line())) else MoveLeft(old(Line()))
      ensures var p := old(lineInputCursorPos);
              lineInputCursorPos == if moveRight && p < lineInputLength then p + 1
                                    else if !moveRight && p > 0 then p - 1
                                    else p
    {
      AtMove(lineInputBuffer[..lineInputLength], lineInputCursorPos);
      if moveRight {
        if lineInputCursorPos >= lineInputLength {
          return;
        }
        cursorX := cursorX + 1;
        lineInputCursorPos := lineInputCursorPos + 1;
      } else {
        if lineInputCursorPos == 0 {
          return;
        }
        cursorX := cursorX - 1;
        lineInputCursorPos := lineInputCursorPos - 1;
      }
    }

    /** `replaceCurrentToken` */
    method ReplaceCurrentToken(oldToken: string, newToken: string)
      requires InStep() && Room(ReplaceToken(Line(), oldToken, newToken), lineInputStartX)
      modifies lineInputBuffer, cells, this`lineInputLength, this`lineInputCursorPos, this`cursorX, this`amountOfCells
      ensures InStep() && Line() == ReplaceToken(old(Line()), oldToken, newToken)
      ensures cells[..lineInputStartX] == old(cells[..lineInputStartX])
    {
      hide At, Shows;
      MoveToTokenEnd();
      ghost var z := Line();
      for i := 0 to |oldToken|
        invariant InStep() && DeleteTimes(Line(), |oldToken| - i) == DeleteTimes(z, |oldToken|)
        invariant cells[..lineInputStartX] == old(cells[..lineInputStartX])
      {
        HandleInputBufferDeletion();
      }
      z := Line();
      InsertAllAppends(z, newToken);
      for i := 0 to |newToken|
        invariant InStep() && Line() == Zipper(z.left + newToken[..i], z.right)
        invariant cells[..lineInputStartX] == old(cells[..lineInputStartX])
      {
        assert newToken[..i + 1] == newToken[..i] + [newToken[i]];
        assert z.left + newToken[..i] + [newToken[i]] == z.left + newToken[..i + 1];
        AtText(lineInputBuffer[..lineInputLength], lineInputCursorPos);
        InsertCharAtCursor(newToken[i]);
      }
      assert newToken[..|newToken|] == newToken;
    }

    /** The first loop of `replaceCurrentToken`. */
    method MoveToTokenEnd()
      requires InStep()
      modifies this`lineInputCursorPos, this`cursorX
      ensures InStep() && Line() == ToTokenEnd(old(Line()))
    {
      while lineInputCursorPos < lineInputLength && lineInputBuffer[lineInputCursorPos] != ' '
        invariant InStep() && ToTokenEnd(Line()) == ToTokenEnd(old(Line()))
        decreases lineInputLength - lineInputCursorPos
      {
        CursorMoveInline(true);
      }
    }

    /** `getCurrTokenFromBuffer` on the input buffer. */
    method GetCurrTokenFromBuffer() returns (token: string)
      requires Placed()
      ensures token == CurrToken(Text(Line()), lineInputCursorPos)
    {
      ghost var text := lineInputBuffer[..lineInputLength];
      AtText(text, lineInputCursorPos);
      hide UntilSpace, At, LastSpace;
      var tokenStartsAt := FindTokenStart(text);
      token := TakeToken(tokenStartsAt, text);
    }

    /** The forward loop of `getCurrTokenFromBuffer`. */
    method TakeToken(start: nat, ghost text: string) returns (token: string)
      requires Placed() && text == lineInputBuffer[..lineInputLength] && start <= |text|
      ensures token == UntilSpace(text, start)
    {
      hide UntilSpace;
      token := [];
      for k := start to lineInputLength
        invariant token == text[start..k] && UntilSpace(text, start) == text[start..k] + UntilSpace(text, k)
      {
        CharAt(lineInputBuffer[..], lineInputLength, k);
        UntilSpaceStep(text, k);
        if lineInputBuffer[k] == ' ' {
          assert text[start..k] + [] == text[start..k];
          return;
        }
        OneMoreChar(text, start, k, UntilSpace(text, k + 1));
        token := token + [lineInputBuffer[k]];
      }
      UntilSpaceEnd(text);
      assert text[start..] + [] == text[start..];
    }

    /** The backward search of `getCurrTokenFromBuffer`. */
    method FindTokenStart(ghost text: string) returns (start: nat)
      requires Placed() && text == lineInputBuffer[..lineInputLength]
      ensures start <= lineInputLength && start == TokenStart(text, lineInputCursorPos)
    {
      var tokenStartsAt := 0;
      var i: nat := lineInputCursorPos;
      while i > 0
        invariant i <= lineInputCursorPos && tokenStartsAt == 0
        invariant i < lineInputCursorPos ==> TokenStart(text, lineInputCursorPos) == LastSpace(text, i)
      {
        assert i < lineInputCursorPos ==> text[i] == lineInputBuffer[i];
        if lineInputBuffer[i] == ' ' && i != lineInputCursorPos {
          tokenStartsAt := i;
          break;
        }
        i := i - 1;
      }
      start := if tokenStartsAt != 0 then tokenStartsAt + 1 else tokenStartsAt;
    }

    /** `clear_input_on_screen`; the buffer keeps its text. */
    method ClearInputOnScreen()
      requires lineInputStartX <= amountOfCells <= cells.Length
      modifies cells, this`lineInputCursorPos, this`cursorX, this`amountOfCells
      ensures lineInputCursorPos == 0 && cursorX == amountOfCells == lineInputStartX
      ensures cells[..lineInputStartX] == old(cells[..lineInputStartX])
      ensures forall k :: lineInputStartX <= k < old(amountOfCells) ==> cells[k] == Cell('\0', 0, false)
    {
      for i := lineInputStartX to amountOfCells
        invariant cells[..lineInputStartX] == old(cells[..lineInputStartX])
        invariant forall k :: lineInputStartX <= k < i ==> cells[k] == Cell('\0', 0, false)
      {
        cells[i] := Cell('\0', 0, false);
      }
      amountOfCells := lineInputStartX;
      cursorX := lineInputStartX;
      lineInputCursorPos := 0;
    }

    /** `handle_show_history`: the recalled command replaces the input, with the cursor at its end. */
    method HandleShowHistory()
      requires Valid() && goThroughHistoryCount > 0
      requires Showable(history.commandHistory[history.cmdHistCount - goThroughHistoryCount], lineInputStartX)
      modifies lineInputBuffer, cells, this`lineInputLength, this`lineInputCursorPos, this`cursorX, this`amountOfCells
      ensures Valid()
      ensures State() == Recalled(old(State()), goThroughHistoryCount)
      ensures cells[..lineInputStartX] == old(cells[..lineInputStartX])
      ensures history.commandHistory[..] == old(history.commandHistory[..])
    {
      hide Shows, At, InStep, Placed, Line;
      ShowText(history.commandHistory[history.cmdHistCount - goThroughHistoryCount]);
    }

    /** The input gives way to the text `h`, with the cursor at its end. */
    method ShowText(h: string)
      requires InStep() && Showable(h, lineInputStartX)
      modifies lineInputBuffer, cells, this`lineInputLength, this`lineInputCursorPos, this`cursorX, this`amountOfCells
      ensures InStep() && Line() == Zipper(h, [])
      ensures cells[..lineInputStartX] == old(cells[..lineInputStartX])
    {
      ClearInputOnScreen();
      StrCopy(h);
      lineInputLength := |h|;
      lineInputCursorPos := lineInputLength;
      Print(h, true);
      assert lineInputBuffer[..lineInputLength] == h;
    }

    /** `str_copy` into the input buffer. */
    method StrCopy(src: string)
      requires lineInputBuffer.Length == TERMINAL_BUFFER_SIZE && |src| < TERMINAL_BUFFER_SIZE
      modifies lineInputBuffer
      ensures lineInputBuffer[..|src|] == src && lineInputBuffer[|src|] == '\0'
    {
      for i := 0 to |src|
        invariant lineInputBuffer[..i] == src[..i]
      {
        lineInputBuffer[i] := src[i];
      }
      lineInputBuffer[|src|] := '\0';
    }

    /** `print_chars` of text that stays on the line. */
    method Print(text: string, interactable: bool)
      requires cursorX == amountOfCells && cursorX + |text| < cells.Length && Plain(text)
      modifies cells, this`cursorX, this`amountOfCells
      ensures cells[..old(cursorX)] == old(cells[..cursorX])
      ensures cursorX == amountOfCells == old(cursorX) + |text|
      ensures forall k :: old(cursorX) <= k < cursorX ==> cells[k] == Cell(text[k - old(cursorX)], 0, interactable)
    {
      for i := 0 to |text|
        invariant cursorX == amountOfCells == old(cursorX) + i
        invariant cells[..old(cursorX)] == old(cells[..cursorX])
        invariant forall k :: old(cursorX) <= k < old(cursorX) + i ==>
                    cells[k] == Cell(text[k - old(cursorX)], 0, interactable)
      {
        cells[cursorX] := Cell(text[i], 0, interactable);
        if cursorX + 1 > amountOfCells {
          amountOfCells := cursorX + 1;
        }
        cursorX := cursorX + 1;
      }
    }

    /** Recalling the command that is `browse` back. */
    method Recall(browse: nat)
      requires Valid() && 0 < browse <= history.cmdHistCount
      requires Showable(history.commandHistory[history.cmdHistCount - browse], lineInputStartX)
      modifies lineInputBuffer, cells, this`lineInputLength, this`lineInputCursorPos, this`cursorX, this`amountOfCells,
               this`goThroughHistoryCount
      ensures Valid() && State() == Recalled(old(State()), browse)
      ensures cells[..lineInputStartX] == old(cells[..lineInputStartX])
    {
      hide Shows, At, Placed, InStep, Line, Text;
      goThroughHistoryCount := browse;
      HandleShowHistory();
    }

    /** The arrow-up branch of `terminal_on_key`. */
    method ArrowUp()
      requires Valid() && KeyFits(State(), Up, lineInputStartX)
      modifies lineInputBuffer, cells, this`lineInputLength, this`lineInputCursorPos, this`cursorX, this`amountOfCells,
               this`goThroughHistoryCount
      ensures Valid() && State() == Press(old(State()), Up)
      ensures cells[..lineInputStartX] == old(cells[..lineInputStartX])
    {
      PressUpDown(State());
      hide Shows, At, Placed, InStep, Line, Press, Showable;
      if history.cmdHistCount == 0 || goThroughHistoryCount >= history.cmdHistCount {
        return;
      }
      Recall(goThroughHistoryCount + 1);
    }

    /** `clear_input_on_screen` and `reset_line_input`: an empty input behind the same prompt. */
    method EmptyLine()
      requires lineInputBuffer.Length == TERMINAL_BUFFER_SIZE && lineInputStartX <= amountOfCells <= cells.Length
      modifies lineInputBuffer, cells, this`lineInputLength, this`lineInputCursorPos, this`cursorX, this`amountOfCells
      ensures InStep() && Line() == Zipper([], [])
      ensures cells[..lineInputStartX] == old(cells[..lineInputStartX])
    {
      ClearInputOnScreen();
      ResetLineInput();
    }

    /** The arrow-down branch of `terminal_on_key`. */
    method ArrowDown()
      requires Valid() && KeyFits(State(), Down, lineInputStartX)
      modifies lineInputBuffer, cells, this`lineInputLength, this`lineInputCursorPos, this`cursorX, this`amountOfCells,
               this`goThroughHistoryCount
      ensures Valid() && State() == Press(old(State()), Down)
      ensures cells[..lineInputStartX] == old(cells[..lineInputStartX])
    {
      PressUpDown(State());
      hide Shows, At, Placed, InStep, Line, Press, Showable;
      if goThroughHistoryCount == 0 {
        return;
      }
      if goThroughHistoryCount == 1 {
        EmptyEditor();
      } else {
        Recall(goThroughHistoryCount - 1);
      }
    }

    /** Back at the empty line. */
    method EmptyEditor()
      requires Valid()
      modifies lineInputBuffer, cells, this`lineInputLength, this`lineInputCursorPos, this`cursorX, this`amountOfCells,
               this`goThroughHistoryCount
      ensures Valid() && State() == Editor(Zipper([], []), old(State()).history, 0)
      ensures cells[..lineInputStartX] == old(cells[..lineInputStartX])
    {
      hide Shows, At;
      goThroughHistoryCount := 0;
      EmptyLine();
    }

    /** Tab completion with the single candidate `word`. */
    method CompleteWith(word: string)
      requires Valid() && Room(Press(State(), Complete(word)).z, lineInputStartX)
      modifies lineInputBuffer, cells, this`lineInputLength, this`lineInputCursorPos, this`cursorX, this`amountOfCells
      ensures Valid() && State() == Press(old(State()), Complete(word))
      ensures cells[..lineInputStartX] == old(cells[..lineInputStartX])
    {
      hide Shows, UntilSpace, TokenStart, ReplaceToken;
      AtText(lineInputBuffer[..lineInputLength], lineInputCursorPos);
      if lineInputLength == 0 {
        NoTokenInEmptyLine();
        return;
      }
      var token := GetCurrTokenFromBuffer();
      if token == [] {
        return;
      }
      ReplaceCurrentToken(token, word);
    }

    /** `reset_line_input` */
    method ResetLineInput()
      requires lineInputBuffer.Length == TERMINAL_BUFFER_SIZE
      modifies lineInputBuffer, this`lineInputLength, this`lineInputCursorPos
      ensures lineInputLength == 0 && lineInputCursorPos == 0 && lineInputBuffer[0] == '\0'
    {
      lineInputLength := 0;
      lineInputCursorPos := 0;
      lineInputBuffer[0] := '\0';
    }

    /**
     * `processLineInputBuffer` without the command's effects: the command goes to the history, and the input is reset.
     */
    method ProcessLineInputBuffer()
      requires Valid() && '\0' !in Text(State().z)
      modifies this`goThroughHistoryCount, this`lineInputLength, this`lineInputCursorPos, lineInputBuffer,
               history, history.commandHistory
      ensures lineInputLength == 0 && lineInputCursorPos == 0 && lineInputBuffer[0] == '\0'
              && goThroughHistoryCount == 0
      ensures history.Valid() && Editor(Zipper([], []), history.commandHistory[..history.cmdHistCount], 0)
              == Press(old(State()), Enter([], 0))
    {
      hide Remember, Shows;
      AtText(lineInputBuffer[..lineInputLength], lineInputCursorPos);
      goThroughHistoryCount := 0;
      if lineInputLength != 0 {
        history.AddCommand(lineInputBuffer[..lineInputLength]);
      }
      ResetLineInput();
    }

    /**
     * The Enter branch of `terminal_on_key`: the command goes to the history, and a new prompt is printed for the path
     * current then, behind what the command left on the cursor's line, which is `column` cells long.
     */
    method OnEnter(path: string, column: nat)
      requires Valid() && PromptEnd(path, column) < cells.Length && Plain(path) && '\0' !in Text(State().z)
      modifies this, lineInputBuffer, cells, history, history.commandHistory
      ensures Valid() && State() == Press(old(State()), Enter(path, column))
      ensures Prompted(column, path) && cells[..column] == old(cells[..column])
    {
      ProcessLineInputBuffer();
      cursorX, amountOfCells := column, column;
      NewTerminalInputLine(path);
    }

    /** A printable key. */
    method OnType(c: char)
      requires Valid() && Room(Press(State(), Type(c)).z, lineInputStartX)
      modifies lineInputBuffer, cells, this`lineInputLength, this`lineInputCursorPos, this`cursorX, this`amountOfCells
      ensures Valid() && State() == Press(old(State()), Type(c))
      ensures cells[..lineInputStartX] == old(cells[..lineInputStartX])
    {
      hide Shows, At;
      if c != '\0' {
        AtText(lineInputBuffer[..lineInputLength], lineInputCursorPos);
        InsertCharAtCursor(c);
      }
    }

    method OnBackspace()
      requires Valid()
      modifies lineInputBuffer, cells, this`lineInputLength, this`lineInputCursorPos, this`cursorX, this`amountOfCells
      ensures Valid() && State() == Press(old(State()), Backspace)
      ensures cells[..lineInputStartX] == old(cells[..lineInputStartX])
    {
      hide Shows, At;
      HandleInputBufferDeletion();
    }

    /** The arrow keys to the left and to the right. */
    method OnMove(moveRight: bool)
      requires Valid()
      modifies this`lineInputCursorPos, this`cursorX
      ensures Valid() && State() == Press(old(State()), if moveRight then Right else Left)
    {
      hide Shows, At;
      CursorMoveInline(moveRight);
    }

    /** `terminal_on_key` */
    method OnKey(key: Key)
      requires Valid() && KeyFits(State(), key, lineInputStartX)
      modifies this, lineInputBuffer, cells, history, history.commandHistory
      ensures Valid() && State() == Press(old(State()), key)
              && lineInputStartX == StartAfter(old(lineInputStartX), [key])
      ensures if key.Enter? then Prompted(key.column, key.path) && cells[..key.column] == old(cells[..key.column])
              else cells[..lineInputStartX] == old(cells[..lineInputStartX])
    {
      StartOne(lineInputStartX, key);
      hide Press, StartAfter, Placed, InStep, Line, Valid, State, Room, Prompted, Showable, PromptEnd;
      match key {
        case Type(c) => OnType(c);
        case Backspace => OnBackspace();
        case Left => OnMove(false);
        case Right => OnMove(true);
        case Up => ArrowUp();
        case Down => ArrowDown();
        case Complete(word) => CompleteWith(word);
        case Enter(path, column) =>
          OnEnter(path, column);
          PromptedEnd(column, path);
      }
    }

    lemma PromptedEnd(x: nat, path: string)
      requires Prompted(x, path)
      ensures lineInputStartX == PromptEnd(path, x)
    {
    }

    /** Every key sequence that stays in bounds keeps buffer and screen in step. */
    method OnKeys(keys: seq<Key>)
      requires Valid()
      requires forall k :: 0 <= k < |keys| ==>
                 KeyFits(PressAll(State(), keys[..k]), keys[k], StartAfter(lineInputStartX, keys[..k]))
      modifies this, lineInputBuffer, cells, history, history.commandHistory
      ensures Valid() && State() == PressAll(old(State()), keys)
              && lineInputStartX == StartAfter(old(lineInputStartX), keys)
    {
      ghost var e, start := State(), lineInputStartX;
      for k := 0 to |keys|
        invariant Valid() && State() == PressAll(e, keys[..k]) && lineInputStartX == StartAfter(start, keys[..k])
      {
        assert keys[..k + 1][..k] == keys[..k];
        OnKey(keys[k]);
      }
      assert keys[..|keys|] == keys;
    }
  }
}
