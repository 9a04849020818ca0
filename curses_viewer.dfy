/** The curses hex viewer of hanalyse.py: the hex-dump line formatter of
    `HexFile` and the cursor state machine of its `MainWindow` event loop. */
module CursesViewer {
  import opened Wrappers
  import opened Numerals
  import opened Bytes

  // ---------------------------------------------------------------------------
  // Dump lines

  /** The offset a line is drawn from: 16 bytes per line, and the first line
      when the line starts past the end of the contents. */
  function LineOffset(contentsLength: nat, lineNum: nat): (off: nat)
    ensures lineNum * 16 <= contentsLength ==> off == lineNum * 16
    ensures lineNum * 16 > contentsLength ==> off == 0
  {
    if lineNum * 16 > contentsLength then 0 else lineNum * 16
  }

  /** `" %02x"` for a byte at an even position, `"%02x"` at an odd one. */
  function HexCell(position: nat, value: Byte): string {
    (if position % 2 == 0 then " " else "") + FormatHex(value, 2)
  }

  /** The hex columns for `values`. */
  function HexPart(values: seq<Byte>): string {
    if values == [] then []
    else HexPart(values[..|values| - 1]) + HexCell(|values| - 1, values[|values| - 1])
  }

  /** A printable ASCII byte as itself, anything else as '.'. */
  function Printable(value: Byte): char {
    if 32 <= value <= 126 then value as char else '.'
  }

  /** The character column for `values`. */
  function AsciiPart(values: seq<Byte>): (s: string)
    ensures |s| == |values| && forall i :: 0 <= i < |values| ==> s[i] == Printable(values[i])
  {
    seq(|values|, i requires 0 <= i < |values| => Printable(values[i]))
  }

  /** `lineStr(lineNum)`: the offset in at least 7 lowercase hex digits, the
      16 bytes as hex in groups of two, two spaces, and the 16 bytes as
      characters; `unpack_from("<16B")` raises when fewer than 16 bytes lie
      at the offset. */
  function LineText(contents: seq<Byte>, lineNum: nat): Result<string> {
    var off := LineOffset(|contents|, lineNum);
    if off + 16 > |contents| then Failure(StructError)
    else Success(DumpLine(off, contents[off..off + 16]))
  }

  /** The text drawn for `values` found at offset `off`. */
  function DumpLine(off: nat, values: seq<Byte>): string {
    FormatHex(off, 7) + HexPart(values) + ("  " + AsciiPart(values))
  }

  /** Where the digits of byte `i` start in the hex columns. */
  function CellStart(i: nat): nat {
    2 * i + (i + 1) / 2 + (if i % 2 == 0 then 1 else 0)
  }

  lemma ByteDigits(value: Byte)
    ensures |FormatHex(value, 2)| == 2 && AllLowerHex(FormatHex(value, 2))
    ensures DigitsValue(FormatHex(value, 2), 16) == value
  {
    HexStringDigits(value);
    FormatHexDigits(value, 2);
  }

  /** The hex columns of n bytes take 2n characters plus one space per pair
      begun. */
  lemma {:induction false} HexPartLength(values: seq<Byte>)
    ensures |HexPart(values)| == 2 * |values| + (|values| + 1) / 2
  {
    if values != [] {
      var n := |values| - 1;
      HexPartLength(values[..n]);
      CellLength(n, values[n]);
      PairsBegun(n);
    }
  }

  lemma CellLength(position: nat, value: Byte)
    ensures |HexCell(position, value)| == if position % 2 == 0 then 3 else 2
  {
    ByteDigits(value);
  }

  /** One more byte begins a new pair exactly when the bytes before it are even in number. */
  lemma PairsBegun(n: nat)
    ensures (n + 2) / 2 == (n + 1) / 2 + (if n % 2 == 0 then 1 else 0)
  {
  }

  /** Byte `i`'s two digits stand at `CellStart(i)` in the hex columns, and a
      space comes before each pair. */
  lemma {:induction false} HexPartCell(values: seq<Byte>, i: nat)
    requires i < |values|
    ensures CellStart(i) + 2 <= |HexPart(values)|
    ensures HexPart(values)[CellStart(i)..CellStart(i) + 2] == FormatHex(values[i], 2)
    ensures i % 2 == 0 ==> HexPart(values)[CellStart(i) - 1] == ' '
  {
    var n := |values| - 1;
    var init := values[..n];
    var h := HexPart(init);
    var cell := HexCell(n, values[n]);
    HexPartLength(init);
    ByteDigits(values[n]);
    assert HexPart(values) == h + cell;
    if i == n {
      if n % 2 == 0 {
        assert CellStart(i) == |h| + 1;
        assert cell == " " + FormatHex(values[n], 2);
      } else {
        assert CellStart(i) == |h|;
      }
    } else {
      HexPartCell(init, i);
      assert values[i] == init[i];
    }
  }

  /** A dump starts with the offset in lowercase hex, at least 7 digits; for
      16 bytes 58 characters follow: 40 hex columns, two spaces and 16
      characters. */
  lemma DumpShape(off: nat, values: seq<Byte>)
    requires |values| == 16
    ensures var prefix := FormatHex(off, 7);
            var line := DumpLine(off, values);
            && 7 <= |prefix| && AllLowerHex(prefix) && DigitsValue(prefix, 16) == off
            && |line| == |prefix| + 58
            && line[..|prefix|] == prefix
            && line[|prefix| + 40..|prefix| + 42] == "  "
            && (|prefix| == 7 <==> off < 0x1000_0000)
  {
    var prefix := FormatHex(off, 7);
    FormatHexDigits(off, 7);
    FormatHexWidth(off, 7);
    assert Pow16(7) == 0x1000_0000;
    HexPartLength(values);
    var h := HexPart(values);
    var line := prefix + h + ("  " + AsciiPart(values));
    assert line[..|prefix|] == prefix;
    SliceInMiddle(prefix + h, "  ", AsciiPart(values), 0, 2);
    AppendAssoc(prefix + h, "  ", AsciiPart(values));
  }

  /** Byte `i` stands as two hex digits `CellStart(i)` places past the
      offset, after a space when it opens a pair. */
  lemma DumpHexCell(off: nat, values: seq<Byte>, i: nat)
    requires i < |values|
    ensures var start := |FormatHex(off, 7)| + CellStart(i);
            var line := DumpLine(off, values);
            && start + 2 <= |line|
            && line[start..start + 2] == FormatHex(values[i], 2)
            && (i % 2 == 0 ==> line[start - 1] == ' ')
  {
    var prefix := FormatHex(off, 7);
    HexPartCell(values, i);
    var h := HexPart(values);
    var rest := "  " + AsciiPart(values);
    var c := CellStart(i);
    var line := prefix + h + rest;
    assert line == DumpLine(off, values);
    SliceInMiddle(prefix, h, rest, c, c + 2);
    assert line[|prefix| + c..|prefix| + c + 2] == h[c..c + 2] == FormatHex(values[i], 2);
    if i % 2 == 0 {
      IndexInMiddle(prefix, h, rest, c - 1);
    }
  }

  /** Byte `i` of 16 is shown as a character 42 places past the offset. */
  lemma DumpAsciiCell(off: nat, values: seq<Byte>, i: nat)
    requires |values| == 16 && i < 16
    ensures var at := |FormatHex(off, 7)| + 42 + i;
            var line := DumpLine(off, values);
            at < |line| && line[at] == Printable(values[i])
  {
    var prefix := FormatHex(off, 7);
    HexPartLength(values);
    var h := HexPart(values);
    var a := AsciiPart(values);
    assert (prefix + h + ("  " + a))[|prefix| + 42 + i] == a[i];
  }

  lemma SliceInMiddle<T>(p: seq<T>, m: seq<T>, q: seq<T>, i: nat, j: nat)
    requires i <= j <= |m|
    ensures (p + m + q)[|p| + i..|p| + j] == m[i..j]
  {
    var s := p + m + q;
    forall k | 0 <= k < j - i ensures s[|p| + i..|p| + j][k] == m[i..j][k] {
      assert s[|p| + i + k] == m[i + k];
    }
  }

  lemma IndexInMiddle<T>(p: seq<T>, m: seq<T>, q: seq<T>, k: nat)
    requires k < |m|
    ensures (p + m + q)[|p| + k] == m[k]
  {
  }

  /** One more byte adds one hex cell and one character. */
  lemma PartsStep(values: seq<Byte>, num: nat)
    requires num < |values|
    ensures HexPart(values[..num + 1]) == HexPart(values[..num]) + HexCell(num, values[num])
    ensures AsciiPart(values[..num + 1]) == AsciiPart(values[..num]) + [Printable(values[num])]
  {
    assert values[..num + 1][..num] == values[..num];
  }

  lemma AppendAssoc<T>(a: seq<T>, b: seq<T>, c: seq<T>)
    ensures a + (b + c) == (a + b) + c
  {
  }

  /** The file being viewed, read whole. */
  class HexFile {
    const fileContents: seq<Byte>

    constructor (contents: seq<Byte>)
      ensures fileContents == contents
    {
      fileContents := contents;
    }

    /** `lineStr(lineNum)`, building the two columns byte by byte. */
    method LineStr(lineNum: nat) returns (r: Result<string>)
      ensures r == LineText(fileContents, lineNum)
    {
      var lineOffset := lineNum * 16;
      if lineOffset > |fileContents| {
        lineOffset := 0;
      }
      assert lineOffset == LineOffset(|fileContents|, lineNum);
      if lineOffset + 16 > |fileContents| {
        return Failure(StructError);
      }
      var values := fileContents[lineOffset..lineOffset + 16];
      var line := DumpColumns(lineOffset, values);
      r := Success(line);
    }

    /** The loop of `lineStr`: the hex and character columns for `values`,
        appended byte by byte after the offset. */
    method DumpColumns(lineOffset: nat, values: seq<Byte>) returns (line: string)
      ensures line == DumpLine(lineOffset, values)
    {
      var returnStr := FormatHex(lineOffset, 7);
      var endStr := "  ";
      var num := 0;
      while num < |values|
        invariant 0 <= num <= |values|
        invariant returnStr == FormatHex(lineOffset, 7) + HexPart(values[..num])
        invariant endStr == "  " + AsciiPart(values[..num])
      {
        var value := values[num];
        PartsStep(values, num);
        AppendAssoc(FormatHex(lineOffset, 7), HexPart(values[..num]), HexCell(num, value));
        AppendAssoc("  ", AsciiPart(values[..num]), [Printable(value)]);
        if num % 2 == 0 {
          returnStr := returnStr + (" " + FormatHex(value, 2));
        } else {
          assert HexCell(num, value) == FormatHex(value, 2);
          returnStr := returnStr + FormatHex(value, 2);
        }
        if 32 <= value <= 126 {
          endStr := endStr + [value as char];
        } else {
          endStr := endStr + ".";
        }
        num := num + 1;
      }
      assert values[..num] == values;
      line := returnStr + endStr;
    }
  }

  // ---------------------------------------------------------------------------
  // The cursor state machine

  /** The key codes the event loop tells apart: `ord("q")`, `ord("\t")` and
      the curses arrow keys. */
  const KeyQuit := 113
  const KeyTab := 9
  const KeyDown := 258
  const KeyUp := 259
  const KeyLeft := 260
  const KeyRight := 261

  predicate IsArrow(key: int) {
    key == KeyUp || key == KeyDown || key == KeyLeft || key == KeyRight
  }

  /** The window's cursor state. */
  datatype Cursor = Cursor(hexLoc: int, curX: int, curY: int, inHex: bool, savedX: int, savedY: int)

  /** `ToggleWindow`: into the description the cursor position is saved and
      the cursor put at the window's extent (`getmaxyx()`); back into the hex
      the saved position is restored. */
  function Toggled(c: Cursor, rows: int, cols: int): Cursor {
    if c.inHex then c.(inHex := false, savedX := c.curX, savedY := c.curY, curX := cols, curY := rows)
    else c.(inHex := true, curX := c.savedX, curY := c.savedY)
  }

  /** An arrow key's effect: the offset moves a line (16 bytes) or a byte
      when it stays within the contents, and the cursor moves regardless. */
  function Moved(c: Cursor, key: int, fileLen: nat): Cursor
    requires IsArrow(key)
  {
    if key == KeyUp then c.(hexLoc := if c.hexLoc >= 16 then c.hexLoc - 16 else c.hexLoc, curY := c.curY - 1)
    else if key == KeyDown then c.(hexLoc := if c.hexLoc < fileLen - 16 then c.hexLoc + 16 else c.hexLoc, curY := c.curY + 1)
    else if key == KeyLeft then c.(hexLoc := if c.hexLoc > 0 then c.hexLoc - 1 else c.hexLoc, curX := c.curX - 1)
    else c.(hexLoc := if c.hexLoc < fileLen then c.hexLoc + 1 else c.hexLoc, curX := c.curX + 1)
  }

  /** Whether `win.move(curY, curX)` succeeds: curses refuses positions
      outside the window. */
  predicate OnScreen(c: Cursor, rows: int, cols: int) {
    0 <= c.curY < rows && 0 <= c.curX < cols
  }

  datatype StepOutcome = Continue | Quit | MoveFailed

  datatype Stepped = Stepped(cursor: Cursor, outcome: StepOutcome)

  /** One pass of the event loop for `key`: q ends it, tab toggles, an arrow
      moves and then the failed `win.move` raises when the cursor left the
      window, and any other key is only logged. */
  function Step(c: Cursor, key: int, fileLen: nat, rows: int, cols: int): Stepped {
    if key == KeyQuit then Stepped(c, Quit)
    else if key == KeyTab then Stepped(Toggled(c, rows, cols), Continue)
    else if IsArrow(key) then
      var d := Moved(c, key, fileLen);
      Stepped(d, if OnScreen(d, rows, cols) then Continue else MoveFailed)
    else Stepped(c, Continue)
  }

  /** How a sequence of keys leaves the loop: ended by q, ended by a curses
      error, or still running when the keys run out. */
  datatype SessionEnd = Quitted | Failed | Running

  datatype Session = Session(cursor: Cursor, end: SessionEnd)

  function Run(c: Cursor, keys: seq<int>, fileLen: nat, rows: int, cols: int): Session
    decreases keys
  {
    if keys == [] then Session(c, Running)
    else
      var s := Step(c, keys[0], fileLen, rows, cols);
      match s.outcome
      case Quit => Session(s.cursor, Quitted)
      case MoveFailed => Session(s.cursor, Failed)
      case Continue => Run(s.cursor, keys[1..], fileLen, rows, cols)
  }

  /** No key takes the offset out of 0..len(fileContents); RIGHT can reach
      the length itself. */
  lemma StepKeepsOffset(c: Cursor, key: int, fileLen: nat, rows: int, cols: int)
    requires 0 <= c.hexLoc <= fileLen
    ensures 0 <= Step(c, key, fileLen, rows, cols).cursor.hexLoc <= fileLen
    ensures key == KeyRight && c.hexLoc < fileLen ==> Step(c, key, fileLen, rows, cols).cursor.hexLoc == c.hexLoc + 1
  {
  }

  /** The offset stays within the contents for any sequence of keys. */
  lemma {:induction false} RunKeepsOffset(c: Cursor, keys: seq<int>, fileLen: nat, rows: int, cols: int)
    requires 0 <= c.hexLoc <= fileLen
    ensures 0 <= Run(c, keys, fileLen, rows, cols).cursor.hexLoc <= fileLen
    decreases keys
  {
    if keys != [] {
      StepKeepsOffset(c, keys[0], fileLen, rows, cols);
      var s := Step(c, keys[0], fileLen, rows, cols);
      if s.outcome == Continue {
        RunKeepsOffset(s.cursor, keys[1..], fileLen, rows, cols);
      }
    }
  }

  /** Toggling into the description and back restores the cursor and the
      pane, and leaves the offset alone. */
  lemma ToggleTwice(c: Cursor, rows: int, cols: int)
    requires c.inHex
    ensures !Toggled(c, rows, cols).inHex
    ensures var d := Toggled(Toggled(c, rows, cols), rows, cols);
            d.curX == c.curX && d.curY == c.curY && d.inHex && d.hexLoc == c.hexLoc
  {
  }

  /** Keys other than q, tab and the arrows change nothing. */
  lemma OtherKeys(c: Cursor, key: int, fileLen: nat, rows: int, cols: int)
    requires key != KeyQuit && key != KeyTab && !IsArrow(key)
    ensures Step(c, key, fileLen, rows, cols) == Stepped(c, Continue)
  {
  }

  /** DOWN then UP returns to the same offset and row when DOWN moved a line;
      RIGHT then LEFT does the same for a byte. */
  lemma ArrowsUndo(c: Cursor, fileLen: nat, rows: int, cols: int)
    requires 0 <= c.hexLoc
    ensures c.hexLoc < fileLen - 16 ==>
              var d := Step(Step(c, KeyDown, fileLen, rows, cols).cursor, KeyUp, fileLen, rows, cols).cursor;
              d.hexLoc == c.hexLoc && d.curY == c.curY && d.curX == c.curX
    ensures c.hexLoc < fileLen ==>
              var d := Step(Step(c, KeyRight, fileLen, rows, cols).cursor, KeyLeft, fileLen, rows, cols).cursor;
              d.hexLoc == c.hexLoc && d.curY == c.curY && d.curX == c.curX
  {
  }

  /** The curses main window's state. */
  class MainWindow {
    /** `len(hexfile.fileContents)`. */
    const fileLen: nat
    /** `getmaxyx()`: the window's rows and columns. */
    const rows: int
    const cols: int
    var hexLoc: int
    var curX: int
    var curY: int
    var inHex: bool
    var savedX: int
    var savedY: int

    /** The state `__init__` sets up before the event loop: cursor at the
      origin, in the hex pane, at offset 0. The saved position is not set
      until the first toggle; it starts at the origin here. */
    constructor (fileLen: nat, rows: int, cols: int)
      ensures this.fileLen == fileLen && this.rows == rows && this.cols == cols
      ensures State() == Cursor(0, 0, 0, true, 0, 0)
    {
      this.fileLen := fileLen;
      this.rows := rows;
      this.cols := cols;
      hexLoc, curX, curY, inHex := 0, 0, 0, true;
      savedX, savedY := 0, 0;
    }

    function State(): Cursor
      reads this
    {
      Cursor(hexLoc, curX, curY, inHex, savedX, savedY)
    }

    method ToggleWindow()
      modifies this
      ensures State() == Toggled(old(State()), rows, cols)
    {
      if inHex {
        inHex := false;
        savedX := curX;
        savedY := curY;
        curX := cols;
        curY := rows;
      } else {
        inHex := true;
        curX := savedX;
        curY := savedY;
      }
    }

    /** One pass of the event loop's body for `key`. */
    method HandleKey(key: int) returns (outcome: StepOutcome)
      modifies this
      ensures Stepped(State(), outcome) == Step(old(State()), key, fileLen, rows, cols)
    {
      outcome := Continue;
      if key == KeyQuit {
        outcome := Quit;
      } else if key == KeyTab {
        ToggleWindow();
      } else if key == KeyUp {
        if hexLoc >= 16 {
          hexLoc := hexLoc - 16;
        }
        curY := curY - 1;
      } else if key == KeyDown {
        if hexLoc < fileLen - 16 {
          hexLoc := hexLoc + 16;
        }
        curY := curY + 1;
      } else if key == KeyLeft {
        if hexLoc > 0 {
          hexLoc := hexLoc - 1;
        }
        curX := curX - 1;
      } else if key == KeyRight {
        if hexLoc < fileLen {
          hexLoc := hexLoc + 1;
        }
        curX := curX + 1;
      }
      if IsArrow(key) && !OnScreen(State(), rows, cols) {
        outcome := MoveFailed;
      }
    }

    /** The event loop over the keys `getch` returns, until q or a curses
      error. */
    method EventLoop(keys: seq<int>) returns (end: SessionEnd)
      modifies this
      ensures Session(State(), end) == Run(old(State()), keys, fileLen, rows, cols)
      ensures 0 <= old(hexLoc) <= fileLen ==> 0 <= hexLoc <= fileLen
    {
      if 0 <= hexLoc <= fileLen {
        RunKeepsOffset(State(), keys, fileLen, rows, cols);
      }
      var i := 0;
      while i < |keys|
        invariant 0 <= i <= |keys|
        invariant Run(State(), keys[i..], fileLen, rows, cols) == Run(old(State()), keys, fileLen, rows, cols)
      {
        var outcome := HandleKey(keys[i]);
        if outcome == Quit {
          return Quitted;
        }
        if outcome == MoveFailed {
          return Failed;
        }
        assert keys[i..][1..] == keys[i + 1..];
        i := i + 1;
      }
      end := Running;
    }
  }
}
