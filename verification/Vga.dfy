/** Text laid out on an unbounded log of rows: what the screen is a window on. */
module TextLog {
  import opened Prelude

  const NEWLINE: Byte := 10
  const WIDTH: nat := 80
  const HEIGHT: nat := 25

  /** The lines of a text, without the newlines that end all but the last of them. */
  function Lines(text: seq<Byte>): (r: seq<seq<Byte>>)
    ensures r != []
  {
    if text == [] then [[]]
    else if text[0] == NEWLINE then [[]] + Lines(text[1..])
    else Prefix(text[0], Lines(text[1..]))
  }

  function Join(lines: seq<seq<Byte>>): (r: seq<Byte>)
    requires lines != []
  {
    if |lines| == 1 then lines[0] else lines[0] + [NEWLINE] + Join(lines[1..])
  }

  /** A line cut into rows of the screen width; an empty line still takes a row. */
  function Wrap(line: seq<Byte>): (r: seq<seq<Byte>>)
    ensures r != []
  {
    if |line| <= WIDTH then [line] else [line[..WIDTH]] + Wrap(line[WIDTH..])
  }

  function WrapAll(lines: seq<seq<Byte>>): (r: seq<seq<Byte>>)
    ensures lines != [] ==> r != []
  {
    if lines == [] then [] else Wrap(lines[0]) + WrapAll(lines[1..])
  }

  /** The rows a text occupies. */
  function Layout(text: seq<Byte>): (r: seq<seq<Byte>>)
    ensures r != []
  {
    WrapAll(Lines(text))
  }

  /** Splitting into lines loses nothing, and no line holds a newline. */
  lemma {:induction false} LinesSplit(text: seq<Byte>)
    ensures Join(Lines(text)) == text
    ensures forall i :: 0 <= i < |Lines(text)| ==> NEWLINE !in Lines(text)[i]
  {
    if text != [] {
      var rest := Lines(text[1..]);
      LinesSplit(text[1..]);
      assert text == [text[0]] + text[1..];
      if text[0] == NEWLINE {
        assert ([[]] + rest)[1..] == rest;
      } else {
        assert ([[text[0]] + rest[0]] + rest[1..])[1..] == rest[1..];
      }
    }
  }

  /** Wrapping a line loses nothing, and every row but the last is full. */
  lemma {:induction false} WrapFillsRows(line: seq<Byte>)
    ensures Concat(Wrap(line)) == line
    ensures forall i :: 0 <= i < |Wrap(line)| - 1 ==> |Wrap(line)[i]| == WIDTH
    ensures line != [] ==> Wrap(line)[|Wrap(line)| - 1] != []
  {
    if |line| > WIDTH {
      WrapFillsRows(line[WIDTH..]);
      assert Wrap(line)[1..] == Wrap(line[WIDTH..]);
    } else {
      assert Wrap(line)[1..] == [];
    }
  }

  function Concat(rows: seq<seq<Byte>>): (r: seq<Byte>) {
    if rows == [] then [] else rows[0] + Concat(rows[1..])
  }

  function Last(rows: seq<seq<Byte>>): (r: seq<Byte>)
    requires rows != []
  {
    rows[|rows| - 1]
  }

  /** What one more byte does to laid-out rows: a full row is only left when another character comes. */
  function Extend(rows: seq<seq<Byte>>, b: Byte): (r: seq<seq<Byte>>)
    requires rows != []
  {
    if b == NEWLINE then rows + [[]]
    else if |Last(rows)| == WIDTH then rows + [[b]]
    else rows[..|rows| - 1] + [Last(rows) + [b]]
  }

  /** What one more byte does to the lines of a text. */
  function MoreLines(lines: seq<seq<Byte>>, b: Byte): (r: seq<seq<Byte>>)
    requires lines != []
  {
    if b == NEWLINE then lines + [[]] else lines[..|lines| - 1] + [Last(lines) + [b]]
  }

  /** Prefixing a character to the first line. */
  function Prefix(c: Byte, lines: seq<seq<Byte>>): (r: seq<seq<Byte>>)
    requires lines != []
    ensures r != []
  {
    [[c] + lines[0]] + lines[1..]
  }

  lemma {:induction false} PrefixMore(c: Byte, lines: seq<seq<Byte>>, b: Byte)
    requires lines != []
    ensures Prefix(c, MoreLines(lines, b)) == MoreLines(Prefix(c, lines), b)
  {
    if |lines| == 1 { assert [c] + (lines[0] + [b]) == ([c] + lines[0]) + [b]; }
  }

  lemma {:induction false} LinesExtend(text: seq<Byte>, b: Byte)
    ensures Lines(text + [b]) == MoreLines(Lines(text), b)
  {
    var more := text + [b];
    if text == [] {
      assert more == [b] && more[1..] == [];
      assert Lines([]) == [[]] && [b] + [] == [] + [b];
    } else {
      assert more[1..] == text[1..] + [b] && more[0] == text[0];
      LinesExtend(text[1..], b);
      PrefixMore(text[0], Lines(text[1..]), b);
      assert text[0] == NEWLINE ==> [[]] + MoreLines(Lines(text[1..]), b) == MoreLines([[]] + Lines(text[1..]), b);
    }
  }

  lemma {:induction false} WrapExtend(line: seq<Byte>, b: Byte)
    requires b != NEWLINE
    ensures Wrap(line + [b]) == Extend(Wrap(line), b)
  {
    if |line| > WIDTH {
      assert (line + [b])[WIDTH..] == line[WIDTH..] + [b];
      assert (line + [b])[..WIDTH] == line[..WIDTH];
      WrapExtend(line[WIDTH..], b);
      assert Last(Wrap(line)) == Last(Wrap(line[WIDTH..]));
    } else if |line| == WIDTH {
      assert (line + [b])[WIDTH..] == [b];
      assert (line + [b])[..WIDTH] == line;
    }
  }

  lemma {:induction false} WrapAllAppend(a: seq<seq<Byte>>, b: seq<seq<Byte>>)
    ensures WrapAll(a + b) == WrapAll(a) + WrapAll(b)
  {
    if a == [] {
      assert a + b == b;
    } else {
      assert (a + b)[1..] == a[1..] + b;
      WrapAllAppend(a[1..], b);
    }
  }

  lemma {:induction false} WrapAllSingle(line: seq<Byte>)
    ensures WrapAll([line]) == Wrap(line)
  {
  }

  lemma {:induction false} WrapAllLast(front: seq<seq<Byte>>, last: seq<Byte>)
    ensures WrapAll(front + [last]) == WrapAll(front) + Wrap(last)
  {
    WrapAllAppend(front, [last]);
    WrapAllSingle(last);
  }

  lemma {:induction false} ExtendAfter(a: seq<seq<Byte>>, r: seq<seq<Byte>>, b: Byte)
    requires r != []
    ensures Extend(a + r, b) == a + Extend(r, b)
  {
  }

  lemma {:induction false} WrapAllExtend(lines: seq<seq<Byte>>, b: Byte)
    requires lines != []
    ensures WrapAll(MoreLines(lines, b)) == Extend(WrapAll(lines), b)
  {
    var front, last := lines[..|lines| - 1], Last(lines);
    assert lines == front + [last];
    WrapAllLast(front, last);
    if b == NEWLINE {
      WrapAllLast(lines, []);
    } else {
      WrapAllLast(front, last + [b]);
      WrapExtend(last, b);
      ExtendAfter(WrapAll(front), Wrap(last), b);
    }
  }

  /** One byte at a time gives the same rows as laying out the whole text. */
  lemma {:induction false} LayoutExtend(text: seq<Byte>, b: Byte)
    ensures Layout(text + [b]) == Extend(Layout(text), b)
  {
    LinesExtend(text, b);
    WrapAllExtend(Lines(text), b);
  }

  /** The text without its newlines. */
  function Visible(text: seq<Byte>): (r: seq<Byte>) {
    if text == [] then []
    else Visible(text[..|text| - 1]) + (if text[|text| - 1] == NEWLINE then [] else [text[|text| - 1]])
  }

  lemma {:induction false} ConcatSum(a: seq<seq<Byte>>, b: seq<seq<Byte>>)
    ensures Concat(a + b) == Concat(a) + Concat(b)
  {
    if a == [] {
      assert a + b == b;
    } else {
      assert (a + b)[1..] == a[1..] + b;
      ConcatSum(a[1..], b);
    }
  }

  lemma {:induction false} ConcatExtend(rows: seq<seq<Byte>>, b: Byte)
    requires rows != []
    ensures Concat(Extend(rows, b)) == Concat(rows) + (if b == NEWLINE then [] else [b])
  {
    var front, last := rows[..|rows| - 1], Last(rows);
    assert rows == front + [last];
    ConcatSum(front, [last]);
    ConcatSum(front, [last + [b]]);
    ConcatSum(rows, [[]]);
    ConcatSum(rows, [[b]]);
    assert forall r: seq<Byte> :: Concat([r]) == r;
  }

  /** The rows hold the characters of the text, all of them and in order, in rows of at most the screen width. */
  lemma {:induction false} LayoutHoldsText(text: seq<Byte>)
    ensures Concat(Layout(text)) == Visible(text)
    ensures forall i :: 0 <= i < |Layout(text)| ==> |Layout(text)[i]| <= WIDTH
  {
    if text == [] {
      WrapAllSingle([]);
    } else {
      var n := |text| - 1;
      LayoutHoldsText(text[..n]);
      LayoutExtend(text[..n], text[n]);
      assert text[..n] + [text[n]] == text;
      ConcatExtend(Layout(text[..n]), text[n]);
    }
  }

  /** Eighty characters and then a newline leave no blank row behind. */
  lemma {:induction false} FullLineLeavesNoBlankRow(line: seq<Byte>, text: seq<Byte>)
    requires |line| == WIDTH && NEWLINE !in line
    ensures Layout(line + [NEWLINE] + text) == [line] + Layout(text)
  {
    FirstLine(line, text);
    assert ([line] + Lines(text))[1..] == Lines(text);
  }

  lemma {:induction false} FirstLine(line: seq<Byte>, text: seq<Byte>)
    requires NEWLINE !in line
    ensures Lines(line + [NEWLINE] + text) == [line] + Lines(text)
  {
    var whole := line + [NEWLINE] + text;
    if line == [] {
      assert whole[1..] == text;
    } else {
      assert whole[1..] == line[1..] + [NEWLINE] + text;
      FirstLine(line[1..], text);
      assert [line[0]] + line[1..] == line;
    }
  }
}

/** The VGA text buffer: an in-place scrolling array. */
module Vga {
  import opened Prelude
  import opened TextLog

  datatype ScreenChar = ScreenChar(ascii: Byte, color: Byte)

  const SPACE: Byte := 32
  const BLOCK: Byte := 0xfe

  /** Row `k`, column `c` of the unbounded log: the initial screen, its last row overwritten by the text. */
  function LogCell(initial: seq<seq<ScreenChar>>, color: Byte, rows: seq<seq<Byte>>, k: nat, c: nat): (r: ScreenChar)
    requires |initial| == HEIGHT && forall i :: 0 <= i < HEIGHT ==> |initial[i]| == WIDTH
    requires rows != [] && k < HEIGHT - 1 + |rows| && c < WIDTH
  {
    if k < HEIGHT - 1 then initial[k][c]
    else if c < |rows[k - (HEIGHT - 1)]| then ScreenChar(rows[k - (HEIGHT - 1)][c], color)
    else if k == HEIGHT - 1 then initial[k][c]
    else ScreenChar(SPACE, color)
  }

  /** One more row moves the window of the log by one and puts a blank row below it. */
  lemma {:induction false} LogScrolls(initial: seq<seq<ScreenChar>>, color: Byte, rows: seq<seq<Byte>>, r: nat, c: nat)
    requires |initial| == HEIGHT && forall i :: 0 <= i < HEIGHT ==> |initial[i]| == WIDTH
    requires rows != [] && r < HEIGHT && c < WIDTH
    ensures LogCell(initial, color, rows + [[]], |rows| + r, c)
      == if r < HEIGHT - 1 then LogCell(initial, color, rows, |rows| + r, c) else ScreenChar(SPACE, color)
  {
  }

  function Sanitize(b: Byte): (r: Byte)
    ensures r == BLOCK || r == NEWLINE || 0x20 <= r <= 0x7e
    ensures r == b <==> b == NEWLINE || b == BLOCK || 0x20 <= b <= 0x7e
    ensures r == b || r == BLOCK
  {
    if 0x20 <= b <= 0x7e || b == NEWLINE then b else BLOCK
  }

  function Sanitized(s: seq<Byte>): (r: seq<Byte>)
    ensures |r| == |s| && forall i :: 0 <= i < |r| ==> r[i] == Sanitize(s[i])
  {
    seq(|s|, i requires 0 <= i < |s| => Sanitize(s[i]))
  }

  lemma {:induction false} SanitizedNext(s: seq<Byte>, i: nat)
    requires i < |s|
    ensures Sanitized(s[..i + 1]) == Sanitized(s[..i]) + [Sanitize(s[i])]
  {
  }

  class Writer {
    var column: nat
    const color: Byte
    const chars: array2<ScreenChar>
    ghost const initial: seq<seq<ScreenChar>>
    ghost var written: seq<Byte>

    ghost predicate Shaped() {
      && chars.Length0 == HEIGHT && chars.Length1 == WIDTH
      && |initial| == HEIGHT && forall i :: 0 <= i < HEIGHT ==> |initial[i]| == WIDTH
    }

    /** The array holds the last rows of the log with the given text rows, and the column is the end of the last. */
    ghost predicate Shows(rows: seq<seq<Byte>>)
      requires rows != []
      reads this`column, chars
    {
      && Shaped()
      && column == |Last(rows)| <= WIDTH
      && forall r, c :: 0 <= r < HEIGHT && 0 <= c < WIDTH ==>
           chars[r, c] == LogCell(initial, color, rows, |rows| - 1 + r, c)
    }

    /** The screen refines the log of everything written so far. */
    ghost predicate Valid()
      reads this`column, this`written, chars
    {
      Shows(Layout(written))
    }

    constructor (buffer: array2<ScreenChar>, color: Byte)
      requires buffer.Length0 == HEIGHT && buffer.Length1 == WIDTH
      ensures Valid() && written == [] && chars == buffer && this.color == color
      ensures forall r, c :: 0 <= r < HEIGHT && 0 <= c < WIDTH ==> initial[r][c] == buffer[r, c]
    {
      column := 0;
      this.color := color;
      chars := buffer;
      written := [];
      initial := seq(HEIGHT, r requires 0 <= r < HEIGHT reads buffer =>
        seq(WIDTH, c requires 0 <= c < WIDTH reads buffer => buffer[r, c]));
      new;
      assert Layout([]) == [[]] by {
        WrapAllSingle([]);
      }
    }

    method ClearRow(row: nat)
      requires chars.Length0 == HEIGHT && chars.Length1 == WIDTH && row < HEIGHT
      modifies chars
      ensures forall r, c :: 0 <= r < HEIGHT && 0 <= c < WIDTH ==>
        chars[r, c] == if r == row then ScreenChar(SPACE, color) else old(chars[r, c])
    {
      for col := 0 to WIDTH
        invariant forall r, c :: 0 <= r < HEIGHT && 0 <= c < WIDTH ==>
          chars[r, c] == if r == row && c < col then ScreenChar(SPACE, color) else old(chars[r, c])
      {
        chars[row, col] := ScreenChar(SPACE, color);
      }
    }

    /** Copies every row one up; the last row stays. */
    method ShiftUp()
      requires chars.Length0 == HEIGHT && chars.Length1 == WIDTH
      modifies chars
      ensures forall r, c :: 0 <= r < HEIGHT && 0 <= c < WIDTH ==>
        chars[r, c] == if r < HEIGHT - 1 then old(chars[r + 1, c]) else old(chars[r, c])
    {
      for row := 1 to HEIGHT
        invariant forall r, c :: 0 <= r < HEIGHT && 0 <= c < WIDTH ==>
          chars[r, c] == if r < row - 1 then old(chars[r + 1, c]) else old(chars[r, c])
      {
        for col := 0 to WIDTH
          invariant forall r, c :: 0 <= r < HEIGHT && 0 <= c < WIDTH ==>
            chars[r, c] == if r < row - 1 || (r == row - 1 && c < col) then old(chars[r + 1, c]) else old(chars[r, c])
        {
          var character := chars[row, col];
          chars[row - 1, col] := character;
        }
      }
    }

    method NewLine(ghost rows: seq<seq<Byte>>)
      requires rows != [] && Shows(rows)
      modifies chars, this`column
      ensures Shows(rows + [[]])
    {
      ShiftUp();
      ClearRow(HEIGHT - 1);
      column := 0;
      forall r, c | 0 <= r < HEIGHT && 0 <= c < WIDTH
        ensures chars[r, c] == LogCell(initial, color, rows + [[]], |rows| + r, c)
      {
        LogScrolls(initial, color, rows, r, c);
      }
    }

    method Put(b: Byte, ghost rows: seq<seq<Byte>>)
      requires rows != [] && Shows(rows) && column < WIDTH
      modifies chars, this`column
      ensures Shows(rows[..|rows| - 1] + [Last(rows) + [b]])
    {
      var row, col := HEIGHT - 1, column;
      chars[row, col] := ScreenChar(b, color);
      column := column + 1;
    }

    /** The branches of `write_byte`, on whatever rows the screen shows. */
    method Advance(b: Byte, ghost rows: seq<seq<Byte>>)
      requires rows != [] && Shows(rows)
      modifies chars, this`column
      ensures Shows(Extend(rows, b))
    {
      if b == NEWLINE {
        NewLine(rows);
      } else if column >= WIDTH {
        NewLine(rows);
        assert Last(rows + [[]]) == [] && (rows + [[]])[..|rows|] == rows;
        Put(b, rows + [[]]);
        assert [] + [b] == [b];
      } else {
        Put(b, rows);
      }
    }

    /** A byte written is a byte added to the log. */
    method WriteByte(b: Byte)
      requires Valid()
      modifies chars, this`column, this`written
      ensures Valid() && written == old(written) + [b]
      ensures b != NEWLINE ==> 1 <= column <= WIDTH && chars[HEIGHT - 1, column - 1] == ScreenChar(b, color)
      ensures b == NEWLINE ==>
        column == 0 && forall r, c :: r == HEIGHT - 1 && 0 <= c < WIDTH ==> chars[r, c] == ScreenChar(SPACE, color)
    {
      Advance(b, Layout(written));
      LayoutExtend(written, b);
      written := written + [b];
    }

    method WriteString(s: seq<Byte>)
      requires Valid()
      modifies chars, this`column, this`written
      ensures Valid() && written == old(written) + Sanitized(s)
    {
      for i := 0 to |s|
        invariant Valid() && written == old(written) + Sanitized(s[..i])
      {
        SanitizedNext(s, i);
        if (0x20 <= s[i] <= 0x7e) || s[i] == NEWLINE {
          WriteByte(s[i]);
        } else {
          WriteByte(BLOCK);
        }
      }
      assert s[..|s|] == s;
    }

    /** `print_bytes`: the raw bytes, unsanitized. */
    method PrintBytes(bytes: seq<Byte>)
      requires Valid()
      modifies chars, this`column, this`written
      ensures Valid() && written == old(written) + bytes
    {
      for i := 0 to |bytes|
        invariant Valid() && written == old(written) + bytes[..i]
      {
        WriteByte(bytes[i]);
      }
    }
  }

  /**
   * What the screen shows, cell by cell: row `r` of the screen is row `k` of the text counted back from
   * its last row at the bottom, its characters from the left in the writer's colour, and blanks after
   * them. Only the rows above the text, and the rest of its first row, are what was there before.
   */
  lemma {:induction false} ScreenShows(w: Writer, r: nat, c: nat)
    requires w.Valid() && r < HEIGHT && c < WIDTH
    ensures var rows := Layout(w.written); var k := |rows| - HEIGHT + r;
      && w.chars.Length0 == HEIGHT && w.chars.Length1 == WIDTH && w.column == |Last(rows)|
      && (k >= 0 && c < |rows[k]| ==> w.chars[r, c] == ScreenChar(rows[k][c], w.color))
      && (k > 0 && c >= |rows[k]| ==> w.chars[r, c] == ScreenChar(SPACE, w.color))
  {
  }
}
