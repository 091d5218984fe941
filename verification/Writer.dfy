/** The VGA text writer: a 25 by 80 buffer, scrolled in place, is a window on the unbounded canvas. */
module VgaWriter {
  import opened Collections
  import opened TextLayout

  /** What `write_string` passes on for a byte outside the printable range. */
  function Printable(b: nat): nat {
    if 0x20 <= b <= 0x7e || b == NEWLINE then b else 0xfe
  }

  ghost predicate OnlyPrinted(text: seq<nat>) {
    forall b :: b in text ==> b == 10 || 0x20 <= b <= 0x7e || b == 0xfe
  }

  class Writer {
    var rowPosition: nat
    var columnPosition: nat
    const colorCode: nat
    const buffer: array2<ScreenChar>

    /** All bytes written so far, and the rows they have filled. */
    ghost var text: seq<nat>
    ghost var rows: seq<seq<nat>>
    ghost const initial: Grid

    /** The screen and the cursor show the last 25 rows of the canvas. */
    ghost predicate Displays()
      reads this, buffer
    {
      && buffer.Length0 == HEIGHT && buffer.Length1 == WIDTH
      && rows != []
      && rowPosition == Min(|rows| - 1, HEIGHT - 1)
      && columnPosition == |rows[|rows| - 1]| <= WIDTH
      && forall i, j :: 0 <= i < HEIGHT && 0 <= j < WIDTH ==>
           buffer[i, j] == CanvasCell(initial, colorCode, rows, WindowTop(rows) + i, j)
    }

    ghost predicate Valid()
      reads this, buffer
    {
      Displays() && rows == Layout(text)
    }

    constructor (buffer: array2<ScreenChar>, colorCode: nat, ghost initial: Grid)
      requires buffer.Length0 == HEIGHT && buffer.Length1 == WIDTH
      requires forall i, j :: 0 <= i < HEIGHT && 0 <= j < WIDTH ==> buffer[i, j] == initial(i, j)
      ensures Valid() && text == [] && rowPosition == columnPosition == 0
      ensures this.buffer == buffer && this.colorCode == colorCode && this.initial == initial
    {
      rowPosition, columnPosition := 0, 0;
      this.buffer, this.colorCode, this.initial := buffer, colorCode, initial;
      text, rows := [], [[]];
      assert LineEnd([]) == 0 && Chunk([]) == [[]];
    }

    /** Blanks one row and leaves the others. */
    method ClearRow(row: nat)
      requires row < buffer.Length0
      modifies buffer
      ensures forall i, j :: 0 <= i < buffer.Length0 && 0 <= j < buffer.Length1 ==>
                buffer[i, j] == if i == row then ScreenChar(0x20, colorCode) else old(buffer[i, j])
    {
      var blank := ScreenChar(0x20, colorCode);
      for col := 0 to buffer.Length1
        invariant forall i, j :: 0 <= i < buffer.Length0 && 0 <= j < buffer.Length1 ==>
                    buffer[i, j] == if i == row && j < col then blank else old(buffer[i, j])
      {
        buffer[row, col] := blank;
      }
    }

    /** Moves every row up by one, overwriting the first, and blanks the last. */
    method Scroll()
      requires buffer.Length0 == HEIGHT && buffer.Length1 == WIDTH
      modifies buffer
      ensures forall i, j :: 0 <= i < HEIGHT && 0 <= j < WIDTH ==>
                buffer[i, j] == if i < HEIGHT - 1 then old(buffer[i + 1, j]) else ScreenChar(0x20, colorCode)
    {
      for row := 1 to HEIGHT
        invariant forall i, j {:trigger buffer[i, j]} :: 0 <= i < HEIGHT && 0 <= j < WIDTH ==>
                    buffer[i, j] == if i < row - 1 then old(buffer[i + 1, j]) else old(buffer[i, j])
      {
        for col := 0 to WIDTH
          invariant forall i, j {:trigger buffer[i, j]} :: 0 <= i < HEIGHT && 0 <= j < WIDTH ==>
                      buffer[i, j] == if i < row - 1 || (i == row - 1 && j < col) then old(buffer[i + 1, j])
                                      else old(buffer[i, j])
        {
          var character := buffer[row, col];
          buffer[row - 1, col] := character;
        }
      }
      ClearRow(HEIGHT - 1);
    }

    /** Opens a row: the cursor goes down, or the screen goes up. */
    method NewLine()
      requires Displays()
      modifies this, buffer
      ensures Displays() && rows == old(rows) + [[]] && text == old(text)
    {
      hide CanvasCell;
      if rowPosition < HEIGHT - 1 {
        rowPosition := rowPosition + 1;
      } else {
        Scroll();
        rowPosition := HEIGHT - 1;
      }
      columnPosition := 0;
      rows := rows + [[]];
      forall i, j | 0 <= i < HEIGHT && 0 <= j < WIDTH
        ensures buffer[i, j] == CanvasCell(initial, colorCode, rows, WindowTop(rows) + i, j)
      {
        EmptyRowShowsNothing(initial, colorCode, old(rows), WindowTop(rows) + i, j);
        BelowIsBlank(initial, colorCode, old(rows), WindowTop(rows) + i, j);
      }
    }

    /** Writes one byte at the cursor, after opening a row if the last one is full. */
    method WriteByte(byte: nat)
      requires Valid()
      modifies this, buffer
      ensures Valid() && text == old(text) + [byte]
    {
      hide Layout, CanvasCell;
      LayoutSnoc(text, byte);
      assert (rows + [[]])[..|rows|] == rows && [] + [byte] == [byte];
      if byte == NEWLINE {
        NewLine();
      } else {
        if columnPosition >= WIDTH {
          NewLine();
        }
        PutAtCursor(byte);
      }
      text := text + [byte];
    }

    /** Stores a byte in the cell at the cursor and moves the cursor on. */
    method PutAtCursor(byte: nat)
      requires Displays() && columnPosition < WIDTH
      modifies this, buffer
      ensures Displays() && text == old(text)
      ensures rows == old(rows)[..|old(rows)| - 1] + [old(rows)[|old(rows)| - 1] + [byte]]
    {
      buffer[rowPosition, columnPosition] := ScreenChar(byte, colorCode);
      columnPosition := columnPosition + 1;
      var last := |rows| - 1;
      rows := rows[..last] + [rows[last] + [byte]];
      forall i, j | 0 <= i < HEIGHT && 0 <= j < WIDTH
        ensures buffer[i, j] == CanvasCell(initial, colorCode, rows, WindowTop(rows) + i, j)
      {
        LongerRowShows(initial, colorCode, old(rows), byte, WindowTop(rows) + i, j);
      }
    }

    /** Writes the bytes of a string, unprintable ones as 0xfe. */
    method WriteString(s: seq<nat>)
      requires Valid()
      modifies this, buffer
      ensures Valid() && |text| == |old(text)| + |s| && text[..|old(text)|] == old(text)
      ensures forall k :: 0 <= k < |s| ==>
                text[|old(text)| + k] == if s[k] == 10 || 0x20 <= s[k] <= 0x7e then s[k] else 0xfe
      ensures (forall k :: 0 <= k < |s| ==> s[k] == 10 || 0x20 <= s[k] <= 0x7e) ==> text == old(text) + s
      ensures OnlyPrinted(old(text)) ==> OnlyPrinted(text)
    {
      hide Layout, Valid;
      for k := 0 to |s|
        invariant Valid() && |text| == |old(text)| + k && text[..|old(text)|] == old(text)
        invariant forall i :: 0 <= i < k ==> text[|old(text)| + i] == Printable(s[i])
      {
        WriteByte(Printable(s[k]));
      }
      forall b | OnlyPrinted(old(text)) && b in text
        ensures b == 10 || 0x20 <= b <= 0x7e || b == 0xfe
      {
        var i :| 0 <= i < |text| && text[i] == b;
        if i < |old(text)| {
          assert text[..|old(text)|][i] == b && old(text)[i] == b && b in old(text);
        } else {
          assert text[|old(text)| + (i - |old(text)|)] == Printable(s[i - |old(text)|]);
        }
      }
    }

    /** What is seen of bytes that came through `WriteString` is printable, or the mark for what is not. */
    lemma ScreenIsPrinted(i: nat, j: nat)
      requires Valid() && OnlyPrinted(text) && i < HEIGHT && j < WIDTH
      ensures var page, cell := Layout(text), buffer[i, j];
              var row := (if |page| > 25 then |page| - 25 else 0) + i;
              if row < |page| && j < |page[row]| then
                cell.color == colorCode && (0x20 <= cell.ascii <= 0x7e || cell.ascii == 0xfe)
              else cell == if row < 25 then initial(row, j) else ScreenChar(0x20, colorCode)
    {
      hide Layout;
      var row := WindowTop(rows) + i;
      if row < |rows| && j < |rows[row]| {
        PageByte(text, row, j);
      }
    }

    /** What can be read off the screen: the last 25 rows of the layout of everything written. */
    lemma ScreenShowsTail(i: nat, j: nat)
      requires Valid() && i < HEIGHT && j < WIDTH
      ensures rowPosition <= HEIGHT - 1 && columnPosition <= WIDTH
      ensures var page := Layout(text);
              var row := (if |page| > HEIGHT then |page| - HEIGHT else 0) + i;
              && (row < |page| && j < |page[row]| ==> buffer[i, j] == ScreenChar(page[row][j], colorCode))
              && (row < |page| && j >= |page[row]| && row >= HEIGHT ==> buffer[i, j] == ScreenChar(0x20, colorCode))
              && (row < |page| && j >= |page[row]| && row < HEIGHT ==> buffer[i, j] == initial(row, j))
              && (row >= |page| ==> buffer[i, j] == initial(row, j))
    {
      hide Layout;
    }
  }

  lemma EmptyRowShowsNothing(initial: Grid, color: nat, rows: seq<seq<nat>>, i: nat, j: nat)
    ensures CanvasCell(initial, color, rows + [[]], i, j) == CanvasCell(initial, color, rows, i, j)
  {
  }

  lemma BelowIsBlank(initial: Grid, color: nat, rows: seq<seq<nat>>, i: nat, j: nat)
    ensures i >= |rows| && i >= HEIGHT ==> CanvasCell(initial, color, rows, i, j) == ScreenChar(0x20, color)
  {
  }

  lemma LongerRowShows(initial: Grid, color: nat, rows: seq<seq<nat>>, b: nat, i: nat, j: nat)
    requires rows != []
    ensures var last := |rows| - 1;
            CanvasCell(initial, color, rows[..last] + [rows[last] + [b]], i, j)
            == if i == last && j == |rows[last]| then ScreenChar(b, color) else CanvasCell(initial, color, rows, i, j)
  {
  }
}
