/** How a byte stream lies on an unbounded page of 80 columns, line by line. */
module TextLayout {
  import opened Collections

  const HEIGHT: nat := 25
  const WIDTH: nat := 80
  const NEWLINE: nat := 10

  /** One line cut into rows. A line that fills its last row exactly does not open another one. */
  function Chunk(line: seq<nat>): (rows: seq<seq<nat>>)
    ensures rows != []
  {
    if |line| <= WIDTH then [line] else [line[..WIDTH]] + Chunk(line[WIDTH..])
  }

  /** The position of the first newline, or the end of the text. */
  function LineEnd(text: seq<nat>): (k: nat)
    ensures k <= |text| && NEWLINE !in text[..k]
    ensures k < |text| ==> text[k] == NEWLINE
  {
    if text == [] || text[0] == NEWLINE then 0 else 1 + LineEnd(text[1..])
  }

  /** The rows of a text: each line cut into rows of its own. */
  function Layout(text: seq<nat>): (rows: seq<seq<nat>>)
    ensures rows != []
    decreases |text|
  {
    var k := LineEnd(text);
    if k == |text| then Chunk(text) else Chunk(text[..k]) + Layout(text[k + 1..])
  }

  /** The rows after one more byte: a new row for a newline or after a full row, or a longer last row. */
  function Extend(rows: seq<seq<nat>>, b: nat): seq<seq<nat>>
    requires rows != []
  {
    var last := |rows| - 1;
    if b == NEWLINE then rows + [[]]
    else if |rows[last]| >= WIDTH then rows + [[b]]
    else rows[..last] + [rows[last] + [b]]
  }

  lemma ExtendAppend(above: seq<seq<nat>>, rows: seq<seq<nat>>, b: nat)
    requires rows != []
    ensures Extend(above + rows, b) == above + Extend(rows, b)
  {
    var all := above + rows;
    assert all[|all| - 1] == rows[|rows| - 1];
    assert all[..|all| - 1] == above + rows[..|rows| - 1];
  }

  lemma {:induction false} ChunkSnoc(line: seq<nat>, b: nat)
    requires b != NEWLINE
    ensures Chunk(line + [b]) == Extend(Chunk(line), b)
    decreases |line|
  {
    var more := line + [b];
    if |line| < WIDTH {
      assert Extend([line], b) == [line + [b]];
    } else if |line| == WIDTH {
      assert more[..WIDTH] == line && more[WIDTH..] == [b];
    } else {
      ChunkSnoc(line[WIDTH..], b);
      assert more[..WIDTH] == line[..WIDTH] && more[WIDTH..] == line[WIDTH..] + [b];
      ExtendAppend([line[..WIDTH]], Chunk(line[WIDTH..]), b);
    }
  }

  lemma LineEndUnique(text: seq<nat>, k: nat)
    requires k <= |text| && NEWLINE !in text[..k]
    requires k == |text| || text[k] == NEWLINE
    ensures LineEnd(text) == k
  {
  }

  /** Laying out one byte more extends the layout: the page can be filled as the bytes arrive. */
  lemma {:induction false} LayoutSnoc(text: seq<nat>, b: nat)
    ensures Layout(text + [b]) == Extend(Layout(text), b)
    decreases |text|
  {
    hide LineEnd;
    var more, k := text + [b], LineEnd(text);
    assert more[..k] == text[..k];
    if k < |text| {
      LineEndUnique(more, k);
      assert more[k + 1..] == text[k + 1..] + [b];
      LayoutSnoc(text[k + 1..], b);
      ExtendAppend(Chunk(text[..k]), Layout(text[k + 1..]), b);
    } else if b == NEWLINE {
      assert text[..k] == text;
      LineEndUnique(more, k);
      assert more[k + 1..] == [];
      LineEndUnique([], 0);
    } else {
      assert text[..k] == text;
      assert more[..|more|] == more;
      LineEndUnique(more, |more|);
      ChunkSnoc(text, b);
    }
  }

  // ----- what the layout keeps

  function Flatten(rows: seq<seq<nat>>): seq<nat> {
    if rows == [] then [] else rows[0] + Flatten(rows[1..])
  }

  function WithoutNewlines(text: seq<nat>): seq<nat> {
    if text == [] then []
    else (if text[0] == NEWLINE then [] else [text[0]]) + WithoutNewlines(text[1..])
  }

  lemma {:induction false} FlattenAppend(a: seq<seq<nat>>, b: seq<seq<nat>>)
    ensures Flatten(a + b) == Flatten(a) + Flatten(b)
  {
    if a == [] {
      assert a + b == b;
    } else {
      FlattenAppend(a[1..], b);
      assert (a + b)[0] == a[0] && (a + b)[1..] == a[1..] + b;
      ConcatAssociates(a[0], Flatten(a[1..]), Flatten(b));
    }
  }

  /** A line keeps its bytes in order, in rows of at most 80, all but the last of them full. */
  lemma {:induction false} ChunkKeeps(line: seq<nat>)
    ensures Flatten(Chunk(line)) == line
    ensures forall i :: 0 <= i < |Chunk(line)| ==> |Chunk(line)[i]| <= WIDTH
    ensures forall i :: 0 <= i < |Chunk(line)| - 1 ==> |Chunk(line)[i]| == WIDTH
    ensures |line| > 0 ==> |Chunk(line)[|Chunk(line)| - 1]| > 0
    decreases |line|
  {
    if |line| <= WIDTH {
      assert [line][1..] == [];
    } else {
      var first, rest := line[..WIDTH], Chunk(line[WIDTH..]);
      ChunkKeeps(line[WIDTH..]);
      assert Chunk(line)[1..] == rest;
      assert line == first + line[WIDTH..];
    }
  }

  lemma {:induction false} NewlinesSplit(a: seq<nat>, b: seq<nat>)
    ensures WithoutNewlines(a + b) == WithoutNewlines(a) + WithoutNewlines(b)
  {
    if a == [] {
      assert a + b == b;
    } else {
      NewlinesSplit(a[1..], b);
      assert (a + b)[0] == a[0] && (a + b)[1..] == a[1..] + b;
      ConcatAssociates(if a[0] == NEWLINE then [] else [a[0]], WithoutNewlines(a[1..]), WithoutNewlines(b));
    }
  }

  lemma {:induction false} NoNewlines(line: seq<nat>)
    requires NEWLINE !in line
    ensures WithoutNewlines(line) == line
  {
    if line != [] {
      NoNewlines(line[1..]);
    }
  }

  lemma NewlineDropped(text: seq<nat>)
    ensures WithoutNewlines([NEWLINE] + text) == WithoutNewlines(text)
  {
    assert ([NEWLINE] + text)[1..] == text;
  }

  /** Every byte that is not a newline is on the page, in order, and no row is longer than 80. */
  lemma {:induction false} LayoutKeeps(text: seq<nat>)
    ensures Flatten(Layout(text)) == WithoutNewlines(text)
    ensures forall i :: 0 <= i < |Layout(text)| ==> |Layout(text)[i]| <= WIDTH
    decreases |text|
  {
    hide LineEnd, Chunk, Flatten, WithoutNewlines;
    var k := LineEnd(text);
    var line := text[..k];
    ChunkKeeps(line);
    NoNewlines(line);
    if k < |text| {
      var rest := text[k + 1..];
      LayoutKeeps(rest);
      FlattenAppend(Chunk(line), Layout(rest));
      assert text == line + ([NEWLINE] + rest);
      NewlinesSplit(line, [NEWLINE] + rest);
      NewlineDropped(rest);
    } else {
      assert line == text;
    }
  }

  // ----- the closed form of the layout

  /** A newline ends its line: what follows is laid out from a new row on. */
  lemma {:induction false} NewlineSplitsLayout(a: seq<nat>, b: seq<nat>)
    ensures Layout(a + [10] + b) == Layout(a) + Layout(b)
    decreases |a|
  {
    hide LineEnd, Chunk;
    var all, k := a + [10] + b, LineEnd(a);
    assert all[..k] == a[..k];
    LineEndUnique(all, k);
    if k < |a| {
      var rest := a[k + 1..];
      assert all[k + 1..] == rest + [10] + b;
      NewlineSplitsLayout(rest, b);
      ConcatAssociates(Chunk(a[..k]), Layout(rest), Layout(b));
    } else {
      assert all[k + 1..] == b && a[..k] == a;
    }
  }

  /** The rows that a line of this length takes. */
  function RowsOfLine(length: nat): nat {
    if length == 0 then 1 else (length + 79) / 80
  }

  /** Row i of a line is its bytes from 80 * i on, at most 80 of them. */
  lemma {:induction false} ChunkCloses(line: seq<nat>, i: nat)
    ensures |Chunk(line)| == RowsOfLine(|line|)
    ensures i < |Chunk(line)| ==> 80 * i <= |line| && Chunk(line)[i] == line[80 * i..Min(80 * i + 80, |line|)]
    decreases |line|
  {
    if |line| > WIDTH {
      var rest := line[WIDTH..];
      ChunkCloses(rest, if i > 0 then i - 1 else 0);
      if 0 < i < |Chunk(line)| {
        assert Chunk(line)[i] == Chunk(rest)[i - 1];
      }
    }
  }

  /** A text without newlines is one line. */
  lemma OneLine(line: seq<nat>, i: nat)
    requires 10 !in line
    ensures |Layout(line)| == RowsOfLine(|line|)
    ensures i < |Layout(line)| ==> 80 * i <= |line| && Layout(line)[i] == line[80 * i..Min(80 * i + 80, |line|)]
  {
    hide Chunk, LineEnd;
    assert line[..|line|] == line;
    LineEndUnique(line, |line|);
    ChunkCloses(line, i);
  }

  function Newlines(text: seq<nat>): nat {
    if text == [] then 0 else (if text[0] == 10 then 1 else 0) + Newlines(text[1..])
  }

  /** The rows that lines open on their own, beyond their first one. */
  function Wraps(text: seq<nat>): nat
    decreases |text|
  {
    var k := LineEnd(text);
    RowsOfLine(k) - 1 + if k < |text| then Wraps(text[k + 1..]) else 0
  }

  /** Each newline opens one row, and each line opens one more for every further 80 bytes. */
  lemma {:induction false} RowCount(text: seq<nat>)
    ensures |Layout(text)| == 1 + Newlines(text) + Wraps(text)
    decreases |text|
  {
    hide LineEnd, Chunk;
    var k := LineEnd(text);
    ChunkCloses(text[..k], 0);
    NewlinesFrom(text, k);
    if k < |text| {
      RowCount(text[k + 1..]);
    } else {
      assert text[..k] == text;
    }
  }

  lemma {:induction false} NewlinesFrom(text: seq<nat>, k: nat)
    requires k <= |text| && NEWLINE !in text[..k] && (k < |text| ==> text[k] == NEWLINE)
    ensures Newlines(text) == if k < |text| then 1 + Newlines(text[k + 1..]) else 0
  {
    if 0 < k {
      assert text[0] in text[..k] && forall x :: x in text[1..][..k - 1] ==> x in text[..k];
      NewlinesFrom(text[1..], k - 1);
      if k < |text| {
        assert text[1..][k..] == text[k + 1..];
      }
    }
  }

  /** Every byte on the page is one of the text, and not a newline. */
  lemma PageByte(text: seq<nat>, i: nat, j: nat)
    requires i < |Layout(text)| && j < |Layout(text)[i]|
    ensures Layout(text)[i][j] in text && Layout(text)[i][j] != NEWLINE
  {
    LayoutKeeps(text);
    hide Layout;
    InFlat(Layout(text), i, j);
    NotDropped(text, Layout(text)[i][j]);
  }

  lemma {:induction false} InFlat(rows: seq<seq<nat>>, i: nat, j: nat)
    requires i < |rows| && j < |rows[i]|
    ensures rows[i][j] in Flatten(rows)
  {
    if i > 0 {
      InFlat(rows[1..], i - 1, j);
    }
  }

  lemma {:induction false} NotDropped(text: seq<nat>, b: nat)
    ensures b in WithoutNewlines(text) <==> b in text && b != NEWLINE
  {
    if text != [] {
      NotDropped(text[1..], b);
    }
  }

  // ----- cells of the unbounded canvas

  datatype ScreenChar = ScreenChar(ascii: nat, color: nat)

  /** The contents of a screen by row and column. */
  type Grid = (nat, nat) -> ScreenChar

  /**
   * A cell of the canvas after these rows are written: what was written there, or else the initial
   * contents in the first 25 rows, and blanks below.
   */
  function CanvasCell(initial: Grid, color: nat, rows: seq<seq<nat>>, i: nat, j: nat): ScreenChar {
    if i < |rows| && j < |rows[i]| then ScreenChar(rows[i][j], color)
    else if i < HEIGHT then initial(i, j)
    else ScreenChar(0x20, color)
  }

  /** The canvas row that the top row of the screen shows. */
  function WindowTop(rows: seq<seq<nat>>): nat {
    if |rows| > HEIGHT then |rows| - HEIGHT else 0
  }
}
