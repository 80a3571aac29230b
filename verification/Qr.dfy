/** The QR picture: two module rows to a line of block characters, over an abstract matrix. */
module Qr {
  import opened Bytes
  import opened Conv

  const QUIET := 2
  const MAX_SIZE := 33
  const MAX_OUT := 2560

  /** Which modules are dark. */
  type Matrix = (int, int) -> bool

  /** The light modules; everything outside the code is quiet zone and light too. */
  predicate Light(dark: Matrix, size: nat, x: int, y: int) {
    x < 0 || y < 0 || x >= size || y >= size || !dark(x, y)
  }

  /** The upper and the lower half of one character. */
  datatype Cell = Cell(top: bool, bottom: bool)

  function CellAt(dark: Matrix, size: nat, x: int, y: int): Cell {
    Cell(Light(dark, size, x, y), Light(dark, size, x, y + 1))
  }

  function Draw(c: Cell): (b: bytes)
    ensures 1 <= |b| <= 3
  {
    if c.top && c.bottom then BOTH else if c.top then UPPER else if c.bottom then LOWER else [SPACE]
  }

  function DrawRow(cells: seq<Cell>): bytes {
    if cells == [] then [LF] else Draw(cells[0]) + DrawRow(cells[1..])
  }

  function DrawRows(rows: seq<seq<Cell>>): bytes {
    if rows == [] then [] else DrawRow(rows[0]) + DrawRows(rows[1..])
  }

  /** The cells of the lines y and y + 1 from column x on. */
  function RowFrom(dark: Matrix, size: nat, x: int, y: int): (cells: seq<Cell>)
    requires -QUIET <= x <= size + QUIET
    ensures |cells| == size + QUIET - x
    ensures forall i :: 0 <= i < |cells| ==> cells[i] == CellAt(dark, size, x + i, y)
    decreases size + QUIET - x
  {
    if x == size + QUIET then [] else [CellAt(dark, size, x, y)] + RowFrom(dark, size, x + 1, y)
  }

  /** The picture's lines from y on, two module rows each. */
  function RowsFrom(dark: Matrix, size: nat, y: int): (rows: seq<seq<Cell>>)
    requires -QUIET <= y
    ensures |rows| == if y < size + QUIET then (size + QUIET - y + 1) / 2 else 0
    ensures forall j :: 0 <= j < |rows| ==> rows[j] == RowFrom(dark, size, -QUIET, y + 2 * j)
    decreases size + QUIET - y
  {
    if y >= size + QUIET then [] else [RowFrom(dark, size, -QUIET, y)] + RowsFrom(dark, size, y + 2)
  }

  function Picture(dark: Matrix, size: nat): bytes {
    DrawRows(RowsFrom(dark, size, -QUIET))
  }

  // ------------------------------------------------------------ reading it back

  function ReadCell(s: bytes): Option<(Cell, bytes)> {
    if s == [] then None
    else if s[0] == SPACE then Some((Cell(false, false), s[1..]))
    else if |s| < 3 then None
    else if s[..3] == BOTH then Some((Cell(true, true), s[3..]))
    else if s[..3] == UPPER then Some((Cell(true, false), s[3..]))
    else if s[..3] == LOWER then Some((Cell(false, true), s[3..]))
    else None
  }

  /** A line of cells up to its newline. */
  function ReadRow(s: bytes): (r: Option<(seq<Cell>, bytes)>)
    ensures r.Some? ==> |r.value.1| < |s|
    decreases |s|
  {
    if s == [] then None
    else if s[0] == LF then Some(([], s[1..]))
    else match ReadCell(s)
      case None => None
      case Some((c, rest)) =>
        match ReadRow(rest)
        case None => None
        case Some((cells, more)) => Some(([c] + cells, more))
  }

  function ReadPicture(s: bytes): Option<seq<seq<Cell>>>
    decreases |s|
  {
    if s == [] then Some([])
    else match ReadRow(s)
      case None => None
      case Some((row, rest)) =>
        match ReadPicture(rest)
        case None => None
        case Some(rows) => Some([row] + rows)
  }

  /** U+2588 for a light cell, U+2580 and U+2584 for its halves, a space for a dark one: light modules are
      drawn and dark ones left to the background. */
  lemma {:induction false} Glyphs()
    ensures Draw(Cell(true, true)) == [0xe2, 0x96, 0x88] && Draw(Cell(true, false)) == [0xe2, 0x96, 0x80]
    ensures Draw(Cell(false, true)) == [0xe2, 0x96, 0x84] && Draw(Cell(false, false)) == [' ' as int]
  {}

  lemma {:induction false} CellReads(c: Cell, rest: bytes)
    ensures ReadCell(Draw(c) + rest) == Some((c, rest))
    ensures (Draw(c) + rest)[0] != LF
  {
    var s := Draw(c) + rest;
    assert s[|Draw(c)|..] == rest && s[..|Draw(c)|] == Draw(c);
  }

  lemma {:induction false} RowReads(cells: seq<Cell>, rest: bytes)
    ensures ReadRow(DrawRow(cells) + rest) == Some((cells, rest))
  {
    hide Draw, ReadCell;
    if cells == [] {
      assert ([LF] + rest)[1..] == rest;
    } else {
      var tail := DrawRow(cells[1..]) + rest;
      ConcatAssoc(Draw(cells[0]), DrawRow(cells[1..]), rest);
      CellReads(cells[0], tail);
      RowReads(cells[1..], rest);
      assert cells == [cells[0]] + cells[1..];
    }
  }

  lemma {:induction false} RowsRead(rows: seq<seq<Cell>>)
    ensures ReadPicture(DrawRows(rows)) == Some(rows)
  {
    hide DrawRow, ReadRow;
    if rows != [] {
      RowReads(rows[0], DrawRows(rows[1..]));
      RowsRead(rows[1..]);
      assert rows == [rows[0]] + rows[1..];
      RowIsLine(rows[0]);
    }
  }

  lemma {:induction false} RowIsLine(cells: seq<Cell>)
    ensures DrawRow(cells) != []
  {}

  /** The picture reads back cell for cell as the matrix inside its quiet zone. */
  lemma {:induction false} PictureReads(dark: Matrix, size: nat)
    ensures var grid := ReadPicture(Picture(dark, size));
            && grid.Some? && |grid.value| == (size + 2 * QUIET + 1) / 2
            && (forall j :: 0 <= j < |grid.value| ==> |grid.value[j]| == size + 2 * QUIET)
            && forall j, i :: 0 <= j < |grid.value| && 0 <= i < size + 2 * QUIET ==>
                 grid.value[j][i] == CellAt(dark, size, i - QUIET, 2 * j - QUIET)
  {
    hide ReadPicture, DrawRows, CellAt;
    var rows := RowsFrom(dark, size, -QUIET);
    RowsRead(rows);
    forall j, i | 0 <= j < |rows| && 0 <= i < size + 2 * QUIET
      ensures rows[j][i] == CellAt(dark, size, i - QUIET, 2 * j - QUIET)
    {
      assert rows[j] == RowFrom(dark, size, -QUIET, 2 * j - QUIET);
    }
  }

  /** A dark module of the code. */
  predicate Dark(dark: Matrix, size: nat, x: int, y: int) {
    0 <= x < size && 0 <= y < size && dark(x, y)
  }

  /** Character i of line j leaves dark what is dark in column i - 2 of the module rows 2j - 2 and 2j - 1. */
  lemma {:induction false} PictureShows(dark: Matrix, size: nat)
    ensures var grid := ReadPicture(Picture(dark, size));
            && grid.Some? && |grid.value| == (size + 5) / 2
            && (forall j :: 0 <= j < |grid.value| ==> |grid.value[j]| == size + 4)
            && forall j, i :: 0 <= j < |grid.value| && 0 <= i < size + 4 ==>
                 grid.value[j][i] == Cell(!Dark(dark, size, i - 2, 2 * j - 2), !Dark(dark, size, i - 2, 2 * j - 1))
  {
    PictureReads(dark, size);
    hide Picture, ReadPicture;
  }

  /** Two codes of one size with the same picture are the same code. */
  lemma {:induction false} PictureDetermines(a: Matrix, b: Matrix, size: nat, x: int, y: int)
    requires Picture(a, size) == Picture(b, size) && 0 <= x < size && 0 <= y < size
    ensures a(x, y) == b(x, y)
  {
    PictureReads(a, size);
    PictureReads(b, size);
    hide Picture, ReadPicture;
    var grid := ReadPicture(Picture(a, size)).value;
    var j, i := (y + QUIET) / 2, x + QUIET;
    assert 0 <= j < |grid| && |grid[j]| == size + 2 * QUIET;
    assert grid[j][i] == CellAt(a, size, x, 2 * j - QUIET) == CellAt(b, size, x, 2 * j - QUIET);
  }

  // -------------------------------------------------------------------- the size

  lemma {:induction false} RowLength(cells: seq<Cell>)
    ensures |DrawRow(cells)| <= 3 * |cells| + 1
  {
    if cells != [] {
      RowLength(cells[1..]);
    }
  }

  lemma {:induction false} RowsLength(rows: seq<seq<Cell>>, width: nat)
    requires forall j :: 0 <= j < |rows| ==> |rows[j]| <= width
    ensures |DrawRows(rows)| <= |rows| * (3 * width + 1)
  {
    if rows != [] {
      RowLength(rows[0]);
      RowsLength(rows[1..], width);
      hide DrawRow;
      OneMore(|rows|, 3 * width + 1);
    }
  }

  lemma {:induction false} OneMore(n: nat, k: nat)
    requires n > 0
    ensures n * k == k + (n - 1) * k
  {}

  /** A version 4 code and its NUL fit the picture buffer. */
  lemma {:induction false} PictureFits(dark: Matrix, size: nat)
    requires size <= MAX_SIZE
    ensures |Picture(dark, size)| + 1 <= 2560 == MAX_OUT
  {
    var rows := RowsFrom(dark, size, -QUIET);
    RowsLength(rows, 37);
    MulGrows(|rows|, 19, 112);
  }

  // ----------------------------------------------------------------- the filter

  lemma {:induction false} CellIsTaken(c: Cell, rest: bytes)
    ensures Take(TextClass.Qr, Draw(c) + rest) == |Draw(c)|
  {
    assert (Draw(c) + rest)[..|Draw(c)|] == Draw(c);
  }

  lemma {:induction false} RowIsClean(cells: seq<Cell>, rest: bytes)
    ensures Clean(TextClass.Qr, DrawRow(cells) + rest) == DrawRow(cells) + Clean(TextClass.Qr, rest)
  {
    hide Draw;
    if cells == [] {
      assert ([LF] + rest)[1..] == rest && ([LF] + rest)[..1] == [LF];
    } else {
      var first, tail := Draw(cells[0]), DrawRow(cells[1..]);
      ConcatAssoc(first, tail, rest);
      CellIsTaken(cells[0], tail + rest);
      RowIsClean(cells[1..], rest);
      hide Take;
      var s := first + (tail + rest);
      assert s[..|first|] == first && s[|first|..] == tail + rest;
      ConcatAssoc(first, tail, Clean(TextClass.Qr, rest));
    }
  }

  lemma {:induction false} RowsAreClean(rows: seq<seq<Cell>>)
    ensures Clean(TextClass.Qr, DrawRows(rows)) == DrawRows(rows)
  {
    hide DrawRow;
    if rows != [] {
      RowsAreClean(rows[1..]);
      RowIsClean(rows[0], DrawRows(rows[1..]));
    }
  }

  /** The whitelist lets every picture of a version 4 code through unchanged. */
  lemma {:induction false} PicturePasses(dark: Matrix, size: nat)
    requires size <= MAX_SIZE
    ensures Filter(TextClass.Qr, Picture(dark, size), MAX_OUT - 1) == (Picture(dark, size), 0)
  {
    PictureFits(dark, size);
    RowsAreClean(RowsFrom(dark, size, -QUIET));
    FilterMeans(TextClass.Qr, Picture(dark, size), MAX_OUT - 1);
  }

  // -------------------------------------------------------------- the C function

  /** Room for the piece and for the NUL behind it. */
  method Put(out: array<byte>, w: nat, piece: bytes) returns (ok: bool, w': nat)
    requires w <= out.Length
    modifies out
    ensures ok == (w + |piece| + 1 <= out.Length)
    ensures if ok then w' == w + |piece| && out[..w'] == old(out[..w]) + piece else out[..] == old(out[..]) && w' == w
  {
    ok, w' := false, w;
    if w + |piece| + 1 > out.Length {
      return;
    }
    Copy(out, w, piece);
    ok, w' := true, w + |piece|;
  }

  /** The picture when it fits with its NUL; an empty string when it does not or there is no code. */
  method Render(code: Option<(nat, Matrix)>, out: array<byte>) returns (w: nat)
    modifies out
    ensures code.Some? && |Picture(code.value.1, code.value.0)| + 1 <= out.Length ==>
              var picture := Picture(code.value.1, code.value.0);
              w == |picture| && out[..w] == picture && out[w] == 0
    ensures code.None? || |Picture(code.value.1, code.value.0)| + 1 > out.Length ==>
              w == 0 && (out.Length > 0 ==> out[0] == 0)
  {
    if out.Length == 0 {
      return 0;
    }
    out[0] := 0;
    if code.None? {
      return 0;
    }
    var ok;
    ok, w := RenderRows(code.value.1, code.value.0, out);
    if !ok {
      out[0] := 0;
      return 0;
    }
    out[w] := 0;
  }

  method RenderRows(dark: Matrix, size: nat, out: array<byte>) returns (ok: bool, w: nat)
    requires out.Length > 0
    modifies out
    ensures ok == (|Picture(dark, size)| + 1 <= out.Length)
    ensures ok ==> w == |Picture(dark, size)| && out[..w] == Picture(dark, size)
  {
    PictureIs(dark, size);
    hide *;
    w := 0;
    var y := -QUIET;
    assert out[..0] + Picture(dark, size) == Picture(dark, size);
    while y < size + QUIET
      invariant -QUIET <= y && w < out.Length
      invariant out[..w] + DrawRows(RowsFrom(dark, size, y)) == Picture(dark, size)
      decreases size + QUIET - y
    {
      RowsStep(dark, size, y);
      ConcatAssoc(out[..w], DrawRow(RowFrom(dark, size, -QUIET, y)), DrawRows(RowsFrom(dark, size, y + 2)));
      ok, w := RenderRow(dark, size, y, out, w);
      if !ok {
        return;
      }
      y := y + 2;
    }
    NoRows(dark, size, y);
    assert out[..w] + [] == out[..w];
    ok := true;
  }

  lemma {:induction false} PictureIs(dark: Matrix, size: nat)
    ensures Picture(dark, size) == DrawRows(RowsFrom(dark, size, -QUIET))
  {}

  lemma {:induction false} NoRows(dark: Matrix, size: nat, y: int)
    requires y >= size + QUIET
    ensures DrawRows(RowsFrom(dark, size, y)) == []
  {}

  lemma {:induction false} RowsStep(dark: Matrix, size: nat, y: int)
    requires -QUIET <= y < size + QUIET
    ensures DrawRows(RowsFrom(dark, size, y)) ==
            DrawRow(RowFrom(dark, size, -QUIET, y)) + DrawRows(RowsFrom(dark, size, y + 2))
  {
    var rows := RowsFrom(dark, size, y);
    assert rows[1..] == RowsFrom(dark, size, y + 2);
  }

  lemma {:induction false} CellsStep(dark: Matrix, size: nat, x: int, y: int)
    requires -QUIET <= x < size + QUIET
    ensures DrawRow(RowFrom(dark, size, x, y)) ==
            Draw(CellAt(dark, size, x, y)) + DrawRow(RowFrom(dark, size, x + 1, y))
  {
    var cells := RowFrom(dark, size, x, y);
    assert cells[1..] == RowFrom(dark, size, x + 1, y);
  }

  /** One line of characters. */
  method RenderRow(dark: Matrix, size: nat, y: int, out: array<byte>, w: nat) returns (ok: bool, w': nat)
    requires -QUIET <= y < size + QUIET && w < out.Length
    modifies out
    ensures ok == (w + |DrawRow(RowFrom(dark, size, -QUIET, y))| + 1 <= out.Length)
    ensures ok ==> w' < out.Length && out[..w'] == old(out[..w]) + DrawRow(RowFrom(dark, size, -QUIET, y))
  {
    hide Draw, Light;
    w' := w;
    ghost var row := DrawRow(RowFrom(dark, size, -QUIET, y));
    var x := -QUIET;
    while x < size + QUIET
      invariant -QUIET <= x <= size + QUIET && w <= w' < out.Length
      invariant out[..w'] + DrawRow(RowFrom(dark, size, x, y)) == old(out[..w]) + row
      decreases size + QUIET - x
    {
      CellsStep(dark, size, x, y);
      hide DrawRow;
      ghost var rest := DrawRow(RowFrom(dark, size, x + 1, y));
      var piece := PieceAt(dark, size, x, y);
      ConcatAssoc(out[..w'], piece, rest);
      ok, w' := Put(out, w', piece);
      if !ok {
        return;
      }
      x := x + 1;
    }
    ok, w' := Put(out, w', [LF]);
  }

  method PieceAt(dark: Matrix, size: nat, x: int, y: int) returns (piece: bytes)
    ensures piece == Draw(CellAt(dark, size, x, y))
  {
    var top, bottom := Light(dark, size, x, y), Light(dark, size, x, y + 1);
    if top && bottom {
      piece := BOTH;
    } else if top {
      piece := UPPER;
    } else if bottom {
      piece := LOWER;
    } else {
      piece := [SPACE];
    }
  }
}
