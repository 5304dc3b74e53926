/** Drawing glyphs and text on the display (src/epd200x200.c). */
module Text {
  import opened Wrappers
  import opened Bits
  import opened Framebuffer
  import opened Font
  import opened Utf8
  import opened Layout

  // ----- Glyphs -----

  ghost predicate Drawable(glyph: Glyph) {
    |glyph.rows| == CELL
  }

  predicate InCell(col: int, row: int) {
    0 <= row < CELL && 0 <= col < CELL
  }

  /** The pixels of a glyph whose cell has its upper left corner at x, y. */
  ghost predicate GlyphInk(glyph: Option<Glyph>, x: int, y: int, px: int, py: int)
    requires glyph.Some? ==> Drawable(glyph.value)
  {
    glyph.Some? && InCell(px - x, py - y) && BitOf(glyph.value.rows[py - y], 11 - (px - x))
  }

  /** The pixels of a table entry: in each of its twelve rows the leftmost one has the weight 2048. */
  lemma GlyphPixel(g: Glyph, x: int, y: int, px: int, py: int)
    requires Drawable(g)
    ensures GlyphInk(Some(g), x, y, px, py) <==>
      && x <= px < x + 12 && y <= py < y + 12
      && g.rows[py - y] / [2048, 1024, 512, 256, 128, 64, 32, 16, 8, 4, 2, 1][px - x] % 2 == 1
  {
    if InCell(px - x, py - y) {
      BitIsDigit(g.rows[py - y], 11 - (px - x));
      Weights(px - x);
    }
  }

  ghost function GlyphShape(glyph: Option<Glyph>, x: int, y: int): Shape
    requires glyph.Some? ==> Drawable(glyph.value)
  {
    (px, py) => GlyphInk(glyph, x, y, px, py)
  }

  /** The part of a glyph above a row, and in that row left of a column. */
  ghost function GlyphPart(glyph: Glyph, x: int, y: int, row: int, col: int): Shape
    requires Drawable(glyph)
  {
    (px, py) => GlyphInk(Some(glyph), x, y, px, py) && (py - y < row || (py - y == row && px - x < col))
  }

  lemma NextPixel(glyph: Glyph, x: int, y: int, row: int, col: int, a: Bytes, b: Bytes, c: Bytes, black: bool)
    requires Drawable(glyph) && InCell(col, row)
    requires Painted(a, b, GlyphPart(glyph, x, y, row, col), black)
    requires if BitOf(glyph.rows[row], 11 - col) then Painted(b, c, Point(x + col, y + row), black) else b == c
    ensures Painted(a, c, GlyphPart(glyph, x, y, row, col + 1), black)
  {
    var s, t, u := GlyphPart(glyph, x, y, row, col), Point(x + col, y + row), GlyphPart(glyph, x, y, row, col + 1);
    if BitOf(glyph.rows[row], 11 - col) {
      forall px, py | Visible(px, py)
        ensures u(px, py) == (s(px, py) || t(px, py))
      {
        assert t(px, py) ==> InCell(px - x, py - y);
      }
      PaintBoth(a, b, c, s, t, u, black);
    } else {
      SamePaint(a, b, s, u, black);
    }
  }

  method DrawGlyph12(d: Display, x: int, y: int, glyph: Option<Glyph>, black: bool)
    requires d.Valid() && (glyph.Some? ==> Drawable(glyph.value))
    modifies d.fb
    ensures Painted(old(d.fb[..]), d.fb[..], GlyphShape(glyph, x, y), black)
  {
    ghost var before := d.fb[..];
    if glyph.None? {
      PaintNothing(before, GlyphShape(glyph, x, y), black);
      return;
    }
    var g := glyph.value;
    PaintNothing(before, GlyphPart(g, x, y, 0, 0), black);
    for row := 0 to CELL
      invariant Painted(before, d.fb[..], GlyphPart(g, x, y, row, 0), black)
    {
      var bits := g.rows[row];
      for col := 0 to CELL
        invariant Painted(before, d.fb[..], GlyphPart(g, x, y, row, col), black)
      {
        ghost var was := d.fb[..];
        TestBit(bits, 11 - col);
        if And(bits, Shl(1, 11 - col)) != 0 { d.SetPixel(x + col, y + row, black); }
        NextPixel(g, x, y, row, col, before, was, d.fb[..], black);
      }
      SamePaint(before, d.fb[..], GlyphPart(g, x, y, row, CELL), GlyphPart(g, x, y, row + 1, 0), black);
    }
    SamePaint(before, d.fb[..], GlyphPart(g, x, y, CELL, 0), GlyphShape(glyph, x, y), black);
  }

  /** The font pipeline: a glyph of a BDF file that is rasterized, put in the table, looked up and
      drawn has the pixels of its bitmap, shifted by its bounding box and clipped to its cell. */
  lemma PipelineShape(table: seq<Glyph>, ascent: int, glyphs: map<nat, BdfGlyph>, cp: nat, x: int, y: int, px: int,
                      py: int)
    requires IsTable(table, ascent, glyphs) && cp in glyphs
    ensures Lookup(table, cp).Some? && Drawable(Lookup(table, cp).value)
    ensures GlyphInk(Lookup(table, cp), x, y, px, py)
       <==> InCell(px - x, py - y) && Ink(ascent, glyphs[cp], py - y, px - x)
  {
    FontLookup(table, ascent, glyphs, cp);
    if InCell(px - x, py - y) {
      assert RowInk(Lookup(table, cp).value.rows[py - y], ascent, glyphs[cp], py - y, glyphs[cp].width);
    }
  }

  // ----- Text -----

  ghost predicate Usable(table: seq<Glyph>) {
    Ascending(table) && forall k :: 0 <= k < |table| ==> Drawable(table[k])
  }

  /** A character that the font lacks is drawn as a question mark. */
  function GlyphFor(table: seq<Glyph>, cp: nat): (r: Option<Glyph>)
    ensures r.Some? ==> r.value in table
  {
    var g := Lookup(table, cp);
    if g.Some? then g else Lookup(table, QUESTION_MARK)
  }

  datatype Grid = Grid(x: int, y: int, colPitch: int, linePitch: int)

  /** Where the cell of a column or row begins. */
  function CellAt(origin: int, k: nat, pitch: int): int {
    origin + k * pitch
  }

  function CellX(g: Grid, p: Placed): int {
    CellAt(g.x, p.col, g.colPitch)
  }

  function CellY(g: Grid, p: Placed): int {
    CellAt(g.y, p.row, g.linePitch)
  }

  ghost predicate PlacedInk(table: seq<Glyph>, g: Grid, p: Placed, px: int, py: int)
    requires Usable(table)
  {
    GlyphInk(GlyphFor(table, p.cp), CellX(g, p), CellY(g, p), px, py)
  }

  ghost predicate TextInk(table: seq<Glyph>, g: Grid, ps: seq<Placed>, px: int, py: int)
    requires Usable(table)
  {
    exists k :: 0 <= k < |ps| && PlacedInk(table, g, ps[k], px, py)
  }

  /** The pixels of all the characters that are placed. */
  ghost function TextShape(table: seq<Glyph>, g: Grid, ps: seq<Placed>): Shape
    requires Usable(table)
  {
    (px, py) => TextInk(table, g, ps, px, py)
  }

  lemma OneMore(table: seq<Glyph>, g: Grid, ps: seq<Placed>, p: Placed, px: int, py: int)
    requires Usable(table)
    ensures TextInk(table, g, ps + [p], px, py) == (TextInk(table, g, ps, px, py) || PlacedInk(table, g, p, px, py))
  {
    var qs := ps + [p];
    if TextInk(table, g, ps, px, py) {
      var k :| 0 <= k < |ps| && PlacedInk(table, g, ps[k], px, py);
      assert qs[k] == ps[k];
    }
    if PlacedInk(table, g, p, px, py) { assert qs[|ps|] == p; }
  }

  lemma PaintOneMore(a: Bytes, b: Bytes, c: Bytes, table: seq<Glyph>, g: Grid, ps: seq<Placed>, p: Placed,
                     shape: Shape, black: bool)
    requires Usable(table) && shape == GlyphShape(GlyphFor(table, p.cp), CellX(g, p), CellY(g, p))
    requires Painted(a, b, TextShape(table, g, ps), black)
    requires Painted(b, c, shape, black)
    ensures Painted(a, c, TextShape(table, g, ps + [p]), black)
  {
    forall px, py | Visible(px, py)
      ensures TextInk(table, g, ps + [p], px, py) == (TextInk(table, g, ps, px, py) || PlacedInk(table, g, p, px, py))
    {
      OneMore(table, g, ps, p, px, py);
    }
    PaintBoth(a, b, c, TextShape(table, g, ps), shape, TextShape(table, g, ps + [p]), black);
  }

  function Pitch(spacing: int): (r: int)
    ensures r >= CELL
  {
    if spacing < 0 then CELL else CELL + spacing
  }

  /** What is still to be placed when the loop is at p. */
  ghost predicate Left(rest: seq<Placed>, t: Bytes, p: nat, col: nat, row: nat, maxCols: int, maxRows: int) {
    p < |t| && 0 in t[p..] && rest == Place(Units(t, p), col, row, maxCols, maxRows)
  }

  lemma LeftAtEnd(rest: seq<Placed>, t: Bytes, p: nat, col: nat, row: nat, maxCols: int, maxRows: int)
    requires Left(rest, t, p, col, row, maxCols, maxRows) && (t[p] == 0 || row >= maxRows)
    ensures rest == []
  {
  }

  lemma LeftAtNewline(rest: seq<Placed>, t: Bytes, p: nat, col: nat, row: nat, maxCols: int, maxRows: int)
    requires Left(rest, t, p, col, row, maxCols, maxRows) && t[p] == NEWLINE && row < maxRows
    ensures Left(rest, t, p + 1, 0, row + 1, maxCols, maxRows)
  {
    NulAfter(t, p, p + 1);
    var us := Units(t, p);
    assert us[1..] == Units(t, p + 1);
  }

  lemma UnitAtChar(t: Bytes, p: nat)
    requires p < |t| && 0 in t[p..] && t[p] != 0 && t[p] != NEWLINE
    ensures var d := Decode(t, p);
      d.next < |t| && 0 in t[d.next..] && Units(t, p) == [Char(d.cp)] + Units(t, d.next)
  {
    NulAfter(t, p, Decode(t, p).next);
  }

  /** If the row is full, the loop goes to the next one. */
  lemma LeftAtWrap(rest: seq<Placed>, t: Bytes, p: nat, col: nat, row: nat, maxCols: int, maxRows: int)
    requires Left(rest, t, p, col, row, maxCols, maxRows) && t[p] != 0 && t[p] != NEWLINE && row < maxRows
      && col >= maxCols
    ensures if row + 1 >= maxRows then rest == [] else LeftAtPlace(rest, t, p, 0, row + 1, maxCols, maxRows)
  {
    UnitAtChar(t, p);
    var us, d := Units(t, p), Decode(t, p);
    assert us[1..] == Units(t, d.next);
  }

  /** The next character goes to a column and row. */
  ghost predicate LeftAtPlace(rest: seq<Placed>, t: Bytes, p: nat, col: nat, row: nat, maxCols: int, maxRows: int) {
    && p < |t| && 0 in t[p..]
    && rest != [] && rest[0] == Placed(Decode(t, p).cp, col, row)
    && Left(rest[1..], t, Decode(t, p).next, col + 1, row, maxCols, maxRows)
  }

  lemma LeftInRow(rest: seq<Placed>, t: Bytes, p: nat, col: nat, row: nat, maxCols: int, maxRows: int)
    requires Left(rest, t, p, col, row, maxCols, maxRows) && t[p] != 0 && t[p] != NEWLINE && row < maxRows
      && col < maxCols
    ensures LeftAtPlace(rest, t, p, col, row, maxCols, maxRows)
  {
    UnitAtChar(t, p);
    var us, d := Units(t, p), Decode(t, p);
    assert us[1..] == Units(t, d.next);
  }

  method DrawChar(d: Display, table: seq<Glyph>, cp: nat, x: int, y: int, black: bool)
    requires d.Valid() && Usable(table)
    modifies d.fb
    ensures Painted(old(d.fb[..]), d.fb[..], GlyphShape(GlyphFor(table, cp), x, y), black)
  {
    var glyph := FindGlyph(table, cp);
    if glyph.None? { glyph := FindGlyph(table, QUESTION_MARK); }
    DrawGlyph12(d, x, y, glyph, black);
  }

  /** Draws the characters of a text, each in the place that the layout gives it, and nothing else. */
  method DrawUtf8Text12(d: Display, table: seq<Glyph>, columnSpacing: int, x: int, y: int, text: array<byte>,
                        maxCols: int, maxRows: int, lineSpacing: int, black: bool)
    requires d.Valid() && d.fb != text && Usable(table) && 0 in text[..]
    modifies d.fb
    ensures Painted(old(d.fb[..]), d.fb[..],
                    TextShape(table, Grid(x, y, Pitch(columnSpacing), Pitch(lineSpacing)),
                        Place(Units(text[..], 0), 0, 0, maxCols, maxRows)), black)
  {
    var col, row := 0, 0;
    var linePitch := CELL + lineSpacing;
    var colPitch := CELL + columnSpacing;
    var p := 0;
    if lineSpacing < 0 { linePitch := CELL; }
    if columnSpacing < 0 { colPitch := CELL; }
    ghost var t, before := text[..], d.fb[..];
    ghost var g := Grid(x, y, colPitch, linePitch);
    assert t[0..] == t;
    ghost var all := Place(Units(t, 0), 0, 0, maxCols, maxRows);
    ghost var done: seq<Placed>, rest := [], all;
    PaintNothing(before, TextShape(table, g, done), black);
    while text[p] != 0 && row < maxRows
      invariant 0 <= p < |t| && t == text[..] && 0 <= col && 0 <= row
      invariant all == done + rest && Left(rest, t, p, col, row, maxCols, maxRows)
      invariant Painted(before, d.fb[..], TextShape(table, g, done), black)
      decreases |t| - p
    {
      if text[p] == NEWLINE {
        LeftAtNewline(rest, t, p, col, row, maxCols, maxRows);
        p := p + 1;
        col := 0;
        row := row + 1;
        continue;
      }
      if col >= maxCols {
        LeftAtWrap(rest, t, p, col, row, maxCols, maxRows);
        col := 0;
        row := row + 1;
        if row >= maxRows { break; }
      } else {
        LeftInRow(rest, t, p, col, row, maxCols, maxRows);
      }
      var cp, next := DecodeOne(text, p);
      p := next;
      ghost var was, q := d.fb[..], Placed(cp, col, row);
      var cellX, cellY := CellAt(x, col, colPitch), CellAt(y, row, linePitch);
      DrawChar(d, table, cp, cellX, cellY, black);
      ghost var shape := GlyphShape(GlyphFor(table, cp), cellX, cellY);
      PaintOneMore(before, was, d.fb[..], table, g, done, q, shape, black);
      Regroup(done, q, rest);
      done, rest := done + [q], rest[1..];
      col := col + 1;
    }
    if text[p] == 0 || rest != [] { LeftAtEnd(rest, t, p, col, row, maxCols, maxRows); }
    assert done == all;
  }

  lemma Regroup(done: seq<Placed>, q: Placed, rest: seq<Placed>)
    requires rest != [] && rest[0] == q
    ensures done + [q] + rest[1..] == done + rest
  {
  }

  // ----- What is seen -----

  /** The pixel of the cell of a character that a font shows, with a question mark for those it lacks. */
  ghost predicate Shown(ascent: int, glyphs: map<nat, BdfGlyph>, cp: nat, row: int, col: int) {
    && 0 <= row < 12 && 0 <= col < 12
    && if cp in glyphs then Ink(ascent, glyphs[cp], row, col) else 63 in glyphs && Ink(ascent, glyphs[63], row, col)
  }

  lemma PlacedIsShown(table: seq<Glyph>, ascent: int, glyphs: map<nat, BdfGlyph>, g: Grid, p: Placed, px: int, py: int)
    requires IsTable(table, ascent, glyphs)
    ensures PlacedInk(table, g, p, px, py) <==> Shown(ascent, glyphs, p.cp, py - CellY(g, p), px - CellX(g, p))
  {
    FontLookup(table, ascent, glyphs, p.cp);
    FontLookup(table, ascent, glyphs, QUESTION_MARK);
    if p.cp in glyphs {
      PipelineShape(table, ascent, glyphs, p.cp, CellX(g, p), CellY(g, p), px, py);
    } else if QUESTION_MARK in glyphs {
      PipelineShape(table, ascent, glyphs, QUESTION_MARK, CellX(g, p), CellY(g, p), px, py);
    }
  }

  lemma CellIs(origin: int, k: nat, spacing: int)
    ensures CellAt(origin, k, Pitch(spacing)) == origin + k * (12 + if spacing < 0 then 0 else spacing)
  {
  }

  /** Row r and column c of the page have a character, and this has ink at a pixel of the display. */
  ghost predicate Covers(ascent: int, glyphs: map<nat, BdfGlyph>, rows: seq<seq<nat>>, maxRows: int, at: Spot, r: nat,
                         c: nat, px: int, py: int) {
    && r < |rows| && r < maxRows && c < |rows[r]|
    && var left := at.x + c * (12 + if at.columnSpacing < 0 then 0 else at.columnSpacing);
       var top := at.y + r * (12 + if at.lineSpacing < 0 then 0 else at.lineSpacing);
       Shown(ascent, glyphs, rows[r][c], py - top, px - left)
  }

  /** Where on the display a text goes, and the spacings between its cells. */
  datatype Spot = Spot(x: int, y: int, columnSpacing: int, lineSpacing: int)

  ghost function GridOf(at: Spot): Grid {
    Grid(at.x, at.y, Pitch(at.columnSpacing), Pitch(at.lineSpacing))
  }

  /** Some character of the page has ink at the pixel. */
  ghost predicate Inked(ascent: int, glyphs: map<nat, BdfGlyph>, rows: seq<seq<nat>>, maxRows: int, at: Spot, px: int,
                        py: int) {
    exists r: nat, c: nat :: Covers(ascent, glyphs, rows, maxRows, at, r, c, px, py)
  }

  /** From text to pixels. What drawing a text leaves with the table of a font, column by column and
      row by row: the visible pixels that get the colour are those where a character of the page (the
      lines of the text, wrapped greedily) has ink in the bitmap of its glyph, shifted to its cell and
      clipped to it; all others are as before. */
  lemma TextOnDisplay(before: Bytes, after: Bytes, table: seq<Glyph>, ascent: int, glyphs: map<nat, BdfGlyph>,
                      text: Bytes, at: Spot, cols: nat, maxRows: int, black: bool, px: int, py: int)
    requires IsTable(table, ascent, glyphs) && cols >= 1 && 0 in text[0..] && Visible(px, py)
    requires Painted(before, after,
                 TextShape(table, Grid(at.x, at.y, Pitch(at.columnSpacing), Pitch(at.lineSpacing)),
                     Place(Units(text, 0), 0, 0, cols, maxRows)), black)
    ensures var rows := Wrap(Lines(Units(text, 0)), cols);
      Black(after, px, py)
      == if Inked(ascent, glyphs, rows, maxRows, at, px, py) then black else Black(before, px, py)
  {
    var us := Units(text, 0);
    PlaceIsPage(us, cols, maxRows);
    PageOnDisplay(table, ascent, glyphs, at, Wrap(Lines(us), cols), maxRows, px, py);
    assert TextShape(table, GridOf(at), Place(us, 0, 0, cols, maxRows))(px, py)
        == TextInk(table, GridOf(at), Place(us, 0, 0, cols, maxRows), px, py);
  }

  /** And when the text encodes some characters and breaks, it is their page. */
  lemma EncodedOnDisplay(before: Bytes, after: Bytes, table: seq<Glyph>, ascent: int, glyphs: map<nat, BdfGlyph>,
                         us: seq<Unit>, at: Spot, cols: nat, maxRows: int, black: bool, px: int, py: int)
    requires IsTable(table, ascent, glyphs) && cols >= 1 && Visible(px, py)
    requires forall k :: 0 <= k < |us| ==> Plain(us[k])
    requires Painted(before, after,
                 TextShape(table, Grid(at.x, at.y, Pitch(at.columnSpacing), Pitch(at.lineSpacing)),
                     Place(Units(EncodeUnits(us), 0), 0, 0, cols, maxRows)), black)
    ensures 0 in EncodeUnits(us)[0..]
    ensures Black(after, px, py)
         == if Inked(ascent, glyphs, Wrap(Lines(us), cols), maxRows, at, px, py) then black else Black(before, px, py)
  {
    var text := EncodeUnits(us);
    assert text[0..] == text;
    UnitsOfEncoded(us, text, 0);
    TextOnDisplay(before, after, table, ascent, glyphs, text, at, cols, maxRows, black, px, py);
  }

  /** The cells of two characters in different columns or rows of the page share no pixel, whatever
      the spacings. */
  lemma CellsApart(at: Spot, c1: nat, r1: nat, c2: nat, r2: nat, px: int, py: int)
    requires c1 != c2 || r1 != r2
    ensures var colPitch := 12 + if at.columnSpacing < 0 then 0 else at.columnSpacing;
      var linePitch := 12 + if at.lineSpacing < 0 then 0 else at.lineSpacing;
      var (left1, top1, left2, top2) :=
        (at.x + c1 * colPitch, at.y + r1 * linePitch, at.x + c2 * colPitch, at.y + r2 * linePitch);
      !(left1 <= px < left1 + 12 && top1 <= py < top1 + 12 && left2 <= px < left2 + 12 && top2 <= py < top2 + 12)
  {
    MultiplesApart(c1, c2, 12 + if at.columnSpacing < 0 then 0 else at.columnSpacing);
    MultiplesApart(r1, r2, 12 + if at.lineSpacing < 0 then 0 else at.lineSpacing);
  }

  lemma MultiplesApart(j: nat, k: nat, pitch: nat)
    ensures j < k ==> j * pitch + pitch <= k * pitch
    ensures k < j ==> k * pitch + pitch <= j * pitch
  {
    if j < k { NextMultiple(j, k, pitch); }
    if k < j { NextMultiple(k, j, pitch); }
  }

  lemma {:induction false} NextMultiple(j: nat, k: nat, pitch: nat)
    requires j < k
    ensures (j + 1) * pitch == j * pitch + pitch <= k * pitch
    decreases k
  {
    if j + 1 < k {
      NextMultiple(j, k - 1, pitch);
      assert k * pitch == (k - 1) * pitch + pitch;
    }
  }

  lemma PageOnDisplay(table: seq<Glyph>, ascent: int, glyphs: map<nat, BdfGlyph>, at: Spot, rows: seq<seq<nat>>,
                      maxRows: int, px: int, py: int)
    requires IsTable(table, ascent, glyphs)
    ensures TextInk(table, GridOf(at), OnPage(rows, 0, maxRows), px, py)
       <==> Inked(ascent, glyphs, rows, maxRows, at, px, py)
  {
    var g := GridOf(at);
    var ps := OnPage(rows, 0, maxRows);
    if TextInk(table, g, ps, px, py) {
      var k :| 0 <= k < |ps| && PlacedInk(table, g, ps[k], px, py);
      FromDisplay(table, ascent, glyphs, at, rows, maxRows, ps[k], px, py);
    }
    if r: nat, c: nat :| Covers(ascent, glyphs, rows, maxRows, at, r, c, px, py) {
      ToDisplay(table, ascent, glyphs, at, rows, maxRows, r, c, px, py);
    }
  }

  lemma FromDisplay(table: seq<Glyph>, ascent: int, glyphs: map<nat, BdfGlyph>, at: Spot, rows: seq<seq<nat>>,
                    maxRows: int, p: Placed, px: int, py: int)
    requires IsTable(table, ascent, glyphs)
    requires p in OnPage(rows, 0, maxRows) && PlacedInk(table, GridOf(at), p, px, py)
    ensures Covers(ascent, glyphs, rows, maxRows, at, p.row, p.col, px, py)
  {
    OnPageHas(rows, 0, maxRows, p);
    PlacedIsShown(table, ascent, glyphs, GridOf(at), p, px, py);
    CellIs(at.x, p.col, at.columnSpacing);
    CellIs(at.y, p.row, at.lineSpacing);
  }

  lemma ToDisplay(table: seq<Glyph>, ascent: int, glyphs: map<nat, BdfGlyph>, at: Spot, rows: seq<seq<nat>>,
                  maxRows: int, r: nat, c: nat, px: int, py: int)
    requires IsTable(table, ascent, glyphs)
    requires Covers(ascent, glyphs, rows, maxRows, at, r, c, px, py)
    ensures TextInk(table, GridOf(at), OnPage(rows, 0, maxRows), px, py)
  {
    var p := Placed(rows[r][c], c, r);
    OnPageHas(rows, 0, maxRows, p);
    PlacedIsShown(table, ascent, glyphs, GridOf(at), p, px, py);
    CellIs(at.x, p.col, at.columnSpacing);
    CellIs(at.y, p.row, at.lineSpacing);
    var ps := OnPage(rows, 0, maxRows);
    var k :| 0 <= k < |ps| && ps[k] == p;
    assert PlacedInk(table, GridOf(at), ps[k], px, py);
  }
}
