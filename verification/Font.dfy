/** The font: glyphs of a BDF file as rows of a 12x12 cell, in a table sorted by codepoint
    (tools/zpix_bdf_to_c.py), and the search in the table (src/epd200x200.c). */
module Font {
  import opened Wrappers
  import opened Bits

  const CELL := 12

  /** A glyph of the BDF file: bitmapRows has bitmapBits bits a row, the leftmost pixel first. */
  datatype BdfGlyph = BdfGlyph(width: int, height: int, xoff: int, yoff: int, bitmapRows: seq<nat>, bitmapBits: int)

  /** An entry of the table: the leftmost pixel of a row is bit 11. */
  datatype Glyph = Glyph(codepoint: nat, rows: seq<nat>)

  // ----- Rasterizing -----

  /** The pixel of the cell at a row and column: that of the bitmap which the bounding box puts
      there, if any. */
  ghost predicate Ink(ascent: int, g: BdfGlyph, row: int, col: int) {
    var srcRow, srcCol := row - (ascent - (g.height + g.yoff)), col - g.xoff;
    && 0 <= srcRow < g.height && 0 <= srcCol < g.width
    && srcRow < |g.bitmapRows| && srcCol < g.bitmapBits
    && BitOf(g.bitmapRows[srcRow], g.bitmapBits - 1 - srcCol)
  }

  /** A row of the cell with the pixels in the source columns below srcCol. */
  ghost predicate RowInk(mask: nat, ascent: int, g: BdfGlyph, row: int, srcCol: int) {
    && mask < 4096
    && forall col :: 0 <= col < CELL ==> BitOf(mask, 11 - col) == (Ink(ascent, g, row, col) && col - g.xoff < srcCol)
  }

  ghost predicate IsRaster(rows: seq<nat>, ascent: int, g: BdfGlyph) {
    |rows| == CELL && forall row :: 0 <= row < CELL ==> RowInk(rows[row], ascent, g, row, g.width)
  }

  /** The lower left corner of the bitmap stands xoff to the right of the cell's left side and yoff
      above its baseline, which is below row ascent - 1. */
  lemma InkIs(ascent: int, g: BdfGlyph, row: int, col: int)
    ensures var up, right := ascent - 1 - row - g.yoff, col - g.xoff;
      Ink(ascent, g, row, col) <==>
        && 0 <= up < g.height && 0 <= right < g.width
        && g.height - 1 - up < |g.bitmapRows| && right < g.bitmapBits
        && BitOf(g.bitmapRows[g.height - 1 - up], g.bitmapBits - 1 - right)
  {
  }

  /** In a raster, the leftmost pixel has the weight 2048. */
  lemma RasterPixel(rows: seq<nat>, ascent: int, g: BdfGlyph, row: nat, col: nat)
    requires IsRaster(rows, ascent, g) && row < 12 && col < 12
    ensures |rows| == 12 && rows[row] < 4096
    ensures rows[row] / [2048, 1024, 512, 256, 128, 64, 32, 16, 8, 4, 2, 1][col] % 2 == 1 <==> Ink(ascent, g, row, col)
  {
    assert RowInk(rows[row], ascent, g, row, g.width);
    BitIsDigit(rows[row], 11 - col);
    Weights(col);
    RasterColumns(rows[row], ascent, g, row, col);
  }

  lemma RasterColumns(mask: nat, ascent: int, g: BdfGlyph, row: int, col: int)
    requires RowInk(mask, ascent, g, row, g.width) && 0 <= col < 12
    ensures BitOf(mask, 11 - col) <==> Ink(ascent, g, row, col)
  {
  }

  lemma EmptyRow(ascent: int, g: BdfGlyph, row: int, srcCol: int)
    requires srcCol <= 0 || g.width <= 0 || g.height <= 0 || row < ascent - (g.height + g.yoff)
    ensures RowInk(0, ascent, g, row, srcCol)
  {
    forall col | 0 <= col < CELL
      ensures !BitOf(0, 11 - col) && !(Ink(ascent, g, row, col) && col - g.xoff < srcCol)
    {
      ZeroBit(11 - col);
    }
  }

  /** Shifting a bit to the lowest place and masking it tests that bit. */
  lemma SourceBit(x: nat, k: nat)
    ensures And(Shr(x, k), 1) == 0 <==> !BitOf(x, k)
  {
    ShrBit(x, k, 0);
    var y := Shr(x, k);
    if y != 0 {
      AndZero(y / 2);
      assert And(y, 1) == 2 * And(y / 2, 0) + (if y % 2 == 1 then 1 else 0);
    }
  }

  /** Setting the bit of a column adds that pixel to the row. */
  lemma InkAdded(mask: nat, ascent: int, g: BdfGlyph, row: int, col: int)
    requires 0 <= col < CELL && RowInk(mask, ascent, g, row, col - g.xoff) && Ink(ascent, g, row, col)
    ensures RowInk(Or(mask, Shl(1, 11 - col)), ascent, g, row, col - g.xoff + 1)
  {
    BitBelow(11 - col, 12);
    Pow2Values();
    OrBound(mask, Shl(1, 11 - col), 12);
    forall c | 0 <= c < CELL
      ensures BitOf(Or(mask, Shl(1, 11 - col)), 11 - c) == (Ink(ascent, g, row, c) && c - g.xoff < col - g.xoff + 1)
    {
      OrBit(mask, Shl(1, 11 - col), 11 - c);
      OneBit(11 - col, 11 - c);
      assert BitOf(mask, 11 - c) == (Ink(ascent, g, row, c) && c - g.xoff < col - g.xoff);
    }
  }

  /** A pixel that is clear, or in a column outside the cell, adds nothing. */
  lemma InkSame(mask: nat, ascent: int, g: BdfGlyph, row: int, col: int)
    requires RowInk(mask, ascent, g, row, col - g.xoff) && (0 <= col < CELL ==> !Ink(ascent, g, row, col))
    ensures RowInk(mask, ascent, g, row, col - g.xoff + 1)
  {
  }

  /** rasterize_to_12x12 */
  method RasterizeTo12x12(ascent: int, g: BdfGlyph) returns (out: seq<nat>)
    ensures IsRaster(out, ascent, g)
  {
    out := seq(CELL, _ => 0);
    var top := ascent - (g.height + g.yoff);
    forall row | 0 <= row < CELL
      ensures RowInk(out[row], ascent, g, row, if row < top || g.width <= 0 || g.height <= 0 then g.width else 0)
    {
      EmptyRow(ascent, g, row, if row < top || g.width <= 0 || g.height <= 0 then g.width else 0);
    }
    if g.width <= 0 || g.height <= 0 { return; }
    for srcRow := 0 to g.height
      invariant |out| == CELL
      invariant forall row :: 0 <= row < CELL ==>
        RowInk(out[row], ascent, g, row, if row < top + srcRow then g.width else 0)
    {
      var dstRow := top + srcRow;
      if dstRow < 0 || dstRow >= CELL { continue; }
      var rowVal := if srcRow < |g.bitmapRows| then g.bitmapRows[srcRow] else 0;
      var mask := out[dstRow];
      for srcCol := 0 to g.width
        invariant RowInk(mask, ascent, g, dstRow, srcCol)
      {
        var srcBit := g.bitmapBits - 1 - srcCol;
        var dstCol := g.xoff + srcCol;
        ghost var was := mask;
        if srcBit >= 0 {
          SourceBit(rowVal, srcBit);
          ZeroBit(srcBit);
          if And(Shr(rowVal, srcBit), 1) != 0 && !(dstCol < 0 || dstCol >= CELL) {
            InkAdded(mask, ascent, g, dstRow, dstCol);
            mask := Or(mask, Shl(1, 11 - dstCol));
          } else {
            InkSame(was, ascent, g, dstRow, dstCol);
          }
        } else {
          InkSame(was, ascent, g, dstRow, dstCol);
        }
      }
      out := out[dstRow := mask];
    }
  }

  // ----- The table -----

  ghost predicate Ascending(table: seq<Glyph>) {
    forall i, j :: 0 <= i < j < |table| ==> table[i].codepoint < table[j].codepoint
  }

  /** The glyphs of the file, each once, sorted, and rasterized. */
  ghost predicate IsTable(table: seq<Glyph>, ascent: int, glyphs: map<nat, BdfGlyph>) {
    && Ascending(table)
    && (forall k :: 0 <= k < |table| ==>
        table[k].codepoint in glyphs && IsRaster(table[k].rows, ascent, glyphs[table[k].codepoint]))
    && (forall cp :: cp in glyphs ==> exists k :: 0 <= k < |table| && table[k].codepoint == cp)
  }

  lemma {:induction false} Least(s: set<nat>) returns (x: nat)
    requires s != {}
    ensures x in s && forall y :: y in s ==> x <= y
    decreases |s|
  {
    var a :| a in s;
    var t := set y | y in s && y < a;
    if t == {} {
      x := a;
      forall y | y in s
        ensures x <= y
      {
        assert (y in t) == (y < a);
      }
    } else {
      Fewer(t, s, a);
      x := Least(t);
      forall y | y in s
        ensures x <= y
      {
        if y < a { assert y in t; }
      }
    }
  }

  lemma Fewer(t: set<nat>, s: set<nat>, a: nat)
    requires t <= s && a in s && a !in t
    ensures |t| < |s|
  {
    assert |s - t| == |s| - |t|;
    assert a in s - t;
  }

  /** A table of the glyphs that are not left; what is left comes later. */
  ghost predicate Sorted(table: seq<Glyph>, left: set<nat>, ascent: int, glyphs: map<nat, BdfGlyph>) {
    && left <= glyphs.Keys && Ascending(table)
    && (forall k :: 0 <= k < |table| ==>
        table[k].codepoint in glyphs && IsRaster(table[k].rows, ascent, glyphs[table[k].codepoint]))
    && (forall k, cp :: 0 <= k < |table| && cp in left ==> table[k].codepoint < cp)
    && (forall cp :: cp in glyphs && cp !in left ==> exists k :: 0 <= k < |table| && table[k].codepoint == cp)
  }

  lemma NextEntry(table: seq<Glyph>, left: set<nat>, ascent: int, glyphs: map<nat, BdfGlyph>, cp: nat, rows: seq<nat>)
    requires Sorted(table, left, ascent, glyphs) && cp in left && IsRaster(rows, ascent, glyphs[cp])
    requires forall other :: other in left ==> cp <= other
    ensures Sorted(table + [Glyph(cp, rows)], left - {cp}, ascent, glyphs)
  {
    var next := table + [Glyph(cp, rows)];
    forall c | c in glyphs && c !in left - {cp}
      ensures exists k :: 0 <= k < |next| && next[k].codepoint == c
    {
      if c == cp {
        assert next[|table|].codepoint == cp;
      } else {
        var k :| 0 <= k < |table| && table[k].codepoint == c;
        assert next[k].codepoint == c;
      }
    }
  }

  /** The entries of main: the glyphs of the file by ascending codepoint, each rasterized. */
  method SortedTable(ascent: int, glyphs: map<nat, BdfGlyph>) returns (table: seq<Glyph>)
    ensures IsTable(table, ascent, glyphs)
  {
    table := [];
    var left := glyphs.Keys;
    while left != {}
      invariant Sorted(table, left, ascent, glyphs)
      decreases |left|
    {
      ghost var least := Least(left);
      var cp :| cp in left && forall other :: other in left ==> cp <= other;
      var rows := RasterizeTo12x12(ascent, glyphs[cp]);
      NextEntry(table, left, ascent, glyphs, cp, rows);
      table := table + [Glyph(cp, rows)];
      left := left - {cp};
    }
  }

  // ----- The search -----

  /** The entry of a codepoint, if the table has one. */
  function Lookup(table: seq<Glyph>, cp: nat): (r: Option<Glyph>)
    ensures r.Some? ==> r.value in table && r.value.codepoint == cp
    ensures r.None? ==> forall k :: 0 <= k < |table| ==> table[k].codepoint != cp
  {
    if table == [] then None
    else if table[0].codepoint == cp then Some(table[0])
    else Lookup(table[1..], cp)
  }

  lemma OneEntry(table: seq<Glyph>, k: nat)
    requires Ascending(table) && k < |table|
    ensures Lookup(table, table[k].codepoint) == Some(table[k])
  {
    var r := Lookup(table, table[k].codepoint);
    var j :| 0 <= j < |table| && table[j] == r.value;
  }

  /** zpix12_find_glyph */
  method FindGlyph(table: seq<Glyph>, codepoint: nat) returns (r: Option<Glyph>)
    requires Ascending(table)
    ensures r == Lookup(table, codepoint)
  {
    var left, right := 0, |table|;
    while left < right
      invariant 0 <= left <= right <= |table|
      invariant forall k :: 0 <= k < left ==> table[k].codepoint < codepoint
      invariant forall k :: right <= k < |table| ==> codepoint < table[k].codepoint
    {
      var mid := left + (right - left) / 2;
      var cp := table[mid].codepoint;
      if cp == codepoint {
        OneEntry(table, mid);
        return Some(table[mid]);
      }
      if cp < codepoint { left := mid + 1; } else { right := mid; }
    }
    return None;
  }

  /** Whatever is looked up in the table of a font is the raster of the font's glyph. */
  lemma FontLookup(table: seq<Glyph>, ascent: int, glyphs: map<nat, BdfGlyph>, cp: nat)
    requires IsTable(table, ascent, glyphs)
    ensures Lookup(table, cp).Some? <==> cp in glyphs
    ensures cp in glyphs ==> IsRaster(Lookup(table, cp).value.rows, ascent, glyphs[cp])
  {
    if cp in glyphs {
      var k :| 0 <= k < |table| && table[k].codepoint == cp;
      OneEntry(table, k);
    }
  }
}
