/** Where the characters of a text go: greedy wrapping into rows of a page
    (epd_fb_draw_utf8_text12 in src/epd200x200.c, without the drawing). */
module Layout {
  import opened Bits
  import opened Utf8

  const NEWLINE := 10

  datatype Unit = Break | Char(cp: nat)

  /** A terminated text from p on, as characters and line breaks. */
  function Units(text: Bytes, p: nat): seq<Unit>
    requires p < |text| && 0 in text[p..]
    decreases |text| - p
  {
    if text[p] == 0 then []
    else if text[p] == NEWLINE then
      NulAfter(text, p, p + 1);
      [Break] + Units(text, p + 1)
    else
      NulAfter(text, p, Decode(text, p).next);
      [Char(Decode(text, p).cp)] + Units(text, Decode(text, p).next)
  }

  lemma NulAfter(text: Bytes, p: nat, q: nat)
    requires p < |text| && 0 in text[p..] && p <= q && forall k :: p <= k < q ==> k < |text| && text[k] != 0
    ensures q < |text| && 0 in text[q..]
  {
    var k :| 0 <= k < |text[p..]| && text[p..][k] == 0;
    assert text[p + k] == 0;
    assert text[q..][p + k - q] == 0;
  }

  /** The text ends at a NUL, a line feed is a break, and anything else is a character. */
  lemma FirstUnit(text: Bytes, p: nat)
    requires p < |text| && 0 in text[p..]
    ensures text[p] == 0 <==> Units(text, p) == []
    ensures text[p] == 10 <==> Units(text, p) != [] && Units(text, p)[0] == Break
  {
  }

  // ----- Encoded text comes back -----

  /** A break, or a character that is not taken for one or for the end. */
  predicate Plain(u: Unit) {
    u.Char? ==> 0 < u.cp < 0x20_0000 && u.cp != NEWLINE
  }

  function EncodeUnit(u: Unit): (r: Bytes)
    requires Plain(u)
    ensures r != []
  {
    if u.Break? then [NEWLINE] else Encode(u.cp)
  }

  /** The text with its terminator. */
  function EncodeUnits(us: seq<Unit>): (r: Bytes)
    requires forall k :: 0 <= k < |us| ==> Plain(us[k])
    ensures 0 in r
  {
    if us == [] then [0] else EncodeUnit(us[0]) + EncodeUnits(us[1..])
  }

  lemma Front(text: Bytes, p: nat, front: Bytes, rest: Bytes)
    requires p <= |text| && text[p..] == front + rest && front != [] && 0 in rest
    ensures AtPosition(text, p, front) && text[p + |front|..] == rest && text[p] == front[0] && 0 in text[p..]
  {
    assert text[p] == text[p..][0];
    assert text[p..p + |front|] == text[p..][..|front|];
    assert text[p + |front|..] == text[p..][|front|..];
  }

  ghost predicate Reads(text: Bytes, p: nat, us: seq<Unit>) {
    p < |text| && 0 in text[p..] && Units(text, p) == us
  }

  lemma EncodedUnit(u: Unit, text: Bytes, p: nat, rest: seq<Unit>)
    requires Plain(u) && AtPosition(text, p, EncodeUnit(u)) && 0 in text[p..] && text[p] == EncodeUnit(u)[0]
    requires Reads(text, p + |EncodeUnit(u)|, rest)
    ensures Reads(text, p, [u] + rest)
  {
    if u.Char? {
      DecodeInverts(text, p, u.cp);
      NulAfter(text, p, Decode(text, p).next);
    } else {
      NulAfter(text, p, p + 1);
    }
  }

  lemma NoUnits(text: Bytes, p: nat)
    requires p < |text| && text[p..] == [0]
    ensures Reads(text, p, [])
  {
    assert text[p] == text[p..][0];
  }

  /** A text that encodes characters and line breaks is read as those. */
  lemma {:induction false} UnitsOfEncoded(us: seq<Unit>, text: Bytes, p: nat)
    requires (forall k :: 0 <= k < |us| ==> Plain(us[k])) && p < |text| && text[p..] == EncodeUnits(us)
    ensures Reads(text, p, us)
    decreases |us|
  {
    if us == [] {
      NoUnits(text, p);
    } else {
      Front(text, p, EncodeUnit(us[0]), EncodeUnits(us[1..]));
      UnitsOfEncoded(us[1..], text, p + |EncodeUnit(us[0])|);
      EncodedUnit(us[0], text, p, us[1..]);
      assert [us[0]] + us[1..] == us;
    }
  }

  // ----- Greedy wrapping -----

  /** The lines of a text, as they are broken by its line breaks. */
  function Lines(us: seq<Unit>): (r: seq<seq<nat>>)
    ensures r != []
  {
    if us == [] then [[]]
    else
      var r := Lines(us[1..]);
      if us[0].Break? then [[]] + r else [[us[0].cp] + r[0]] + r[1..]
  }

  /** A line as rows of cols characters; the last one may be shorter. */
  function WrapLine(line: seq<nat>, cols: nat): (r: seq<seq<nat>>)
    requires cols >= 1
    ensures r != []
  {
    if |line| <= cols then [line] else [line[..cols]] + WrapLine(line[cols..], cols)
  }

  /** The rows of an endless page. */
  function Wrap(lines: seq<seq<nat>>, cols: nat): seq<seq<nat>>
    requires cols >= 1
  {
    if lines == [] then [] else WrapLine(lines[0], cols) + Wrap(lines[1..], cols)
  }

  function Concat(rows: seq<seq<nat>>): seq<nat> {
    if rows == [] then [] else rows[0] + Concat(rows[1..])
  }

  ghost function Chars(line: seq<nat>): (r: seq<Unit>)
    ensures |r| == |line| && forall k :: 0 <= k < |line| ==> r[k] == Char(line[k])
  {
    seq(|line|, k requires 0 <= k < |line| => Char(line[k]))
  }

  /** Some lines with a break between each two. */
  ghost function Joined(lines: seq<seq<nat>>): seq<Unit>
    requires lines != []
  {
    if |lines| == 1 then Chars(lines[0]) else Chars(lines[0]) + [Break] + Joined(lines[1..])
  }

  lemma JoinedFirst(cp: nat, r: seq<seq<nat>>)
    requires r != []
    ensures Joined([[cp] + r[0]] + r[1..]) == [Char(cp)] + Joined(r)
  {
    var more := [[cp] + r[0]] + r[1..];
    assert Chars([cp] + r[0]) == [Char(cp)] + Chars(r[0]);
    if |r| > 1 {
      assert more[1..] == r[1..];
      Prepended([Char(cp)], Chars(r[0]), [Break], Joined(r[1..]));
    }
  }

  lemma Prepended(a: seq<Unit>, b: seq<Unit>, c: seq<Unit>, d: seq<Unit>)
    ensures (a + b) + c + d == a + (b + c + d)
  {
  }

  /** The lines are what is between the breaks. */
  lemma {:induction false} LinesJoined(us: seq<Unit>)
    ensures Joined(Lines(us)) == us
  {
    if us != [] {
      var r := Lines(us[1..]);
      LinesJoined(us[1..]);
      if us[0].Break? {
        assert ([[]] + r)[1..] == r;
        assert Chars([]) + [Break] + Joined(r) == [Break] + us[1..] == us;
      } else {
        JoinedFirst(us[0].cp, r);
        assert [us[0]] + us[1..] == us;
      }
    }
  }

  /** Each line is wrapped for itself. */
  lemma {:induction false} WrapEach(x: seq<seq<nat>>, line: seq<nat>, y: seq<seq<nat>>, cols: nat)
    requires cols >= 1
    ensures Wrap(x + [line] + y, cols) == Wrap(x, cols) + WrapLine(line, cols) + Wrap(y, cols)
  {
    var all := x + [line] + y;
    if x == [] {
      assert all == [line] + y && all[1..] == y;
    } else {
      assert all[1..] == x[1..] + [line] + y;
      WrapEach(x[1..], line, y, cols);
      assert WrapLine(x[0], cols) + (Wrap(x[1..], cols) + WrapLine(line, cols) + Wrap(y, cols))
          == Wrap(x, cols) + WrapLine(line, cols) + Wrap(y, cols);
    }
  }

  /** Wrapping a line keeps its characters and fills every row but the last. */
  lemma {:induction false} WrapLineIs(line: seq<nat>, cols: nat)
    requires cols >= 1
    ensures var r := WrapLine(line, cols);
      && Concat(r) == line
      && (forall k :: 0 <= k < |r| - 1 ==> |r[k]| == cols)
      && |r[|r| - 1]| <= cols && (r[|r| - 1] == [] ==> line == [])
    decreases |line|
  {
    if |line| > cols {
      WrapLineIs(line[cols..], cols);
      assert line == line[..cols] + line[cols..];
    } else {
      assert Concat([line]) == line + Concat([]);
    }
  }

  // ----- The loop -----

  datatype Placed = Placed(cp: nat, col: nat, row: nat)

  /** The characters that are drawn from a position on, and where. */
  function Place(us: seq<Unit>, col: nat, row: nat, maxCols: int, maxRows: int): seq<Placed> {
    if us == [] || row >= maxRows then []
    else if us[0].Break? then Place(us[1..], 0, row + 1, maxCols, maxRows)
    else if col >= maxCols then
      if row + 1 >= maxRows then [] else [Placed(us[0].cp, 0, row + 1)] + Place(us[1..], 1, row + 1, maxCols, maxRows)
    else [Placed(us[0].cp, col, row)] + Place(us[1..], col + 1, row, maxCols, maxRows)
  }

  /** Every character of some rows in its place, the first row being at `row`, down to maxRows. */
  function OnPage(rows: seq<seq<nat>>, row: nat, maxRows: int): seq<Placed> {
    if rows == [] || row >= maxRows then []
    else InRow(rows[0], 0, row) + OnPage(rows[1..], row + 1, maxRows)
  }

  function InRow(cps: seq<nat>, col: nat, row: nat): (r: seq<Placed>)
    ensures |r| == |cps| && forall k :: 0 <= k < |cps| ==> r[k] == Placed(cps[k], col + k, row)
  {
    seq(|cps|, k requires 0 <= k < |cps| => Placed(cps[k], col + k, row))
  }

  /** The rows of a page on which the first row already has some characters. */
  function RowsFrom(cur: seq<nat>, us: seq<Unit>, cols: nat): seq<seq<nat>>
    requires cols >= 1
  {
    var lines := Lines(us);
    WrapLine(cur + lines[0], cols) + Wrap(lines[1..], cols)
  }

  lemma RowsFromStep(cur: seq<nat>, us: seq<Unit>, cols: nat)
    requires cols >= 1 && |cur| <= cols && us != []
    ensures us[0].Break? ==> RowsFrom(cur, us, cols) == [cur] + RowsFrom([], us[1..], cols)
    ensures us[0].Char? && |cur| < cols ==> RowsFrom(cur, us, cols) == RowsFrom(cur + [us[0].cp], us[1..], cols)
    ensures us[0].Char? && |cur| == cols ==> RowsFrom(cur, us, cols) == [cur] + RowsFrom([us[0].cp], us[1..], cols)
  {
    var r := Lines(us[1..]);
    if us[0].Break? {
      assert cur + [] == cur && [] + r[0] == r[0];
      assert Lines(us)[1..] == r;
    } else {
      var cp := us[0].cp;
      assert Lines(us) == [[cp] + r[0]] + r[1..];
      assert Lines(us)[0] == [cp] + r[0] && Lines(us)[1..] == r[1..];
      assert cur + ([cp] + r[0]) == cur + [cp] + r[0];
      if |cur| == cols {
        var line := cur + ([cp] + r[0]);
        assert line[..cols] == cur && line[cols..] == [cp] + r[0];
      }
    }
  }

  lemma NextRow(cur: seq<nat>, rest: seq<seq<nat>>, row: nat, maxRows: int)
    requires row < maxRows
    ensures OnPage([cur] + rest, row, maxRows) == InRow(cur, 0, row) + OnPage(rest, row + 1, maxRows)
  {
    assert ([cur] + rest)[1..] == rest;
  }

  lemma NextInRow(cur: seq<nat>, cp: nat, row: nat, rest: seq<Placed>)
    ensures InRow(cur + [cp], 0, row) + rest == InRow(cur, 0, row) + ([Placed(cp, |cur|, row)] + rest)
  {
  }

  lemma RowOfOne(cp: nat, row: nat)
    ensures InRow([], 0, row) == [] && InRow([cp], 0, row) == [Placed(cp, 0, row)]
  {
  }

  /** The loop stands in some row, behind the characters already in it. */
  ghost predicate DrawsRest(us: seq<Unit>, cur: seq<nat>, row: nat, cols: nat, maxRows: int)
    requires cols >= 1
  {
    row < maxRows ==>
      OnPage(RowsFrom(cur, us, cols), row, maxRows) == InRow(cur, 0, row) + Place(us, |cur|, row, cols, maxRows)
  }

  lemma RestAtBreak(us: seq<Unit>, cur: seq<nat>, row: nat, cols: nat, maxRows: int)
    requires cols >= 1 && |cur| <= cols && us != [] && us[0].Break?
    requires DrawsRest(us[1..], [], row + 1, cols, maxRows)
    ensures DrawsRest(us, cur, row, cols, maxRows)
  {
    if row < maxRows {
      RowsFromStep(cur, us, cols);
      NextRow(cur, RowsFrom([], us[1..], cols), row, maxRows);
      RowOfOne(0, row + 1);
    }
  }

  lemma RestInRow(us: seq<Unit>, cur: seq<nat>, row: nat, cols: nat, maxRows: int)
    requires cols >= 1 && |cur| < cols && us != [] && us[0].Char?
    requires DrawsRest(us[1..], cur + [us[0].cp], row, cols, maxRows)
    ensures DrawsRest(us, cur, row, cols, maxRows)
  {
    if row < maxRows {
      RowsFromStep(cur, us, cols);
      NextInRow(cur, us[0].cp, row, Place(us[1..], |cur| + 1, row, cols, maxRows));
    }
  }

  lemma RestAtWrap(us: seq<Unit>, cur: seq<nat>, row: nat, cols: nat, maxRows: int)
    requires cols >= 1 && |cur| == cols && us != [] && us[0].Char?
    requires DrawsRest(us[1..], [us[0].cp], row + 1, cols, maxRows)
    ensures DrawsRest(us, cur, row, cols, maxRows)
  {
    if row < maxRows {
      RowsFromStep(cur, us, cols);
      NextRow(cur, RowsFrom([us[0].cp], us[1..], cols), row, maxRows);
      RowOfOne(us[0].cp, row + 1);
    }
  }

  /** Wherever the loop stands, it draws what is left of the page. */
  lemma {:induction false} PlaceIsRest(us: seq<Unit>, cur: seq<nat>, row: nat, cols: nat, maxRows: int)
    requires cols >= 1 && |cur| <= cols
    ensures DrawsRest(us, cur, row, cols, maxRows)
    decreases |us|
  {
    if us == [] {
      assert cur + [] == cur && RowsFrom(cur, us, cols) == [cur] + [];
      if row < maxRows { NextRow(cur, [], row, maxRows); }
    } else if us[0].Break? {
      PlaceIsRest(us[1..], [], row + 1, cols, maxRows);
      RestAtBreak(us, cur, row, cols, maxRows);
    } else if |cur| < cols {
      PlaceIsRest(us[1..], cur + [us[0].cp], row, cols, maxRows);
      RestInRow(us, cur, row, cols, maxRows);
    } else {
      PlaceIsRest(us[1..], [us[0].cp], row + 1, cols, maxRows);
      RestAtWrap(us, cur, row, cols, maxRows);
    }
  }

  /** The loop draws the page: the lines of the text, wrapped greedily, down to the last row. */
  lemma PlaceIsPage(us: seq<Unit>, cols: nat, maxRows: int)
    requires cols >= 1
    ensures Place(us, 0, 0, cols, maxRows) == OnPage(Wrap(Lines(us), cols), 0, maxRows)
  {
    PlaceIsRest(us, [], 0, cols, maxRows);
    assert [] + Lines(us)[0] == Lines(us)[0];
    assert InRow([], 0, 0) == [];
  }

  /** Row r of the page has a character in column c. */
  ghost predicate HasChar(rows: seq<seq<nat>>, maxRows: int, r: nat, c: nat) {
    r < |rows| && r < maxRows && c < |rows[r]|
  }

  lemma InRowHas(cps: seq<nat>, row: nat, p: Placed)
    ensures p in InRow(cps, 0, row) <==> p.row == row && p.col < |cps| && cps[p.col] == p.cp
  {
    if p.row == row && p.col < |cps| && cps[p.col] == p.cp { assert InRow(cps, 0, row)[p.col] == p; }
  }

  ghost predicate PageHas(rows: seq<seq<nat>>, row: nat, maxRows: int, p: Placed) {
    row <= p.row && HasChar(rows, maxRows - row, p.row - row, p.col) && rows[p.row - row][p.col] == p.cp
  }

  lemma NextRowHas(rows: seq<seq<nat>>, row: nat, maxRows: int, p: Placed)
    requires rows != [] && row < maxRows
    ensures PageHas(rows, row, maxRows, p) <==>
      (p.row == row && p.col < |rows[0]| && rows[0][p.col] == p.cp) || PageHas(rows[1..], row + 1, maxRows, p)
  {
    if row < p.row < row + |rows| { assert rows[1..][p.row - row - 1] == rows[p.row - row]; }
  }

  /** What is drawn of a page are its characters, each in its row and column. */
  lemma {:induction false} OnPageHas(rows: seq<seq<nat>>, row: nat, maxRows: int, p: Placed)
    ensures p in OnPage(rows, row, maxRows) <==> PageHas(rows, row, maxRows, p)
    decreases |rows|
  {
    if rows != [] && row < maxRows {
      OnPageHas(rows[1..], row + 1, maxRows, p);
      InRowHas(rows[0], row, p);
      NextRowHas(rows, row, maxRows, p);
    }
  }

  ghost predicate AllInside(ps: seq<Placed>, row: nat, maxCols: int, maxRows: int) {
    forall k :: 0 <= k < |ps| ==> ps[k].col < maxCols && row <= ps[k].row < maxRows
  }

  /** Nothing is placed outside the page. */
  lemma {:induction false} PlacedInside(us: seq<Unit>, col: nat, row: nat, maxCols: int, maxRows: int)
    requires maxCols >= 1
    ensures AllInside(Place(us, col, row, maxCols, maxRows), row, maxCols, maxRows)
    decreases |us|
  {
    if us != [] && row < maxRows {
      if us[0].Break? {
        PlacedInside(us[1..], 0, row + 1, maxCols, maxRows);
      } else if col >= maxCols {
        PlacedInside(us[1..], 1, row + 1, maxCols, maxRows);
      } else {
        PlacedInside(us[1..], col + 1, row, maxCols, maxRows);
      }
    }
  }

  /** Without columns, every character has a row of its own, in column 0, and every character and
      break takes one: the one at index u is drawn in the row u + 1 below the current one. */
  lemma {:induction false} NoColumns(us: seq<Unit>, col: nat, row: nat, maxCols: int, maxRows: int, p: Placed)
    requires maxCols <= 0
    ensures p in Place(us, col, row, maxCols, maxRows)
       <==> && p.col == 0 && row < p.row < maxRows
            && p.row - row - 1 < |us| && us[p.row - row - 1] == Char(p.cp)
    decreases |us|
  {
    if us != [] && row < maxRows {
      NoColumns(us[1..], if us[0].Break? then 0 else 1, row + 1, maxCols, maxRows, p);
    }
  }

  ghost predicate Downwards(ps: seq<Placed>) {
    forall j, k :: 0 <= j < k < |ps| ==> ps[j].row < ps[k].row
  }

  /** And they are drawn from top to bottom. */
  lemma {:induction false} NoColumnsInOrder(us: seq<Unit>, col: nat, row: nat, maxCols: int, maxRows: int)
    requires maxCols <= 0
    ensures Downwards(Place(us, col, row, maxCols, maxRows))
    decreases |us|
  {
    if us != [] && row < maxRows {
      var next := if us[0].Break? then 0 else 1;
      var rest := Place(us[1..], next, row + 1, maxCols, maxRows);
      NoColumnsInOrder(us[1..], next, row + 1, maxCols, maxRows);
      forall k | 0 <= k < |rest|
        ensures row + 1 < rest[k].row
      {
        NoColumns(us[1..], next, row + 1, maxCols, maxRows, rest[k]);
      }
    }
  }
}
