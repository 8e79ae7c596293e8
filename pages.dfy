/** The forecast-data section of `generateForecastPdf` (controllers/forecastController.js) as the
    sequence of drawing operations it issues: the table header, one band and one text per
    in-range cell for every row, and a page break with a continuation title and a repeated header
    whenever a row ends below the page's bottom margin. PDFKit's own state (gradients, strokes,
    fonts, the `doc.y` cursor) is not modelled; the two `doc.y` values the layout reads are
    parameters. */
module TablePages {
  import opened Js
  import Normalizer
  import opened TableParse
  import opened TableLayout

  /** The header band's height. */
  const HeaderHeight: real := 25.0

  /** `doc.page.height - 50`: a row ending below this forces a new page. */
  const BottomLimit: real := PageHeight - 50.0

  /** What the section draws. Dividers are the vertical column lines. */
  datatype Op =
    | SectionTitle
    | NewPage
    | ContinuedTitle
    | HeaderBand(y: real)
    | HeaderLabel(text: string, x: real, y: real, width: real)
    | Divider(x: real, y: real, height: real)
    | RowBand(y: real, height: real, shaded: bool)
    | CellText(text: string, x: real, y: real, width: real, align: Align, color: string)
    | NoData

  // ---------------------------------------------------------------------------
  // Header and row drawing

  /** The header cells from column `i` on: a divider before every column but the first, and the
      centred label. */
  function HeaderCols(headers: seq<string>, w: seq<real>, y: real, i: nat): seq<Op>
    requires |w| == |headers|
    decreases |headers| - i
  {
    if i >= |headers| then []
    else
      var x := ColumnX(w, i);
      (if i > 0 then [Divider(x, y, HeaderHeight)] else []) +
      [HeaderLabel(headers[i], x + 5.0, y + 7.0, w[i] - Padding)] +
      HeaderCols(headers, w, y, i + 1)
  }

  function HeaderOps(headers: seq<string>, w: seq<real>, y: real): seq<Op>
    requires |w| == |headers|
  {
    [HeaderBand(y)] + HeaderCols(headers, w, y, 0)
  }

  /** The cells of a row from index `i` on; cells beyond the header count are skipped. */
  function RowCells(row: seq<string>, w: seq<real>, y: real, h: real, i: nat): seq<Op>
    decreases |row| - i
  {
    if i >= |row| then []
    else if i < |w| then
      var x := ColumnX(w, i);
      (if i > 0 then [Divider(x, y, h)] else []) +
      [CellText(row[i], x + 5.0, y + 5.0, w[i] - Padding, CellAlign(row[i]), CellColor(row[i]))] +
      RowCells(row, w, y, h, i + 1)
    else RowCells(row, w, y, h, i + 1)
  }

  function RowOps(row: seq<string>, w: seq<real>, y: real, h: real, shaded: bool): seq<Op>
  {
    [RowBand(y, h, shaded)] + RowCells(row, w, y, h, 0)
  }

  /** A page break: a new page, the continuation title and the header again. */
  function BreakOps(headers: seq<string>, w: seq<real>, contY: real): seq<Op>
    requires |w| == |headers|
  {
    [NewPage, ContinuedTitle] + HeaderOps(headers, w, contY)
  }

  // ---------------------------------------------------------------------------
  // Placement

  /** Where a row went: its top, its height, its band colour and whether a page break follows. */
  datatype Placed = Placed(y: real, height: real, shaded: bool, breakAfter: bool)

  /** The row loop's state: `y`, `rowColor`, whether a page break has happened (after one, the
      continuation title's 14-point font stays in force, so rows are measured in it), and the
      rows placed so far. */
  datatype Cursor = Cursor(y: real, shaded: bool, broken: bool, placed: seq<Placed>)

  /** The state after the first `k` rows, rows starting at `y0` and at `contY + 25` after a break.
      Row `k` is `heights[k]` high before the first break and `later[k]` high after it. */
  function PlaceUpTo(heights: seq<real>, later: seq<real>, k: nat, y0: real, contY: real): (c: Cursor)
    requires k <= |heights| && |later| == |heights|
    ensures |c.placed| == k
  {
    if k == 0 then Cursor(y0, false, false, [])
    else
      var c := PlaceUpTo(heights, later, k - 1, y0, contY);
      var h := if c.broken then later[k - 1] else heights[k - 1];
      var bottom := c.y + h;
      var brk := bottom > BottomLimit && k - 1 < |heights| - 1;
      Cursor(if brk then contY + HeaderHeight else bottom, !c.shaded, c.broken || brk,
             c.placed + [Placed(c.y, h, c.shaded, brk)])
  }

  /** The operations for the first `k` rows. */
  function DrawUpTo(headers: seq<string>, rows: seq<seq<string>>, w: seq<real>, heights: seq<real>, later: seq<real>,
                    k: nat, y0: real, contY: real): seq<Op>
    requires |w| == |headers| && |heights| == |rows| && |later| == |rows| && k <= |rows|
  {
    if k == 0 then []
    else
      var p := PlaceUpTo(heights, later, k, y0, contY).placed[k - 1];
      DrawUpTo(headers, rows, w, heights, later, k - 1, y0, contY) +
      RowOps(rows[k - 1], w, p.y, p.height, p.shaded) +
      (if p.breakAfter then BreakOps(headers, w, contY) else [])
  }

  function Heights(rows: seq<seq<string>>, w: seq<real>, height: (string, real) -> real): (r: seq<real>)
    ensures |r| == |rows|
  {
    seq(|rows|, k requires 0 <= k < |rows| => RowHeight(rows[k], w, height))
  }

  /** The whole table: the header `20` below `top`, then the rows. `titleBottom` is where a
      continuation title leaves the cursor; the repeated header goes `10` below it. Rows are
      measured with `height` (the section title's 18-point size) until the first page break and
      with `contHeight` (the continuation title's 14-point size) after it. */
  function TableOps(headers: seq<string>, rows: seq<seq<string>>, w: seq<real>, height: (string, real) -> real, contHeight: (string, real) -> real,
                    top: real, titleBottom: real): seq<Op>
    requires |w| == |headers|
  {
    var y0 := top + 20.0;
    HeaderOps(headers, w, y0) +
    DrawUpTo(headers, rows, w, Heights(rows, w, height), Heights(rows, w, contHeight), |rows|, y0 + HeaderHeight, titleBottom + 10.0)
  }

  /** One more row: its band and cells, then the break if one follows. */
  lemma DrawStep(headers: seq<string>, rows: seq<seq<string>>, w: seq<real>, heights: seq<real>, later: seq<real>,
                 k: nat, y0: real, contY: real)
    requires |w| == |headers| && |heights| == |rows| && |later| == |rows| && k < |rows|
    ensures var c := PlaceUpTo(heights, later, k, y0, contY);
            var h := if c.broken then later[k] else heights[k];
            var brk := c.y + h > BottomLimit && k < |rows| - 1;
            && DrawUpTo(headers, rows, w, heights, later, k + 1, y0, contY) ==
               DrawUpTo(headers, rows, w, heights, later, k, y0, contY) + RowOps(rows[k], w, c.y, h, c.shaded) +
               (if brk then BreakOps(headers, w, contY) else [])
            && PlaceUpTo(heights, later, k + 1, y0, contY).y == (if brk then contY + HeaderHeight else c.y + h)
            && PlaceUpTo(heights, later, k + 1, y0, contY).shaded == !c.shaded
            && PlaceUpTo(heights, later, k + 1, y0, contY).broken == (c.broken || brk)
  {
    var c := PlaceUpTo(heights, later, k, y0, contY);
    var h := if c.broken then later[k] else heights[k];
    DrawLast(headers, rows, w, heights, later, k + 1, y0, contY);
    assert PlaceUpTo(heights, later, k + 1, y0, contY).placed[k] ==
           Placed(c.y, h, c.shaded, c.y + h > BottomLimit && k < |rows| - 1);
  }

  lemma OpsAssoc(a: seq<Op>, b: seq<Op>, c: seq<Op>, d: seq<Op>)
    ensures a + b + c + d == a + (b + c + d)
    ensures a + b + c == a + (b + c + [])
  {
  }

  /** `rows.forEach(...)` with its `y` and `rowColor` bookkeeping. */
  method DrawTable(headers: seq<string>, rows: seq<seq<string>>, w: seq<real>, height: (string, real) -> real, contHeight: (string, real) -> real,
                   top: real, titleBottom: real) returns (ops: seq<Op>)
    requires |w| == |headers|
    ensures ops == TableOps(headers, rows, w, height, contHeight, top, titleBottom)
  {
    var y := top + 20.0;
    ops := HeaderOps(headers, w, y);
    y := y + HeaderHeight;
    ghost var y0 := y;
    var contY := titleBottom + 10.0;
    var rowColor := false;
    var continued := false;
    ghost var heights := Heights(rows, w, height);
    ghost var later := Heights(rows, w, contHeight);
    ghost var header := ops;
    for k := 0 to |rows|
      invariant y == PlaceUpTo(heights, later, k, y0, contY).y
      invariant rowColor == PlaceUpTo(heights, later, k, y0, contY).shaded
      invariant continued == PlaceUpTo(heights, later, k, y0, contY).broken
      invariant ops == header + DrawUpTo(headers, rows, w, heights, later, k, y0, contY)
    {
      ghost var before := DrawUpTo(headers, rows, w, heights, later, k, y0, contY);
      var rowHeight := ComputeRowHeight(rows[k], w, if continued then contHeight else height);
      assert rowHeight == if continued then later[k] else heights[k];
      DrawStep(headers, rows, w, heights, later, k, y0, contY);
      var rowOps := RowOps(rows[k], w, y, rowHeight, rowColor);
      ops := ops + rowOps;
      rowColor := !rowColor;
      y := y + rowHeight;
      if y > BottomLimit && k < |rows| - 1 {
        var breakOps := BreakOps(headers, w, contY);
        ops := ops + breakOps;
        y := contY + HeaderHeight;
        continued := true;
        OpsAssoc(header, before, rowOps, breakOps);
      } else {
        OpsAssoc(header, before, rowOps, []);
      }
    }
  }

  // ---------------------------------------------------------------------------
  // Properties of the placement

  /** Some row before row `j` is followed by a page break. */
  predicate BrokenBefore(placed: seq<Placed>, j: nat)
    requires j <= |placed|
  {
    exists i :: 0 <= i < j && placed[i].breakAfter
  }

  lemma BrokenBeforeNext(placed: seq<Placed>, j: nat)
    requires j < |placed|
    ensures BrokenBefore(placed, j + 1) <==> BrokenBefore(placed, j) || placed[j].breakAfter
  {
    if BrokenBefore(placed, j + 1) && !placed[j].breakAfter {
      var i :| 0 <= i < j + 1 && placed[i].breakAfter;
      assert i < j;
    }
  }

  lemma BrokenBeforeSnoc(placed: seq<Placed>, p: Placed, j: nat)
    requires j <= |placed|
    ensures BrokenBefore(placed + [p], j) <==> BrokenBefore(placed, j)
  {
    if BrokenBefore(placed + [p], j) {
      var i :| 0 <= i < j && (placed + [p])[i].breakAfter;
      assert placed[i].breakAfter;
    }
    if BrokenBefore(placed, j) {
      var i :| 0 <= i < j && placed[i].breakAfter;
      assert (placed + [p])[i].breakAfter;
    }
  }

  /** Rows are placed one after another in input order: the first at `y0`, each next one below
      the previous or, after a break, below the repeated header; a break follows exactly the rows
      that end below the margin, never the last; band colours alternate by row index; a row is
      `heights[j]` high when no break comes before it and `later[j]` high when one does. */
  predicate Placement(heights: seq<real>, later: seq<real>, k: nat, y0: real, contY: real, c: Cursor)
    requires k <= |heights| && |later| == |heights| && |c.placed| == k
  {
    && c.shaded == (k % 2 == 1)
    && (c.broken <==> BrokenBefore(c.placed, k))
    && (k > 0 ==> c.placed[0].y == y0)
    && (k == 0 ==> c.y == y0)
    && (k > 0 ==> c.y == if c.placed[k - 1].breakAfter then contY + HeaderHeight
                         else c.placed[k - 1].y + c.placed[k - 1].height)
    && (forall j :: 0 <= j < k ==>
          c.placed[j].height == (if BrokenBefore(c.placed, j) then later[j] else heights[j]))
    && (forall j :: 0 <= j < k ==> c.placed[j].shaded == (j % 2 == 1))
    && (forall j :: 0 <= j < k ==>
          (c.placed[j].breakAfter <==> c.placed[j].y + c.placed[j].height > BottomLimit && j < |heights| - 1))
    && (forall j :: 0 <= j < k - 1 ==>
          c.placed[j + 1].y == if c.placed[j].breakAfter then contY + HeaderHeight
                               else c.placed[j].y + c.placed[j].height)
  }

  lemma {:induction false} PlacementFacts(heights: seq<real>, later: seq<real>, k: nat, y0: real, contY: real)
    requires k <= |heights| && |later| == |heights|
    ensures Placement(heights, later, k, y0, contY, PlaceUpTo(heights, later, k, y0, contY))
  {
    if k > 0 {
      PlacementFacts(heights, later, k - 1, y0, contY);
      PlacementStep(heights, later, k - 1, y0, contY);
    }
  }

  lemma PlacementStep(heights: seq<real>, later: seq<real>, k: nat, y0: real, contY: real)
    requires k < |heights| && |later| == |heights|
    requires Placement(heights, later, k, y0, contY, PlaceUpTo(heights, later, k, y0, contY))
    ensures Placement(heights, later, k + 1, y0, contY, PlaceUpTo(heights, later, k + 1, y0, contY))
  {
    var prev := PlaceUpTo(heights, later, k, y0, contY);
    var c := PlaceUpTo(heights, later, k + 1, y0, contY);
    var last := c.placed[k];
    assert c.placed == prev.placed + [last];
    BrokenBeforeSnoc(prev.placed, last, k);
    BrokenBeforeNext(c.placed, k);
    forall j | 0 <= j < k + 1
      ensures c.placed[j].height == (if BrokenBefore(c.placed, j) then later[j] else heights[j])
    {
      BrokenBeforeSnoc(prev.placed, last, j);
      if j < k {
        assert c.placed[j] == prev.placed[j];
      }
    }
    forall j | 0 <= j < k + 1
      ensures c.placed[j].shaded == (j % 2 == 1)
    {
      if j < k {
        assert c.placed[j] == prev.placed[j];
      }
    }
    forall j | 0 <= j < k + 1
      ensures c.placed[j].breakAfter <==> c.placed[j].y + c.placed[j].height > BottomLimit && j < |heights| - 1
    {
      if j < k {
        assert c.placed[j] == prev.placed[j];
      }
    }
    forall j | 0 <= j < k
      ensures c.placed[j + 1].y == if c.placed[j].breakAfter then contY + HeaderHeight
                                   else c.placed[j].y + c.placed[j].height
    {
      assert c.placed[j] == prev.placed[j];
      if j + 1 < k {
        assert c.placed[j + 1] == prev.placed[j + 1];
      }
    }
    if k > 0 {
      assert c.placed[0] == prev.placed[0];
    }
  }

  /** Each row is placed exactly once, and no break follows the last row. */
  lemma EveryRowPlacedOnce(heights: seq<real>, later: seq<real>, y0: real, contY: real)
    requires |later| == |heights|
    ensures |PlaceUpTo(heights, later, |heights|, y0, contY).placed| == |heights|
    ensures |heights| > 0 ==> !PlaceUpTo(heights, later, |heights|, y0, contY).placed[|heights| - 1].breakAfter
  {
    PlacementFacts(heights, later, |heights|, y0, contY);
  }

  // ---------------------------------------------------------------------------
  // Counting what is drawn

  /** The operations `keep` selects, in order. */
  function Select(ops: seq<Op>, keep: Op -> bool): (r: seq<Op>)
    ensures |r| <= |ops|
  {
    if ops == [] then [] else Select(ops[..|ops| - 1], keep) + (if keep(ops[|ops| - 1]) then [ops[|ops| - 1]] else [])
  }

  predicate IsBand(op: Op) { op.RowBand? }
  predicate IsContinued(op: Op) { op.ContinuedTitle? }
  predicate IsHeader(op: Op) { op.HeaderBand? }
  predicate IsNoData(op: Op) { op.NoData? }

  lemma {:induction false} SelectAppend(a: seq<Op>, b: seq<Op>, keep: Op -> bool)
    ensures Select(a + b, keep) == Select(a, keep) + Select(b, keep)
    decreases |b|
  {
    if b == [] {
      assert a + b == a;
    } else {
      var init := b[..|b| - 1];
      assert (a + b)[..|a + b| - 1] == a + init;
      assert (a + b)[|a + b| - 1] == b[|b| - 1];
      SelectAppend(a, init, keep);
    }
  }

  lemma {:induction false} SelectNone(ops: seq<Op>, keep: Op -> bool)
    requires forall k :: 0 <= k < |ops| ==> !keep(ops[k])
    ensures Select(ops, keep) == []
  {
    if ops != [] {
      SelectNone(ops[..|ops| - 1], keep);
    }
  }

  /** Header cells are only dividers and labels. */
  lemma {:induction false} HeaderColsKinds(headers: seq<string>, w: seq<real>, y: real, i: nat)
    requires |w| == |headers|
    ensures forall k :: 0 <= k < |HeaderCols(headers, w, y, i)| ==>
              HeaderCols(headers, w, y, i)[k].Divider? || HeaderCols(headers, w, y, i)[k].HeaderLabel?
    decreases |headers| - i
  {
    if i < |headers| {
      HeaderColsKinds(headers, w, y, i + 1);
    }
  }

  /** Row cells are only dividers and texts. */
  lemma {:induction false} RowCellsKinds(row: seq<string>, w: seq<real>, y: real, h: real, i: nat)
    ensures forall k :: 0 <= k < |RowCells(row, w, y, h, i)| ==>
              RowCells(row, w, y, h, i)[k].Divider? || RowCells(row, w, y, h, i)[k].CellText?
    decreases |row| - i
  {
    if i < |row| {
      RowCellsKinds(row, w, y, h, i + 1);
    }
  }

  /** The texts of the cell operations, in order. */
  function TextsOf(ops: seq<Op>): seq<string>
  {
    if ops == [] then []
    else TextsOf(ops[..|ops| - 1]) + (if ops[|ops| - 1].CellText? then [ops[|ops| - 1].text] else [])
  }

  lemma {:induction false} TextsOfAppend(a: seq<Op>, b: seq<Op>)
    ensures TextsOf(a + b) == TextsOf(a) + TextsOf(b)
    decreases |b|
  {
    if b == [] {
      assert a + b == a;
    } else {
      var init := b[..|b| - 1];
      assert (a + b)[..|a + b| - 1] == a + init;
      assert (a + b)[|a + b| - 1] == b[|b| - 1];
      TextsOfAppend(a, init);
    }
  }

  function Min(a: nat, b: nat): nat { if a < b then a else b }

  /** The texts a row draws from column `i` on are its cells up to the header count, in order:
      cells beyond the header count are never drawn. */
  lemma {:induction false} RowTextsFrom(row: seq<string>, w: seq<real>, y: real, h: real, i: nat)
    requires i <= Min(|row|, |w|)
    ensures TextsOf(RowCells(row, w, y, h, i)) == row[i..Min(|row|, |w|)]
    decreases |row| - i
  {
    if i < |row| && i < |w| {
      RowTextsFrom(row, w, y, h, i + 1);
      RowTextsStep(row, w, y, h, i);
    } else if i < |row| {
      RowCellsSkipped(row, w, y, h, i);
      assert TextsOf([]) == [];
    } else {
      assert RowCells(row, w, y, h, i) == [];
    }
  }

  /** One drawn cell puts its text in front of the texts of the rest of the row. */
  lemma RowTextsStep(row: seq<string>, w: seq<real>, y: real, h: real, i: nat)
    requires i < |row| && i < |w|
    requires TextsOf(RowCells(row, w, y, h, i + 1)) == row[i + 1..Min(|row|, |w|)]
    ensures TextsOf(RowCells(row, w, y, h, i)) == row[i..Min(|row|, |w|)]
  {
    var m := Min(|row|, |w|);
    var rest := RowCells(row, w, y, h, i + 1);
    var x := ColumnX(w, i);
    var c := CellText(row[i], x + 5.0, y + 5.0, w[i] - Padding, CellAlign(row[i]), CellColor(row[i]));
    var div: seq<Op> := if i > 0 then [Divider(x, y, h)] else [];
    RowCellsUnfold(row, w, y, h, i);
    TextsOfCell(div, c, rest);
    ConsSlice(row, i, m);
    assert RowCells(row, w, y, h, i) == div + [c] + rest;
  }

  lemma RowCellsUnfold(row: seq<string>, w: seq<real>, y: real, h: real, i: nat)
    requires i < |row| && i < |w|
    ensures var x := ColumnX(w, i);
            RowCells(row, w, y, h, i) ==
              (if i > 0 then [Divider(x, y, h)] else []) +
              [CellText(row[i], x + 5.0, y + 5.0, w[i] - Padding, CellAlign(row[i]), CellColor(row[i]))] +
              RowCells(row, w, y, h, i + 1)
  {
  }

  /** A cell after a divider (or after nothing) contributes just its text. */
  lemma TextsOfCell(div: seq<Op>, c: Op, rest: seq<Op>)
    requires c.CellText?
    requires div == [] || (|div| == 1 && div[0].Divider?)
    ensures TextsOf(div + [c] + rest) == [c.text] + TextsOf(rest)
  {
    TextsOfAppend(div + [c], rest);
    assert (div + [c])[..|div|] == div;
    assert TextsOf(div) == [] by {
      if div != [] {
        assert div[..0] == [];
      }
    }
    assert TextsOf(div + [c]) == TextsOf(div) + [c.text];
  }

  lemma ConsSlice(s: seq<string>, i: nat, m: nat)
    requires i < m <= |s|
    ensures [s[i]] + s[i + 1..m] == s[i..m]
  {
  }

  /** Past the header count a row draws nothing. */
  lemma {:induction false} RowCellsSkipped(row: seq<string>, w: seq<real>, y: real, h: real, i: nat)
    requires i >= |w|
    ensures RowCells(row, w, y, h, i) == []
    decreases |row| - i
  {
    if i < |row| {
      RowCellsSkipped(row, w, y, h, i + 1);
    }
  }

  /** A drawn row shows exactly its first cells, one per column. */
  lemma RowTexts(row: seq<string>, w: seq<real>, y: real, h: real, shaded: bool)
    ensures TextsOf(RowOps(row, w, y, h, shaded)) == row[..Min(|row|, |w|)]
  {
    RowTextsFrom(row, w, y, h, 0);
    TextsOfAppend([RowBand(y, h, shaded)], RowCells(row, w, y, h, 0));
    assert [RowBand(y, h, shaded)][..0] == [];
  }

  /** Facts about the kinds of operation in one table piece. */
  lemma HeaderOpsCounts(headers: seq<string>, w: seq<real>, y: real)
    requires |w| == |headers|
    ensures Select(HeaderOps(headers, w, y), IsHeader) == [HeaderBand(y)]
    ensures Select(HeaderOps(headers, w, y), IsBand) == []
    ensures Select(HeaderOps(headers, w, y), IsContinued) == []
  {
    var cols := HeaderCols(headers, w, y, 0);
    HeaderColsKinds(headers, w, y, 0);
    SelectAppend([HeaderBand(y)], cols, IsHeader);
    SelectAppend([HeaderBand(y)], cols, IsBand);
    SelectAppend([HeaderBand(y)], cols, IsContinued);
    SelectNone(cols, IsHeader); SelectNone(cols, IsBand); SelectNone(cols, IsContinued);
    assert [HeaderBand(y)][..0] == [];
  }

  lemma RowOpsCounts(row: seq<string>, w: seq<real>, y: real, h: real, shaded: bool)
    ensures Select(RowOps(row, w, y, h, shaded), IsBand) == [RowBand(y, h, shaded)]
    ensures Select(RowOps(row, w, y, h, shaded), IsHeader) == []
    ensures Select(RowOps(row, w, y, h, shaded), IsContinued) == []
  {
    var cells := RowCells(row, w, y, h, 0);
    RowCellsKinds(row, w, y, h, 0);
    SelectAppend([RowBand(y, h, shaded)], cells, IsBand);
    SelectAppend([RowBand(y, h, shaded)], cells, IsHeader);
    SelectAppend([RowBand(y, h, shaded)], cells, IsContinued);
    SelectNone(cells, IsHeader); SelectNone(cells, IsBand); SelectNone(cells, IsContinued);
    assert [RowBand(y, h, shaded)][..0] == [];
  }

  lemma BreakOpsCounts(headers: seq<string>, w: seq<real>, contY: real)
    requires |w| == |headers|
    ensures Select(BreakOps(headers, w, contY), IsHeader) == [HeaderBand(contY)]
    ensures Select(BreakOps(headers, w, contY), IsBand) == []
    ensures Select(BreakOps(headers, w, contY), IsContinued) == [ContinuedTitle]
  {
    HeaderOpsCounts(headers, w, contY);
    var pre: seq<Op> := [NewPage, ContinuedTitle];
    SelectAppend(pre, HeaderOps(headers, w, contY), IsHeader);
    SelectAppend(pre, HeaderOps(headers, w, contY), IsBand);
    SelectAppend(pre, HeaderOps(headers, w, contY), IsContinued);
    assert pre[..1] == [NewPage] && [NewPage][..0] == [];
  }

  /** The number of page breaks among placed rows. */
  function BreakCount(p: seq<Placed>): nat
  {
    if p == [] then 0 else BreakCount(p[..|p| - 1]) + (if p[|p| - 1].breakAfter then 1 else 0)
  }

  /** The row bands the placed rows are drawn as. */
  function BandsOf(p: seq<Placed>): (r: seq<Op>)
    ensures |r| == |p|
    ensures forall j :: 0 <= j < |p| ==> r[j] == RowBand(p[j].y, p[j].height, p[j].shaded)
  {
    if p == [] then []
    else
      var last := p[|p| - 1];
      assert forall j :: 0 <= j < |p| - 1 ==> p[..|p| - 1][j] == p[j];
      BandsOf(p[..|p| - 1]) + [RowBand(last.y, last.height, last.shaded)]
  }

  lemma PlacedPrefix(heights: seq<real>, later: seq<real>, k: nat, y0: real, contY: real)
    requires 0 < k <= |heights| && |later| == |heights|
    ensures PlaceUpTo(heights, later, k, y0, contY).placed[..k - 1] == PlaceUpTo(heights, later, k - 1, y0, contY).placed
  {
  }

  /** The operations of the first `k` rows end with those of row `k - 1` and its break. */
  lemma DrawLast(headers: seq<string>, rows: seq<seq<string>>, w: seq<real>, heights: seq<real>, later: seq<real>,
                 k: nat, y0: real, contY: real)
    requires |w| == |headers| && |heights| == |rows| && |later| == |rows| && 0 < k <= |rows|
    ensures var p := PlaceUpTo(heights, later, k, y0, contY).placed[k - 1];
            DrawUpTo(headers, rows, w, heights, later, k, y0, contY) ==
              DrawUpTo(headers, rows, w, heights, later, k - 1, y0, contY) + RowOps(rows[k - 1], w, p.y, p.height, p.shaded) +
              (if p.breakAfter then BreakOps(headers, w, contY) else [])
  {
  }

  /** The placements after `k` rows extend those after `k - 1` by one. */
  lemma PlacedSnoc(heights: seq<real>, later: seq<real>, k: nat, y0: real, contY: real)
    requires 0 < k <= |heights| && |later| == |heights|
    ensures var p := PlaceUpTo(heights, later, k, y0, contY).placed;
            p == PlaceUpTo(heights, later, k - 1, y0, contY).placed + [p[k - 1]]
  {
    var p := PlaceUpTo(heights, later, k, y0, contY).placed;
    PlacedPrefix(heights, later, k, y0, contY);
    assert p == p[..k - 1] + [p[k - 1]];
  }

  lemma SelectThree(a: seq<Op>, b: seq<Op>, c: seq<Op>, keep: Op -> bool)
    ensures Select(a + b + c, keep) == Select(a, keep) + Select(b, keep) + Select(c, keep)
  {
    SelectAppend(a + b, c, keep);
    SelectAppend(a, b, keep);
  }

  /** What the operations after a row contain: a break's title and header, or nothing. */
  lemma BreakPart(headers: seq<string>, w: seq<real>, contY: real, b: bool)
    requires |w| == |headers|
    ensures var brk := if b then BreakOps(headers, w, contY) else [];
            && Select(brk, IsBand) == []
            && |Select(brk, IsContinued)| == (if b then 1 else 0)
            && |Select(brk, IsHeader)| == (if b then 1 else 0)
  {
    if b {
      BreakOpsCounts(headers, w, contY);
    } else {
      assert Select([], IsBand) == [] && Select([], IsContinued) == [] && Select([], IsHeader) == [];
    }
  }

  lemma BandsCombine(before: seq<Op>, row: seq<Op>, brk: seq<Op>, prev: seq<Placed>, last: Placed)
    requires Select(before, IsBand) == BandsOf(prev)
    requires Select(row, IsBand) == [RowBand(last.y, last.height, last.shaded)]
    requires Select(brk, IsBand) == []
    ensures Select(before + row + brk, IsBand) == BandsOf(prev + [last])
  {
    SelectThree(before, row, brk, IsBand);
    assert (prev + [last])[..|prev|] == prev;
  }

  lemma BreaksCombine(before: seq<Op>, row: seq<Op>, brk: seq<Op>, prev: seq<Placed>, last: Placed)
    requires |Select(before, IsContinued)| == BreakCount(prev) && |Select(before, IsHeader)| == BreakCount(prev)
    requires Select(row, IsContinued) == [] && Select(row, IsHeader) == []
    requires |Select(brk, IsContinued)| == (if last.breakAfter then 1 else 0)
    requires |Select(brk, IsHeader)| == (if last.breakAfter then 1 else 0)
    ensures |Select(before + row + brk, IsContinued)| == BreakCount(prev + [last])
    ensures |Select(before + row + brk, IsHeader)| == BreakCount(prev + [last])
  {
    SelectThree(before, row, brk, IsContinued);
    SelectThree(before, row, brk, IsHeader);
    assert (prev + [last])[..|prev|] == prev;
  }

  /** Every row is drawn as exactly one band, in order, at its placement. */
  lemma {:induction false} DrawBands(headers: seq<string>, rows: seq<seq<string>>, w: seq<real>,
                                     heights: seq<real>, later: seq<real>, k: nat, y0: real, contY: real)
    requires |w| == |headers| && |heights| == |rows| && |later| == |rows| && k <= |rows|
    ensures Select(DrawUpTo(headers, rows, w, heights, later, k, y0, contY), IsBand) == BandsOf(PlaceUpTo(heights, later, k, y0, contY).placed)
  {
    if k > 0 {
      DrawBands(headers, rows, w, heights, later, k - 1, y0, contY);
      var last := PlaceUpTo(heights, later, k, y0, contY).placed[k - 1];
      DrawLast(headers, rows, w, heights, later, k, y0, contY);
      PlacedSnoc(heights, later, k, y0, contY);
      RowOpsCounts(rows[k - 1], w, last.y, last.height, last.shaded);
      BreakPart(headers, w, contY, last.breakAfter);
      BandsCombine(DrawUpTo(headers, rows, w, heights, later, k - 1, y0, contY),
                   RowOps(rows[k - 1], w, last.y, last.height, last.shaded),
                   if last.breakAfter then BreakOps(headers, w, contY) else [],
                   PlaceUpTo(heights, later, k - 1, y0, contY).placed, last);
    }
  }

  /** The first `k` rows' bands hold one continuation title and one repeated header per break. */
  predicate BreaksCounted(headers: seq<string>, rows: seq<seq<string>>, w: seq<real>,
                          heights: seq<real>, later: seq<real>, k: nat, y0: real, contY: real)
    requires |w| == |headers| && |heights| == |rows| && |later| == |rows| && k <= |rows|
  {
    var ops := DrawUpTo(headers, rows, w, heights, later, k, y0, contY);
    var breaks := BreakCount(PlaceUpTo(heights, later, k, y0, contY).placed);
    |Select(ops, IsContinued)| == breaks && |Select(ops, IsHeader)| == breaks
  }

  lemma {:induction false} DrawBreaks(headers: seq<string>, rows: seq<seq<string>>, w: seq<real>,
                                      heights: seq<real>, later: seq<real>, k: nat, y0: real, contY: real)
    requires |w| == |headers| && |heights| == |rows| && |later| == |rows| && k <= |rows|
    ensures BreaksCounted(headers, rows, w, heights, later, k, y0, contY)
  {
    if k > 0 {
      DrawBreaks(headers, rows, w, heights, later, k - 1, y0, contY);
      DrawBreaksStep(headers, rows, w, heights, later, k, y0, contY);
    }
  }

  lemma DrawBreaksStep(headers: seq<string>, rows: seq<seq<string>>, w: seq<real>,
                       heights: seq<real>, later: seq<real>, k: nat, y0: real, contY: real)
    requires |w| == |headers| && |heights| == |rows| && |later| == |rows| && 0 < k <= |rows|
    requires BreaksCounted(headers, rows, w, heights, later, k - 1, y0, contY)
    ensures BreaksCounted(headers, rows, w, heights, later, k, y0, contY)
  {
    var last := PlaceUpTo(heights, later, k, y0, contY).placed[k - 1];
    DrawLast(headers, rows, w, heights, later, k, y0, contY);
    PlacedSnoc(heights, later, k, y0, contY);
    RowOpsCounts(rows[k - 1], w, last.y, last.height, last.shaded);
    BreakPart(headers, w, contY, last.breakAfter);
    BreaksCombine(DrawUpTo(headers, rows, w, heights, later, k - 1, y0, contY),
                  RowOps(rows[k - 1], w, last.y, last.height, last.shaded),
                  if last.breakAfter then BreakOps(headers, w, contY) else [],
                  PlaceUpTo(heights, later, k - 1, y0, contY).placed, last);
  }

  /** For the whole table: one row band per row, in order; one continuation title per page
      break; one header band per page. */
  lemma TableCounts(headers: seq<string>, rows: seq<seq<string>>, w: seq<real>, height: (string, real) -> real, contHeight: (string, real) -> real,
                    top: real, titleBottom: real)
    requires |w| == |headers|
    ensures var ops := TableOps(headers, rows, w, height, contHeight, top, titleBottom);
            var p := PlaceUpTo(Heights(rows, w, height), Heights(rows, w, contHeight), |rows|, top + 20.0 + HeaderHeight, titleBottom + 10.0).placed;
            && Select(ops, IsBand) == BandsOf(p)
            && |Select(ops, IsContinued)| == BreakCount(p)
            && |Select(ops, IsHeader)| == BreakCount(p) + 1
  {
    var y0 := top + 20.0;
    var heights := Heights(rows, w, height);
    var later := Heights(rows, w, contHeight);
    var draw := DrawUpTo(headers, rows, w, heights, later, |rows|, y0 + HeaderHeight, titleBottom + 10.0);
    DrawBands(headers, rows, w, heights, later, |rows|, y0 + HeaderHeight, titleBottom + 10.0);
    DrawBreaks(headers, rows, w, heights, later, |rows|, y0 + HeaderHeight, titleBottom + 10.0);
    HeaderOpsCounts(headers, w, y0);
    SelectAppend(HeaderOps(headers, w, y0), draw, IsBand);
    SelectAppend(HeaderOps(headers, w, y0), draw, IsContinued);
    SelectAppend(HeaderOps(headers, w, y0), draw, IsHeader);
  }

  /** The texts of the first `k` rows, each cut at `n` columns, one row after another. */
  function DrawnTexts(rows: seq<seq<string>>, n: nat, k: nat): seq<string>
    requires k <= |rows|
  {
    if k == 0 then [] else DrawnTexts(rows, n, k - 1) + rows[k - 1][..Min(|rows[k - 1]|, n)]
  }

  /** Operations without cell texts contribute no text. */
  lemma {:induction false} NoTexts(ops: seq<Op>)
    requires forall k :: 0 <= k < |ops| ==> !ops[k].CellText?
    ensures TextsOf(ops) == []
  {
    if ops != [] {
      NoTexts(ops[..|ops| - 1]);
    }
  }

  /** A header draws labels, never cell texts. */
  lemma HeaderTexts(headers: seq<string>, w: seq<real>, y: real)
    requires |w| == |headers|
    ensures TextsOf(HeaderOps(headers, w, y)) == []
  {
    var cols := HeaderCols(headers, w, y, 0);
    var ops := [HeaderBand(y)] + cols;
    HeaderColsKinds(headers, w, y, 0);
    forall k | 0 <= k < |ops|
      ensures !ops[k].CellText?
    {
      if k > 0 {
        assert ops[k] == cols[k - 1];
      }
    }
    NoTexts(ops);
  }

  /** Neither does what follows a row: a page break or nothing. */
  lemma BreakTexts(headers: seq<string>, w: seq<real>, contY: real, b: bool)
    requires |w| == |headers|
    ensures TextsOf(if b then BreakOps(headers, w, contY) else []) == []
  {
    if b {
      var pre: seq<Op> := [NewPage, ContinuedTitle];
      HeaderTexts(headers, w, contY);
      NoTexts(pre);
      TextsOfAppend(pre, HeaderOps(headers, w, contY));
    }
  }

  /** The texts of the first `k` rows are those rows' in-range cells, row by row in order. */
  lemma {:induction false} DrawTexts(headers: seq<string>, rows: seq<seq<string>>, w: seq<real>,
                                     heights: seq<real>, later: seq<real>, k: nat, y0: real, contY: real)
    requires |w| == |headers| && |heights| == |rows| && |later| == |rows| && k <= |rows|
    ensures TextsOf(DrawUpTo(headers, rows, w, heights, later, k, y0, contY)) == DrawnTexts(rows, |w|, k)
  {
    if k > 0 {
      DrawTexts(headers, rows, w, heights, later, k - 1, y0, contY);
      DrawTextsStep(headers, rows, w, heights, later, k, y0, contY);
    }
  }

  lemma DrawTextsStep(headers: seq<string>, rows: seq<seq<string>>, w: seq<real>,
                      heights: seq<real>, later: seq<real>, k: nat, y0: real, contY: real)
    requires |w| == |headers| && |heights| == |rows| && |later| == |rows| && 0 < k <= |rows|
    requires TextsOf(DrawUpTo(headers, rows, w, heights, later, k - 1, y0, contY)) == DrawnTexts(rows, |w|, k - 1)
    ensures TextsOf(DrawUpTo(headers, rows, w, heights, later, k, y0, contY)) == DrawnTexts(rows, |w|, k)
  {
    var last := PlaceUpTo(heights, later, k, y0, contY).placed[k - 1];
    var before := DrawUpTo(headers, rows, w, heights, later, k - 1, y0, contY);
    var row := RowOps(rows[k - 1], w, last.y, last.height, last.shaded);
    var brk := if last.breakAfter then BreakOps(headers, w, contY) else [];
    DrawLast(headers, rows, w, heights, later, k, y0, contY);
    RowTexts(rows[k - 1], w, last.y, last.height, last.shaded);
    BreakTexts(headers, w, contY, last.breakAfter);
    TextsOfAppend(before + row, brk);
    TextsOfAppend(before, row);
  }

  /** The whole table shows every row's in-range cells exactly once, rows in input order and
      cells in column order; the header labels are not cell texts. */
  lemma TableTexts(headers: seq<string>, rows: seq<seq<string>>, w: seq<real>, height: (string, real) -> real, contHeight: (string, real) -> real,
                   top: real, titleBottom: real)
    requires |w| == |headers|
    ensures TextsOf(TableOps(headers, rows, w, height, contHeight, top, titleBottom)) == DrawnTexts(rows, |headers|, |rows|)
  {
    var y0 := top + 20.0;
    var heights := Heights(rows, w, height);
    var later := Heights(rows, w, contHeight);
    DrawTexts(headers, rows, w, heights, later, |rows|, y0 + HeaderHeight, titleBottom + 10.0);
    HeaderTexts(headers, w, y0);
    TextsOfAppend(HeaderOps(headers, w, y0), DrawUpTo(headers, rows, w, heights, later, |rows|, y0 + HeaderHeight, titleBottom + 10.0));
  }

  /** Where row `j`'s texts start when every row shows `n` of them. */
  function Offset(n: nat, j: nat): nat
  {
    if j == 0 then 0 else Offset(n, j - 1) + n
  }

  lemma {:induction false} OffsetIsProduct(n: nat, j: nat)
    ensures Offset(n, j) == n * j
  {
    if j > 0 {
      OffsetIsProduct(n, j - 1);
      assert n * (j - 1) + n == n * j;
    }
  }

  /** A row's texts end before the next row's start. */
  lemma {:induction false} OffsetMono(n: nat, j: nat, k: nat)
    requires j < k
    ensures Offset(n, j) + n <= Offset(n, k)
    decreases k - j
  {
    if j + 1 < k {
      OffsetMono(n, j + 1, k);
    }
  }

  /** When every row has at least `n` cells, the first `k` rows show `n` texts each. */
  lemma {:induction false} DrawnTextsLength(rows: seq<seq<string>>, n: nat, k: nat)
    requires k <= |rows|
    requires forall j :: 0 <= j < k ==> |rows[j]| >= n
    ensures |DrawnTexts(rows, n, k)| == Offset(n, k)
  {
    if k > 0 {
      DrawnTextsLength(rows, n, k - 1);
      DrawnTextsSnoc(rows, n, k);
    }
  }

  /** ... and row `j`'s cell `i` is text number `Offset(n, j) + i`, for every `j < k`. */
  lemma {:induction false} DrawnTextAt(rows: seq<seq<string>>, n: nat, k: nat, j: nat, i: nat)
    requires k <= |rows|
    requires forall j :: 0 <= j < k ==> |rows[j]| >= n
    requires j < k && i < n
    ensures Offset(n, j) + i < |DrawnTexts(rows, n, k)| && DrawnTexts(rows, n, k)[Offset(n, j) + i] == rows[j][i]
  {
    var prev := DrawnTexts(rows, n, k - 1);
    var last := rows[k - 1][..n];
    DrawnTextsLength(rows, n, k - 1);
    DrawnTextsSnoc(rows, n, k);
    if j < k - 1 {
      DrawnTextAt(rows, n, k - 1, j, i);
      AppendLeft(prev, last, Offset(n, j) + i);
    } else {
      AppendRight(prev, last, i);
    }
  }

  lemma DrawnTextsSnoc(rows: seq<seq<string>>, n: nat, k: nat)
    requires 0 < k <= |rows| && |rows[k - 1]| >= n
    ensures DrawnTexts(rows, n, k) == DrawnTexts(rows, n, k - 1) + rows[k - 1][..n]
  {
  }

  lemma AppendLeft(a: seq<string>, b: seq<string>, x: nat)
    requires x < |a|
    ensures x < |a + b| && (a + b)[x] == a[x]
  {
  }

  lemma AppendRight(a: seq<string>, b: seq<string>, i: nat)
    requires i < |b|
    ensures |a| + i < |a + b| && (a + b)[|a| + i] == b[i]
  {
  }

  /** Every drawn row is at least 20 high and at least as high as each of its in-range cells'
      text plus padding. */
  lemma HeightsAreBounded(rows: seq<seq<string>>, w: seq<real>, height: (string, real) -> real)
    ensures forall k :: 0 <= k < |rows| ==> Heights(rows, w, height)[k] >= MinRowHeight
    ensures forall k, i :: 0 <= k < |rows| && 0 <= i < |rows[k]| && i < |w| ==>
              Heights(rows, w, height)[k] >= height(rows[k][i], w[i] - Padding) + Padding
  {
    forall k | 0 <= k < |rows|
      ensures Heights(rows, w, height)[k] >= MinRowHeight
      ensures forall i :: 0 <= i < |rows[k]| && i < |w| ==>
                Heights(rows, w, height)[k] >= height(rows[k][i], w[i] - Padding) + Padding
    {
      RowHeightIsMaximum(rows[k], w, height, |rows[k]|);
    }
  }

  // ---------------------------------------------------------------------------
  // The section as a whole

  /** `.replace(/\r/g, "")`. */
  function RemoveCR(s: string): (r: string)
    ensures '\r' !in r
    ensures forall c :: c != '\r' ==> (c in r <==> c in s)
  {
    if s == [] then [] else (if s[0] == '\r' then [] else [s[0]]) + RemoveCR(s[1..])
  }

  /** Text without carriage returns passes unchanged. */
  lemma {:induction false} RemoveCRNoCR(s: string)
    requires '\r' !in s
    ensures RemoveCR(s) == s
  {
    if s != [] {
      RemoveCRNoCR(s[1..]);
      assert [s[0]] + s[1..] == s;
    }
  }

  /** The non-blank, trimmed, carriage-return-free lines of the normalized text. */
  function Cleaned(normalized: string): seq<string>
  {
    Lines(RemoveCR(normalized))
  }

  /** Every data line parsed and padded to the header count. */
  function DataRows(lines: seq<string>, n: nat): (rows: seq<seq<string>>)
  {
    seq(|lines|, k requires 0 <= k < |lines| => Row(lines[k], n))
  }

  /** The header and rows of a non-empty cleaned text, drawn with fitted widths. */
  function TableOf(cleaned: seq<string>, width: string -> real, height: (string, real) -> real, contHeight: (string, real) -> real,
                   top: real, titleBottom: real): seq<Op>
    requires cleaned != []
  {
    var headers := Headers(cleaned[0]);
    var rows := DataRows(cleaned[1..], |headers|);
    TableOps(headers, rows, Fit(ColumnWidths(headers, rows, width)), height, contHeight, top, titleBottom)
  }

  /** What follows the section title. */
  function SectionBody(cleaned: seq<string>, width: string -> real, height: (string, real) -> real, contHeight: (string, real) -> real,
                       top: real, titleBottom: real): seq<Op>
  {
    if cleaned == [] then [NoData] else TableOf(cleaned, width, height, contHeight, top, titleBottom)
  }

  /** The "Forecast Data" section: nothing without CSV text; otherwise a new page and the title,
      then the table or the "No forecast data available" line. `top` is where the cursor stands
      after the title, `titleBottom` where it stands after a continuation title. */
  function SectionOps(csv: Option<string>, width: string -> real, height: (string, real) -> real, contHeight: (string, real) -> real,
                      top: real, titleBottom: real): seq<Op>
  {
    if csv.None? || csv.value == [] then []
    else [NewPage, SectionTitle] + SectionBody(Cleaned(Normalizer.Normalize(csv.value)), width, height, contHeight, top, titleBottom)
  }

  /** The `if (forecast.forecastCsv)` block of `generateForecastPdf`. */
  method ForecastSection(csv: Option<string>, width: string -> real, height: (string, real) -> real, contHeight: (string, real) -> real,
                         top: real, titleBottom: real) returns (ops: seq<Op>)
    ensures ops == SectionOps(csv, width, height, contHeight, top, titleBottom)
  {
    if csv.None? || csv.value == [] {
      return [];
    }
    ops := [NewPage, SectionTitle];
    var normalized := Normalizer.NormalizeForecastCsv(csv.value);
    var cleaned := Lines(RemoveCR(normalized));
    if |cleaned| > 0 {
      var headers := Headers(cleaned[0]);
      var rows := ParseRows(cleaned[1..], |headers|);
      assert rows == DataRows(cleaned[1..], |headers|);
      var widths := ComputeColumnWidths(headers, rows, width);
      var table := DrawTable(headers, rows, Fit(widths), height, contHeight, top, titleBottom);
      ops := ops + table;
    } else {
      ops := ops + [NoData];
    }
  }

  /** No CSV text, no section. */
  lemma NoSectionWithoutCsv(csv: Option<string>, width: string -> real, height: (string, real) -> real, contHeight: (string, real) -> real,
                            top: real, titleBottom: real)
    ensures SectionOps(csv, width, height, contHeight, top, titleBottom) == [] <==> (csv.None? || csv.value == [])
  {
  }

  /** The body is the "no data" line exactly when no line is left, and starts with the header
      band otherwise. */
  lemma BodyShape(cleaned: seq<string>, width: string -> real, height: (string, real) -> real, contHeight: (string, real) -> real,
                  top: real, titleBottom: real)
    ensures var body := SectionBody(cleaned, width, height, contHeight, top, titleBottom);
            && |body| >= 1
            && (body[0] == NoData <==> cleaned == [])
            && (cleaned != [] ==> body[0] == HeaderBand(top + 20.0))
  {
    if cleaned != [] {
      var headers := Headers(cleaned[0]);
      var rows := DataRows(cleaned[1..], |headers|);
      var w := Fit(ColumnWidths(headers, rows, width));
      var heights := Heights(rows, w, height);
    var later := Heights(rows, w, contHeight);
      var y0 := top + 20.0;
      assert TableOf(cleaned, width, height, contHeight, top, titleBottom) ==
        HeaderOps(headers, w, y0) + DrawUpTo(headers, rows, w, heights, later, |rows|, y0 + HeaderHeight, titleBottom + 10.0);
      assert HeaderOps(headers, w, y0)[0] == HeaderBand(y0);
    }
  }

  /** With CSV text the section opens a page with its title and then shows the "no data" line
      exactly when every line of the normalized text is blank. */
  lemma SectionShape(text: string, width: string -> real, height: (string, real) -> real, contHeight: (string, real) -> real,
                     top: real, titleBottom: real)
    requires text != []
    ensures var ops := SectionOps(Some(text), width, height, contHeight, top, titleBottom);
            var parts := Split(RemoveCR(Normalizer.Normalize(text)), '\n');
            && |ops| >= 3 && ops[0] == NewPage && ops[1] == SectionTitle
            && (ops[2] == NoData <==> AllBlank(parts))
  {
    var n := RemoveCR(Normalizer.Normalize(text));
    var body := SectionBody(Lines(n), width, height, contHeight, top, titleBottom);
    LinesEmptyIff(n);
    BodyShape(Lines(n), width, height, contHeight, top, titleBottom);
    SectionUnfold(text, width, height, contHeight, top, titleBottom);
    AfterTitle(body);
  }

  /** When data is shown, the table header comes right after the title. */
  lemma SectionHeader(text: string, width: string -> real, height: (string, real) -> real, contHeight: (string, real) -> real,
                      top: real, titleBottom: real)
    requires text != []
    ensures var ops := SectionOps(Some(text), width, height, contHeight, top, titleBottom);
            |ops| >= 3 && (ops[2] != NoData ==> ops[2] == HeaderBand(top + 20.0))
  {
    var body := SectionBody(Cleaned(Normalizer.Normalize(text)), width, height, contHeight, top, titleBottom);
    BodyShape(Cleaned(Normalizer.Normalize(text)), width, height, contHeight, top, titleBottom);
    SectionUnfold(text, width, height, contHeight, top, titleBottom);
    AfterTitle(body);
  }

  lemma AfterTitle(body: seq<Op>)
    requires |body| >= 1
    ensures var ops := [NewPage, SectionTitle] + body;
            |ops| >= 3 && ops[0] == NewPage && ops[1] == SectionTitle && ops[2] == body[0]
  {
  }

  lemma SectionUnfold(text: string, width: string -> real, height: (string, real) -> real, contHeight: (string, real) -> real,
                      top: real, titleBottom: real)
    requires text != []
    ensures var ops := SectionOps(Some(text), width, height, contHeight, top, titleBottom);
            var body := SectionBody(Cleaned(Normalizer.Normalize(text)), width, height, contHeight, top, titleBottom);
            ops == [NewPage, SectionTitle] + body
  {
  }

  /** Text `Offset(n, j) + i` is cell `i` of line `j`, or empty where the row was padded. */
  predicate ShowsCell(texts: seq<string>, lines: seq<string>, n: nat, j: nat, i: nat)
    requires j < |lines|
  {
    Offset(n, j) + i < |texts| &&
    texts[Offset(n, j) + i] == if i < |Cells(lines[j])| then Cells(lines[j])[i] else ""
  }

  /** In the section, every data line is shown as exactly one text per header, lines in order:
      line `j`'s texts start at `Offset(n, j)`, which is `n * j` by `OffsetIsProduct`, and text
      `i` of them is the line's cell `i` when it has one, and empty where the row was padded. */
  lemma SectionTexts(cleaned: seq<string>, width: string -> real, height: (string, real) -> real, contHeight: (string, real) -> real,
                     top: real, titleBottom: real)
    requires cleaned != []
    ensures var n := |Headers(cleaned[0])|;
            var texts := TextsOf(SectionBody(cleaned, width, height, contHeight, top, titleBottom));
            && |texts| == Offset(n, |cleaned| - 1)
            && forall j, i :: 0 <= j < |cleaned| - 1 && 0 <= i < n ==> ShowsCell(texts, cleaned[1..], n, j, i)
  {
    var n := |Headers(cleaned[0])|;
    SectionTextsAre(cleaned, width, height, contHeight, top, titleBottom);
    RowsTextsLength(cleaned[1..], n);
    RowsTexts(cleaned[1..], n);
  }

  lemma SectionTextsAre(cleaned: seq<string>, width: string -> real, height: (string, real) -> real, contHeight: (string, real) -> real,
                        top: real, titleBottom: real)
    requires cleaned != []
    ensures var n := |Headers(cleaned[0])|;
            TextsOf(SectionBody(cleaned, width, height, contHeight, top, titleBottom)) ==
              DrawnTexts(DataRows(cleaned[1..], n), n, |cleaned[1..]|)
  {
    var headers := Headers(cleaned[0]);
    var rows := DataRows(cleaned[1..], |headers|);
    BodyIsTable(cleaned, width, height, contHeight, top, titleBottom);
    TableTexts(headers, rows, Fit(ColumnWidths(headers, rows, width)), height, contHeight, top, titleBottom);
  }

  /** The texts of padded data rows: the line's cells, then empty ones. */
  lemma RowsTexts(lines: seq<string>, n: nat)
    ensures forall j, i :: 0 <= j < |lines| && 0 <= i < n ==>
              ShowsCell(DrawnTexts(DataRows(lines, n), n, |lines|), lines, n, j, i)
  {
    forall j, i | 0 <= j < |lines| && 0 <= i < n
      ensures ShowsCell(DrawnTexts(DataRows(lines, n), n, |lines|), lines, n, j, i)
    {
      RowTextAt(lines, n, j, i);
    }
  }

  /** ... `n` of them per line. */
  lemma RowsTextsLength(lines: seq<string>, n: nat)
    ensures |DrawnTexts(DataRows(lines, n), n, |lines|)| == Offset(n, |lines|)
  {
    DataRowsCells(lines, n);
    DrawnTextsLength(DataRows(lines, n), n, |lines|);
  }

  lemma RowTextAt(lines: seq<string>, n: nat, j: nat, i: nat)
    requires j < |lines| && i < n
    ensures ShowsCell(DrawnTexts(DataRows(lines, n), n, |lines|), lines, n, j, i)
  {
    var rows := DataRows(lines, n);
    DataRowsCells(lines, n);
    DrawnTextAt(rows, n, |rows|, j, i);
  }

  lemma BodyIsTable(cleaned: seq<string>, width: string -> real, height: (string, real) -> real, contHeight: (string, real) -> real,
                    top: real, titleBottom: real)
    requires cleaned != []
    ensures var headers := Headers(cleaned[0]);
            var rows := DataRows(cleaned[1..], |headers|);
            SectionBody(cleaned, width, height, contHeight, top, titleBottom) ==
              TableOps(headers, rows, Fit(ColumnWidths(headers, rows, width)), height, contHeight, top, titleBottom)
  {
  }

  /** Every data row has at least `n` cells: the line's own, then empty padding. */
  lemma DataRowsCells(lines: seq<string>, n: nat)
    ensures var rows := DataRows(lines, n);
            && (forall j :: 0 <= j < |lines| ==> |rows[j]| >= n)
            && (forall j, i :: 0 <= j < |lines| && 0 <= i < n ==>
                  rows[j][i] == if i < |Cells(lines[j])| then Cells(lines[j])[i] else "")
  {
    var rows := DataRows(lines, n);
    forall j, i | 0 <= j < |lines| && 0 <= i < n
      ensures rows[j][i] == if i < |Cells(lines[j])| then Cells(lines[j])[i] else ""
    {
      PaddedCell(Cells(lines[j]), n, i);
    }
  }

  lemma PaddedCell(cells: seq<string>, n: nat, i: nat)
    requires i < n
    ensures i < |Padded(cells, n)|
    ensures Padded(cells, n)[i] == if i < |cells| then cells[i] else ""
  {
    if i < |cells| {
      assert Padded(cells, n)[..|cells|][i] == cells[i];
    }
  }

  /** A table with only a header line has no row bands and no page breaks. */
  lemma HeaderOnlyTable(cleaned: seq<string>, width: string -> real, height: (string, real) -> real, contHeight: (string, real) -> real,
                        top: real, titleBottom: real)
    requires |cleaned| == 1
    ensures var body := SectionBody(cleaned, width, height, contHeight, top, titleBottom);
            Select(body, IsBand) == [] && Select(body, IsContinued) == [] && |Select(body, IsHeader)| == 1
  {
    var headers := Headers(cleaned[0]);
    var rows := DataRows(cleaned[1..], |headers|);
    var w := Fit(ColumnWidths(headers, rows, width));
    TableCounts(headers, rows, w, height, contHeight, top, titleBottom);
    assert rows == [];
    assert PlaceUpTo(Heights(rows, w, height), Heights(rows, w, contHeight), 0, top + 20.0 + HeaderHeight, titleBottom + 10.0).placed == [];
  }
}
