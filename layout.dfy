/** The geometry decisions of the forecast table in `generateForecastPdf`
    (controllers/forecastController.js): column widths from measured text, the proportional
    down-scaling that makes the table fit the page, column offsets, row heights, and the
    per-cell alignment and colour. Text measurement is PDFKit's and is passed in: `width(s)` for
    `doc.widthOfString(s)` and `height(s, w)` for `doc.heightOfString(s, {width: w})`. */
module TableLayout {
  import opened Js
  import Normalizer

  /** PDFKit's A4 page, in points. */
  const PageWidth: real := 595.28
  const PageHeight: real := 841.89

  /** `doc.page.width - 100`, drawn from x = 50. */
  const TableWidth: real := PageWidth - 100.0
  const TableX: real := 50.0

  /** The padding added to every measured cell width and height. */
  const Padding: real := 10.0
  const MinRowHeight: real := 20.0

  // ---------------------------------------------------------------------------
  // Column widths

  /** A measurement that never reports a negative size. */
  ghost predicate NonNegativeWidths(width: string -> real)
  {
    forall s :: width(s) >= 0.0
  }

  predicate AllNonNegative(w: seq<real>)
  {
    forall i :: 0 <= i < |w| ==> w[i] >= 0.0
  }

  /** `headers.forEach(...)`: one column per header, as wide as its label plus padding. */
  function InitialWidths(headers: seq<string>, width: string -> real): (w: seq<real>)
    ensures |w| == |headers|
  {
    seq(|headers|, i requires 0 <= i < |headers| => width(headers[i]) + Padding)
  }

  /** One row of the `rows.forEach(...)` pass: a column widens to an in-range cell that is wider. */
  function Widen(w: seq<real>, row: seq<string>, width: string -> real): (r: seq<real>)
    ensures |r| == |w|
  {
    seq(|w|, i requires 0 <= i < |w| =>
      if i < |row| && width(row[i]) + Padding > w[i] then width(row[i]) + Padding else w[i])
  }

  /** The widths after the header pass and the passes over `rows`. */
  function ColumnWidths(headers: seq<string>, rows: seq<seq<string>>, width: string -> real): (w: seq<real>)
    ensures |w| == |headers|
  {
    if rows == [] then InitialWidths(headers, width)
    else Widen(ColumnWidths(headers, rows[..|rows| - 1], width), rows[|rows| - 1], width)
  }

  /** The width-measuring loops, on a `columnWidths` array. */
  method ComputeColumnWidths(headers: seq<string>, rows: seq<seq<string>>, width: string -> real)
    returns (widths: seq<real>)
    ensures widths == ColumnWidths(headers, rows, width)
  {
    var w := new real[|headers|];
    for i := 0 to |headers|
      invariant forall k :: 0 <= k < i ==> w[k] == width(headers[k]) + Padding
    {
      w[i] := width(headers[i]) + Padding;
    }
    assert w[..] == InitialWidths(headers, width);
    assert rows[..0] == [];
    for r := 0 to |rows|
      invariant w[..] == ColumnWidths(headers, rows[..r], width)
    {
      WidenRow(w, rows[r], width);
      ColumnWidthsSnoc(headers, rows, r, width);
    }
    assert rows[..|rows|] == rows;
    widths := w[..];
  }

  /** The inner `row.forEach`: each cell widens its column when it needs more room. */
  method WidenRow(w: array<real>, row: seq<string>, width: string -> real)
    modifies w
    ensures w[..] == Widen(old(w[..]), row, width)
  {
    ghost var before := w[..];
    for i := 0 to |row|
      invariant forall k :: 0 <= k < w.Length ==>
        w[k] == if k < i then Widen(before, row, width)[k] else before[k]
    {
      if i < w.Length {
        var cellWidth := width(row[i]) + Padding;
        if cellWidth > w[i] {
          w[i] := cellWidth;
        }
      }
    }
  }

  lemma ColumnWidthsSnoc(headers: seq<string>, rows: seq<seq<string>>, r: nat, width: string -> real)
    requires r < |rows|
    ensures ColumnWidths(headers, rows[..r + 1], width) == Widen(ColumnWidths(headers, rows[..r], width), rows[r], width)
  {
    assert rows[..r + 1][..r] == rows[..r];
  }


  /** Each column is exactly as wide as the widest of its header and its in-range cells, plus
      padding: no narrower than any of them, and equal to one of them. */
  lemma {:induction false} ColumnWidthsAreMaxima(headers: seq<string>, rows: seq<seq<string>>, width: string -> real)
    ensures forall i :: 0 <= i < |headers| ==> ColumnWidths(headers, rows, width)[i] >= width(headers[i]) + Padding
    ensures forall r, i :: 0 <= r < |rows| && 0 <= i < |headers| && i < |rows[r]| ==>
              ColumnWidths(headers, rows, width)[i] >= width(rows[r][i]) + Padding
    ensures forall i :: 0 <= i < |headers| ==>
              ColumnWidths(headers, rows, width)[i] == width(headers[i]) + Padding ||
              exists r :: 0 <= r < |rows| && i < |rows[r]| && ColumnWidths(headers, rows, width)[i] == width(rows[r][i]) + Padding
  {
    if rows != [] {
      var init := rows[..|rows| - 1];
      var last := rows[|rows| - 1];
      ColumnWidthsAreMaxima(headers, init, width);
      var prev := ColumnWidths(headers, init, width);
      var w := ColumnWidths(headers, rows, width);
      assert w == Widen(prev, last, width);
      forall r, i | 0 <= r < |rows| && 0 <= i < |headers| && i < |rows[r]|
        ensures w[i] >= width(rows[r][i]) + Padding
      {
        if r < |rows| - 1 {
          assert rows[r] == init[r];
        }
      }
      forall i | 0 <= i < |headers|
        ensures w[i] == width(headers[i]) + Padding ||
                exists r :: 0 <= r < |rows| && i < |rows[r]| && w[i] == width(rows[r][i]) + Padding
      {
        if w[i] != prev[i] {
          assert w[i] == width(rows[|rows| - 1][i]) + Padding;
        } else if prev[i] != width(headers[i]) + Padding {
          var r :| 0 <= r < |init| && i < |init[r]| && prev[i] == width(init[r][i]) + Padding;
          assert rows[r] == init[r];
        }
      }
    }
  }

  /** With a measurement that never goes negative, every column is at least the padding wide. */
  lemma ColumnWidthsAtLeastPadding(headers: seq<string>, rows: seq<seq<string>>, width: string -> real)
    requires NonNegativeWidths(width)
    ensures forall i :: 0 <= i < |headers| ==> ColumnWidths(headers, rows, width)[i] >= Padding
  {
    ColumnWidthsAreMaxima(headers, rows, width);
  }

  // ---------------------------------------------------------------------------
  // Fitting the page

  /** `columnWidths.reduce((sum, width) => sum + width, 0)`, summed left to right. */
  function Sum(w: seq<real>): real
  {
    if w == [] then 0.0 else Sum(w[..|w| - 1]) + w[|w| - 1]
  }

  function Scale(w: seq<real>, ratio: real): (r: seq<real>)
    ensures |r| == |w|
  {
    seq(|w|, i requires 0 <= i < |w| => w[i] * ratio)
  }

  /** `if (totalWidth > tableWidth)`, every width times `tableWidth / totalWidth`. */
  function Fit(w: seq<real>): (r: seq<real>)
    ensures |r| == |w|
  {
    var total := Sum(w);
    if total > TableWidth then Scale(w, TableWidth / total) else w
  }

  lemma {:induction false} SumScale(w: seq<real>, ratio: real)
    ensures Sum(Scale(w, ratio)) == Sum(w) * ratio
  {
    if w != [] {
      var init := w[..|w| - 1];
      var sw, si := Scale(w, ratio), Scale(init, ratio);
      assert |sw[..|w| - 1]| == |si|;
      forall k | 0 <= k < |si| ensures sw[..|w| - 1][k] == si[k] {
        assert init[k] == w[k];
      }
      assert sw[..|w| - 1] == si;
      SumScale(init, ratio);
    }
  }

  /** Scaling happens exactly when the table is too wide; it makes the widths sum to exactly
      the table width and keeps their ratios. Otherwise nothing changes. */
  lemma FitScales(w: seq<real>)
    ensures Sum(w) > TableWidth ==> Sum(Fit(w)) == TableWidth
    ensures Sum(w) > TableWidth ==> forall i :: 0 <= i < |w| ==> Fit(w)[i] * Sum(w) == w[i] * TableWidth
    ensures Sum(w) <= TableWidth ==> Fit(w) == w
  {
    if Sum(w) > TableWidth {
      SumScale(w, TableWidth / Sum(w));
      RatioBack(Sum(w));
      forall i | 0 <= i < |w|
        ensures Fit(w)[i] * Sum(w) == w[i] * TableWidth
      {
        FitElement(w, i);
      }
    }
  }

  lemma FitElement(w: seq<real>, i: nat)
    requires Sum(w) > TableWidth && i < |w|
    ensures Fit(w)[i] * Sum(w) == w[i] * TableWidth
  {
    FitIsScale(w);
    ScaleElementBack(w, i, Sum(w), Fit(w)[i]);
  }

  lemma FitIsScale(w: seq<real>)
    requires Sum(w) > TableWidth
    ensures Fit(w) == Scale(w, TableWidth / Sum(w))
  {
  }

  lemma ScaleElementBack(w: seq<real>, i: nat, total: real, y: real)
    requires total > TableWidth && i < |w|
    requires y == Scale(w, TableWidth / total)[i]
    ensures y * total == w[i] * TableWidth
  {
    var ratio := TableWidth / total;
    RatioBack(total);
    ScaledBack(w[i], ratio, total, y);
  }

  lemma ScaledBack(x: real, ratio: real, total: real, y: real)
    requires y == x * ratio && ratio * total == TableWidth
    ensures y * total == x * TableWidth
  {
    MulAssoc(x, ratio, total);
  }

  lemma RatioBack(total: real)
    requires total > 0.0
    ensures (TableWidth / total) * total == TableWidth
  {
  }

  lemma MulAssoc(a: real, b: real, c: real)
    ensures a * b * c == a * (b * c)
  {
  }

  /** However the columns were measured, the fitted table is never wider than the page allows. */
  lemma FitBound(w: seq<real>)
    ensures Sum(Fit(w)) <= TableWidth
  {
    FitScales(w);
  }

  /** Scaling by a positive ratio keeps widths non-negative. */
  lemma FitNonNegative(w: seq<real>)
    requires AllNonNegative(w)
    ensures AllNonNegative(Fit(w))
  {
  }

  // ---------------------------------------------------------------------------
  // Column offsets

  /** `x + columnWidths.slice(0, i).reduce(...)`: where column `i` starts. */
  function ColumnX(w: seq<real>, i: nat): real
    requires i <= |w|
  {
    TableX + Sum(w[..i])
  }

  /** The first column starts at the table's left edge and each next column starts where the
      one before it ends. */
  lemma ColumnsAbut(w: seq<real>)
    ensures |w| > 0 ==> ColumnX(w, 0) == TableX
    ensures forall i :: 0 <= i < |w| ==> ColumnX(w, i + 1) == ColumnX(w, i) + w[i]
  {
    assert w[..0] == [];
    forall i | 0 <= i < |w| ensures ColumnX(w, i + 1) == ColumnX(w, i) + w[i] {
      assert w[..i + 1][..i] == w[..i];
    }
  }

  lemma {:induction false} PrefixSumBounds(w: seq<real>, i: nat)
    requires AllNonNegative(w) && i <= |w|
    ensures 0.0 <= Sum(w[..i]) <= Sum(w)
    decreases |w| - i
  {
    if i < |w| {
      var init := w[..|w| - 1];
      assert w[..i] == init[..i];
      assert w[..|w|] == w;
      PrefixSumBounds(init, i);
    } else {
      assert w[..i] == w;
      SumNonNegative(w);
    }
  }

  lemma {:induction false} SumNonNegative(w: seq<real>)
    requires AllNonNegative(w)
    ensures Sum(w) >= 0.0
  {
    if w != [] {
      SumNonNegative(w[..|w| - 1]);
    }
  }

  /** With non-negative measurements, every fitted column starts inside the table and the
      columns never run past its right edge. */
  lemma ColumnsInsideTable(w: seq<real>)
    requires AllNonNegative(w)
    ensures forall i :: 0 <= i <= |w| ==> TableX <= ColumnX(Fit(w), i) <= TableX + TableWidth
  {
    FitNonNegative(w);
    FitBound(w);
    forall i | 0 <= i <= |w| ensures TableX <= ColumnX(Fit(w), i) <= TableX + TableWidth {
      PrefixSumBounds(Fit(w), i);
    }
  }

  // ---------------------------------------------------------------------------
  // Row height

  /** One cell of the height pass: `Math.max(rowHeight, textHeight + 10)` for in-range cells. */
  function HeightUpTo(row: seq<string>, w: seq<real>, height: (string, real) -> real, j: nat): real
    requires j <= |row|
  {
    if j == 0 then MinRowHeight
    else
      var h := HeightUpTo(row, w, height, j - 1);
      if j - 1 < |w| then (if height(row[j - 1], w[j - 1] - Padding) + Padding > h then height(row[j - 1], w[j - 1] - Padding) + Padding else h)
      else h
  }

  /** The height of a drawn row. */
  function RowHeight(row: seq<string>, w: seq<real>, height: (string, real) -> real): real
  {
    HeightUpTo(row, w, height, |row|)
  }

  /** The row-height loop. */
  method ComputeRowHeight(row: seq<string>, w: seq<real>, height: (string, real) -> real) returns (h: real)
    ensures h == RowHeight(row, w, height)
  {
    h := MinRowHeight;
    for i := 0 to |row|
      invariant h == HeightUpTo(row, w, height, i)
    {
      if i < |w| {
        var textHeight := height(row[i], w[i] - Padding);
        h := if h >= textHeight + Padding then h else textHeight + Padding;
      }
    }
  }

  /** A row is at least 20 high, at least as high as each in-range cell's text plus padding, and
      exactly as high as the larger of those. */
  lemma {:induction false} RowHeightIsMaximum(row: seq<string>, w: seq<real>, height: (string, real) -> real, j: nat)
    requires j <= |row|
    ensures HeightUpTo(row, w, height, j) >= MinRowHeight
    ensures forall i :: 0 <= i < j && i < |w| ==> HeightUpTo(row, w, height, j) >= height(row[i], w[i] - Padding) + Padding
    ensures HeightUpTo(row, w, height, j) == MinRowHeight ||
            exists i :: 0 <= i < j && i < |w| && HeightUpTo(row, w, height, j) == height(row[i], w[i] - Padding) + Padding
  {
    if j > 0 {
      RowHeightIsMaximum(row, w, height, j - 1);
    }
  }

  // ---------------------------------------------------------------------------
  // Numbers as `isNaN` sees them

  /** The first index holding `a` or `b`, or `|s|`. */
  function FirstOf(s: string, a: char, b: char): (r: nat)
    ensures r <= |s|
    ensures r < |s| ==> s[r] == a || s[r] == b
    ensures forall j :: 0 <= j < r ==> s[j] != a && s[j] != b
  {
    if s == [] then 0 else if s[0] == a || s[0] == b then 0 else 1 + FirstOf(s[1..], a, b)
  }

  /** `DecimalDigits . DecimalDigits?`, `. DecimalDigits` or `DecimalDigits`. */
  predicate IsMantissa(m: string)
  {
    var d := FirstOf(m, '.', '.');
    if d == |m| then m != [] && AllDigits(m)
    else |m| >= 2 && AllDigits(m[..d]) && AllDigits(m[d + 1..])
  }

  predicate IsSignedInteger(x: string)
  {
    (x != [] && AllDigits(x)) || (|x| >= 2 && (x[0] == '+' || x[0] == '-') && AllDigits(x[1..]))
  }

  /** `Infinity`, or a mantissa with an optional `e`/`E` exponent. */
  predicate IsUnsignedDecimal(s: string)
  {
    s == "Infinity" ||
    (var e := FirstOf(s, 'e', 'E'); IsMantissa(s[..e]) && (e == |s| || IsSignedInteger(s[e + 1..])))
  }

  predicate IsStrDecimal(s: string)
  {
    IsUnsignedDecimal(s) || (s != [] && (s[0] == '+' || s[0] == '-') && IsUnsignedDecimal(s[1..]))
  }

  predicate IsHexDigit(c: char)
  {
    IsDigit(c) || 'a' <= c <= 'f' || 'A' <= c <= 'F'
  }

  /** `0x…`, `0o…` or `0b…`, unsigned. */
  predicate IsNonDecimalInteger(s: string)
  {
    |s| >= 3 && s[0] == '0' &&
    ((s[1] in "xX" && forall i :: 2 <= i < |s| ==> IsHexDigit(s[i])) ||
     (s[1] in "oO" && forall i :: 2 <= i < |s| ==> '0' <= s[i] <= '7') ||
     (s[1] in "bB" && forall i :: 2 <= i < |s| ==> s[i] == '0' || s[i] == '1'))
  }

  /** `!isNaN(text)` for a string: after trimming it is empty or a numeric literal. */
  predicate IsJsNumeric(text: string)
  {
    var s := Trim(text);
    s == [] || IsStrDecimal(s) || IsNonDecimalInteger(s)
  }

  /** Empty and blank cells count as numbers, so padding cells are right-aligned. */
  lemma BlankIsNumeric(text: string)
    requires IsBlank(text)
    ensures IsJsNumeric(text)
  {
    TrimEmptyIffBlank(text);
  }

  /** A run of digits is a number. */
  lemma DigitsAreNumeric(text: string)
    requires text != [] && AllDigits(text)
    ensures IsJsNumeric(text)
  {
    TrimNoEdgeSpace(text);
    FirstOfAbsent(text, 'e', 'E');
    FirstOfAbsent(text, '.', '.');
    assert text[..|text|] == text;
  }

  lemma {:induction false} FirstOfAbsent(s: string, a: char, b: char)
    requires AllDigits(s) && !IsDigit(a) && !IsDigit(b)
    ensures FirstOf(s, a, b) == |s|
  {
    if s != [] {
      assert IsDigit(s[0]);
      assert AllDigits(s[1..]) by {
        forall i | 0 <= i < |s[1..]| ensures IsDigit(s[1..][i]) {
          assert s[1..][i] == s[i + 1];
        }
      }
      FirstOfAbsent(s[1..], a, b);
    }
  }

  /** Text whose first non-blank character cannot begin a numeric literal is not a number. */
  lemma NotNumericByFirst(text: string)
    requires Trim(text) != []
    requires var c := Trim(text)[0]; !IsDigit(c) && c != '+' && c != '-' && c != '.' && c != 'I'
    ensures !IsJsNumeric(text)
  {
    var s := Trim(text);
    var e := FirstOf(s, 'e', 'E');
    if e > 0 {
      var m := s[..e];
      assert m[0] == s[0];
      var d := FirstOf(m, '.', '.');
      if d > 0 {
        assert m[..d][0] == m[0];
      }
    } else {
      assert s[..e] == [];
    }
    assert "Infinity"[0] == 'I';
  }

  // ---------------------------------------------------------------------------
  // Alignment and colour

  datatype Align = Left | Center | Right

  /** `["high", "medium", "low"].includes(text.toLowerCase())`. */
  predicate IsLevelWord(text: string)
  {
    Lower(text) == "high" || Lower(text) == "medium" || Lower(text) == "low"
  }

  /** `text.toUpperCase().startsWith("SKU")`. */
  predicate HasSkuPrefix(text: string)
  {
    |text| >= 3 && Upper(text)[..3] == "SKU"
  }

  /** The override chain: left by default, right for numbers and dates, centred for level words,
      and left again for anything starting with `SKU`. */
  function CellAlign(text: string): Align
  {
    var a0 := Left;
    var a1 := if IsJsNumeric(text) || Normalizer.IsDateShaped(text) then Right else a0;
    var a2 := if IsLevelWord(text) then Center else a1;
    if HasSkuPrefix(text) then Left else a2
  }

  const Black: string := "#000000"

  /** The fill colour a cell's text is drawn in; it is reset to black after every cell. */
  function CellColor(text: string): string
  {
    if Lower(text) == "high" then "#006600"
    else if Lower(text) == "medium" then "#996600"
    else if Lower(text) == "low" then "#990000"
    else Black
  }

  /** A level word never starts with `SKU`: its first letter is h, m or l in either case. */
  lemma LevelWordNotSku(text: string)
    requires IsLevelWord(text)
    ensures !HasSkuPrefix(text)
  {
    assert Lower(text)[0] == LowerChar(text[0]);
    assert Upper(text)[0] == UpperChar(text[0]);
    assert |text| >= 3 ==> Upper(text)[..3][0] == Upper(text)[0];
  }

  /** Which of the three alignments a cell gets, stated as a partition of all texts: centred
      exactly for level words, right exactly for numbers and dates that are neither level words
      nor `SKU`-prefixed, left for everything else. */
  lemma AlignPartition(text: string)
    ensures CellAlign(text) == Center <==> IsLevelWord(text)
    ensures CellAlign(text) == Right <==>
            (IsJsNumeric(text) || Normalizer.IsDateShaped(text)) && !IsLevelWord(text) && !HasSkuPrefix(text)
    ensures CellAlign(text) == Left <==>
            HasSkuPrefix(text) || (!IsLevelWord(text) && !IsJsNumeric(text) && !Normalizer.IsDateShaped(text))
  {
    if IsLevelWord(text) {
      LevelWordNotSku(text);
    }
  }

  /** The coloured cells are exactly the centred ones, and each level has its own colour. */
  lemma ColorMatchesAlignment(text: string)
    ensures CellColor(text) != Black <==> CellAlign(text) == Center
    ensures Lower(text) == "high" <==> CellColor(text) == "#006600"
    ensures Lower(text) == "medium" <==> CellColor(text) == "#996600"
    ensures Lower(text) == "low" <==> CellColor(text) == "#990000"
  {
    AlignPartition(text);
  }

  /** Quantities are right-aligned. */
  lemma QuantityAlignment(text: string)
    requires text != [] && AllDigits(text)
    ensures CellAlign(text) == Right
  {
    DigitsAreNumeric(text);
    DigitsNotSku(text);
    DigitsNotLevel(text);
  }

  lemma DigitsNotSku(text: string)
    requires text != [] && AllDigits(text)
    ensures !HasSkuPrefix(text)
  {
    assert IsDigit(text[0]);
    assert Upper(text)[0] == UpperChar(text[0]) == text[0];
    assert |text| >= 3 ==> Upper(text)[..3][0] == Upper(text)[0];
  }

  lemma DigitsNotLevel(text: string)
    requires text != [] && AllDigits(text)
    ensures !IsLevelWord(text)
  {
    assert IsDigit(text[0]);
    assert Lower(text)[0] == LowerChar(text[0]) == text[0];
    assert "high"[0] == 'h' && "medium"[0] == 'm' && "low"[0] == 'l';
  }


  /** `SKU` codes are left-aligned. */
  lemma SkuAlignment(text: string)
    requires Normalizer.IsSkuCode(text)
    ensures CellAlign(text) == Left
  {
    assert text[0] == text[..3][0] == 'S' && text[1] == text[..3][1] == 'K' && text[2] == text[..3][2] == 'U';
    var u := Upper(text);
    assert u[0] == 'S' && u[1] == 'K' && u[2] == 'U';
    assert u[..3] == "SKU";
  }
}
