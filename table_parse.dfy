/** The text-to-table step of `generateForecastPdf` (controllers/forecastController.js): header
    labels from the first cleaned line, a quote-aware split of every other line into cells, and
    padding of short rows to the header length. */
module TableParse {
  import opened Js

  // ---------------------------------------------------------------------------
  // Header labels

  /** `word.charAt(0).toUpperCase() + word.slice(1).toLowerCase()`. */
  function CapWord(w: string): (r: string)
    ensures |r| == |w|
  {
    if w == [] then [] else [UpperChar(w[0])] + Lower(w[1..])
  }

  function CapWords(ws: seq<string>): (r: seq<string>)
    ensures |r| == |ws| && forall k :: 0 <= k < |ws| ==> r[k] == CapWord(ws[k])
  {
    if ws == [] then [] else [CapWord(ws[0])] + CapWords(ws[1..])
  }

  /** One header: trimmed, split on `_`, each word capitalised, joined with single spaces. */
  function FormatHeader(h: string): string
  {
    Join(CapWords(Split(Trim(h), '_')), " ")
  }

  /** `cleanedCsv[0].split(",").map(...)`: one label per comma part, quotes or not. */
  function Headers(first: string): (r: seq<string>)
    ensures |r| == |Split(first, ',')|
    ensures forall k :: 0 <= k < |r| ==> r[k] == FormatHeader(Split(first, ',')[k])
  {
    var parts := Split(first, ',');
    seq(|parts|, k requires 0 <= k < |parts| => FormatHeader(parts[k]))
  }

  /** The label character for position `i` of a trimmed name: `_` becomes a space, a character
      that starts a word is upper-cased and every other one lower-cased. */
  function LabelChar(t: string, i: nat, atStart: bool): char
    requires i < |t|
  {
    if t[i] == '_' then ' '
    else if (if i == 0 then atStart else t[i - 1] == '_') then UpperChar(t[i])
    else LowerChar(t[i])
  }

  /** The label built one character at a time; `atStart` says whether `t[0]` starts a word. */
  function Label(t: string, atStart: bool): (r: string)
    ensures |r| == |t|
    ensures forall i :: 0 <= i < |t| ==> r[i] == LabelChar(t, i, atStart)
  {
    if t == [] then []
    else
      var head := if t[0] == '_' then ' ' else if atStart then UpperChar(t[0]) else LowerChar(t[0]);
      var rest := Label(t[1..], t[0] == '_');
      assert forall i :: 1 <= i < |t| ==> LabelChar(t[1..], i - 1, t[0] == '_') == LabelChar(t, i, atStart);
      [head] + rest
  }

  /** The words of `t`, the first one capitalised only when `atStart`, joined with spaces. */
  function WordsText(ws: seq<string>, atStart: bool): string
    requires |ws| >= 1
  {
    Join([if atStart then CapWord(ws[0]) else Lower(ws[0])] + CapWords(ws[1..]), " ")
  }

  lemma JoinCons(x: string, ys: seq<string>, sep: string)
    requires |ys| >= 1
    ensures Join([x] + ys, sep) == x + sep + Join(ys, sep)
  {
    assert ([x] + ys)[1..] == ys;
  }

  lemma WordsAfterUnderscore(t: string, atStart: bool)
    requires t != [] && t[0] == '_'
    ensures WordsText(Split(t, '_'), atStart) == " " + WordsText(Split(t[1..], '_'), true)
  {
    var rest := Split(t[1..], '_');
    assert Split(t, '_') == [""] + rest;
    assert ([""] + rest)[1..] == rest;
    assert CapWord("") == "" && Lower("") == "";
    JoinCons("", CapWords(rest), " ");
    assert [CapWord(rest[0])] + CapWords(rest[1..]) == CapWords(rest);
  }

  lemma WordsAfterLetter(t: string, atStart: bool)
    requires t != [] && t[0] != '_'
    ensures WordsText(Split(t, '_'), atStart) ==
            [if atStart then UpperChar(t[0]) else LowerChar(t[0])] + WordsText(Split(t[1..], '_'), false)
  {
    var rest := Split(t[1..], '_');
    var w := [t[0]] + rest[0];
    var ws := Split(t, '_');
    assert ws == [w] + rest[1..];
    assert ws[0] == w && ws[1..] == rest[1..];
    assert w[0] == t[0] && w[1..] == rest[0];
    var head := [if atStart then UpperChar(t[0]) else LowerChar(t[0])];
    var first := if atStart then CapWord(w) else Lower(w);
    assert first == head + Lower(rest[0]) by {
      assert Lower(w)[1..] == Lower(rest[0]);
    }
    var tail := CapWords(rest[1..]);
    var lhs := WordsText(ws, atStart);
    var rhs := WordsText(rest, false);
    assert lhs == Join([first] + tail, " ");
    assert rhs == Join([Lower(rest[0])] + tail, " ");
    if |rest| == 1 {
      assert tail == [];
      assert [first] + tail == [first];
      assert [Lower(rest[0])] + tail == [Lower(rest[0])];
      assert lhs == first;
      assert rhs == Lower(rest[0]);
    } else {
      JoinCons(first, tail, " ");
      JoinCons(Lower(rest[0]), tail, " ");
      assert lhs == head + Lower(rest[0]) + " " + Join(tail, " ");
      assert rhs == Lower(rest[0]) + " " + Join(tail, " ");
      ConcatAssoc(head, Lower(rest[0]), " ", Join(tail, " "));
    }
  }

  lemma ConcatAssoc(a: string, b: string, c: string, d: string)
    ensures a + b + c + d == a + (b + c + d)
  {
  }

  lemma {:induction false} WordsTextIsLabel(t: string, atStart: bool)
    ensures WordsText(Split(t, '_'), atStart) == Label(t, atStart)
  {
    if t == [] {
      assert Split(t, '_') == [""];
      assert CapWords([""][1..]) == [];
    } else {
      WordsTextIsLabel(t[1..], t[0] == '_');
      if t[0] == '_' {
        WordsAfterUnderscore(t, atStart);
      } else {
        WordsAfterLetter(t, atStart);
      }
    }
  }

  /** A header label has one character per character of the trimmed name: underscores become
      spaces, the first letter of every word is upper-cased and the rest lower-cased. */
  lemma HeaderLabelChars(h: string)
    ensures |FormatHeader(h)| == |Trim(h)|
    ensures forall i :: 0 <= i < |Trim(h)| ==> FormatHeader(h)[i] == LabelChar(Trim(h), i, true)
  {
    var ws := Split(Trim(h), '_');
    WordsTextIsLabel(Trim(h), true);
    assert [CapWord(ws[0])] + CapWords(ws[1..]) == CapWords(ws);
  }

  /** The header split is not quote-aware: a quoted comma in the first line still makes an
      extra column. */
  lemma HeaderCount(first: string)
    ensures |Headers(first)| == Count(first, ',') + 1
  {
    SplitLength(first, ',');
  }

  // ---------------------------------------------------------------------------
  // The quote-aware cell splitter

  /** The splitter's loop state: the quote flag, the cells closed so far (untrimmed) and the
      cell being read. */
  datatype Lexer = Lexer(inQuotes: bool, done: seq<string>, cur: string)

  /** One character of the loop body. */
  function LexStep(st: Lexer, ch: char): Lexer
  {
    if ch == '"' then Lexer(!st.inQuotes, st.done, st.cur)
    else if ch == ',' && !st.inQuotes then Lexer(st.inQuotes, st.done + [st.cur], "")
    else Lexer(st.inQuotes, st.done, st.cur + [ch])
  }

  /** The state after reading `s` from the start. */
  function Lex(s: string): Lexer
  {
    if s == [] then Lexer(false, [], "") else LexStep(Lex(s[..|s| - 1]), s[|s| - 1])
  }

  /** The cells before trimming: the closed ones and the last one. */
  function RawCells(line: string): seq<string>
  {
    Lex(line).done + [Lex(line).cur]
  }

  /** The cells of one data line, each trimmed. */
  function Cells(line: string): seq<string>
  {
    TrimAll(RawCells(line))
  }

  /** The cell loop of `cleanedCsv.slice(1).map(...)`. */
  method SplitCells(line: string) returns (cells: seq<string>)
    ensures cells == Cells(line)
  {
    cells := [];
    var inQuotes := false;
    var currentCell := "";
    ghost var closed: seq<string> := [];
    var i := 0;
    while i < |line|
      invariant 0 <= i <= |line|
      invariant Lex(line[..i]) == Lexer(inQuotes, closed, currentCell)
      invariant cells == TrimAll(closed)
    {
      var ch := line[i];
      assert line[..i + 1][..i] == line[..i];
      if ch == '"' {
        inQuotes := !inQuotes;
      } else if ch == ',' && !inQuotes {
        TrimAllSnoc(closed, currentCell);
        cells := cells + [Trim(currentCell)];
        closed := closed + [currentCell];
        currentCell := "";
      } else {
        currentCell := currentCell + [ch];
      }
      i := i + 1;
    }
    assert line[..|line|] == line;
    TrimAllSnoc(closed, currentCell);
    cells := cells + [Trim(currentCell)];
  }

  lemma TrimAllSnoc(xs: seq<string>, y: string)
    ensures TrimAll(xs + [y]) == TrimAll(xs) + [Trim(y)]
  {
    var l, r := TrimAll(xs + [y]), TrimAll(xs) + [Trim(y)];
    assert |l| == |r|;
    forall k | 0 <= k < |l| ensures l[k] == r[k] {
      if k < |xs| {
        assert (xs + [y])[k] == xs[k];
      } else {
        assert (xs + [y])[k] == y;
      }
    }
  }

  /** The characters of `s` other than `"`. */
  function Unquoted(s: string): string
  {
    if s == [] then [] else Unquoted(s[..|s| - 1]) + (if s[|s| - 1] == '"' then [] else [s[|s| - 1]])
  }

  /** The number of commas read while outside quotes. */
  function OutsideCommas(s: string): nat
  {
    if s == [] then 0
    else OutsideCommas(s[..|s| - 1]) + (if s[|s| - 1] == ',' && Count(s[..|s| - 1], '"') % 2 == 0 then 1 else 0)
  }

  lemma JoinSnoc(xs: seq<string>, y: string, sep: string)
    requires |xs| >= 1
    ensures Join(xs + [y], sep) == Join(xs, sep) + sep + y
    decreases |xs|
  {
    if |xs| == 1 {
      assert xs + [y] == [xs[0], y];
      assert [xs[0], y][1..] == [y];
    } else {
      assert (xs + [y])[1..] == xs[1..] + [y];
      JoinSnoc(xs[1..], y, sep);
    }
  }

  lemma {:induction false} JoinExtendLast(xs: seq<string>, y: string, c: char, sep: string)
    ensures Join(xs + [y + [c]], sep) == Join(xs + [y], sep) + [c]
    decreases |xs|
  {
    if xs == [] {
      assert [] + [y + [c]] == [y + [c]];
      assert [] + [y] == [y];
    } else {
      assert (xs + [y + [c]])[1..] == xs[1..] + [y + [c]];
      assert (xs + [y])[1..] == xs[1..] + [y];
      JoinExtendLast(xs[1..], y, c, sep);
      if |xs| == 1 {
        assert xs[1..] + [y + [c]] == [y + [c]] && xs[1..] + [y] == [y];
      }
    }
  }

  lemma CountSnoc(s: string, ch: char, c: char)
    ensures Count(s + [ch], c) == Count(s, c) + (if ch == c then 1 else 0)
  {
    CountAppend(s, [ch], c);
    assert [ch][1..] == [];
  }

  /** What the lexer keeps and what it loses: the quote flag is the parity of the quotes read, a
      cell is closed by each comma outside quotes, and joining the cells back with commas gives
      the line without its quote characters. */
  lemma {:induction false} LexInvariant(s: string)
    ensures Lex(s).inQuotes <==> Count(s, '"') % 2 == 1
    ensures |Lex(s).done| == OutsideCommas(s)
    ensures Join(Lex(s).done + [Lex(s).cur], ",") == Unquoted(s)
  {
    if s == [] {
      assert Lex(s).done + [Lex(s).cur] == [""];
    } else {
      var init := s[..|s| - 1];
      var ch := s[|s| - 1];
      assert init + [ch] == s;
      LexInvariant(init);
      CountSnoc(init, ch, '"');
      var st := Lex(init);
      if ch == '"' {
      } else if ch == ',' && !st.inQuotes {
        assert st.done + [st.cur] + [""] == (st.done + [st.cur]) + [""];
        JoinSnoc(st.done + [st.cur], "", ",");
      } else {
        JoinExtendLast(st.done, st.cur, ch, ",");
      }
    }
  }

  lemma CellsCount(line: string)
    ensures |Cells(line)| == OutsideCommas(line) + 1
  {
    LexInvariant(line);
  }

  /** Only the quote characters are lost: the raw cells joined with commas give the line
      without its quotes. */
  lemma CellsRoundTrip(line: string)
    ensures Join(RawCells(line), ",") == Unquoted(line)
  {
    LexInvariant(line);
  }

  lemma {:induction false} LexNoQuote(s: string)
    ensures forall k :: 0 <= k < |Lex(s).done| ==> '"' !in Lex(s).done[k]
    ensures '"' !in Lex(s).cur
  {
    if s != [] {
      LexNoQuote(s[..|s| - 1]);
    }
  }

  lemma TrimmedIn(s: string, ch: char)
    requires ch !in s
    ensures ch !in Trim(s)
  {
    var t := Trim(s);
    var a := TrimOffset(s);
    forall i | 0 <= i < |t| ensures t[i] != ch {
      assert t[i] == s[a + i];
    }
  }

  /** No cell ever holds a quote character. */
  lemma CellsHaveNoQuote(line: string)
    ensures forall k :: 0 <= k < |Cells(line)| ==> '"' !in Cells(line)[k]
  {
    LexNoQuote(line);
    var raw := RawCells(line);
    forall k | 0 <= k < |raw| ensures '"' !in Cells(line)[k] {
      TrimmedIn(raw[k], '"');
    }
  }

  lemma {:induction false} LexWithoutQuotes(s: string)
    requires '"' !in s
    ensures !Lex(s).inQuotes
    ensures forall k :: 0 <= k < |Lex(s).done| ==> ',' !in Lex(s).done[k]
    ensures ',' !in Lex(s).cur
    ensures Unquoted(s) == s
  {
    if s != [] {
      var init := s[..|s| - 1];
      assert init + [s[|s| - 1]] == s;
      assert '"' !in init;
      LexWithoutQuotes(init);
    }
  }

  /** A line without quotes is cut exactly where `split(",")` cuts it. */
  lemma CellsWithoutQuotes(line: string)
    requires '"' !in line
    ensures RawCells(line) == Split(line, ',')
  {
    LexWithoutQuotes(line);
    LexInvariant(line);
    var raw := RawCells(line);
    assert forall k :: 0 <= k < |raw| ==> ',' !in raw[k];
    assert "," == [','];
    SplitJoin(raw, ',');
  }

  lemma LexSnoc(s: string, ch: char)
    ensures Lex(s + [ch]) == LexStep(Lex(s), ch)
  {
    assert (s + [ch])[..|s|] == s;
  }

  lemma LexOpening()
    ensures Lex("a,\"b") == Lexer(true, ["a"], "b")
  {
    var s0: string := [];
    var s1 := s0 + ['a']; LexSnoc(s0, 'a');
    assert Lex(s1) == Lexer(false, [], "a");
    var s2 := s1 + [',']; LexSnoc(s1, ',');
    assert Lex(s2) == Lexer(false, ["a"], "");
    var s3 := s2 + ['"']; LexSnoc(s2, '"');
    var s4 := s3 + ['b']; LexSnoc(s3, 'b');
    assert s4 == "a,\"b";
  }

  lemma LexInside()
    ensures Lex("a,\"b,c") == Lexer(true, ["a"], "b,c")
  {
    var s4 := "a,\"b";
    LexOpening();
    var s5 := s4 + [',']; LexSnoc(s4, ',');
    assert Lex(s5) == Lexer(true, ["a"], "b,");
    var s6 := s5 + ['c']; LexSnoc(s5, 'c');
    assert s6 == "a,\"b,c";
  }

  lemma LexClosing()
    ensures Lex("a,\"b,c\",d") == Lexer(false, ["a", "b,c"], "d")
  {
    var s6 := "a,\"b,c";
    LexInside();
    var s7 := s6 + ['"']; LexSnoc(s6, '"');
    var s8 := s7 + [',']; LexSnoc(s7, ',');
    assert Lex(s8) == Lexer(false, ["a", "b,c"], "");
    var s9 := s8 + ['d']; LexSnoc(s8, 'd');
    assert s9 == "a,\"b,c\",d";
  }

  lemma RawCellsOfExample()
    ensures RawCells("a,\"b,c\",d") == ["a", "b,c", "d"]
  {
    LexClosing();
    assert ["a", "b,c"] + ["d"] == ["a", "b,c", "d"];
  }

  lemma TrimmedExampleCells()
    ensures TrimAll(["a", "b,c", "d"]) == ["a", "b,c", "d"]
  {
    var cells := ["a", "b,c", "d"];
    forall k | 0 <= k < 3 ensures Trim(cells[k]) == cells[k] {
      TrimNoEdgeSpace(cells[k]);
    }
    TrimAllIdentity(cells);
  }

  /** `a,"b,c",d` is read as the three cells `a`, `b,c` and `d`. */
  lemma QuotedCommaExample()
    ensures Cells("a,\"b,c\",d") == ["a", "b,c", "d"]
  {
    RawCellsOfExample();
    TrimmedExampleCells();
  }

  /** An unterminated quote is tolerated: the rest of the line, commas included, is one cell. */
  lemma UnterminatedQuoteExample()
    ensures Cells("a,\"b,c") == ["a", "b,c"]
  {
    RawCellsUnterminated();
    TrimmedUnterminatedCells();
  }

  lemma RawCellsUnterminated()
    ensures RawCells("a,\"b,c") == ["a", "b,c"]
  {
    LexInside();
    assert ["a"] + ["b,c"] == ["a", "b,c"];
  }

  lemma TrimmedUnterminatedCells()
    ensures TrimAll(["a", "b,c"]) == ["a", "b,c"]
  {
    var cells := ["a", "b,c"];
    forall k | 0 <= k < 2 ensures Trim(cells[k]) == cells[k] {
      TrimNoEdgeSpace(cells[k]);
    }
    TrimAllIdentity(cells);
  }

  // ---------------------------------------------------------------------------
  // Padding

  /** The row padded with empty cells up to `n`; a longer row is kept whole. */
  function Padded(cells: seq<string>, n: nat): (r: seq<string>)
    ensures |r| == if |cells| < n then n else |cells|
    ensures r[..|cells|] == cells
    ensures forall k :: |cells| <= k < |r| ==> r[k] == ""
  {
    if |cells| < n then cells + seq(n - |cells|, _ => "") else cells
  }

  /** `while (cells.length < headers.length) cells.push("")`. */
  method PadRow(cells: seq<string>, n: nat) returns (r: seq<string>)
    ensures r == Padded(cells, n)
  {
    r := cells;
    while |r| < n
      invariant |cells| <= |r| && r[..|cells|] == cells
      invariant |cells| < n ==> |r| <= n
      invariant |cells| >= n ==> r == cells
      invariant forall k :: |cells| <= k < |r| ==> r[k] == ""
      decreases n - |r|
    {
      r := r + [""];
    }
    var p := Padded(cells, n);
    assert |r| == |p|;
    forall k | 0 <= k < |r| ensures r[k] == p[k] {
      if k < |cells| {
        assert r[k] == r[..|cells|][k] && p[k] == p[..|cells|][k];
      }
    }
  }

  /** One data row: its cells, padded to the header count. */
  function Row(line: string, n: nat): seq<string>
  {
    Padded(Cells(line), n)
  }

  /** `cleanedCsv.slice(1).map(...)`. */
  method ParseRows(lines: seq<string>, n: nat) returns (rows: seq<seq<string>>)
    ensures |rows| == |lines| && forall k :: 0 <= k < |lines| ==> rows[k] == Row(lines[k], n)
  {
    rows := [];
    for i := 0 to |lines|
      invariant |rows| == i && forall k :: 0 <= k < i ==> rows[k] == Row(lines[k], n)
    {
      var cells := SplitCells(lines[i]);
      var row := PadRow(cells, n);
      forall k | 0 <= k < i + 1
        ensures (rows + [row])[k] == Row(lines[k], n)
      {
        if k < i {
          assert (rows + [row])[k] == rows[k];
        }
      }
      rows := rows + [row];
    }
  }
}
