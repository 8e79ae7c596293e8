/** `normalizeForecastCsv` (controllers/forecastController.js): rebuilds forecast rows that the
    language model broke over several physical lines, with one pending-row buffer. The target row
    shape is four comma-separated fields; a buffer is emitted exactly when it splits into four. */
module Normalizer {
  import opened Js

  // ---------------------------------------------------------------------------
  // The fragment patterns

  /** `/^\d{4}-\d{2}-\d{2}$/` (JavaScript `\d` is ASCII only). */
  predicate IsDateShaped(s: string)
  {
    |s| == 10 && AllDigits(s[..4]) && s[4] == '-' && AllDigits(s[5..7]) && s[7] == '-' && AllDigits(s[8..])
  }

  /** `/^SKU\d+$/`, case-sensitive. */
  predicate IsSkuCode(s: string)
  {
    |s| >= 4 && s[..3] == "SKU" && AllDigits(s[3..])
  }

  /** `/^\d+$/`. */
  predicate IsQuantity(s: string)
  {
    s != [] && AllDigits(s)
  }

  /** `/^(low|medium|high)$/i`. */
  predicate IsConfidenceWord(s: string)
  {
    Lower(s) == "low" || Lower(s) == "medium" || Lower(s) == "high"
  }

  /** A line that is one bare field of a row being assembled piecewise. */
  predicate IsFragment(line: string)
  {
    IsDateShaped(line) || IsSkuCode(line) || IsQuantity(line) || IsConfidenceWord(line)
  }

  /** `s.split(",").length`. */
  function PartCount(s: string): nat
  {
    |Split(s, ',')|
  }

  // ---------------------------------------------------------------------------
  // The state machine

  /** The buffer and the rows emitted so far. */
  datatype State = State(buffer: string, rows: seq<string>)

  /** `s.replace(/,+$/, "")`: the longest prefix that does not end in a comma run. */
  function TrimTrailingCommas(s: string): (r: string)
    ensures |r| <= |s| && r == s[..|r|]
    ensures r == [] || r[|r| - 1] != ','
    ensures forall i :: |r| <= i < |s| ==> s[i] == ','
  {
    if s != [] && s[|s| - 1] == ',' then TrimTrailingCommas(s[..|s| - 1]) else s
  }

  /** The row a full buffer is emitted as: `buffer.trim().replace(/,+$/, "")`. */
  function Flush(buffer: string): string
  {
    TrimTrailingCommas(Trim(buffer))
  }

  /** One iteration of the loop body, on one trimmed non-blank line. */
  function Step(st: State, line: string): State
  {
    var st' :=
      if IsFragment(line) then State(st.buffer + line + ",", st.rows)
      else if PartCount(line) >= 4 then State(st.buffer, st.rows + [line])
      else State(st.buffer + line + " ", st.rows);
    if PartCount(st'.buffer) == 4 then State("", st'.rows + [Flush(st'.buffer)]) else st'
  }

  /** The state after consuming `lines` in order, from the empty buffer. */
  function Run(lines: seq<string>): State
  {
    if lines == [] then State("", []) else Step(Run(lines[..|lines| - 1]), lines[|lines| - 1])
  }

  /** `normalizeForecastCsv(csvString)`. */
  method NormalizeForecastCsv(csv: string) returns (out: string)
    ensures out == Join(Run(Lines(csv)).rows, "\n")
  {
    var lines := Lines(csv);
    var normalized: seq<string> := [];
    var buffer := "";
    var i := 0;
    while i < |lines|
      invariant 0 <= i <= |lines|
      invariant State(buffer, normalized) == Run(lines[..i])
    {
      buffer, normalized := Consume(buffer, normalized, lines[i]);
      RunSnoc(lines, i);
      i := i + 1;
    }
    assert lines[..|lines|] == lines;
    out := Join(normalized, "\n");
  }

  /** The body of the `for (let line of lines)` loop. */
  method Consume(buffer0: string, normalized0: seq<string>, line: string) returns (buffer: string, normalized: seq<string>)
    ensures State(buffer, normalized) == Step(State(buffer0, normalized0), line)
  {
    buffer, normalized := buffer0, normalized0;
    if IsFragment(line) {
      buffer := buffer + line + ",";
    } else if PartCount(line) >= 4 {
      normalized := normalized + [line];
    } else {
      buffer := buffer + line + " ";
    }
    if PartCount(buffer) == 4 {
      normalized := normalized + [TrimTrailingCommas(Trim(buffer))];
      buffer := "";
    }
  }

  lemma RunSnoc(lines: seq<string>, i: nat)
    requires i < |lines|
    ensures Run(lines[..i + 1]) == Step(Run(lines[..i]), lines[i])
  {
    assert lines[..i + 1][..i] == lines[..i];
  }

  /** The text form the method returns, as a function for the lemmas below. */
  function Normalize(csv: string): string
  {
    Join(Run(Lines(csv)).rows, "\n")
  }

  // ---------------------------------------------------------------------------
  // Properties

  /** A fragment line holds no comma, so it never counts as a complete row. */
  lemma FragmentHasNoComma(line: string)
    requires IsFragment(line)
    ensures ',' !in line
  {
    forall i | 0 <= i < |line|
      ensures line[i] != ','
    {
      if IsDateShaped(line) {
        if i < 4 {
          assert line[i] == line[..4][i];
        } else if 5 <= i < 7 {
          assert line[i] == line[5..7][i - 5];
        } else if 8 <= i {
          assert line[i] == line[8..][i - 8];
        }
      } else if IsSkuCode(line) {
        if i < 3 {
          assert line[i] == "SKU"[i];
        } else {
          assert line[i] == line[3..][i - 3];
        }
      } else if !IsQuantity(line) {
        assert Lower(line)[i] == LowerChar(line[i]);
      }
    }
  }

  /** Between iterations the buffer never splits into four parts: full buffers are emitted at once. */
  lemma {:induction false} RunBufferNotFull(lines: seq<string>)
    ensures PartCount(Run(lines).buffer) != 4
  {
    if lines != [] {
      RunBufferNotFull(lines[..|lines| - 1]);
    }
  }

  /** Each line adds at most one row, and rows already emitted are never changed. */
  lemma StepAppendsAtMostOne(st: State, line: string)
    requires PartCount(st.buffer) != 4
    ensures st.rows <= Step(st, line).rows
    ensures |Step(st, line).rows| <= |st.rows| + 1
  {
  }

  /** There are never more output rows than non-blank input lines. */
  lemma {:induction false} RunRowsBound(lines: seq<string>)
    ensures |Run(lines).rows| <= |lines|
  {
    if lines != [] {
      var init := lines[..|lines| - 1];
      RunRowsBound(init);
      RunBufferNotFull(init);
      StepAppendsAtMostOne(Run(init), lines[|lines| - 1]);
    }
  }

  /** Output keeps input order: the rows emitted after a prefix of the lines are a prefix of the
      rows emitted after all of them. */
  lemma {:induction false} RunPrefix(lines: seq<string>, i: nat)
    requires i <= |lines|
    ensures Run(lines[..i]).rows <= Run(lines).rows
    decreases |lines| - i
  {
    if i < |lines| {
      var init := lines[..|lines| - 1];
      assert lines[..i] == init[..i];
      RunPrefix(init, i);
      RunBufferNotFull(init);
      StepAppendsAtMostOne(Run(init), lines[|lines| - 1]);
    } else {
      assert lines[..i] == lines;
    }
  }

  /** A non-fragment line with at least four comma parts is emitted verbatim, and the pending
      buffer is left as it was. */
  lemma PassThrough(st: State, line: string)
    requires PartCount(st.buffer) != 4
    requires !IsFragment(line) && PartCount(line) >= 4
    ensures Step(st, line) == State(st.buffer, st.rows + [line])
  {
  }

  /** Removing whitespace and trailing commas never adds a comma. */
  lemma FlushCommas(b: string)
    ensures Count(Flush(b), ',') <= Count(b, ',')
  {
    var t := Trim(b);
    var a := TrimOffset(b);
    ThreeParts(b, a, a + |t|);
    CountAppend(b[..a] + b[a..a + |t|], b[a + |t|..], ',');
    CountAppend(b[..a], b[a..a + |t|], ',');
    var f := Flush(b);
    TwoParts(t, |f|);
    CountAppend(f, t[|f|..], ',');
  }

  /** A buffer is flushed exactly when it reaches three commas; it is emitted as a row with at most
      three commas that does not end in a comma, and the buffer is reset. */
  lemma FlushShape(st: State, line: string, b: string)
    requires PartCount(st.buffer) != 4
    requires b == if IsFragment(line) then st.buffer + line + "," else st.buffer + line + " "
    requires IsFragment(line) || PartCount(line) < 4
    ensures Count(b, ',') == 3 ==> Step(st, line) == State("", st.rows + [Flush(b)])
    ensures Count(b, ',') != 3 ==> Step(st, line) == State(b, st.rows)
    ensures Count(b, ',') == 3 ==> Count(Flush(b), ',') <= 3
    ensures Flush(b) == [] || Flush(b)[|Flush(b)| - 1] != ','
  {
    SplitLength(b, ',');
    FlushCommas(b);
  }

  /** A line with four or more comma parts is never a fragment. */
  lemma CompleteNotFragment(line: string)
    requires PartCount(line) >= 4
    ensures !IsFragment(line)
  {
    if IsFragment(line) {
      FragmentHasNoComma(line);
      SplitNoSeparator(line, ',');
    }
  }

  /** Lines that are each a complete row pass through unchanged and in order. */
  lemma {:induction false} RunAllComplete(lines: seq<string>)
    requires forall k :: 0 <= k < |lines| ==> PartCount(lines[k]) >= 4
    ensures Run(lines) == State("", lines)
  {
    if lines != [] {
      var init := lines[..|lines| - 1];
      var last := lines[|lines| - 1];
      RunAllComplete(init);
      RunAllCompleteStep(init, last);
      SnocLast(lines);
    }
  }

  lemma RunAllCompleteStep(init: seq<string>, last: string)
    requires Run(init) == State("", init) && PartCount(last) >= 4
    ensures Run(init + [last]) == State("", init + [last])
  {
    RunSnocOne(init, last);
    CompleteNotFragment(last);
    PassThrough(State("", init), last);
  }

  /** A line as `Lines` returns it: trimmed, non-empty, without a newline. */
  predicate IsCleanLine(l: string)
  {
    l != [] && Trim(l) == l && '\n' !in l
  }

  lemma TrimmedPieceClean(p: string)
    requires '\n' !in p
    ensures Trim(p) == [] || IsCleanLine(Trim(p))
  {
    TrimIdempotent(p);
    NoNewlineSlice(p, TrimOffset(p), |Trim(p)|);
  }

  lemma NoNewlineSlice(p: string, a: nat, n: nat)
    requires '\n' !in p && a + n <= |p|
    ensures '\n' !in p[a..a + n]
  {
    var l := p[a..a + n];
    forall i | 0 <= i < n
      ensures l[i] != '\n'
    {
      assert l[i] == p[a + i] && p[a + i] in p;
    }
    NoNewline(l);
  }

  lemma NoNewline(l: string)
    requires forall i :: 0 <= i < |l| ==> l[i] != '\n'
    ensures '\n' !in l
  {
  }

  /** The lines `Lines` returns are trimmed, non-empty and hold no newline. */
  lemma LinesAreClean(s: string)
    ensures forall k :: 0 <= k < |Lines(s)| ==> IsCleanLine(Lines(s)[k])
  {
    var pieces := Split(s, '\n');
    SplitPiecesFree(s, '\n');
    var trimmed := TrimAll(pieces);
    forall k | 0 <= k < |trimmed|
      ensures trimmed[k] == [] || IsCleanLine(trimmed[k])
    {
      TrimmedPieceClean(pieces[k]);
    }
    forall k | 0 <= k < |Lines(s)|
      ensures IsCleanLine(Lines(s)[k])
    {
      assert Lines(s)[k] in trimmed;
    }
  }

  /** Clean lines joined by newlines split back into the same lines. */
  lemma LinesOfJoin(lines: seq<string>)
    requires forall k :: 0 <= k < |lines| ==> IsCleanLine(lines[k])
    ensures Lines(Join(lines, "\n")) == lines
  {
    if lines == [] {
      assert Split("", '\n') == [""];
      assert TrimAll([""]) == [""];
    } else {
      assert "\n" == ['\n'];
      SplitJoin(lines, '\n');
      TrimAllIdentity(lines);
      NonEmptyIdentity(lines);
    }
  }

  /** When every non-blank line already has at least four comma parts, the output is exactly
      those trimmed lines, and normalizing a second time changes nothing. */
  lemma NormalizeCompleteRows(csv: string)
    requires forall k :: 0 <= k < |Lines(csv)| ==> PartCount(Lines(csv)[k]) >= 4
    ensures Normalize(csv) == Join(Lines(csv), "\n")
    ensures Normalize(Normalize(csv)) == Normalize(csv)
  {
    RunAllComplete(Lines(csv));
    LinesAreClean(csv);
    LinesOfJoin(Lines(csv));
  }

  /** The lines that pass straight through, in order. */
  function PassedThrough(lines: seq<string>): (r: seq<string>)
  {
    if lines == [] then []
    else
      var last := lines[|lines| - 1];
      PassedThrough(lines[..|lines| - 1]) + (if !IsFragment(last) && PartCount(last) >= 4 then [last] else [])
  }

  /** Once the buffer holds more than three commas it can never be emitted: every later fragment
      and short line is swallowed, and only complete lines still reach the output. */
  lemma {:induction false} StuckBuffer(lines: seq<string>, more: seq<string>)
    requires Count(Run(lines).buffer, ',') > 3
    ensures Count(Run(lines + more).buffer, ',') > 3
    ensures Run(lines + more).rows == Run(lines).rows + PassedThrough(more)
  {
    if more == [] {
      assert lines + more == lines;
    } else {
      var init := more[..|more| - 1];
      var last := more[|more| - 1];
      StuckBuffer(lines, init);
      RunAppendSnoc(lines, more);
      StuckStep(Run(lines + init), last);
    }
  }

  lemma RunAppendSnoc(lines: seq<string>, more: seq<string>)
    requires more != []
    ensures Run(lines + more) == Step(Run(lines + more[..|more| - 1]), more[|more| - 1])
  {
    AppendInit(lines, more);
  }

  /** A buffer past three commas only grows, and only whole rows pass it by. */
  lemma StuckStep(st: State, last: string)
    requires Count(st.buffer, ',') > 3
    ensures Count(Step(st, last).buffer, ',') > 3
    ensures Step(st, last).rows == st.rows + (if !IsFragment(last) && PartCount(last) >= 4 then [last] else [])
  {
    var b := st.buffer;
    SplitLength(b, ',');
    if IsFragment(last) {
      CountExtend(b, last, ",");
      SplitLength(b + last + ",", ',');
    } else if PartCount(last) < 4 {
      CountExtend(b, last, " ");
      SplitLength(b + last + " ", ',');
    }
  }

  lemma CountOfSeparator(c: char)
    ensures Count([c], c) == 1
  {
    assert [c][1..] == [];
  }

  /** `a,b` has one comma and `a,b,c` two, for comma-free pieces. */
  lemma CountPieces(a: string, b: string, c: string)
    requires ',' !in a && ',' !in b && ',' !in c
    ensures Count(a + "," + b, ',') == 1
    ensures Count(a + "," + b + "," + c, ',') == 2
  {
    CountAbsent(a, ','); CountAbsent(b, ','); CountAbsent(c, ',');
    CountOfSeparator(',');
    assert "," == [','];
    CountAppend(a, ",", ',');
    CountAppend(a + ",", b, ',');
    CountAppend(a + "," + b, ",", ',');
    CountAppend(a + "," + b + ",", c, ',');
  }

  /** Appending `line` and a separator adds the commas of both. */
  lemma CountExtend(b: string, line: string, sep: string)
    requires sep == "," || sep == " "
    ensures Count(b + line + sep, ',') == Count(b, ',') + Count(line, ',') + (if sep == "," then 1 else 0)
  {
    CountAppend(b, line, ',');
    CountAppend(b + line, sep, ',');
    if sep == "," {
      CountOfSeparator(',');
    } else {
      CountAbsent(sep, ',');
    }
  }

  /** A step on a fragment or a short line, in terms of the buffer's comma count. */
  lemma StepBuffered(st: State, line: string, sep: string)
    requires PartCount(st.buffer) != 4
    requires sep == (if IsFragment(line) then "," else " ")
    requires IsFragment(line) || PartCount(line) < 4
    ensures var b := st.buffer + line + sep;
            Step(st, line) == if Count(b, ',') == 3 then State("", st.rows + [Flush(b)]) else State(b, st.rows)
  {
    SplitLength(st.buffer + line + sep, ',');
  }

  // Facts about the literal lines of the two examples below, one small proof each.

  /** A line with non-space ends and no line break is clean. */
  lemma CleanByEdges(s: string)
    requires s != [] && !IsSpace(s[0]) && !IsSpace(s[|s| - 1])
    requires forall i :: 0 <= i < |s| ==> s[i] != '\n'
    ensures IsCleanLine(s)
  {
    TrimNoEdgeSpace(s);
  }

  lemma DateLine()
    ensures IsFragment("2023-08-01") && IsCleanLine("2023-08-01")
  {
    var d := "2023-08-01";
    assert IsDateShaped(d);
    forall i | 0 <= i < |d|
      ensures d[i] != '\n'
    {
    }
    CleanByEdges(d);
  }

  lemma QuantityLine()
    ensures IsFragment("120") && IsCleanLine("120")
  {
    var q := "120";
    assert IsQuantity(q);
    forall i | 0 <= i < |q|
      ensures q[i] != '\n'
    {
    }
    CleanByEdges(q);
  }

  lemma SkuLine()
    ensures IsFragment("SKU1")
  {
    assert IsSkuCode("SKU1");
  }

  lemma LevelLine()
    ensures IsFragment("high") && IsCleanLine("high")
  {
    var h := "high";
    LowerHigh();
    assert IsConfidenceWord(h);
    forall i | 0 <= i < |h|
      ensures h[i] != '\n'
    {
    }
    CleanByEdges(h);
  }

  lemma LowerHigh()
    ensures Lower("high") == "high"
  {
    var s := "high";
    assert forall i :: 0 <= i < |s| ==> Lower(s)[i] == LowerChar(s[i]) == s[i];
  }

  lemma ProductLine()
    ensures !IsFragment("ProductA") && ',' !in "ProductA" && IsCleanLine("ProductA")
  {
    ProductNotFragment();
    ProductClean();
  }

  lemma ProductNotFragment()
    ensures !IsFragment("ProductA")
  {
    var p := "ProductA";
    assert !IsDigit(p[0]) && p[0] != 'S';
    assert LowerChar(p[0]) == 'p';
    NotFragmentByFirst(p);
  }

  lemma ProductClean()
    ensures ',' !in "ProductA" && IsCleanLine("ProductA")
  {
    ProductPlain();
    CleanByEdges("ProductA");
  }

  lemma ProductPlain()
    ensures ',' !in "ProductA" && '\n' !in "ProductA"
  {
    var p := "ProductA";
    forall i | 0 <= i < |p|
      ensures p[i] != ',' && p[i] != '\n'
    {
    }
  }

  /** A line whose first character cannot start any of the four patterns is not a fragment. */
  lemma NotFragmentByFirst(s: string)
    requires s != [] && !IsDigit(s[0]) && s[0] != 'S'
    requires LowerChar(s[0]) != 'l' && LowerChar(s[0]) != 'm' && LowerChar(s[0]) != 'h'
    ensures !IsFragment(s)
  {
    if |s| >= 4 {
      assert s[..3][0] == s[0];
    }
    assert Lower(s)[0] == LowerChar(s[0]);
    if |s| == 10 {
      assert s[..4][0] == s[0];
    }
  }

  lemma ExampleJoin()
    ensures Join(["2023-08-01", "ProductA", "120", "high"], "\n") == "2023-08-01\nProductA\n120\nhigh"
  {
    var lines := ["2023-08-01", "ProductA", "120", "high"];
    assert lines[1..] == ["ProductA", "120", "high"];
    assert lines[1..][1..] == ["120", "high"];
    assert lines[1..][1..][1..] == ["high"];
  }

  lemma FragmentExampleLines()
    ensures Lines("2023-08-01\nProductA\n120\nhigh") == ["2023-08-01", "ProductA", "120", "high"]
  {
    DateLine(); ProductLine(); QuantityLine(); LevelLine();
    CleanFour("2023-08-01", "ProductA", "120", "high");
    ExampleJoin();
    LinesOfJoin(["2023-08-01", "ProductA", "120", "high"]);
  }

  lemma CleanFour(a: string, b: string, c: string, d: string)
    requires IsCleanLine(a) && IsCleanLine(b) && IsCleanLine(c) && IsCleanLine(d)
    ensures forall k :: 0 <= k < 4 ==> IsCleanLine([a, b, c, d][k])
  {
  }

  /** The comma count of a buffer built from comma-free lines is the number of fragments. */
  lemma BufferedCommas(b: string, line: string)
    requires ',' !in line
    ensures Count(b + line + ",", ',') == Count(b, ',') + 1
    ensures Count(b + line + " ", ',') == Count(b, ',')
  {
    CountAbsent(line, ',');
    CountExtend(b, line, ",");
    CountExtend(b, line, " ");
  }

  lemma RunSnocOne(xs: seq<string>, x: string)
    ensures Run(xs + [x]) == Step(Run(xs), x)
  {
    assert (xs + [x])[..|xs|] == xs;
  }

  lemma RunOfThree(a: string, b: string, c: string)
    ensures Run([a, b, c]) == Step(Step(Step(State("", []), a), b), c)
  {
    assert [a, b, c] == [a, b] + [c] && [a, b] == [a] + [b] && [a] == [] + [a];
    RunSnocOne([], a);
    RunSnocOne([a], b);
    RunSnocOne([a, b], c);
  }

  lemma RunOfFour(a: string, b: string, c: string, d: string)
    ensures Run([a, b, c, d]) == Step(Step(Step(Step(State("", []), a), b), c), d)
  {
    assert [a, b, c, d] == [a, b, c] + [d];
    RunOfThree(a, b, c);
    RunSnocOne([a, b, c], d);
  }

  /** A row followed by one comma flushes back to the row. */
  lemma FlushRowComma(r: string)
    requires r != [] && !IsSpace(r[0]) && !IsSpace(r[|r| - 1]) && r[|r| - 1] != ','
    ensures Flush(r + ",") == r
  {
    var b := r + ",";
    assert b[0] == r[0] && b[|b| - 1] == ',';
    TrimNoEdgeSpace(b);
    assert b[..|b| - 1] == r;
  }

  lemma JoinFields(a: string, s1: string, b: string, s2: string, c: string, s3: string)
    ensures "" + a + s1 + b + s2 + c + s3 == (a + s1 + b + s2 + c) + s3
    ensures |a + s1 + b + s2 + c| >= |c| && (c != [] ==> (a + s1 + b + s2 + c)[|a + s1 + b + s2 + c| - 1] == c[|c| - 1])
    ensures a != [] ==> (a + s1 + b + s2 + c)[0] == a[0]
  {
  }

  /** A fragment or short line that leaves the buffer short of three commas: it is buffered. */
  lemma StepKeeps(st: State, line: string, sep: string)
    requires PartCount(st.buffer) != 4
    requires sep == (if IsFragment(line) then "," else " ")
    requires IsFragment(line) || PartCount(line) < 4
    requires Count(st.buffer + line + sep, ',') != 3
    ensures Step(st, line) == State(st.buffer + line + sep, st.rows)
  {
    StepBuffered(st, line, sep);
  }

  /** A fragment that brings the buffer to three commas: the buffer, minus its final comma, is
      emitted as a row. */
  lemma StepEmits(st: State, line: string, r: string)
    requires PartCount(st.buffer) != 4 && IsFragment(line)
    requires Count(st.buffer + line + ",", ',') == 3
    requires st.buffer + line + "," == r + ","
    requires r != [] && !IsSpace(r[0]) && !IsSpace(r[|r| - 1]) && r[|r| - 1] != ','
    ensures Step(st, line) == State("", st.rows + [r])
  {
    StepBuffered(st, line, ",");
    FlushRowComma(r);
  }

  lemma EmptyPrefix(a: string)
    ensures "" + a == a
  {
  }

  /** A date, a one-word non-fragment field, a quantity and a level on four lines: the row is
      flushed at the level's comma, and the second and third fields are run together with a
      space (the non-fragment line is taken for the start of a multi-word field). */
  lemma {:induction false} SplitRowWithNameField(d: string, n: string, q: string, h: string)
    requires IsFragment(d) && IsFragment(q) && IsFragment(h)
    requires !IsFragment(n) && ',' !in n
    requires IsCleanLine(d) && IsCleanLine(h)
    ensures Run([d, n, q, h]) == State("", [d + "," + n + " " + q + "," + h])
  {
    var b1 := d + ",";
    var b2 := b1 + n + " ";
    var b3 := b2 + q + ",";
    FirstFragment(d, []);
    CleanHead(d);
    WordStep(State(b1, []), n);
    KeepFragment(State(b2, []), q, 2);
    FragmentFlush(b3, h);
    assert b3 + h == d + "," + n + " " + q + "," + h;
    RunOfFour(d, n, q, h);
  }

  /** A first fragment starts the buffer with itself and a comma. */
  lemma FirstFragment(d: string, rows: seq<string>)
    requires IsFragment(d)
    ensures Count(d + ",", ',') == 1 && Step(State("", rows), d) == State(d + ",", rows)
  {
    FragmentHasNoComma(d);
    assert "" + d == d;
    assert Count("", ',') == 0 && Split("", ',') == [""];
    BufferedCommas("", d);
    StepKeeps(State("", rows), d, ",");
  }

  /** A clean line starts with a non-space character, which a buffer started from it keeps. */
  lemma CleanHead(d: string)
    requires IsCleanLine(d)
    ensures (d + ",")[0] == d[0] && !IsSpace(d[0])
  {
  }

  /** A fragment on a buffer with `n - 1 < 2` commas is buffered with its comma. */
  lemma KeepFragment(st: State, x: string, n: nat)
    requires IsFragment(x) && Count(st.buffer, ',') + 1 == n && n < 3 && st.buffer != []
    ensures Count(st.buffer + x + ",", ',') == n && Step(st, x) == State(st.buffer + x + ",", st.rows)
    ensures (st.buffer + x + ",")[0] == st.buffer[0]
  {
    FragmentHasNoComma(x);
    BufferedCommas(st.buffer, x);
    SplitLength(st.buffer, ',');
    StepKeeps(st, x, ",");
  }

  /** A comma-free non-fragment line is buffered with a space. */
  lemma WordStep(st: State, x: string)
    requires !IsFragment(x) && ',' !in x && Count(st.buffer, ',') != 3 && st.buffer != []
    ensures Count(st.buffer + x + " ", ',') == Count(st.buffer, ',')
    ensures Step(st, x) == State(st.buffer + x + " ", st.rows)
    ensures (st.buffer + x + " ")[0] == st.buffer[0]
  {
    SplitNoSeparator(x, ',');
    BufferedCommas(st.buffer, x);
    SplitLength(st.buffer, ',');
    StepKeeps(st, x, " ");
  }

  /** A fragment on a buffer with two commas completes the row, which is emitted without the
      final comma. */
  lemma FragmentFlush(buf: string, x: string)
    requires IsFragment(x) && IsCleanLine(x) && Count(buf, ',') == 2
    requires buf != [] && !IsSpace(buf[0])
    ensures Step(State(buf, []), x) == State("", [buf + x])
  {
    FragmentHasNoComma(x);
    BufferedCommas(buf, x);
    SplitLength(buf, ',');
    FlushAfterFragment(buf, x);
    var st := State(buf, []);
    StepBuffered(st, x, ",");
    EmptySnoc(st.rows, buf + x);
  }

  /** Four fragment lines meant as one row: the buffer already splits into four parts after the
      third fragment's trailing comma, so only three fields are emitted and the fourth starts the
      next buffer. */
  lemma {:induction false} SplitRowOfFragments(a: string, b: string, c: string, e: string)
    requires IsFragment(a) && IsFragment(b) && IsFragment(c) && IsFragment(e)
    requires IsCleanLine(a) && IsCleanLine(c)
    ensures Run([a, b, c, e]) == State(e + ",", [a + "," + b + "," + c])
  {
    var b1 := a + ",";
    var b2 := b1 + b + ",";
    FirstFragment(a, []);
    CleanHead(a);
    KeepFragment(State(b1, []), b, 2);
    FragmentFlush(b2, c);
    assert b2 + c == a + "," + b + "," + c;
    FirstFragment(e, [a + "," + b + "," + c]);
    RunOfFour(a, b, c, e);
  }

  lemma ExampleRowText()
    ensures "2023-08-01" + "," + "ProductA" + " " + "120" + "," + "high" == "2023-08-01,ProductA 120,high"
  {
  }

  /** The four lines `2023-08-01`, `ProductA`, `120`, `high` normalize to
      `2023-08-01,ProductA 120,high`. */
  lemma FragmentRowExample()
    ensures Normalize("2023-08-01\nProductA\n120\nhigh") == "2023-08-01,ProductA 120,high"
  {
    FragmentExampleLines();
    DateLine(); ProductLine(); QuantityLine(); LevelLine();
    SplitRowWithNameField("2023-08-01", "ProductA", "120", "high");
    ExampleRowText();
  }

  /** Two fragments and then a non-fragment line with two commas: the buffer passes from two
      comma-separated parts straight to five, so it is never emitted and is stuck from then on. */
  lemma {:induction false} OverfullBuffer(d: string, k: string, p: string)
    requires IsFragment(d) && IsFragment(k) && !IsFragment(p) && Count(p, ',') == 2
    ensures Run([d, k, p]).rows == []
    ensures Count(Run([d, k, p]).buffer, ',') == 4
  {
    var b1 := d + ",";
    var b2 := b1 + k + ",";
    FirstFragment(d, []);
    KeepFragment(State(b1, []), k, 2);
    ShortLineStep(State(b2, []), p);
    RunOfThree(d, k, p);
  }

  /** A non-fragment line with two commas, on a buffer with two, gives a buffer with four. */
  lemma ShortLineStep(st: State, p: string)
    requires !IsFragment(p) && Count(p, ',') == 2 && Count(st.buffer, ',') == 2
    ensures Step(st, p) == State(st.buffer + p + " ", st.rows)
    ensures Count(st.buffer + p + " ", ',') == 4
  {
    CountExtend(st.buffer, p, " ");
    SplitLength(st.buffer, ','); SplitLength(p, ',');
    StepKeeps(st, p, " ");
  }

  // ---------------------------------------------------------------------------
  // The flush rule as evidently intended

  /** As written, the flush test counts the empty part after the buffer's trailing comma, so
      four fragments are emitted as a three-field row and the fourth leaks into the next buffer. */
  lemma ShortRowAsWritten(a: string, b: string, c: string, e: string)
    requires IsFragment(a) && IsFragment(b) && IsFragment(c) && IsFragment(e)
    requires IsCleanLine(a) && IsCleanLine(c)
    ensures |Run([a, b, c, e]).rows| == 1 && PartCount(Run([a, b, c, e]).rows[0]) == 3
    ensures Run([a, b, c, e]).buffer == e + ","
  {
    SplitRowOfFragments(a, b, c, e);
    FragmentHasNoComma(a); FragmentHasNoComma(b); FragmentHasNoComma(c);
    CountPieces(a, b, c);
    SplitLength(a + "," + b + "," + c, ',');
  }

  lemma ShortRowText()
    ensures "2023-08-01" + "," + "SKU1" + "," + "120" == "2023-08-01,SKU1,120"
    ensures "high" + "," == "high,"
  {
  }

  /** The four lines `2023-08-01`, `SKU1`, `120`, `high` give the row `2023-08-01,SKU1,120` and
      leave `high,` pending. */
  lemma ShortRowExample()
    ensures Run(["2023-08-01", "SKU1", "120", "high"]) == State("high,", ["2023-08-01,SKU1,120"])
  {
    DateLine(); SkuLine(); QuantityLine(); LevelLine();
    SplitRowOfFragments("2023-08-01", "SKU1", "120", "high");
    ShortRowText();
  }

  /** The same step with the flush test on the completed fields: the buffer without its trailing
      separator, as it would be emitted, must split into four parts. */
  function StepFixed(st: State, line: string): State
  {
    var st' :=
      if IsFragment(line) then State(st.buffer + line + ",", st.rows)
      else if PartCount(line) >= 4 then State(st.buffer, st.rows + [line])
      else State(st.buffer + line + " ", st.rows);
    if PartCount(Flush(st'.buffer)) == 4 then State("", st'.rows + [Flush(st'.buffer)]) else st'
  }

  function RunFixed(lines: seq<string>): State
  {
    if lines == [] then State("", []) else StepFixed(RunFixed(lines[..|lines| - 1]), lines[|lines| - 1])
  }

  /** Every row has at least four comma-separated fields. */
  predicate Complete(rows: seq<string>)
  {
    forall k :: 0 <= k < |rows| ==> PartCount(rows[k]) >= 4
  }

  /** With the corrected test every emitted row has at least four fields. */
  lemma {:induction false} RunFixedRowsComplete(lines: seq<string>)
    ensures Complete(RunFixed(lines).rows)
  {
    if lines != [] {
      RunFixedRowsComplete(lines[..|lines| - 1]);
      StepFixedKeepsComplete(RunFixed(lines[..|lines| - 1]), lines[|lines| - 1]);
    }
  }

  lemma StepFixedKeepsComplete(st: State, line: string)
    requires Complete(st.rows)
    ensures Complete(StepFixed(st, line).rows)
  {
    var st' :=
      if IsFragment(line) then State(st.buffer + line + ",", st.rows)
      else if PartCount(line) >= 4 then State(st.buffer, st.rows + [line])
      else State(st.buffer + line + " ", st.rows);
    assert Complete(st'.rows) by {
      if !IsFragment(line) && PartCount(line) >= 4 {
        CompleteSnoc(st.rows, line);
      }
    }
    var f := Flush(st'.buffer);
    if PartCount(f) == 4 {
      CompleteSnoc(st'.rows, f);
    }
  }

  lemma CompleteSnoc(rows: seq<string>, x: string)
    requires Complete(rows) && PartCount(x) >= 4
    ensures Complete(rows + [x])
  {
    assert forall k :: 0 <= k < |rows| ==> (rows + [x])[k] == rows[k];
  }

  /** A clean comma-free line appended with its comma flushes back to the buffer plus the line,
      which has one more field than the buffer has commas. */
  lemma FlushAfterFragment(x: string, line: string)
    requires IsCleanLine(line) && ',' !in line
    requires x == [] || !IsSpace(x[0])
    ensures Flush(x + line + ",") == x + line
    ensures PartCount(x + line) == Count(x, ',') + 1
  {
    var r := x + line;
    assert Trim(line) == line;
    assert !IsSpace(line[0]) && !IsSpace(line[|line| - 1]);
    assert line[|line| - 1] in line;
    assert r[|r| - 1] == line[|line| - 1];
    assert r[0] == if x == [] then line[0] else x[0];
    FlushRowComma(r);
    CountAppend(x, line, ',');
    CountAbsent(line, ',');
    SplitLength(r, ',');
  }

  /** A fragment step under the corrected rule: the row is emitted when the buffer already held
      three complete fields. */
  lemma StepFixedFragment(st: State, line: string)
    requires IsFragment(line) && IsCleanLine(line)
    requires st.buffer == [] || !IsSpace(st.buffer[0])
    ensures StepFixed(st, line) ==
            if Count(st.buffer, ',') == 3 then State("", st.rows + [st.buffer + line])
            else State(st.buffer + line + ",", st.rows)
  {
    FragmentHasNoComma(line);
    FlushAfterFragment(st.buffer, line);
  }

  lemma RunFixedSnoc(xs: seq<string>, x: string)
    ensures RunFixed(xs + [x]) == StepFixed(RunFixed(xs), x)
  {
    assert (xs + [x])[..|xs|] == xs;
  }

  lemma RunFixedOfFour(a: string, b: string, c: string, d: string)
    ensures RunFixed([a, b, c, d]) == StepFixed(StepFixed(StepFixed(StepFixed(State("", []), a), b), c), d)
  {
    assert [a, b, c, d] == [a, b, c] + [d] && [a, b, c] == [a, b] + [b, c][1..] && [a, b] == [a] + [b];
    assert [a] == [] + [a];
    RunFixedSnoc([], a);
    RunFixedSnoc([a], b);
    RunFixedSnoc([a, b], c);
    RunFixedSnoc([a, b, c], d);
  }

  /** Under the corrected rule four fragment lines make exactly one four-field row. */
  lemma {:induction false} FixedFourFragments(a: string, b: string, c: string, e: string)
    requires IsFragment(a) && IsFragment(b) && IsFragment(c) && IsFragment(e)
    requires IsCleanLine(a) && IsCleanLine(b) && IsCleanLine(c) && IsCleanLine(e)
    ensures RunFixed([a, b, c, e]) == State("", [a + "," + b + "," + c + "," + e])
  {
    var b1 := a + ",";
    var b2 := b1 + b + ",";
    var b3 := b2 + c + ",";
    FixedStart(a);
    FixedGrow(b1, b, 2);
    FixedGrow(b2, c, 3);
    FixedFlush(b3, e);
    assert b3 + e == a + "," + b + "," + c + "," + e;
    RunFixedOfFour(a, b, c, e);
  }

  lemma FixedStart(a: string)
    requires IsFragment(a) && IsCleanLine(a)
    ensures Count(a + ",", ',') == 1 && StepFixed(State("", []), a) == State(a + ",", [])
    ensures (a + ",")[0] == a[0]
  {
    assert Count("", ',') == 0;
    assert "" + a + "," == a + ",";
    StepFixedFragment(State("", []), a);
    FragmentHasNoComma(a);
    BufferedCommas("", a);
    assert a != [] && (a + ",")[0] == a[0];
  }

  lemma FixedGrow(buf: string, x: string, n: nat)
    requires IsFragment(x) && IsCleanLine(x) && buf != [] && !IsSpace(buf[0])
    requires n <= 3 && Count(buf, ',') + 1 == n
    ensures Count(buf + x + ",", ',') == n && StepFixed(State(buf, []), x) == State(buf + x + ",", [])
    ensures (buf + x + ",")[0] == buf[0]
  {
    StepFixedFragment(State(buf, []), x);
    FragmentHasNoComma(x);
    BufferedCommas(buf, x);
  }

  lemma FixedFlush(buf: string, x: string)
    requires IsFragment(x) && IsCleanLine(x) && buf != [] && !IsSpace(buf[0])
    requires Count(buf, ',') == 3
    ensures StepFixed(State(buf, []), x) == State("", [buf + x])
  {
    var st := State(buf, []);
    StepFixedFragment(st, x);
    EmptySnoc(st.rows, buf + x);
  }

  lemma EmptySnoc(rows: seq<string>, y: string)
    requires rows == []
    ensures rows + [y] == [y]
  {
  }
}
