/** The two pure helpers of utils/groqHelper.js: splitting a model reply into its prose and its
    first fenced CSV block, and choosing the system prompt for a forecast type. */
module GroqHelper {
  import opened Js

  // ---------------------------------------------------------------------------
  // parseGroqResponse

  /** The fences of `/```csv\n([\s\S]*?)\n```/`. */
  const Open: string := "```csv\n"
  const Close: string := "\n```"

  /** `{ forecastText, forecastCsv }`, with `None` for `null`. */
  datatype Parsed = Parsed(forecastText: string, forecastCsv: Option<string>)

  // The expression has the shape `open([\s\S]*?)close`. Its properties are proved for any two
  // fences `open` and `close`, and `ParseGroqResponse` is the instance with the fences above.

  /** Some fenced block: an opening fence with a closing fence at or after its end. */
  ghost predicate HasBlock(response: string, open: string, close: string)
  {
    exists i: nat, j: nat :: OccursAt(response, open, i) && i + |open| <= j && OccursAt(response, close, j)
  }

  /** `response` is `p`, the opening fence, `c`, the closing fence and `s`, where the opening
      fence is the leftmost one and `c` is the shortest capture (no closing fence starts in it). */
  ghost predicate Decomposes(response: string, open: string, close: string, p: string, c: string, s: string)
  {
    && response == p + open + c + close + s
    && (forall k :: 0 <= k < |p| ==> !OccursAt(response, open, k))
    && (forall k :: |p| + |open| <= k < |p| + |open| + |c| ==> !OccursAt(response, close, k))
  }

  /** Where the expression matches: the leftmost opening fence and the first closing fence after
      it. Once the leftmost opening fence finds no closing fence, no later one can. */
  function Match(response: string, open: string, close: string): (m: Option<(nat, nat)>)
    ensures m.Some? ==> OccursAt(response, open, m.value.0) && m.value.0 + |open| <= m.value.1
                        && OccursAt(response, close, m.value.1)
  {
    match IndexOf(response, open, 0)
    case None => None
    case Some(i) =>
      match IndexOf(response, close, i + |open|)
      case None => None
      case Some(j) => Some((i, j))
  }

  /** The capture of the first match, and the reply with that match removed and trimmed; with no
      match the reply is returned as it is. */
  function Parse(response: string, open: string, close: string): (r: Parsed)
    ensures r.forecastCsv.None? ==> r.forecastText == response
    ensures r.forecastCsv.Some? ==> |r.forecastCsv.value| + |open| + |close| <= |response|
  {
    match Match(response, open, close)
    case None => Parsed(response, None)
    case Some((i, j)) =>
      Parsed(Trim(response[..i] + response[j + |close|..]), Some(response[i + |open|..j]))
  }

  /** `parseGroqResponse`. */
  function ParseGroqResponse(response: string): (r: Parsed)
    ensures r.forecastCsv.None? ==> r.forecastText == response
    ensures r.forecastCsv.Some? ==> |r.forecastCsv.value| + |Open| + |Close| <= |response|
  {
    Parse(response, Open, Close)
  }

  /** No CSV comes back exactly when the reply holds no fenced block, and then the text is the
      reply untouched, not even trimmed. */
  lemma NoBlock(response: string, open: string, close: string)
    ensures Parse(response, open, close).forecastCsv.None? <==> !HasBlock(response, open, close)
    ensures !HasBlock(response, open, close) ==> Parse(response, open, close).forecastText == response
  {
    if HasBlock(response, open, close) {
      var i: nat, j: nat :| OccursAt(response, open, i) && i + |open| <= j && OccursAt(response, close, j);
      BlockFound(response, open, close, i, j);
    }
    var m := Match(response, open, close);
    if m.Some? {
      assert OccursAt(response, open, m.value.0) && OccursAt(response, close, m.value.1);
    }
  }

  /** Any opening fence with a closing fence after it makes the expression match. */
  lemma BlockFound(response: string, open: string, close: string, i: nat, j: nat)
    requires OccursAt(response, open, i) && i + |open| <= j && OccursAt(response, close, j)
    ensures Match(response, open, close).Some?
  {
    var first := IndexOf(response, open, 0);
    assert first.Some? && first.value <= i;
    assert IndexOf(response, close, first.value + |open|).Some?;
  }

  /** A returned CSV block comes from a decomposition of the reply into the text before the
      leftmost opening fence, the shortest capture and the rest; the text is the two outer parts
      joined and trimmed. */
  lemma BlockDecomposition(response: string, open: string, close: string)
    requires Parse(response, open, close).forecastCsv.Some?
    ensures var r := Parse(response, open, close);
            exists p, s :: Decomposes(response, open, close, p, r.forecastCsv.value, s) && r.forecastText == Trim(p + s)
  {
    var (i, j) := Match(response, open, close).value;
    var p := response[..i];
    var c := response[i + |open|..j];
    var s := response[j + |close|..];
    MatchDecomposes(response, open, close, i, j);
    ParseCsv(response, open, close, i, j);
    ParseText(response, open, close, i, j, p + s);
    assert Decomposes(response, open, close, p, c, s) && Parse(response, open, close).forecastText == Trim(p + s);
  }

  lemma MatchDecomposes(response: string, open: string, close: string, i: nat, j: nat)
    requires IsMatch(response, open, close, i, j)
    ensures Decomposes(response, open, close, response[..i], response[i + |open|..j], response[j + |close|..])
  {
    FencesSplit(response, open, close, i, j);
    assert IndexOf(response, open, 0) == Some(i);
    assert IndexOf(response, close, i + |open|) == Some(j);
  }

  lemma FencesSplit(response: string, open: string, close: string, i: nat, j: nat)
    requires OccursAt(response, open, i) && i + |open| <= j && OccursAt(response, close, j)
    ensures response == response[..i] + open + response[i + |open|..j] + close + response[j + |close|..]
  {
    FiveSlices(response, i, i + |open|, j, j + |close|);
  }

  lemma FiveSlices(x: string, a: nat, b: nat, c: nat, d: nat)
    requires a <= b <= c <= d <= |x|
    ensures x == x[..a] + x[a..b] + x[b..c] + x[c..d] + x[d..]
  {
    assert x[..b] == x[..a] + x[a..b];
    assert x[..c] == x[..b] + x[b..c];
    assert x[..d] == x[..c] + x[c..d];
    assert x == x[..d] + x[d..];
  }

  /** Conversely every such decomposition is what the parser finds: the block it names is
      extracted and removed, and nothing after it is touched. */
  lemma DecompositionParses(response: string, open: string, close: string, p: string, c: string, s: string)
    requires Decomposes(response, open, close, p, c, s)
    ensures Parse(response, open, close).forecastCsv.Some? && Parse(response, open, close).forecastCsv.value == c
    ensures Parse(response, open, close).forecastText == Trim(p + s)
  {
    OpenFound(response, open, close, p, c, s);
    CloseFound(response, open, close, p, c, s);
    FivePieces(response, p, open, c, close, s);
    MatchAt(response, open, close, |p|, |p| + |open| + |c|);
    PiecesParse(response, open, close, p, c, s);
  }

  /** The leftmost opening fence of a decomposed reply is the one after `p`. */
  lemma OpenFound(response: string, open: string, close: string, p: string, c: string, s: string)
    requires Decomposes(response, open, close, p, c, s)
    ensures IndexOf(response, open, 0) == Some(|p|)
  {
    FivePieces(response, p, open, c, close, s);
    IndexOfFirst(response, open, 0, |p|);
  }

  /** The first closing fence after it is the one after `c`. */
  lemma CloseFound(response: string, open: string, close: string, p: string, c: string, s: string)
    requires Decomposes(response, open, close, p, c, s)
    ensures IndexOf(response, close, |p| + |open|) == Some(|p| + |open| + |c|)
  {
    FivePieces(response, p, open, c, close, s);
    IndexOfFirst(response, close, |p| + |open|, |p| + |open| + |c|);
  }

  /** The parse of a reply whose fences are found where `p + open + c + close + s` has them. */
  lemma PiecesParse(response: string, open: string, close: string, p: string, c: string, s: string)
    requires |p| + |open| + |c| + |close| <= |response|
    requires response[..|p|] == p && response[|p| + |open|..|p| + |open| + |c|] == c
    requires response[|p| + |open| + |c| + |close|..] == s
    requires IsMatch(response, open, close, |p|, |p| + |open| + |c|)
    ensures Parse(response, open, close).forecastCsv.Some? && Parse(response, open, close).forecastCsv.value == c
    ensures Parse(response, open, close).forecastText == Trim(p + s)
  {
    ParseCsv(response, open, close, |p|, |p| + |open| + |c|);
    ParseText(response, open, close, |p|, |p| + |open| + |c|, p + s);
  }

  /** The expression matches with its fences at `i` and `j`. */
  predicate IsMatch(response: string, open: string, close: string, i: nat, j: nat)
  {
    var m := Match(response, open, close);
    m.Some? && m.value.0 == i && m.value.1 == j
  }

  lemma MatchAt(response: string, open: string, close: string, i: nat, j: nat)
    requires IndexOf(response, open, 0) == Some(i) && IndexOf(response, close, i + |open|) == Some(j)
    ensures IsMatch(response, open, close, i, j)
  {
  }

  /** The capture of a reply whose match is at `i` and `j`. */
  lemma ParseCsv(response: string, open: string, close: string, i: nat, j: nat)
    requires IsMatch(response, open, close, i, j)
    ensures Parse(response, open, close).forecastCsv.Some?
    ensures Parse(response, open, close).forecastCsv.value == response[i + |open|..j]
  {
  }

  /** The text of a reply whose match is at `i` and `j`: the parts either side of it, trimmed. */
  lemma ParseText(response: string, open: string, close: string, i: nat, j: nat, t: string)
    requires IsMatch(response, open, close, i, j)
    requires j + |close| <= |response| && t == response[..i] + response[j + |close|..]
    ensures Parse(response, open, close).forecastText == Trim(t)
  {
    ParseCut(response, open, close, i, j);
  }

  lemma ParseCut(response: string, open: string, close: string, i: nat, j: nat)
    requires IsMatch(response, open, close, i, j)
    ensures j + |close| <= |response|
    ensures Parse(response, open, close).forecastText == Trim(response[..i] + response[j + |close|..])
  {
  }

  /** Where the pieces of `x == p + open + c + close + s` sit. */
  lemma FivePieces(x: string, p: string, open: string, c: string, close: string, s: string)
    requires x == p + open + c + close + s
    ensures var j := |p| + |open| + |c|;
            && OccursAt(x, open, |p|) && OccursAt(x, close, j)
            && x[..|p|] == p && x[|p| + |open|..j] == c && x[j + |close|..] == s
  {
    var j := |p| + |open| + |c|;
    assert x[|p|..|p| + |open|] == open;
    assert x[j..j + |close|] == close;
  }

  ghost predicate Contains(s: string, pat: string)
  {
    exists k: nat :: OccursAt(s, pat, k)
  }

  /** Only the first block is taken out: a second fenced block after it stays in the text. */
  lemma LaterBlockKept(response: string, p: string, c: string, s1: string, c2: string, s2: string)
    requires Decomposes(response, Open, Close, p, c, s1 + Open + c2 + Close + s2)
    ensures Contains(ParseGroqResponse(response).forecastText, Open + c2 + Close)
  {
    DecompositionParses(response, Open, Close, p, c, s1 + Open + c2 + Close + s2);
    TrimKeepsBlock(p, s1, c2, s2);
  }

  lemma TrimKeepsBlock(p: string, s1: string, c2: string, s2: string)
    ensures Contains(Trim(p + (s1 + Open + c2 + Close + s2)), Open + c2 + Close)
  {
    var block := Open + c2 + Close;
    Regroup(p, s1, c2, s2);
    FenceEdges(c2);
    TrimKeepsInner(p + s1, block, s2);
    var k := |p + s1| - TrimOffset(p + s1 + block + s2);
    assert OccursAt(Trim(p + s1 + block + s2), block, k);
  }

  lemma Regroup(p: string, s1: string, c2: string, s2: string)
    ensures p + (s1 + Open + c2 + Close + s2) == (p + s1) + (Open + c2 + Close) + s2
  {
  }

  lemma FenceEdges(c2: string)
    ensures var block := Open + c2 + Close;
            block != [] && !IsSpace(block[0]) && !IsSpace(block[|block| - 1])
  {
    var block := Open + c2 + Close;
    assert block[0] == Open[0] == '`';
    assert block[|block| - 1] == Close[3] == '`';
  }

  // ---------------------------------------------------------------------------
  // generateSystemPrompt

  /** The columns the prompt asks the model to emit, in order. */
  const SchemaColumns: seq<string> := ["date", "product", "predicted_quantity", "confidence_level"]

  /** The header line of the CSV sample in the prompt. */
  const SchemaLine: string := Join(SchemaColumns, ",")

  const PromptHead: string :=
    "You are an AI inventory forecasting assistant. Your task is to analyze inventory data and provide accurate forecasts.\n"
    + "  \n"
    + "Please follow these guidelines:\n"
    + "1. Analyze the provided data carefully\n"
    + "2. Consider seasonal trends and patterns\n"
    + "3. Provide a clear, concise forecast summary\n"
    + "4. Include specific numbers and predictions\n"
    + "5. If appropriate, generate a CSV forecast with future predictions in the following format:\n"
    + "   ```csv\n"

  const PromptTail: string :=
    "\n   2023-08-01,ProductA,120,high\n"
    + "   2023-08-02,ProductA,125,high\n"
    + "   ...\n"
    + "   ```"

  /** `basePrompt`. */
  const BasePrompt: string := PromptHead + "   " + SchemaLine + PromptTail

  /** The blank-looking line every type-specific part opens with. */
  const SuffixLead: string := "\n      \n"

  /** The words every type-specific part starts with after its lead. */
  const Receive: string := "You will receive "

  const CsvSuffix: string := SuffixLead + Receive + CsvTask
  const CsvTask: string :=
    "CSV data with inventory information. Parse this data and generate both a text summary and a CSV forecast.\n"
    + "The forecast should include predictions for the next 7-30 days depending on the data provided."

  const TextSuffix: string := SuffixLead + Receive + TextTask
  const TextTask: string :=
    "a text description of inventory data. Extract the relevant information and generate a forecast based on this description.\n"
    + "Be sure to identify product names, quantities, and time periods from the text."

  const AutomatedSuffix: string := SuffixLead + Receive + AutomatedTask
  const AutomatedTask: string :=
    "aggregated sales data for a product over time. Analyze this historical data and predict future trends.\n"
    + "Focus on identifying patterns, seasonality, and growth/decline trends."

  /** What `generateSystemPrompt` appends for a type: nothing for an unknown one. */
  function Suffix(forecastType: string): string
  {
    if forecastType == "csv" then CsvSuffix
    else if forecastType == "text" then TextSuffix
    else if forecastType == "automated" then AutomatedSuffix
    else ""
  }

  predicate IsKnownType(forecastType: string)
  {
    forecastType == "csv" || forecastType == "text" || forecastType == "automated"
  }

  /** `generateSystemPrompt`: the switch over the forecast type. */
  function SystemPrompt(forecastType: string): (r: string)
    ensures BasePrompt <= r
    ensures !IsKnownType(forecastType) ==> r == BasePrompt
    ensures IsKnownType(forecastType) ==> |r| > |BasePrompt|
  {
    BasePrompt + Suffix(forecastType)
  }

  /** The advertised schema has the four columns the normalizer's flush rule counts. */
  lemma SchemaHasFourColumns()
    ensures Split(SchemaLine, ',') == SchemaColumns
    ensures |Split(SchemaLine, ',')| == 4
  {
    forall k | 0 <= k < |SchemaColumns|
      ensures ',' !in SchemaColumns[k]
    {
    }
    SplitJoin(SchemaColumns, ',');
  }
}
